/** The trust-gated DHT: XOR-metric buckets of at most 20 peers, admitted by reputation.

    The hash is any function from DIDs to 32 bytes; the reputation score a call reads is a parameter. */
module Dht {
  import opened Arithmetic
  import opened Bytes
  import opened Wrappers

  const K_BUCKET_SIZE := 20
  const BUCKETS := 256
  const HASH_LEN := 32

  type Did = string
  type Hash = h: seq<Byte> | |h| == HASH_LEN witness Zeros(HASH_LEN)

  datatype PeerRecord = PeerRecord(did: Did, address: string, xorDistance: Hash)

  // ---------- distance and bucket ----------

  /** Leading zero bits of a byte. */
  function LeadingZeros(x: Byte): (n: nat)
    ensures n <= 8
  {
    if x == 0 then 8
    else
      ByteLog(x);
      7 - Log2(x)
  }

  lemma ByteLog(x: Byte)
    requires x > 0
    ensures Log2(x) <= 7
  {
    EightBits();
    if Log2(x) >= 8 { Pow2Monotone(8, Log2(x)); }
  }

  /** Leading zero bits of a byte string. */
  function LeadingZeroBits(s: seq<Byte>): (n: nat)
    ensures n <= 8 * |s|
  {
    if s == [] then 0
    else if s[0] == 0 then 8 + LeadingZeroBits(s[1..])
    else LeadingZeros(s[0])
  }

  predicate AllZero(s: seq<Byte>) { forall i :: 0 <= i < |s| ==> s[i] == 0 }

  lemma {:induction false} LeadingZeroBitsSnoc(s: seq<Byte>, x: Byte)
    ensures LeadingZeroBits(s + [x]) == LeadingZeroBits(s) + if AllZero(s) then LeadingZeros(x) else 0
    decreases |s|
  {
    if s == [] {
      assert s + [x] == [x];
    } else {
      assert (s + [x])[1..] == s[1..] + [x];
      LeadingZeroBitsSnoc(s[1..], x);
      assert AllZero(s) <==> s[0] == 0 && AllZero(s[1..]) by {
        if s[0] == 0 && AllZero(s[1..]) { forall i | 0 <= i < |s| ensures s[i] == 0 { if i > 0 { assert s[1..][i - 1] == 0; } } }
        if AllZero(s) { assert forall i :: 0 <= i < |s[1..]| ==> s[1..][i] == s[i + 1]; }
      }
    }
  }

  /** The highest one bit of `n` is bit `b`. */
  predicate HighestBit(n: nat, b: int) { b >= 0 && Pow2(b) <= n < Pow2(b + 1) }

  /** Read as a big-endian number, a string that is not all zeros has its highest one bit just below its
      leading zeros. */
  lemma {:induction false} LeadingZerosNumeric(s: seq<Byte>)
    ensures BigEndian(s) == 0 <==> LeadingZeroBits(s) == 8 * |s|
    ensures BigEndian(s) > 0 ==> HighestBit(BigEndian(s), 8 * |s| - LeadingZeroBits(s) - 1)
    decreases |s|
  {
    if s != [] {
      var k, rest := 8 * (|s| - 1), BigEndian(s[1..]);
      LeadingZerosNumeric(s[1..]);
      BigEndianBound(s[1..]);
      assert BigEndian(s) == Word(s[0], rest, k);
      if s[0] != 0 {
        ByteLog(s[0]);
        Log2IsHighest(s[0]);
        WordLog(s[0], rest, k, Log2(s[0]));
        assert LeadingZeroBits(s) == 7 - Log2(s[0]);
        hide *;
      } else {
        assert Word(0, rest, k) == rest;
        assert LeadingZeroBits(s) == 8 + LeadingZeroBits(s[1..]);
        hide *;
      }
    }
  }

  /** The highest one bit of a word is that of its high part. */
  lemma WordLog(a: nat, x: nat, k: nat, l: nat)
    requires HighestBit(a, l) && x < Pow2(k)
    ensures Word(a, x, k) > 0 && HighestBit(Word(a, x, k), l + k)
  {
    WordAtLeast(a, x, k, l);
    WordBelow(a, x, k, l + 1);
    hide Pow2, Word;
    assert (l + 1) + k == (l + k) + 1;
  }

  lemma Log2IsHighest(a: nat)
    requires a > 0
    ensures HighestBit(a, Log2(a))
  {
  }

  lemma WordAtLeast(a: nat, x: nat, k: nat, j: nat)
    requires Pow2(j) <= a
    ensures Pow2(j + k) <= Word(a, x, k)
  {
    hide Pow2;
    Pow2Add(j, k);
    ProductMonotone(Pow2(j), a, Pow2(k));
  }

  lemma WordBelow(a: nat, x: nat, k: nat, j: nat)
    requires a < Pow2(j) && x < Pow2(k)
    ensures Word(a, x, k) < Pow2(j + k)
  {
    hide Pow2;
    Pow2Add(j, k);
    WordBound(a, x, Pow2(k), Pow2(j));
  }

  /** The bucket of a distance, as computed: 255 minus the leading zeros, which count for at most 255. */
  function BucketIndex(distance: Hash): (b: nat)
    ensures b < BUCKETS
  {
    var z := LeadingZeroBits(distance);
    255 - if z < 255 then z else 255
  }

  /** Where a distance belongs: bucket b > 0 holds 2^b <= d < 2^(b+1), bucket 0 holds d <= 1. */
  ghost predicate Belongs(d: nat, b: nat) { if b == 0 then d <= 1 else Pow2(b) <= d < Pow2(b + 1) }

  lemma BucketIsLog(distance: Hash)
    ensures Belongs(BigEndian(distance), BucketIndex(distance))
  {
    LeadingZerosNumeric(distance);
  }

  /** A distance belongs to one bucket only. */
  lemma BelongsToOne(d: nat, a: nat, b: nat)
    requires Belongs(d, a) && Belongs(d, b)
    ensures a == b
  {
    if a < b { Pow2Monotone(a + 1, b); } else if b < a { Pow2Monotone(b + 1, a); }
    assert Pow2(1) == 2;
  }

  // ---------- the table ----------

  type Table = seq<seq<PeerRecord>>

  datatype Gate = Rejected

  function EmptyTable(): Table { seq(BUCKETS, _ => []) }

  /** The first record of a DID in its bucket; the bucket's length if there is none. */
  function FindDid(bucket: seq<PeerRecord>, did: Did): (i: nat)
    ensures i <= |bucket| && (i < |bucket| ==> bucket[i].did == did)
    ensures forall j :: 0 <= j < i ==> bucket[j].did != did
  {
    if bucket == [] || bucket[0].did == did then 0 else 1 + FindDid(bucket[1..], did)
  }

  /** The network a table belongs to: the local hash and the hash function. */
  datatype Net = Net(local: Hash, hash: Did -> Hash) {
    function Distance(did: Did): Hash { XorBytes(local, hash(did)) }
    function BucketOf(did: Did): (b: nat) ensures b < BUCKETS { BucketIndex(Distance(did)) }
  }

  datatype Attempt = Attempt(did: Did, address: string, score: real) {
    predicate Gated() { score >= 0.7 }
  }

  function Insert(net: Net, t: Table, a: Attempt): (Table, Result<bool, Gate>)
    requires |t| == BUCKETS
  {
    if !a.Gated() then (t, Err(Rejected))
    else
      var b := net.BucketOf(a.did);
      var i := FindDid(t[b], a.did);
      if i < |t[b]| then (t[b := t[b][i := t[b][i].(address := a.address)]], Ok(true))
      else if |t[b]| < K_BUCKET_SIZE then
        (t[b := t[b] + [PeerRecord(a.did, a.address, net.Distance(a.did))]], Ok(true))
      else (t, Ok(false))
  }

  /** What an attempt whose DID belongs in bucket `b` answers and does: an error exactly for a score below 0.7; false
      exactly for a DID that a bucket of 20 does not hold; true otherwise, and then the bucket holds the DID with the
      new address. Nothing else in the table changes. */
  ghost predicate Answers(t: Table, a: Attempt, b: nat, u: Table, r: Result<bool, Gate>)
    requires |t| == |u| == 256 && b < 256
  {
    && (r == Err(Rejected) <==> a.score < 0.7)
    && (r == Ok(false) <==> a.score >= 0.7 && !Holds(t[b], a.did) && |t[b]| >= 20)
    && (r == Ok(true) <==> a.score >= 0.7 && (Holds(t[b], a.did) || |t[b]| < 20))
    && (r != Ok(true) ==> u == t)
    && (r == Ok(true) ==> exists p :: p in u[b] && p.did == a.did && p.address == a.address)
    && forall c :: 0 <= c < 256 && c != b ==> u[c] == t[c]
  }

  ghost predicate Holds(bucket: seq<PeerRecord>, did: Did) { exists p :: p in bucket && p.did == did }

  lemma InsertAnswers(net: Net, t: Table, a: Attempt, b: nat)
    requires |t| == 256 && b < 256 && Belongs(Xor(BigEndian(net.local), BigEndian(net.hash(a.did))), b)
    ensures var (u, r) := Insert(net, t, a); |u| == 256 && Answers(t, a, b, u, r)
  {
    BigEndianXor(net.local, net.hash(a.did));
    BucketIsLog(net.Distance(a.did));
    BelongsToOne(Xor(BigEndian(net.local), BigEndian(net.hash(a.did))), b, net.BucketOf(a.did));
    hide Xor, BigEndian, Belongs, BucketIndex, Answers;
    AnswersInBucket(net, t, a);
  }

  lemma AnswersInBucket(net: Net, t: Table, a: Attempt)
    requires |t| == 256
    ensures var (u, r) := Insert(net, t, a); |u| == 256 && Answers(t, a, net.BucketOf(a.did), u, r)
  {
    hide Net.BucketOf, Net.Distance;
    var b := net.BucketOf(a.did);
    var i: nat, u: Table := FindDid(t[b], a.did), Insert(net, t, a).0;
    FindDidHolds(t[b], a.did);
    if a.Gated() {
      if i < |t[b]| {
        assert u[b][i] in u[b];
      } else if |t[b]| < K_BUCKET_SIZE {
        assert u[b][|t[b]|] in u[b];
      }
    }
  }

  lemma FindDidHolds(bucket: seq<PeerRecord>, did: Did)
    ensures FindDid(bucket, did) < |bucket| <==> Holds(bucket, did)
  {
    if FindDid(bucket, did) < |bucket| { assert bucket[FindDid(bucket, did)] in bucket; }
  }

  function Run(net: Net, attempts: seq<Attempt>): (t: Table)
    ensures |t| == BUCKETS
  {
    if attempts == [] then EmptyTable()
    else Insert(net, Run(net, attempts[..|attempts| - 1]), attempts[|attempts| - 1]).0
  }

  // ---------- what a table holds after a run ----------

  function Dids(bucket: seq<PeerRecord>): (ds: seq<Did>)
    ensures |ds| == |bucket|
  {
    seq(|bucket|, i requires 0 <= i < |bucket| => bucket[i].did)
  }

  /** The distinct DIDs of bucket `b` that passed the gate, in order of their first passing. */
  function Candidates(net: Net, attempts: seq<Attempt>, b: nat): seq<Did> {
    if attempts == [] then []
    else
      var before, a := Candidates(net, attempts[..|attempts| - 1], b), attempts[|attempts| - 1];
      if a.Gated() && net.BucketOf(a.did) == b && a.did !in before then before + [a.did] else before
  }

  /** The address of the last attempt of a DID that passed the gate. */
  function LastAddress(attempts: seq<Attempt>, did: Did): Option<string> {
    if attempts == [] then None
    else
      var a := attempts[|attempts| - 1];
      if a.Gated() && a.did == did then Some(a.address) else LastAddress(attempts[..|attempts| - 1], did)
  }

  function Take<T>(s: seq<T>, n: nat): seq<T> { if n <= |s| then s[..n] else s }

  /** Bucket `b` holds the first 20 candidates, in order, each with its distance and its last address. */
  ghost predicate BucketExact(net: Net, bucket: seq<PeerRecord>, attempts: seq<Attempt>, b: nat) {
    && Dids(bucket) == Take(Candidates(net, attempts, b), K_BUCKET_SIZE)
    && (forall r :: r in bucket ==> Faithful(net, r, attempts, b))
  }

  ghost predicate Faithful(net: Net, r: PeerRecord, attempts: seq<Attempt>, b: nat) {
    r.xorDistance == net.Distance(r.did) && net.BucketOf(r.did) == b && LastAddress(attempts, r.did) == Some(r.address)
  }

  ghost predicate Distinct(ds: seq<Did>) { forall i, j :: 0 <= i < j < |ds| ==> ds[i] != ds[j] }

  lemma {:induction false} CandidatesDistinct(net: Net, attempts: seq<Attempt>, b: nat)
    ensures Distinct(Candidates(net, attempts, b))
    decreases |attempts|
  {
    if attempts != [] {
      CandidatesDistinct(net, attempts[..|attempts| - 1], b);
      var before := Candidates(net, attempts[..|attempts| - 1], b);
      assert forall i :: 0 <= i < |before| ==> before[i] in before;
    }
  }

  /** A bucket lists a prefix of its candidates, so its DIDs are distinct. */
  lemma DidsAreCandidates(net: Net, bucket: seq<PeerRecord>, attempts: seq<Attempt>, b: nat)
    requires BucketExact(net, bucket, attempts, b)
    ensures |bucket| <= |Candidates(net, attempts, b)| && |bucket| <= K_BUCKET_SIZE
    ensures forall j :: 0 <= j < |bucket| ==> bucket[j].did == Candidates(net, attempts, b)[j]
    ensures forall i, j :: 0 <= i < j < |bucket| ==> bucket[i].did != bucket[j].did
  {
    var c := Candidates(net, attempts, b);
    CandidatesDistinct(net, attempts, b);
    forall j | 0 <= j < |bucket| ensures bucket[j].did == c[j] { assert Dids(bucket)[j] == Take(c, K_BUCKET_SIZE)[j]; }
    forall i, j | 0 <= i < j < |bucket| ensures bucket[i].did != bucket[j].did { assert c[i] != c[j]; }
  }

  lemma {:induction false} CandidatesGated(net: Net, attempts: seq<Attempt>, b: nat, did: Did)
    requires did in Candidates(net, attempts, b)
    ensures exists a :: a in attempts && a.did == did && a.Gated()
    decreases |attempts|
  {
    var before, a := Candidates(net, attempts[..|attempts| - 1], b), attempts[|attempts| - 1];
    assert a in attempts;
    if did in before { CandidatesGated(net, attempts[..|attempts| - 1], b, did); }
  }

  lemma FindDidMember(bucket: seq<PeerRecord>, did: Did)
    ensures FindDid(bucket, did) < |bucket| <==> did in Dids(bucket)
  {
    if FindDid(bucket, did) < |bucket| { assert Dids(bucket)[FindDid(bucket, did)] == did; }
  }

  /** One attempt keeps one bucket exact. */
  lemma BucketStep(net: Net, t: Table, attempts: seq<Attempt>, a: Attempt, b: nat)
    requires |t| == BUCKETS && b < BUCKETS && BucketExact(net, t[b], attempts, b)
    ensures BucketExact(net, Insert(net, t, a).0[b], attempts + [a], b)
  {
    assert (attempts + [a])[..|attempts|] == attempts;
    if a.Gated() && net.BucketOf(a.did) == b {
      FindDidMember(t[b], a.did);
      var i := FindDid(t[b], a.did);
      if i < |t[b]| {
        UpdatedAddress(net, t[b], attempts, a, b, i);
      } else {
        NewDid(net, t[b], attempts, a, b);
      }
    } else {
      OtherBucket(net, t[b], attempts, a, b);
    }
  }

  /** Rejected attempts and attempts for other buckets change nothing here. */
  lemma OtherBucket(net: Net, bucket: seq<PeerRecord>, attempts: seq<Attempt>, a: Attempt, b: nat)
    requires BucketExact(net, bucket, attempts, b) && !(a.Gated() && net.BucketOf(a.did) == b)
    ensures BucketExact(net, bucket, attempts + [a], b)
  {
    assert (attempts + [a])[..|attempts|] == attempts;
  }

  /** A DID new to the bucket joins it if there is room; a full bucket keeps its first 20. */
  lemma NewDid(net: Net, bucket: seq<PeerRecord>, attempts: seq<Attempt>, a: Attempt, b: nat)
    requires BucketExact(net, bucket, attempts, b) && a.Gated() && net.BucketOf(a.did) == b
    requires a.did !in Dids(bucket)
    ensures BucketExact(net, if |bucket| < K_BUCKET_SIZE then bucket + [PeerRecord(a.did, a.address, net.Distance(a.did))] else bucket,
                        attempts + [a], b)
  {
    var joins := PeerRecord(a.did, a.address, net.Distance(a.did));
    Latest(net, attempts, a, b);
    NewCandidate(Candidates(net, attempts, b), a.did, K_BUCKET_SIZE);
    RecordsStay(net, bucket, attempts, a, b);
    assert Dids(bucket + [joins]) == Dids(bucket) + [a.did];
    hide Net.BucketOf, Net.Distance, Candidates, LastAddress, Attempt.Gated, Take, Dids, Faithful;
    if |bucket| < K_BUCKET_SIZE {
      assert BucketExact(net, bucket + [joins], attempts + [a], b);
    } else {
      assert BucketExact(net, bucket, attempts + [a], b);
    }
  }

  /** Neither the records already there nor the one that may join lose their address. */
  lemma RecordsStay(net: Net, bucket: seq<PeerRecord>, attempts: seq<Attempt>, a: Attempt, b: nat)
    requires a.Gated() && net.BucketOf(a.did) == b && a.did !in Dids(bucket)
    requires forall r :: r in bucket ==> Faithful(net, r, attempts, b)
    ensures forall r :: r in bucket ==> Faithful(net, r, attempts + [a], b)
    ensures Faithful(net, PeerRecord(a.did, a.address, net.Distance(a.did)), attempts + [a], b)
  {
    Latest(net, attempts, a, b);
    MemberDid(bucket);
    hide Net.BucketOf, Net.Distance, Candidates, LastAddress, Attempt.Gated, Dids;
  }

  lemma NewCandidate(ds: seq<Did>, x: Did, n: nat)
    requires x !in Take(ds, n)
    ensures Take(if x in ds then ds else ds + [x], n) == if |Take(ds, n)| < n then Take(ds, n) + [x] else Take(ds, n)
  {
  }

  /** What the last attempt adds to the two summaries of a history. */
  lemma Latest(net: Net, attempts: seq<Attempt>, a: Attempt, b: nat)
    requires a.Gated() && net.BucketOf(a.did) == b
    ensures var before := Candidates(net, attempts, b);
            Candidates(net, attempts + [a], b) == if a.did in before then before else before + [a.did]
    ensures forall did ::
              LastAddress(attempts + [a], did) == if did == a.did then Some(a.address) else LastAddress(attempts, did)
  {
    assert (attempts + [a])[..|attempts|] == attempts;
  }

  lemma MemberDid(bucket: seq<PeerRecord>)
    ensures forall r :: r in bucket ==> r.did in Dids(bucket)
  {
    forall r | r in bucket ensures r.did in Dids(bucket) {
      var i :| 0 <= i < |bucket| && bucket[i] == r;
      assert Dids(bucket)[i] == r.did;
    }
  }

  lemma UpdatedAddress(net: Net, bucket: seq<PeerRecord>, attempts: seq<Attempt>, a: Attempt, b: nat, i: nat)
    requires BucketExact(net, bucket, attempts, b) && a.Gated() && net.BucketOf(a.did) == b
    requires i < |bucket| && bucket[i].did == a.did
    ensures BucketExact(net, bucket[i := bucket[i].(address := a.address)], attempts + [a], b)
  {
    assert (attempts + [a])[..|attempts|] == attempts;
    var after := bucket[i := bucket[i].(address := a.address)];
    assert Dids(after) == Dids(bucket);
    DidsAreCandidates(net, bucket, attempts, b);
    assert a.did == Candidates(net, attempts, b)[i];
    forall r | r in after
      ensures r.xorDistance == net.Distance(r.did) && net.BucketOf(r.did) == b
      ensures LastAddress(attempts + [a], r.did) == Some(r.address)
    {
      var j :| 0 <= j < |after| && after[j] == r;
      assert bucket[j] in bucket;
    }
  }

  /** After any run of attempts, every bucket is exact. */
  lemma {:induction false} TableExact(net: Net, attempts: seq<Attempt>, b: nat)
    requires b < BUCKETS
    ensures BucketExact(net, Run(net, attempts)[b], attempts, b)
    decreases |attempts|
  {
    if attempts != [] {
      var front, a := attempts[..|attempts| - 1], attempts[|attempts| - 1];
      TableExact(net, front, b);
      BucketStep(net, Run(net, front), front, a, b);
      assert front + [a] == attempts;
    }
  }

  /** The table invariant: after any run, a record of bucket b has a distance that belongs there, read as a
      256-bit big-endian number; no bucket exceeds 20; no DID appears twice; every record passed the gate. */
  lemma TableInvariant(net: Net, attempts: seq<Attempt>, b: nat, i: nat)
    requires b < BUCKETS && i < |Run(net, attempts)[b]|
    ensures var t := Run(net, attempts);
            var r := t[b][i];
            && Belongs(Xor(BigEndian(net.local), BigEndian(net.hash(r.did))), b)
            && BigEndian(r.xorDistance) == Xor(BigEndian(net.local), BigEndian(net.hash(r.did)))
            && |t[b]| <= 20
            && (exists a :: a in attempts && a.did == r.did && a.score >= 0.7)
            && (forall c, j :: 0 <= c < BUCKETS && 0 <= j < |t[c]| && t[c][j].did == r.did ==> c == b && j == i)
  {
    hide Run, Candidates, Take, LastAddress, BucketIndex, Xor;
    var t: Table := Run(net, attempts);
    var r: PeerRecord := t[b][i];
    TableExact(net, attempts, b);
    assert r in t[b];
    BigEndianXor(net.local, net.hash(r.did));
    BucketIsLog(net.Distance(r.did));
    BucketFacts(net, attempts, b, i);
    forall c, j | 0 <= c < BUCKETS && 0 <= j < |t[c]| && t[c][j].did == r.did ensures c == b && j == i {
      TableExact(net, attempts, c);
      assert t[c][j] in t[c];
      BucketFacts(net, attempts, b, j);
    }
  }

  /** Within a bucket: its size, the gate, and distinctness. */
  lemma BucketFacts(net: Net, attempts: seq<Attempt>, b: nat, i: nat)
    requires b < BUCKETS && i < |Run(net, attempts)[b]|
    ensures var bucket := Run(net, attempts)[b];
            && |bucket| <= K_BUCKET_SIZE
            && (exists a :: a in attempts && a.did == bucket[i].did && a.Gated())
            && (forall j :: 0 <= j < |bucket| && bucket[j].did == bucket[i].did ==> j == i)
  {
    hide Run, LastAddress;
    TableExact(net, attempts, b);
    DidsAreCandidates(net, Run(net, attempts)[b], attempts, b);
    hide BucketExact;
    CandidatesGated(net, attempts, b, Candidates(net, attempts, b)[i]);
  }

  // ---------- the code ----------

  class TrustGatedDht {
    const net: Net
    const buckets: array<seq<PeerRecord>>

    ghost predicate Valid() { buckets.Length == BUCKETS }

    constructor (net: Net)
      ensures Valid() && fresh(buckets) && this.net == net && buckets[..] == EmptyTable()
    {
      this.net := net;
      buckets := new seq<PeerRecord>[BUCKETS](_ => []);
      new;
      assert buckets[..] == EmptyTable();
    }

    /** `xor_distance`: one pass over the bytes, counting leading zeros until the first byte that is not zero. */
    method XorDistance(did: Did) returns (distance: Hash, bucketIndex: nat)
      ensures distance == net.Distance(did) && bucketIndex == net.BucketOf(did)
    {
      var target := net.hash(did);
      distance := Zeros(HASH_LEN);
      var leadingZeros := 0;
      var foundOne := false;
      for i := 0 to HASH_LEN
        invariant forall j :: 0 <= j < i ==> distance[j] == XorByte(net.local[j], target[j])
        invariant foundOne <==> !AllZero(distance[..i])
        invariant leadingZeros == LeadingZeroBits(distance[..i])
      {
        ghost var sofar := distance[..i];
        distance := distance[i := XorByte(net.local[i], target[i])];
        assert distance[..i + 1] == sofar + [distance[i]];
        LeadingZeroBitsSnoc(sofar, distance[i]);
        AllZeroSnoc(sofar, distance[i]);
        if !foundOne {
          if distance[i] == 0 {
            leadingZeros := leadingZeros + 8;
          } else {
            leadingZeros := leadingZeros + LeadingZeros(distance[i]);
            foundOne := true;
          }
        }
      }
      assert distance[..HASH_LEN] == distance;
      assert distance == net.Distance(did);
      bucketIndex := 255 - if leadingZeros < 255 then leadingZeros else 255;
    }

    /** `attempt_insert_node`, with the score it reads from the reputation manager. */
    method AttemptInsertNode(did: Did, address: string, score: real) returns (r: Result<bool, Gate>)
      requires Valid()
      modifies buckets
      ensures (buckets[..], r) == Insert(net, old(buckets[..]), Attempt(did, address, score))
    {
      if score < 0.7 {
        return Err(Rejected);
      }
      var distance, b := XorDistance(did);
      var bucket := buckets[b];
      var i := 0;
      while i < |bucket|
        invariant i <= |bucket| && forall j :: 0 <= j < i ==> bucket[j].did != did
      {
        if bucket[i].did == did {
          FindDidIs(bucket, did, i);
          buckets[b] := bucket[i := bucket[i].(address := address)];
          return Ok(true);
        }
        i := i + 1;
      }
      FindDidIs(bucket, did, i);
      if |bucket| < K_BUCKET_SIZE {
        buckets[b] := bucket + [PeerRecord(did, address, distance)];
        return Ok(true);
      }
      r := Ok(false);
    }
  }

  lemma AllZeroSnoc(s: seq<Byte>, x: Byte)
    ensures AllZero(s + [x]) <==> AllZero(s) && x == 0
  {
    assert (s + [x])[|s|] == x;
    assert forall i :: 0 <= i < |s| ==> (s + [x])[i] == s[i];
  }

  lemma {:induction false} FindDidIs(bucket: seq<PeerRecord>, did: Did, i: nat)
    requires i <= |bucket| && (i < |bucket| ==> bucket[i].did == did)
    requires forall j :: 0 <= j < i ==> bucket[j].did != did
    ensures FindDid(bucket, did) == i
    decreases i
  {
    if i > 0 { FindDidIs(bucket[1..], did, i - 1); }
  }
}
