/** The sovereign stream: chunks of at most 64 KB, each sealed under its index.

    The 64-bit index wraps. Authenticity is a hypothesis about the cipher alone: what opens, under some nonce
    and associated data, was sealed under just these. That a ciphertext opens only in its own stream and at
    its own index is then a theorem about the nonces and the associated data that the stream derives. */
module Stream {
  import opened Arithmetic
  import opened Bytes
  import opened Wrappers
  import opened Aeads

  const CHUNK_SIZE := 65536
  const U64 := 0x1_0000_0000_0000_0000
  const ID_LEN := 32

  datatype Error = TooLarge | Rejected

  // ---------- nonces ----------

  function Nonce(index: nat): seq<Byte> { Zeros(4) + ToBigEndian(index, 8) }

  function Aad(streamId: seq<Byte>, index: nat): seq<Byte> { streamId + ToBigEndian(index, 8) }

  lemma SixtyFourBits()
    ensures Pow2(64) == U64
  {
    EightBits();
    hide Pow2;
    Pow2Add(8, 8);
    assert Pow2(16) == 0x1_0000;
    Pow2Add(16, 16);
    assert Pow2(32) == 0x1_0000_0000;
    Pow2Add(32, 32);
  }

  /** The nonce is the index as a 96-bit big-endian number. */
  lemma NonceIsIndex(i: nat)
    requires i < U64
    ensures |Nonce(i)| == 12 && BigEndian(Nonce(i)) == i
  {
    SixtyFourBits();
    BigEndianRoundTrip(i, 8);
    var s := ToBigEndian(i, 8);
    BigEndianZero(s);
    BigEndianZero([0] + s);
    BigEndianZero([0] + ([0] + s));
    BigEndianZero([0] + ([0] + ([0] + s)));
    assert Nonce(i) == [0] + ([0] + ([0] + ([0] + s)));
  }

  /** The associated data is the 32-byte stream id followed by the index as a 64-bit big-endian number. */
  lemma AadIsIdAndIndex(id: seq<Byte>, i: nat)
    requires |id| == 32 && i < U64
    ensures |Aad(id, i)| == 40 && Aad(id, i)[..32] == id && BigEndian(Aad(id, i)[32..]) == i
  {
    SixtyFourBits();
    BigEndianRoundTrip(i, 8);
    assert Aad(id, i)[32..] == ToBigEndian(i, 8);
  }

  lemma NonceInjective(i: nat, j: nat)
    requires i < U64 && j < U64 && Nonce(i) == Nonce(j)
    ensures i == j
  {
    SixtyFourBits();
    assert Nonce(i)[4..] == ToBigEndian(i, 8) && Nonce(j)[4..] == ToBigEndian(j, 8);
    ToBigEndianInjective(i, j, 8);
  }

  /** In a stream that is not reset, the calls numbered m and n use the same nonce exactly when they are a
      multiple of 2^64 calls apart. */
  lemma NonceRepeatsIff(m: nat, n: nat)
    ensures Nonce(m % U64) == Nonce(n % U64) <==> (m - n) % U64 == 0
  {
    hide Nonce;
    if Nonce(m % U64) == Nonce(n % U64) { NonceInjective(m % U64, n % U64); }
  }

  // ---------- sealing and opening, as functions ----------

  function SealAt(aead: Aead, key: seq<Byte>, id: seq<Byte>, index: nat, chunk: seq<Byte>): seq<Byte> {
    aead.seal(key, Nonce(index), Aad(id, index), chunk)
  }

  function OpenAt(aead: Aead, key: seq<Byte>, id: seq<Byte>, index: nat, ct: seq<Byte>): Option<seq<Byte>> {
    aead.open(key, Nonce(index), Aad(id, index), ct)
  }

  /** The ciphertexts of chunks sealed in order from an index. */
  function SealAll(aead: Aead, key: seq<Byte>, id: seq<Byte>, start: nat, chunks: seq<seq<Byte>>): (cts: seq<seq<Byte>>)
    ensures |cts| == |chunks|
  {
    seq(|chunks|, i requires 0 <= i < |chunks| => SealAt(aead, key, id, (start + i) % U64, chunks[i]))
  }

  /** The index of a decryptor after a list of ciphertexts, and the plaintexts it accepted. */
  function Feed(aead: Aead, key: seq<Byte>, id: seq<Byte>, start: nat, cts: seq<seq<Byte>>): (r: (nat, seq<seq<Byte>>))
    requires start < U64
    ensures r.0 < U64
  {
    if cts == [] then (start, [])
    else
      var (index, accepted) := Feed(aead, key, id, start, cts[..|cts| - 1]);
      match OpenAt(aead, key, id, index, cts[|cts| - 1])
      case Some(m) => ((index + 1) % U64, accepted + [m])
      case None => (index, accepted)
  }

  // ---------- prefix safety ----------

  /** One use of the key: the stream, the index and the chunk that were sealed. */
  datatype Sealed = Sealed(id: seq<Byte>, index: nat, msg: seq<Byte>)

  /** None of the ciphertexts is a forgery under the key: under any nonce and any associated data, one opens
      only if it was sealed under these. `log` is everything sealed under the key, in every stream. */
  ghost predicate Authentic(aead: Aead, key: seq<Byte>, log: seq<Sealed>, cts: seq<seq<Byte>>) {
    forall n, a, c :: c in cts && aead.open(key, n, a, c).Some? ==>
      exists e :: e in log && n == Nonce(e.index) && a == Aad(e.id, e.index) && c == aead.seal(key, n, a, e.msg)
  }

  /** What the log holds of the stream `id`: the chunks, each under its index; other streams are arbitrary. */
  ghost predicate SentBy(log: seq<Sealed>, id: seq<Byte>, chunks: seq<seq<Byte>>) {
    forall e :: e in log ==>
      && |e.id| == ID_LEN && e.index < U64
      && (e.id == id ==> exists i: nat :: i < |chunks| && e.index == i % U64 && e.msg == chunks[i])
  }

  /** Every ciphertext opens at most where the sender sealed it. */
  ghost predicate BoundToIndex(aead: Aead, key: seq<Byte>, id: seq<Byte>, chunks: seq<seq<Byte>>, cts: seq<seq<Byte>>) {
    forall c, i: nat :: c in cts && i < U64 && OpenAt(aead, key, id, i, c).Some? ==>
      i < |chunks| && c == SealAt(aead, key, id, i, chunks[i])
  }

  /** The associated data determines both the stream and the index. */
  lemma AadInjective(id1: seq<Byte>, i: nat, id2: seq<Byte>, j: nat)
    requires |id1| == |id2| == ID_LEN && i < U64 && j < U64 && Aad(id1, i) == Aad(id2, j)
    ensures id1 == id2 && i == j
  {
    AadIsIdAndIndex(id1, i);
    AadIsIdAndIndex(id2, j);
    hide Aad;
  }

  /** The nonces and the associated data bind a ciphertext to its stream and its index: reordered, repeated
      and foreign ciphertexts do not open. */
  lemma AuthenticBindsIndex(aead: Aead, key: seq<Byte>, log: seq<Sealed>, id: seq<Byte>, chunks: seq<seq<Byte>>, cts: seq<seq<Byte>>)
    requires |id| == ID_LEN && |chunks| < U64 && SentBy(log, id, chunks) && Authentic(aead, key, log, cts)
    ensures BoundToIndex(aead, key, id, chunks, cts)
  {
    hide Nonce, Aad;
    forall c, i: nat | c in cts && i < U64 && OpenAt(aead, key, id, i, c).Some?
      ensures i < |chunks| && c == SealAt(aead, key, id, i, chunks[i])
    {
      var e :| e in log && Nonce(i) == Nonce(e.index) && Aad(id, i) == Aad(e.id, e.index)
               && c == aead.seal(key, Nonce(i), Aad(id, i), e.msg);
      NonceInjective(i, e.index);
      AadInjective(id, i, e.id, e.index);
    }
  }

  /** Whatever is fed to a fresh decryptor, in whatever order and how often, from this stream or another or
      from nowhere, the plaintexts it has accepted are a prefix of the sender's chunks. */
  lemma AcceptedIsPrefix(aead: Aead, key: seq<Byte>, log: seq<Sealed>, id: seq<Byte>, chunks: seq<seq<Byte>>, cts: seq<seq<Byte>>)
    requires aead.Correct() && |id| == ID_LEN && |chunks| < U64
    requires SentBy(log, id, chunks) && Authentic(aead, key, log, cts)
    ensures var (index, accepted) := Feed(aead, key, id, 0, cts);
            accepted <= chunks && index == |accepted|
  {
    AuthenticBindsIndex(aead, key, log, id, chunks, cts);
    BoundIsPrefix(aead, key, id, chunks, cts);
  }

  lemma {:induction false} BoundIsPrefix(aead: Aead, key: seq<Byte>, id: seq<Byte>, chunks: seq<seq<Byte>>, cts: seq<seq<Byte>>)
    requires aead.Correct() && |chunks| < U64 && BoundToIndex(aead, key, id, chunks, cts)
    ensures var (index, accepted) := Feed(aead, key, id, 0, cts);
            accepted <= chunks && index == |accepted|
    decreases |cts|
  {
    if cts != [] {
      var front, c := cts[..|cts| - 1], cts[|cts| - 1];
      BoundPrefix(aead, key, id, chunks, cts);
      BoundIsPrefix(aead, key, id, chunks, front);
      FeedStep(aead, key, id, chunks, front, c);
      assert front + [c] == cts;
    }
  }

  lemma BoundPrefix(aead: Aead, key: seq<Byte>, id: seq<Byte>, chunks: seq<seq<Byte>>, cts: seq<seq<Byte>>)
    requires BoundToIndex(aead, key, id, chunks, cts) && cts != []
    ensures BoundToIndex(aead, key, id, chunks, cts[..|cts| - 1])
    ensures BoundToIndex(aead, key, id, chunks, [cts[|cts| - 1]])
  {
    hide OpenAt, SealAt;
    assert cts[|cts| - 1] in cts;
  }

  lemma FeedStep(aead: Aead, key: seq<Byte>, id: seq<Byte>, chunks: seq<seq<Byte>>, front: seq<seq<Byte>>, c: seq<Byte>)
    requires aead.Correct() && |chunks| < U64 && BoundToIndex(aead, key, id, chunks, [c])
    requires var (index, accepted) := Feed(aead, key, id, 0, front); accepted <= chunks && index == |accepted|
    ensures var (index, accepted) := Feed(aead, key, id, 0, front + [c]);
            accepted <= chunks && index == |accepted|
  {
    hide *;
    FeedSnoc(aead, key, id, front, c);
    var (index, accepted) := Feed(aead, key, id, 0, front);
    AcceptsNext(aead, key, id, chunks, c, accepted);
  }

  lemma FeedSnoc(aead: Aead, key: seq<Byte>, id: seq<Byte>, front: seq<seq<Byte>>, c: seq<Byte>)
    ensures var (index, accepted) := Feed(aead, key, id, 0, front);
            Feed(aead, key, id, 0, front + [c]) == match OpenAt(aead, key, id, index, c)
                                                   case Some(m) => ((index + 1) % U64, accepted + [m])
                                                   case None => (index, accepted)
  {
    assert (front + [c])[..|front|] == front;
  }

  lemma AcceptsNext(aead: Aead, key: seq<Byte>, id: seq<Byte>, chunks: seq<seq<Byte>>, c: seq<Byte>, accepted: seq<seq<Byte>>)
    requires aead.Correct() && |chunks| < U64 && BoundToIndex(aead, key, id, chunks, [c]) && accepted <= chunks
    ensures var r := OpenAt(aead, key, id, |accepted|, c);
            r.Some? ==> |accepted| < |chunks| && accepted + [r.value] <= chunks
  {
    OpensAsSealed(aead, key, id, chunks, c, |accepted|);
    hide *;
    if |accepted| < |chunks| { PrefixGrows(accepted, chunks); }
  }

  lemma PrefixGrows<T>(a: seq<T>, b: seq<T>)
    requires a <= b && |a| < |b|
    ensures a + [b[|a|]] <= b
  {
  }

  /** What opens at an index is the chunk that was sealed there. */
  lemma OpensAsSealed(aead: Aead, key: seq<Byte>, id: seq<Byte>, chunks: seq<seq<Byte>>, c: seq<Byte>, index: nat)
    requires aead.Correct() && BoundToIndex(aead, key, id, chunks, [c]) && index < U64
    ensures OpenAt(aead, key, id, index, c).Some? ==> index < |chunks| && OpenAt(aead, key, id, index, c) == Some(chunks[index])
  {
    assert c in [c];
  }

  // ---------- the honest run ----------

  /** Fed in order to a decryptor at the same index, the sender's ciphertexts give back the chunks. */
  lemma {:induction false} InOrderRoundTrip(aead: Aead, key: seq<Byte>, id: seq<Byte>, start: nat, chunks: seq<seq<Byte>>)
    requires aead.Correct() && start < U64
    ensures Feed(aead, key, id, start, SealAll(aead, key, id, start, chunks)) == ((start + |chunks|) % U64, chunks)
    decreases |chunks|
  {
    hide Nonce, Aad, Aead.Correct;
    if chunks != [] {
      var front, c := chunks[..|chunks| - 1], chunks[|chunks| - 1];
      InOrderRoundTrip(aead, key, id, start, front);
      SealAllSnoc(aead, key, id, start, front, c);
      NextIndex(start, |front|);
      OpensOwnSeal(aead, key, id, (start + |front|) % U64, c);
      var cts := SealAll(aead, key, id, start, front);
      var ct := SealAt(aead, key, id, (start + |front|) % U64, c);
      assert (cts + [ct])[..|cts|] == cts;
      assert front + [c] == chunks;
    }
  }

  lemma SealAllSnoc(aead: Aead, key: seq<Byte>, id: seq<Byte>, start: nat, front: seq<seq<Byte>>, c: seq<Byte>)
    ensures SealAll(aead, key, id, start, front + [c]) ==
            SealAll(aead, key, id, start, front) + [SealAt(aead, key, id, (start + |front|) % U64, c)]
  {
    hide SealAt;
  }

  lemma NextIndex(start: nat, n: nat)
    ensures ((start + n) % U64 + 1) % U64 == (start + (n + 1)) % U64
  {
  }

  lemma OpensOwnSeal(aead: Aead, key: seq<Byte>, id: seq<Byte>, index: nat, c: seq<Byte>)
    requires aead.Correct()
    ensures OpenAt(aead, key, id, index, SealAt(aead, key, id, index, c)) == Some(c)
  {
  }

  /** Splitting data into chunks of 64 KB; the last may be shorter, none is empty. */
  function Chunks(data: seq<Byte>): (cs: seq<seq<Byte>>)
    ensures forall c :: c in cs ==> 0 < |c| <= CHUNK_SIZE
  {
    if data == [] then []
    else if |data| <= CHUNK_SIZE then [data]
    else [data[..CHUNK_SIZE]] + Chunks(data[CHUNK_SIZE..])
  }

  /** How data is cut: every chunk but the last has 65536 bytes, the last has at least one and at most 65536. */
  lemma {:induction false} ChunkSizes(data: seq<Byte>)
    ensures var cs := Chunks(data);
            && |cs| == (|data| + 65535) / 65536
            && forall i :: 0 <= i < |cs| ==> 0 < |cs[i]| <= 65536 && (i < |cs| - 1 ==> |cs[i]| == 65536)
    decreases |data|
  {
    if |data| > CHUNK_SIZE {
      ChunkSizes(data[CHUNK_SIZE..]);
      var rest := Chunks(data[CHUNK_SIZE..]);
      assert Chunks(data) == [data[..CHUNK_SIZE]] + rest;
      hide Chunks;
    }
  }

  function Concat(chunks: seq<seq<Byte>>): seq<Byte> {
    if chunks == [] then [] else chunks[0] + Concat(chunks[1..])
  }

  lemma {:induction false} ChunksConcat(data: seq<Byte>)
    ensures Concat(Chunks(data)) == data
    decreases |data|
  {
    if |data| > CHUNK_SIZE {
      ChunksConcat(data[CHUNK_SIZE..]);
      var cs := Chunks(data);
      assert cs[1..] == Chunks(data[CHUNK_SIZE..]);
      assert data == data[..CHUNK_SIZE] + data[CHUNK_SIZE..];
    } else if data != [] {
      assert Chunks(data)[1..] == [];
    }
  }

  /** Shattering, sealing, feeding in order and concatenating is the identity. */
  lemma ShatterRoundTrip(aead: Aead, key: seq<Byte>, id: seq<Byte>, start: nat, data: seq<Byte>)
    requires aead.Correct() && start < U64
    ensures Concat(Feed(aead, key, id, start, SealAll(aead, key, id, start, Chunks(data))).1) == data
  {
    InOrderRoundTrip(aead, key, id, start, Chunks(data));
    ChunksConcat(data);
  }

  // ---------- exactly when a stream is prefix safe ----------

  /** A cipher that is ideal for a given log: its tag is genuine for just the nonces, associated data and
      messages of the log. */
  function IdealFor(log: seq<Sealed>): Aead {
    Aead((k, n, a, m) => m + TagFor(log, n, a, m),
         (k, n, a, c) =>
           if |c| >= TAG_SIZE && c[|c| - TAG_SIZE..] == TagFor(log, n, a, c[..|c| - TAG_SIZE])
           then Some(c[..|c| - TAG_SIZE]) else None)
  }

  function TagFor(log: seq<Sealed>, n: seq<Byte>, a: seq<Byte>, m: seq<Byte>): (t: seq<Byte>)
    ensures |t| == TAG_SIZE
  {
    if exists e :: e in log && n == Nonce(e.index) && a == Aad(e.id, e.index) && m == e.msg then Genuine() else Zeros(TAG_SIZE)
  }

  function Genuine(): (t: seq<Byte>)
    ensures |t| == TAG_SIZE && t != Zeros(TAG_SIZE)
  {
    var t: seq<Byte> := seq(TAG_SIZE, _ => 1);
    assert t[0] != Zeros(TAG_SIZE)[0];
    t
  }

  lemma IdealIsCorrect(log: seq<Sealed>)
    ensures IdealFor(log).Correct()
  {
    hide TagFor;
    var aead := IdealFor(log);
    forall k, n, a, m ensures aead.open(k, n, a, aead.seal(k, n, a, m)) == Some(m) && |aead.seal(k, n, a, m)| == |m| + TAG_SIZE {
      var c := m + TagFor(log, n, a, m);
      assert c[..|m|] == m && c[|m|..] == TagFor(log, n, a, m);
    }
  }

  /** The hypotheses can be met, whatever was sealed in whatever streams: under the cipher that is ideal for
      the log, any replay, reordering and mixture of what was sealed, together with any other byte strings that do
      not happen to end in the one tag given to everything else, is authentic. */
  lemma IdealIsAuthentic(key: seq<Byte>, log: seq<Sealed>, cts: seq<seq<Byte>>)
    requires forall c :: c in cts && |c| >= TAG_SIZE ==> c[|c| - TAG_SIZE..] != Zeros(TAG_SIZE)
    ensures IdealFor(log).Correct() && Authentic(IdealFor(log), key, log, cts)
  {
    IdealIsCorrect(log);
    var aead := IdealFor(log);
    hide Nonce, Aad, Aead.Correct;
    forall n, a, c | c in cts && aead.open(key, n, a, c).Some?
      ensures exists e :: e in log && n == Nonce(e.index) && a == Aad(e.id, e.index) && c == aead.seal(key, n, a, e.msg)
    {
      var m := c[..|c| - TAG_SIZE];
      assert c == m + c[|c| - TAG_SIZE..] == aead.seal(key, n, a, m);
      var e :| e in log && n == Nonce(e.index) && a == Aad(e.id, e.index) && m == e.msg;
    }
  }

  /** What was sealed carries the genuine tag. */
  lemma SealedIsGenuine(key: seq<Byte>, log: seq<Sealed>, e: Sealed)
    requires e in log
    ensures var c := SealAt(IdealFor(log), key, e.id, e.index, e.msg);
            |c| >= TAG_SIZE && c[|c| - TAG_SIZE..] != Zeros(TAG_SIZE)
  {
    var c := SealAt(IdealFor(log), key, e.id, e.index, e.msg);
    assert TagFor(log, Nonce(e.index), Aad(e.id, e.index), e.msg) == Genuine();
    assert c[|e.msg|..] == Genuine();
  }

  /** Under every correct cipher and every log, authentic ciphertexts leave a fresh decryptor with a prefix. */
  ghost predicate PrefixSafe(id: seq<Byte>, chunks: seq<seq<Byte>>) {
    forall aead: Aead, key, log, cts ::
      aead.Correct() && SentBy(log, id, chunks) && Authentic(aead, key, log, cts) ==>
        Feed(aead, key, id, 0, cts).1 <= chunks
  }

  /** The log of a sender of these chunks and nothing else. */
  function LogOf(id: seq<Byte>, chunks: seq<seq<Byte>>): seq<Sealed> {
    seq(|chunks|, i requires 0 <= i < |chunks| => Sealed(id, i % U64, chunks[i]))
  }

  /** A stream is prefix safe exactly when it has fewer than 2^64 chunks: after that many, the index wraps, and a
      chunk sent long ago opens again. */
  lemma PrefixSafeIff(id: seq<Byte>, chunks: seq<seq<Byte>>)
    requires |id| == ID_LEN
    ensures PrefixSafe(id, chunks) <==> |chunks| < U64
  {
    if |chunks| < U64 {
      hide Feed, SentBy, Authentic, Aead.Correct;
      forall aead: Aead, key, log, cts | aead.Correct() && SentBy(log, id, chunks) && Authentic(aead, key, log, cts)
        ensures Feed(aead, key, id, 0, cts).1 <= chunks
      {
        AcceptedIsPrefix(aead, key, log, id, chunks, cts);
      }
    } else {
      OneTooMany(id, chunks);
      hide Feed, SentBy, Authentic, Aead.Correct, IdealFor, FirstLapAgain;
    }
  }

  /** All the ciphertexts in order, and then one of the first lap again, which the decryptor accepts. */
  function FirstLapAgain(aead: Aead, id: seq<Byte>, chunks: seq<seq<Byte>>): seq<seq<Byte>>
    requires |chunks| >= U64
  {
    SealAll(aead, [], id, 0, chunks) + [SealAt(aead, [], id, |chunks| % U64, chunks[|chunks| % U64])]
  }

  lemma OneTooMany(id: seq<Byte>, chunks: seq<seq<Byte>>)
    requires |id| == ID_LEN && |chunks| >= U64
    ensures var log := LogOf(id, chunks);
            var aead := IdealFor(log);
            var cts := FirstLapAgain(aead, id, chunks);
            && aead.Correct() && SentBy(log, id, chunks) && Authentic(aead, [], log, cts)
            && |Feed(aead, [], id, 0, cts).1| > |chunks|
  {
    var log := LogOf(id, chunks);
    hide *;
    IdealIsCorrect(log);
    LogSent(id, chunks);
    LapAuthentic(id, chunks);
    LapAccepted(IdealFor(log), id, chunks);
  }

  lemma LapAccepted(aead: Aead, id: seq<Byte>, chunks: seq<seq<Byte>>)
    requires aead.Correct() && |chunks| >= U64
    ensures |Feed(aead, [], id, 0, FirstLapAgain(aead, id, chunks)).1| == |chunks| + 1
  {
    hide SealAll, SealAt, OpenAt, Feed, Aead.Correct;
    var at := |chunks| % U64;
    InOrderRoundTrip(aead, [], id, 0, chunks);
    OpensOwnSeal(aead, [], id, at, chunks[at]);
    FeedSnoc(aead, [], id, SealAll(aead, [], id, 0, chunks), SealAt(aead, [], id, at, chunks[at]));
  }

  lemma LapAuthentic(id: seq<Byte>, chunks: seq<seq<Byte>>)
    requires |chunks| >= U64
    ensures var log := LogOf(id, chunks);
            Authentic(IdealFor(log), [], log, FirstLapAgain(IdealFor(log), id, chunks))
  {
    var log := LogOf(id, chunks);
    var cts := FirstLapAgain(IdealFor(log), id, chunks);
    hide *;
    forall c | c in cts ensures |c| >= TAG_SIZE && c[|c| - TAG_SIZE..] != Zeros(TAG_SIZE) {
      LapGenuine(id, chunks, c);
    }
    IdealIsAuthentic([], log, cts);
  }

  lemma LapGenuine(id: seq<Byte>, chunks: seq<seq<Byte>>, c: seq<Byte>)
    requires |chunks| >= U64 && c in FirstLapAgain(IdealFor(LogOf(id, chunks)), id, chunks)
    ensures |c| >= TAG_SIZE && c[|c| - TAG_SIZE..] != Zeros(TAG_SIZE)
  {
    var log := LogOf(id, chunks);
    hide *;
    var i := FromLog(id, chunks, IdealFor(log), c);
    var e := LogAt(id, chunks, i);
    SealedIsGenuine([], log, e);
  }

  lemma LogAt(id: seq<Byte>, chunks: seq<seq<Byte>>, i: nat) returns (e: Sealed)
    requires i < |chunks|
    ensures e in LogOf(id, chunks) && e == Sealed(id, i % U64, chunks[i])
  {
    e := LogOf(id, chunks)[i];
  }

  lemma LogSent(id: seq<Byte>, chunks: seq<seq<Byte>>)
    requires |id| == ID_LEN
    ensures SentBy(LogOf(id, chunks), id, chunks)
  {
    var log := LogOf(id, chunks);
    forall e | e in log
      ensures |e.id| == ID_LEN && e.index < U64 && exists i: nat :: i < |chunks| && e.index == i % U64 && e.msg == chunks[i]
    {
      var i :| 0 <= i < |log| && log[i] == e;
    }
  }

  lemma FromLog(id: seq<Byte>, chunks: seq<seq<Byte>>, aead: Aead, c: seq<Byte>) returns (i: nat)
    requires |chunks| >= U64 && c in FirstLapAgain(aead, id, chunks)
    ensures i < |chunks| && c == SealAt(aead, [], id, i % U64, chunks[i])
  {
    hide SealAt;
    var all := SealAll(aead, [], id, 0, chunks);
    if c in all {
      i :| 0 <= i < |all| && all[i] == c;
    } else {
      i := |chunks| % U64;
    }
  }

  // ---------- the code ----------

  class SovereignStream {
    const aead: Aead
    const key: seq<Byte>
    const streamId: seq<Byte>
    var index: nat

    ghost predicate Valid()
      reads this
    {
      index < U64
    }

    constructor (aead: Aead, key: seq<Byte>, streamId: seq<Byte>)
      ensures Valid() && index == 0 && this.aead == aead && this.key == key && this.streamId == streamId
    {
      this.aead, this.key, this.streamId, index := aead, key, streamId, 0;
    }

    method EncryptChunk(data: seq<Byte>) returns (r: Result<seq<Byte>, Error>)
      requires Valid()
      modifies this
      ensures Valid()
      ensures if |data| > 65536 then r == Err(TooLarge) && index == old(index)
              else r == Ok(SealAt(aead, key, streamId, old(index), data)) && index == (old(index) + 1) % U64
    {
      if |data| > CHUNK_SIZE {
        return Err(TooLarge);
      }
      var nonce := Zeros(4) + ToBigEndian(index, 8);
      var aad := streamId + ToBigEndian(index, 8);
      var ciphertext := aead.seal(key, nonce, aad, data);
      index := (index + 1) % U64;
      r := Ok(ciphertext);
    }

    method DecryptChunk(ciphertext: seq<Byte>) returns (r: Result<seq<Byte>, Error>)
      requires Valid()
      modifies this
      ensures Valid()
      ensures match OpenAt(aead, key, streamId, old(index), ciphertext)
              case Some(m) => r == Ok(m) && index == (old(index) + 1) % U64
              case None => r == Err(Rejected) && index == old(index)
    {
      var nonce := Zeros(4) + ToBigEndian(index, 8);
      var aad := streamId + ToBigEndian(index, 8);
      var plaintext := aead.open(key, nonce, aad, ciphertext);
      if plaintext == None {
        return Err(Rejected);
      }
      index := (index + 1) % U64;
      r := Ok(plaintext.value);
    }

    method ResetIndex()
      modifies this
      ensures Valid() && index == 0
    {
      index := 0;
    }

    /** Decrypts a list of ciphertexts, keeping what is accepted. */
    method DecryptAll(cts: seq<seq<Byte>>) returns (accepted: seq<seq<Byte>>)
      requires Valid()
      modifies this
      ensures Valid() && (index, accepted) == Feed(aead, key, streamId, old(index), cts)
    {
      accepted := [];
      for i := 0 to |cts|
        invariant Valid() && (index, accepted) == Feed(aead, key, streamId, old(index), cts[..i])
      {
        assert cts[..i + 1][..i] == cts[..i];
        var r := DecryptChunk(cts[i]);
        if r.Ok? {
          accepted := accepted + [r.value];
        }
      }
      assert cts[..|cts|] == cts;
    }

    method ShatterAndEncrypt(data: seq<Byte>) returns (r: Result<seq<seq<Byte>>, Error>)
      requires Valid()
      modifies this
      ensures Valid()
      ensures r == Ok(SealAll(aead, key, streamId, old(index), Chunks(data)))
      ensures index == (old(index) + |Chunks(data)|) % U64
    {
      hide SealAt, Chunks;
      var results := [];
      var chunks := Chunks(data);
      for i := 0 to |chunks|
        invariant Valid() && index == (old(index) + i) % U64
        invariant results == SealAll(aead, key, streamId, old(index), chunks[..i])
      {
        assert chunks[i] in chunks && chunks[..i + 1] == chunks[..i] + [chunks[i]];
        SealAllSnoc(aead, key, streamId, old(index), chunks[..i], chunks[i]);
        NextIndex(old(index), i);
        var ct := EncryptChunk(chunks[i]);
        results := results + [ct.value];
      }
      assert chunks[..|chunks|] == chunks;
      r := Ok(results);
    }
  }
}
