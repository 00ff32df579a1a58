/** The ZipPIR vault: a matrix of cells, an index from shard ids to rows, and a counter of active rows.

    The clock is a parameter: an insertion reads it twice, as `now` to check the epoch and as `later` to stamp
    the cell. A signing key is its public key and its signing function. */
module Vault {
  import opened Arithmetic
  import opened Bytes
  import opened Wrappers

  const PIR_CELL_SIZE := 512
  const VAULT_TTL_SECS := 172_800
  const WRITE_GRACE_SECS := 300

  type Row = r: seq<Byte> | |r| == PIR_CELL_SIZE witness Zeros(PIR_CELL_SIZE)
  type ShardId = seq<Byte>

  datatype SigningKey = SigningKey(publicKey: seq<Byte>, sign: seq<Byte> -> seq<Byte>)

  datatype Cell = Cell(data: Row, insertedAt: nat, signature: seq<Byte>, signerPk: seq<Byte>)

  type Matrix = seq<Option<Cell>>

  datatype Vault = Vault(matrix: Matrix, index: map<ShardId, nat>, activeRows: nat)

  datatype VaultError = StaleEpoch | TooLarge | MatrixFull | NoEmptySlot | WrongLength | ShardNotFound | EmptyCell | BadSignature

  function Empty(maxRows: nat): Vault { Vault(seq(maxRows, _ => None), map[], 0) }

  // ---------- insertion ----------

  function SatSub(a: nat, b: nat): nat { if a >= b then a - b else 0 }

  /** The epoch must be the current one, or the one before within 300 seconds of the change. */
  predicate EpochAccepted(now: nat, targetEpoch: nat, epochSecs: nat)
    requires epochSecs > 0
  {
    var current := now / epochSecs;
    targetEpoch == current || (targetEpoch == SatSub(current, 1) && now <= current * epochSecs + WRITE_GRACE_SECS)
  }

  /** In times: `now` lies in the target epoch, or in the one after it within 300 seconds of the change. */
  lemma EpochTimes(now: nat, e: nat, epochSecs: nat)
    requires epochSecs > 0
    ensures EpochAccepted(now, e, epochSecs) <==>
              || e * epochSecs <= now < (e + 1) * epochSecs
              || ((e + 1) * epochSecs <= now < (e + 2) * epochSecs && now <= (e + 1) * epochSecs + 300)
  {
    var c := now / epochSecs;
    InEpoch(now, epochSecs, c, e);
    InEpoch(now, epochSecs, c, e + 1);
    hide *;
    assert e + 1 + 1 == e + 2;
    EpochCases(now, e, epochSecs);
  }

  lemma EpochCases(now: nat, e: nat, epochSecs: nat)
    requires epochSecs > 0
    ensures EpochAccepted(now, e, epochSecs) <==>
              now / epochSecs == e || (now / epochSecs == e + 1 && now <= (e + 1) * epochSecs + 300)
  {
  }

  lemma InEpoch(now: nat, epochSecs: nat, c: nat, e: nat)
    requires epochSecs > 0 && c == now / epochSecs
    ensures c == e <==> e * epochSecs <= now < (e + 1) * epochSecs
  {
    var r := now % epochSecs;
    Multiples(c, epochSecs);
    assert now == c * epochSecs + r;
    if c < e { ProductMonotone(c + 1, e, epochSecs); }
    if e < c { ProductMonotone(e + 1, c, epochSecs); }
  }

  lemma Multiples(c: nat, d: nat)
    ensures c * d == d * c && (c + 1) * d == c * d + d
  {
  }

  function Padded(data: seq<Byte>): Row
    requires |data| <= PIR_CELL_SIZE
  {
    data + Zeros(PIR_CELL_SIZE - |data|)
  }

  /** The first empty row; the number of rows if there is none. */
  function FirstEmpty(m: Matrix): (i: nat)
    ensures i <= |m| && (i < |m| ==> m[i] == None) && forall j :: 0 <= j < i ==> m[j].Some?
  {
    if m == [] || m[0] == None then 0 else 1 + FirstEmpty(m[1..])
  }

  lemma {:induction false} FirstEmptyIs(m: Matrix, i: nat)
    requires i <= |m| && (i < |m| ==> m[i] == None) && forall j :: 0 <= j < i ==> m[j].Some?
    ensures FirstEmpty(m) == i
  {
    if i > 0 { FirstEmptyIs(m[1..], i - 1); }
  }

  function NewCell(id: ShardId, data: seq<Byte>, key: SigningKey, now: nat): Cell
    requires |data| <= PIR_CELL_SIZE
  {
    Cell(Padded(data), now, key.sign(id + Padded(data)), key.publicKey)
  }

  function Insert(v: Vault, id: ShardId, data: seq<Byte>, key: SigningKey, now: nat, later: nat, targetEpoch: nat, epochSecs: nat)
    : Result<(Vault, nat), VaultError>
    requires epochSecs > 0
  {
    if !EpochAccepted(now, targetEpoch, epochSecs) then Err(StaleEpoch)
    else if |data| > PIR_CELL_SIZE then Err(TooLarge)
    else if v.activeRows >= |v.matrix| then Err(MatrixFull)
    else
      var row := FirstEmpty(v.matrix);
      if row == |v.matrix| then Err(NoEmptySlot)
      else
        Ok((Vault(v.matrix[row := Some(NewCell(id, data, key, later))], v.index[id := row], v.activeRows + 1), row))
  }

  // ---------- consistency ----------

  function CountSome(m: Matrix): (n: nat)
    ensures n <= |m|
  {
    if m == [] then 0 else (if m[0].Some? then 1 else 0) + CountSome(m[1..])
  }

  lemma {:induction false} CountUpdate(m: Matrix, i: nat, c: Option<Cell>)
    requires i < |m|
    ensures CountSome(m[i := c]) == CountSome(m) - (if m[i].Some? then 1 else 0) + (if c.Some? then 1 else 0)
  {
    if i == 0 {
      assert m[i := c][1..] == m[1..];
    } else {
      CountUpdate(m[1..], i - 1, c);
      assert m[i := c][1..] == m[1..][i - 1 := c];
    }
  }

  lemma {:induction false} CountFull(m: Matrix)
    requires forall i :: 0 <= i < |m| ==> m[i].Some?
    ensures CountSome(m) == |m|
  {
    if m != [] { CountFull(m[1..]); }
  }

  lemma {:induction false} CountNone(m: Matrix)
    requires forall i :: 0 <= i < |m| ==> m[i] == None
    ensures CountSome(m) == 0
  {
    if m != [] { CountNone(m[1..]); }
  }

  /** The counter is the number of occupied rows, and the index maps injectively into occupied rows. */
  ghost predicate Inv(v: Vault) {
    && v.activeRows == CountSome(v.matrix)
    && (forall id :: id in v.index ==> v.index[id] < |v.matrix| && v.matrix[v.index[id]].Some?)
    && (forall a, b :: a in v.index && b in v.index && a != b ==> v.index[a] != v.index[b])
  }

  /** A vault that is not full always has an empty slot. */
  lemma NotFullHasSlot(v: Vault)
    requires Inv(v) && v.activeRows < |v.matrix|
    ensures FirstEmpty(v.matrix) < |v.matrix|
  {
    if FirstEmpty(v.matrix) == |v.matrix| { CountFull(v.matrix); }
  }

  /** An insertion keeps the vault consistent. It succeeds exactly when the target epoch is the current one, or the
      one before and changed at most 300 seconds ago, the shard has at most 512 bytes, and the vault is not full: the
      search for an empty slot never fails. Of the errors, the first that applies is given. */
  lemma InsertKeepsInv(v: Vault, id: ShardId, data: seq<Byte>, key: SigningKey, now: nat, later: nat, targetEpoch: nat, epochSecs: nat)
    requires Inv(v) && epochSecs > 0
    ensures match Insert(v, id, data, key, now, later, targetEpoch, epochSecs)
            case Ok((w, row)) => Inv(w) && row < |v.matrix| && v.matrix[row] == None
            case Err(e) => e != NoEmptySlot
    ensures var inTime := || targetEpoch * epochSecs <= now < (targetEpoch + 1) * epochSecs
                          || ((targetEpoch + 1) * epochSecs <= now < (targetEpoch + 2) * epochSecs
                              && now <= (targetEpoch + 1) * epochSecs + 300);
            var r := Insert(v, id, data, key, now, later, targetEpoch, epochSecs);
            && (r.Ok? <==> inTime && |data| <= 512 && v.activeRows < |v.matrix|)
            && (r == Err(StaleEpoch) <==> !inTime)
            && (r == Err(TooLarge) <==> inTime && |data| > 512)
            && (r == Err(MatrixFull) <==> inTime && |data| <= 512 && v.activeRows >= |v.matrix|)
  {
    EpochTimes(now, targetEpoch, epochSecs);
    hide EpochAccepted;
    if v.activeRows < |v.matrix| {
      NotFullHasSlot(v);
      var row := FirstEmpty(v.matrix);
      if |data| <= PIR_CELL_SIZE {
        CountUpdate(v.matrix, row, Some(NewCell(id, data, key, later)));
      }
    }
  }

  // ---------- the purge ----------

  predicate Expired(c: Cell, now: nat) { SatSub(now, c.insertedAt) >= VAULT_TTL_SECS }

  /** The ids whose cells are at or past their time to live. */
  function ExpiredIds(v: Vault, now: nat): set<ShardId>
    requires forall id :: id in v.index ==> v.index[id] < |v.matrix|
  {
    set id | id in v.index && v.matrix[v.index[id]].Some? && Expired(v.matrix[v.index[id]].value, now)
  }

  /** Some id of the set is mapped to row `i`. */
  ghost predicate Names(v: Vault, ids: set<ShardId>, i: nat) {
    exists id :: id in ids && id in v.index && v.index[id] == i
  }

  /** The vault without the given ids and the cells they name. */
  ghost function Without(v: Vault, ids: set<ShardId>): Vault {
    Vault(seq(|v.matrix|, i requires 0 <= i < |v.matrix| =>
            if Names(v, ids, i) then None else v.matrix[i]),
          v.index - ids,
          SatSub(v.activeRows, |ids|))
  }

  ghost function Purge(v: Vault, now: nat): Vault
    requires Inv(v)
  {
    Without(v, ExpiredIds(v, now))
  }

  /** One removal of the purge loop. */
  function RemoveOne(v: Vault, id: ShardId): Vault
    requires id in v.index && v.index[id] < |v.matrix|
  {
    Vault(v.matrix[v.index[id] := None], v.index - {id}, SatSub(v.activeRows, 1))
  }

  lemma RemoveOneKeepsInv(v: Vault, id: ShardId)
    requires Inv(v) && id in v.index
    ensures Inv(RemoveOne(v, id)) && v.activeRows >= 1
  {
    CountUpdate(v.matrix, v.index[id], None);
  }

  lemma NamesMore(v: Vault, ids: set<ShardId>, id: ShardId, i: nat)
    requires id in v.index
    ensures Names(v, ids + {id}, i) <==> Names(v, ids, i) || v.index[id] == i
  {
    if v.index[id] == i { assert id in ids + {id} && id in v.index && v.index[id] == i; }
  }

  /** Removing the ids one at a time, in any order, is removing them all. */
  lemma RemoveOneMore(v: Vault, ids: set<ShardId>, id: ShardId)
    requires Inv(v) && id in v.index && id !in ids
    ensures id in Without(v, ids).index && Without(v, ids).index[id] < |v.matrix| == |Without(v, ids).matrix|
    ensures RemoveOne(Without(v, ids), id) == Without(v, ids + {id})
    ensures Without(v, ids + {id}).index == v.index - (ids + {id})
  {
    assert v.index[id] < |v.matrix|;
    hide CountSome, Inv;
    var w, x := RemoveOne(Without(v, ids), id), Without(v, ids + {id});
    forall i | 0 <= i < |v.matrix| ensures w.matrix[i] == x.matrix[i] {
      NamesMore(v, ids, id, i);
    }
    assert w.matrix == x.matrix;
    assert w.index == x.index;
  }

  lemma {:induction false} WithoutKeepsInv(v: Vault, ids: set<ShardId>)
    requires Inv(v) && ids <= v.index.Keys
    ensures Inv(Without(v, ids)) && |ids| <= v.activeRows
    decreases |ids|
  {
    hide Inv, Without, RemoveOne;
    if ids == {} {
      WithoutNothing(v);
    } else {
      var id :| id in ids;
      var rest := ids - {id};
      WithoutKeepsInv(v, rest);
      RemoveOneMore(v, rest, id);
      assert rest + {id} == ids;
      RemoveOneKeepsInv(Without(v, rest), id);
      FewerRows(v, rest);
    }
  }

  lemma FewerRows(v: Vault, ids: set<ShardId>)
    ensures Without(v, ids).activeRows == SatSub(v.activeRows, |ids|)
  {
  }

  /** The purge empties exactly the rows that some id names and whose cell has expired, forgets exactly those
      ids, and lowers the counter by their number. */
  lemma PurgeExact(v: Vault, now: nat)
    requires Inv(v)
    ensures Inv(Purge(v, now)) && |Purge(v, now).matrix| == |v.matrix|
    ensures forall i :: 0 <= i < |v.matrix| ==>
              Purge(v, now).matrix[i] ==
                if Indexed(v, i) && v.matrix[i].Some? && Expired(v.matrix[i].value, now) then None else v.matrix[i]
    ensures forall id :: id in Purge(v, now).index <==> id in v.index && !Expired(v.matrix[v.index[id]].value, now)
    ensures Purge(v, now).activeRows + |ExpiredIds(v, now)| == v.activeRows
  {
    WithoutKeepsInv(v, ExpiredIds(v, now));
  }

  // ---------- runs ----------

  ghost predicate Indexed(v: Vault, i: nat) { exists id :: id in v.index && v.index[id] == i }

  /** Every occupied row is named by the index. */
  ghost predicate Onto(v: Vault) { forall i :: 0 <= i < |v.matrix| && v.matrix[i].Some? ==> Indexed(v, i) }

  datatype Op =
    | InsertOp(id: ShardId, data: seq<Byte>, key: SigningKey, now: nat, later: nat, targetEpoch: nat, epochSecs: nat)
    | PurgeOp(now: nat)

  ghost function Apply(v: Vault, op: Op): Vault
    requires Inv(v)
  {
    match op
    case InsertOp(id, data, key, now, later, targetEpoch, epochSecs) =>
      if epochSecs == 0 then v   // the source divides by it
      else
        (match Insert(v, id, data, key, now, later, targetEpoch, epochSecs)
         case Ok((w, _)) => w
         case Err(_) => v)
    case PurgeOp(now) => Purge(v, now)
  }

  lemma ApplyKeepsInv(v: Vault, op: Op)
    requires Inv(v)
    ensures Inv(Apply(v, op)) && |Apply(v, op).matrix| == |v.matrix|
  {
    match op
    case InsertOp(id, data, key, now, later, targetEpoch, epochSecs) =>
      if epochSecs > 0 { InsertKeepsInv(v, id, data, key, now, later, targetEpoch, epochSecs); }
    case PurgeOp(now) => WithoutKeepsInv(v, ExpiredIds(v, now));
  }

  lemma EmptyInv(maxRows: nat)
    ensures Inv(Empty(maxRows)) && Onto(Empty(maxRows))
  {
    CountNone(Empty(maxRows).matrix);
  }

  /** The state after a run of calls on an empty vault: consistent whatever the calls. */
  ghost function Run(maxRows: nat, ops: seq<Op>): (v: Vault)
    ensures Inv(v) && |v.matrix| == maxRows
  {
    if ops == [] then
      EmptyInv(maxRows);
      Empty(maxRows)
    else
      var before := Run(maxRows, ops[..|ops| - 1]);
      ApplyKeepsInv(before, ops[|ops| - 1]);
      Apply(before, ops[|ops| - 1])
  }

  /** This call inserts under an id that the index already has. */
  ghost predicate Reuses(v: Vault, op: Op) {
    && op.InsertOp? && op.epochSecs > 0 && op.id in v.index
    && Insert(v, op.id, op.data, op.key, op.now, op.later, op.targetEpoch, op.epochSecs).Ok?
  }

  ghost predicate NeverReuses(maxRows: nat, ops: seq<Op>) {
    forall k :: 0 <= k < |ops| ==> !Reuses(Run(maxRows, ops[..k]), ops[k])
  }

  /** A row that the index has lost stays lost: it is never indexed again and never purged. */
  lemma OntoStep(v: Vault, op: Op)
    requires Inv(v)
    ensures Onto(Apply(v, op)) <==> Onto(v) && !Reuses(v, op)
  {
    ApplyKeepsInv(v, op);
    var w := Apply(v, op);
    match op
    case PurgeOp(now) =>
      PurgeExact(v, now);
      PurgeKeepsOnto(v, now);
    case InsertOp(id, data, key, now, later, targetEpoch, epochSecs) =>
      if epochSecs > 0 && Insert(v, id, data, key, now, later, targetEpoch, epochSecs).Ok? {
        InsertKeepsInv(v, id, data, key, now, later, targetEpoch, epochSecs);
        InsertOnto(v, id, data, key, now, later, targetEpoch, epochSecs);
      }
  }

  lemma PurgeKeepsOnto(v: Vault, now: nat)
    requires Inv(v)
    ensures Onto(Purge(v, now)) <==> Onto(v)
  {
    PurgeExact(v, now);
    var w := Purge(v, now);
    forall i | 0 <= i < |v.matrix| && w.matrix[i].Some?
      ensures Indexed(w, i) <==> Indexed(v, i)
    {
      if id :| id in v.index && v.index[id] == i { assert id in w.index; }
    }
    forall i | 0 <= i < |v.matrix| && v.matrix[i].Some? && w.matrix[i] == None ensures Indexed(v, i) {}
    assert forall i :: 0 <= i < |v.matrix| && w.matrix[i].Some? ==> v.matrix[i].Some?;
  }

  lemma InsertOnto(v: Vault, id: ShardId, data: seq<Byte>, key: SigningKey, now: nat, later: nat, targetEpoch: nat, epochSecs: nat)
    requires Inv(v) && epochSecs > 0 && Insert(v, id, data, key, now, later, targetEpoch, epochSecs).Ok?
    requires v.matrix[FirstEmpty(v.matrix)] == None
    ensures Onto(Insert(v, id, data, key, now, later, targetEpoch, epochSecs).value.0) <==> Onto(v) && id !in v.index
  {
    var w, row := Insert(v, id, data, key, now, later, targetEpoch, epochSecs).value.0, FirstEmpty(v.matrix);
    assert Indexed(w, row) by { assert id in w.index && w.index[id] == row; }
    forall i | 0 <= i < |v.matrix| && i != row
      ensures w.matrix[i] == v.matrix[i]
      ensures Indexed(w, i) <==> Indexed(v, i) && !(id in v.index && v.index[id] == i)
    {
      if a :| a in w.index && w.index[a] == i { assert a in v.index && v.index[a] == i; }
      if a :| a in v.index && v.index[a] == i && a != id { assert a in w.index && w.index[a] == i; }
    }
    if id in v.index {
      var lost := v.index[id];
      assert w.matrix[lost].Some? && !Indexed(w, lost);
    }
  }

  /** The index names every occupied row exactly when no insertion of the run reused an id still indexed. */
  lemma {:induction false} OntoIffNeverReused(maxRows: nat, ops: seq<Op>)
    ensures Onto(Run(maxRows, ops)) <==> NeverReuses(maxRows, ops)
    decreases |ops|
  {
    hide Apply, Reuses, Onto, NeverReuses;
    if ops == [] {
      EmptyInv(maxRows);
      NoOpsNoReuse(maxRows);
    } else {
      var front, op := ops[..|ops| - 1], ops[|ops| - 1];
      OntoIffNeverReused(maxRows, front);
      OntoStep(Run(maxRows, front), op);
      NeverReusesSnoc(maxRows, front, op);
      assert front + [op] == ops;
    }
  }

  lemma NoOpsNoReuse(maxRows: nat)
    ensures NeverReuses(maxRows, [])
  {
  }

  lemma NeverReusesSnoc(maxRows: nat, front: seq<Op>, op: Op)
    ensures NeverReuses(maxRows, front + [op]) <==> NeverReuses(maxRows, front) && !Reuses(Run(maxRows, front), op)
  {
    hide Run, Reuses;
    var ops := front + [op];
    forall k | 0 <= k < |front| ensures Run(maxRows, ops[..k]) == Run(maxRows, front[..k]) {
      assert front[..k] == ops[..k];
    }
    assert ops[..|front|] == front;
    if NeverReuses(maxRows, ops) {
      assert !Reuses(Run(maxRows, ops[..|front|]), ops[|front|]);
      forall k | 0 <= k < |front| ensures !Reuses(Run(maxRows, front[..k]), front[k]) {
        assert !Reuses(Run(maxRows, ops[..k]), ops[k]);
      }
    }
  }

  ghost predicate NothingExpired(v: Vault, now: nat) {
    forall i :: 0 <= i < |v.matrix| && v.matrix[i].Some? ==> !Expired(v.matrix[i].value, now)
  }

  /** After any run of calls, a purge leaves nothing expired, whenever it comes, exactly when no insertion of
      the run reused an id still indexed. */
  lemma PurgeCleansIff(maxRows: nat, ops: seq<Op>)
    ensures (forall t: nat :: NothingExpired(Purge(Run(maxRows, ops), t), t)) <==> NeverReuses(maxRows, ops)
  {
    hide Run, NeverReuses, Purge, Onto, NothingExpired, Inv;
    var v := Run(maxRows, ops);
    OntoIffNeverReused(maxRows, ops);
    if Onto(v) {
      forall t: nat ensures NothingExpired(Purge(v, t), t) { OntoPurges(v, t); }
    } else {
      var t := NeverCleaned(v);
      assert !NothingExpired(Purge(v, t), t);
    }
  }

  lemma OntoPurges(v: Vault, t: nat)
    requires Inv(v) && Onto(v)
    ensures NothingExpired(Purge(v, t), t)
  {
    PurgeExact(v, t);
    hide Purge, Inv, Indexed;
  }

  /** A row that is not indexed outlives its time. */
  lemma NeverCleaned(v: Vault) returns (t: nat)
    requires Inv(v) && !Onto(v)
    ensures !NothingExpired(Purge(v, t), t)
  {
    var i :| 0 <= i < |v.matrix| && v.matrix[i].Some? && !Indexed(v, i);
    t := v.matrix[i].value.insertedAt + VAULT_TTL_SECS;
    PurgeExact(v, t);
    hide Purge, Inv, Indexed;
    assert Purge(v, t).matrix[i] == v.matrix[i];
  }

  /** Two insertions under one id, in one epoch. */
  function InsertTwice(id: ShardId, key: SigningKey): seq<Op> {
    [InsertOp(id, [], key, 0, 0, 0, 1), InsertOp(id, [], key, 0, 0, 0, 1)]
  }

  /** They leave a row that no purge ever empties. */
  lemma ReuseOrphansRow(maxRows: nat, id: ShardId, key: SigningKey)
    requires maxRows >= 2
    ensures !NeverReuses(maxRows, InsertTwice(id, key))
    ensures exists t: nat :: !NothingExpired(Purge(Run(maxRows, InsertTwice(id, key)), t), t)
  {
    var ops := InsertTwice(id, key);
    var op := ops[0];
    PurgeCleansIff(maxRows, ops);
    hide Purge, NothingExpired;
    assert ops[..1] == [op] && [op][..0] == [];
    var v := Empty(maxRows);
    EmptyInv(maxRows);
    assert Run(maxRows, [op]) == Apply(v, op);
    InsertKeepsInv(v, id, [], key, 0, 0, 0, 1);
    var w := Apply(v, op);
    InsertKeepsInv(w, id, [], key, 0, 0, 0, 1);
    assert Reuses(w, ops[1]);
  }

  // ---------- the blind query ----------

  /** Byte `j` of the exclusive or of the first `k` rows that are selected and occupied. */
  function Answer(m: Matrix, sel: seq<Byte>, k: nat, j: nat): Byte
    requires k <= |m| && k <= |sel| && j < PIR_CELL_SIZE
  {
    if k == 0 then 0
    else
      var before := Answer(m, sel, k - 1, j);
      if sel[k - 1] == 1 && m[k - 1].Some? then XorByte(before, m[k - 1].value.data[j]) else before
  }

  function Query(m: Matrix, sel: seq<Byte>): Row
    requires |sel| == |m|
  {
    seq(PIR_CELL_SIZE, j requires 0 <= j < PIR_CELL_SIZE => Answer(m, sel, |m|, j))
  }

  predicate Binary(s: seq<Byte>) { forall i :: 0 <= i < |s| ==> s[i] == 0 || s[i] == 1 }

  /** Row by row, the exclusive or of the two selectors selects what exactly one of them selects. */
  ghost predicate SelectorsAgree(u: seq<Byte>, v: seq<Byte>)
    requires |u| == |v|
  {
    forall i :: 0 <= i < |u| ==> (XorByte(u[i], v[i]) == 1 <==> ((u[i] == 1) != (v[i] == 1)))
  }

  lemma XorFacts(a: Byte, b: Byte, c: Byte)
    ensures XorByte(XorByte(a, b), c) == XorByte(a, XorByte(b, c))
    ensures XorByte(a, b) == XorByte(b, a)
    ensures XorByte(a, a) == 0 && XorByte(a, 0) == a && XorByte(0, a) == a
  {
    XorAssoc(a, b, c);
    XorComm(a, b);
    XorSelf(a);
    XorZero(a);
    XorComm(0, a);
  }

  lemma XorSwap(a: Byte, b: Byte, c: Byte)
    ensures XorByte(XorByte(a, c), b) == XorByte(XorByte(a, b), c)
    ensures XorByte(XorByte(a, c), XorByte(b, c)) == XorByte(a, b)
  {
    XorFacts(a, c, b);
    XorFacts(a, b, c);
    XorFacts(b, c, 0);
    XorFacts(XorByte(a, c), b, c);
    XorFacts(XorByte(a, b), c, c);
    XorFacts(c, c, 0);
  }

  lemma {:induction false} AnswerLinear(m: Matrix, u: seq<Byte>, v: seq<Byte>, k: nat, j: nat)
    requires |u| == |v| == |m| && k <= |m| && j < PIR_CELL_SIZE && SelectorsAgree(u, v)
    ensures Answer(m, XorBytes(u, v), k, j) == XorByte(Answer(m, u, k, j), Answer(m, v, k, j))
    decreases k
  {
    hide XorByte;
    if k == 0 {
      XorFacts(0, 0, 0);
    } else {
      AnswerLinear(m, u, v, k - 1, j);
      if m[k - 1].Some? {
        var a, b, c := Answer(m, u, k - 1, j), Answer(m, v, k - 1, j), m[k - 1].value.data[j];
        XorFacts(a, b, c);
        XorSwap(a, b, c);
      }
    }
  }

  /** Linearity holds for a pair of selection vectors on every matrix exactly when the selectors agree row
      by row; it does for all binary vectors. */
  ghost predicate Linear(u: seq<Byte>, v: seq<Byte>)
    requires |u| == |v|
  {
    forall m: Matrix :: |m| == |u| ==> Query(m, XorBytes(u, v)) == XorBytes(Query(m, u), Query(m, v))
  }

  lemma LinearIffAgree(u: seq<Byte>, v: seq<Byte>)
    requires |u| == |v|
    ensures Linear(u, v) <==> SelectorsAgree(u, v)
  {
    if SelectorsAgree(u, v) {
      forall m: Matrix | |m| == |u| ensures Query(m, XorBytes(u, v)) == XorBytes(Query(m, u), Query(m, v)) {
        forall j | 0 <= j < PIR_CELL_SIZE
          ensures Query(m, XorBytes(u, v))[j] == XorBytes(Query(m, u), Query(m, v))[j]
        {
          AnswerLinear(m, u, v, |m|, j);
        }
      }
    } else {
      var i :| 0 <= i < |u| && !(XorByte(u[i], v[i]) == 1 <==> ((u[i] == 1) != (v[i] == 1)));
      var m := OneRow(|u|, i);
      OneRowAnswer(|u|, i, u, |u|);
      OneRowAnswer(|u|, i, v, |u|);
      OneRowAnswer(|u|, i, XorBytes(u, v), |u|);
      XorFacts(1, 0, 0);
      var p, q, r := Query(m, u), Query(m, v), Query(m, XorBytes(u, v));
      assert p[0] == (if u[i] == 1 then 1 else 0) && q[0] == (if v[i] == 1 then 1 else 0);
      assert r[0] == (if XorByte(u[i], v[i]) == 1 then 1 else 0);
      assert XorBytes(p, q)[0] == XorByte(p[0], q[0]);
    }
  }

  /** A matrix with one occupied row, all ones. */
  function OneRow(n: nat, i: nat): Matrix
    requires i < n
  {
    seq(n, k => if k == i then Some(Cell(seq(PIR_CELL_SIZE, _ => 1), 0, [], [])) else None)
  }

  lemma {:induction false} OneRowAnswer(n: nat, i: nat, sel: seq<Byte>, k: nat)
    requires i < n && |sel| == n && k <= n
    ensures Answer(OneRow(n, i), sel, k, 0) == if i < k && sel[i] == 1 then 1 else 0
    decreases k
  {
    XorFacts(1, 0, 0);
    if k > 0 { OneRowAnswer(n, i, sel, k - 1); }
  }

  lemma BinaryAgree(u: seq<Byte>, v: seq<Byte>)
    requires |u| == |v| && Binary(u) && Binary(v)
    ensures SelectorsAgree(u, v)
  {
    XorFacts(1, 0, 0);
    XorFacts(0, 1, 0);
  }

  /** PIR linearity for binary selection vectors. */
  lemma QueryLinear(m: Matrix, u: seq<Byte>, v: seq<Byte>)
    requires |u| == |v| == |m| && Binary(u) && Binary(v)
    ensures Query(m, XorBytes(u, v)) == XorBytes(Query(m, u), Query(m, v))
  {
    BinaryAgree(u, v);
    LinearIffAgree(u, v);
  }

  function Unit(n: nat, i: nat): seq<Byte>
    requires i < n
  {
    seq(n, k => if k == i then 1 else 0)
  }

  /** What a row contributes: its data, or zeros if it is empty. */
  function RowOf(m: Matrix, i: nat): Row
    requires i < |m|
  {
    if m[i].Some? then m[i].value.data else Zeros(PIR_CELL_SIZE)
  }

  lemma {:induction false} UnitAnswer(m: Matrix, i: nat, k: nat, j: nat)
    requires i < |m| && k <= |m| && j < PIR_CELL_SIZE
    ensures Answer(m, Unit(|m|, i), k, j) == if i < k then RowOf(m, i)[j] else 0
    decreases k
  {
    if k > 0 {
      UnitAnswer(m, i, k - 1, j);
      if m[k - 1].Some? { XorFacts(m[k - 1].value.data[j], 0, 0); }
    }
  }

  lemma UnitQuery(m: Matrix, i: nat)
    requires i < |m|
    ensures Query(m, Unit(|m|, i)) == RowOf(m, i)
  {
    forall j | 0 <= j < PIR_CELL_SIZE ensures Query(m, Unit(|m|, i))[j] == RowOf(m, i)[j] {
      UnitAnswer(m, i, |m|, j);
    }
  }

  /** The two-query scheme: asking for `v` and for `v` with bit `i` flipped, and combining the answers,
      recovers row `i` whatever `v` is. */
  lemma TwoQueriesRecoverRow(m: Matrix, v: seq<Byte>, i: nat)
    requires |v| == |m| && Binary(v) && i < |m|
    ensures XorBytes(Query(m, v), Query(m, v[i := 1 - v[i]])) == RowOf(m, i)
  {
    var w := v[i := 1 - v[i]];
    XorFacts(1, 0, 0);
    XorFacts(0, 1, 0);
    assert XorBytes(v, w) == Unit(|m|, i);
    QueryLinear(m, v, w);
    UnitQuery(m, i);
  }

  /** A unit query after an insertion returns the shard, padded with zeros. */
  lemma QueryAfterInsert(v: Vault, id: ShardId, data: seq<Byte>, key: SigningKey, now: nat, later: nat, targetEpoch: nat, epochSecs: nat)
    requires Inv(v) && epochSecs > 0 && Insert(v, id, data, key, now, later, targetEpoch, epochSecs).Ok?
    ensures var (w, row) := Insert(v, id, data, key, now, later, targetEpoch, epochSecs).value;
            && row < |w.matrix| == |v.matrix|
            && |data| <= 512 && Query(w.matrix, Unit(|w.matrix|, row)) == data + Zeros(512 - |data|)
  {
    var (w, row) := Insert(v, id, data, key, now, later, targetEpoch, epochSecs).value;
    UnitQuery(w.matrix, row);
  }

  /** A shard lives for 48 hours from the second reading of the clock: a purge at time `t` finds it gone, with
      its id, exactly when that time has passed. Cells that have not expired stay as they are. */
  lemma InsertedShardLivesOut(v: Vault, id: ShardId, data: seq<Byte>, key: SigningKey, now: nat, later: nat, targetEpoch: nat,
                              epochSecs: nat, t: nat)
    requires Inv(v) && epochSecs > 0 && Insert(v, id, data, key, now, later, targetEpoch, epochSecs).Ok?
    ensures var (w, row) := Insert(v, id, data, key, now, later, targetEpoch, epochSecs).value;
            && Inv(w) && row < |w.matrix| == |Purge(w, t).matrix|
            && (Purge(w, t).matrix[row] == None <==> t >= later + 172_800)
            && (id in Purge(w, t).index <==> t < later + 172_800)
            && (forall i :: 0 <= i < |v.matrix| && i != row && v.matrix[i].Some? && !Expired(v.matrix[i].value, t) ==>
                  Purge(w, t).matrix[i] == v.matrix[i])
  {
    InsertKeepsInv(v, id, data, key, now, later, targetEpoch, epochSecs);
    var (w, row) := Insert(v, id, data, key, now, later, targetEpoch, epochSecs).value;
    PurgeExact(w, t);
    assert w.index[id] == row && w.matrix[row].value.insertedAt == later;
    assert Indexed(w, row) by { assert id in w.index && w.index[id] == row; }
    hide Purge, FirstEmpty, Inv;
  }

  // ---------- the nearest node ----------

  /** The first of the nodes at the least distance: no node is nearer, none before it as near. Distances are
      compared as arrays of bytes, which is comparing the exclusive or as a 256-bit number. */
  ghost predicate IsNearest(id: seq<Byte>, nodes: seq<seq<Byte>>, best: nat)
    requires best < |nodes| && forall n :: n in nodes ==> |n| == |id|
  {
    && (forall i :: 0 <= i < |nodes| ==> Distance(id, nodes[best]) <= Distance(id, nodes[i]))
    && (forall i :: 0 <= i < best ==> Distance(id, nodes[best]) < Distance(id, nodes[i]))
  }

  function Distance(a: seq<Byte>, b: seq<Byte>): nat { Xor(BigEndian(a), BigEndian(b)) }

  method XorDistance(a: seq<Byte>, b: seq<Byte>) returns (d: seq<Byte>)
    requires |a| == |b|
    ensures d == XorBytes(a, b)
  {
    d := Zeros(|a|);
    for i := 0 to |a|
      invariant |d| == |a| && forall j :: 0 <= j < i ==> d[j] == XorByte(a[j], b[j])
    {
      d := d[i := XorByte(a[i], b[i])];
    }
  }

  method FindNearestNode(id: seq<Byte>, nodes: seq<seq<Byte>>) returns (r: Option<nat>)
    requires forall n :: n in nodes ==> |n| == |id|
    ensures r.None? <==> nodes == []
    ensures r.Some? ==> r.value < |nodes| && IsNearest(id, nodes, r.value)
  {
    hide Xor, XorBytes, BigEndian, LexLess;
    if nodes == [] {
      return None;
    }
    var best := 0;
    assert nodes[0] in nodes;
    var bestDistance := XorDistance(id, nodes[0]);
    BigEndianXor(id, nodes[0]);
    for i := 1 to |nodes|
      invariant best < i && bestDistance == XorBytes(id, nodes[best])
      invariant BigEndian(bestDistance) == Distance(id, nodes[best])
      invariant forall j :: 0 <= j < i ==> Distance(id, nodes[best]) <= Distance(id, nodes[j])
      invariant forall j :: 0 <= j < best ==> Distance(id, nodes[best]) < Distance(id, nodes[j])
    {
      assert nodes[i] in nodes;
      var dist := XorDistance(id, nodes[i]);
      BigEndianXor(id, nodes[i]);
      LexIsNumeric(dist, bestDistance);
      if LexLess(dist, bestDistance) {
        bestDistance := dist;
        best := i;
      }
    }
    r := Some(best);
  }

  // ---------- the code ----------

  class ZipPirVault {
    const matrix: array<Option<Cell>>
    var index: map<ShardId, nat>
    var activeRows: nat

    ghost function View(): Vault
      reads this, matrix
    {
      Vault(matrix[..], index, activeRows)
    }

    ghost predicate Valid()
      reads this, matrix
    {
      Inv(View())
    }

    constructor WithCapacity(maxRows: nat)
      ensures Valid() && fresh(matrix) && View() == Empty(maxRows)
    {
      matrix := new Option<Cell>[maxRows](_ => None);
      index, activeRows := map[], 0;
      new;
      EmptyInv(maxRows);
      assert matrix[..] == Empty(maxRows).matrix;
    }

    /** `insert_shard`. */
    method InsertShard(id: ShardId, data: seq<Byte>, key: SigningKey, now: nat, later: nat, targetEpoch: nat, epochSecs: nat)
        returns (r: Result<nat, VaultError>)
      requires Valid() && epochSecs > 0
      modifies this, matrix
      ensures Valid()
      ensures match Insert(old(View()), id, data, key, now, later, targetEpoch, epochSecs)
              case Ok((w, row)) => r == Ok(row) && View() == w
              case Err(e) => r == Err(e) && View() == old(View())
    {
      InsertKeepsInv(View(), id, data, key, now, later, targetEpoch, epochSecs);
      var currentEpoch := now / epochSecs;
      if targetEpoch != currentEpoch {
        if targetEpoch == SatSub(currentEpoch, 1) {
          var flipTime := currentEpoch * epochSecs;
          if now > flipTime + WRITE_GRACE_SECS {
            return Err(StaleEpoch);
          }
        } else {
          return Err(StaleEpoch);
        }
      }
      if |data| > PIR_CELL_SIZE {
        return Err(TooLarge);
      }
      if activeRows >= matrix.Length {
        return Err(MatrixFull);
      }
      var row := Position();
      if row == matrix.Length {
        return Err(NoEmptySlot);
      }
      var cell: Row := data + Zeros(PIR_CELL_SIZE - |data|);
      var signature := key.sign(id + cell);
      matrix[row] := Some(Cell(cell, later, signature, key.publicKey));
      index := index[id := row];
      activeRows := activeRows + 1;
      r := Ok(row);
    }

    method Position() returns (row: nat)
      ensures row == FirstEmpty(matrix[..])
    {
      row := 0;
      while row < matrix.Length && matrix[row].Some?
        invariant row <= matrix.Length && forall j :: 0 <= j < row ==> matrix[j].Some?
      {
        row := row + 1;
      }
      FirstEmptyIs(matrix[..], row);
    }

    /** `blind_query`: the selected rows, combined byte by byte. */
    method BlindQuery(sel: seq<Byte>) returns (r: Result<Row, VaultError>)
      ensures r == if |sel| != matrix.Length then Err(WrongLength) else Ok(Query(matrix[..], sel))
    {
      if |sel| != matrix.Length {
        return Err(WrongLength);
      }
      var result := new Byte[PIR_CELL_SIZE](_ => 0);
      for i := 0 to matrix.Length
        modifies result
        invariant forall j :: 0 <= j < PIR_CELL_SIZE ==> result[j] == Answer(matrix[..], sel, i, j)
      {
        if sel[i] == 1 && matrix[i].Some? {
          ghost var before := result[..];
          var row := matrix[i].value.data;
          for j := 0 to PIR_CELL_SIZE
            modifies result
            invariant forall k :: 0 <= k < j ==> result[k] == XorByte(before[k], row[k])
            invariant forall k :: j <= k < PIR_CELL_SIZE ==> result[k] == before[k]
          {
            result[j] := XorByte(result[j], row[j]);
          }
        }
      }
      assert result[..] == Query(matrix[..], sel);
      r := Ok(result[..]);
    }

    /** `guillotine_purge`: the expired ids are removed in whatever order the index yields them. */
    method GuillotinePurge(now: nat) returns (purged: nat)
      requires Valid()
      modifies this, matrix
      ensures Valid() && View() == Purge(old(View()), now) && purged == |ExpiredIds(old(View()), now)|
    {
      InvInRange(View());
      var expired := ExpiredNow(now);
      purged := RemoveAll(expired);
    }

    method RemoveAll(expired: set<ShardId>) returns (purged: nat)
      requires Valid() && expired <= index.Keys
      modifies this, matrix
      ensures Valid() && View() == Without(old(View()), expired) && purged == |expired|
    {
      hide Inv, RemoveOne, Without;
      ghost var start := View();
      var rest := expired;
      purged := 0;
      ghost var gone: set<ShardId> := {};
      WithoutNothing(start);
      while rest != {}
        invariant Valid() && View() == Without(start, gone) && index == start.index - gone
        invariant gone !! rest && gone + rest == expired && purged == |gone|
        decreases |rest|
      {
        var id :| id in rest;
        RemoveOneMore(start, gone, id);
        RemoveShard(id);
        purged := purged + 1;
        rest := rest - {id};
        gone := gone + {id};
      }
      assert gone == expired;
    }

    /** One round of the purge. */
    method RemoveShard(id: ShardId)
      requires Valid() && id in index
      modifies this, matrix
      ensures Valid() && View() == RemoveOne(old(View()), id)
    {
      RemoveOneKeepsInv(View(), id);
      hide Inv;
      ghost var next := RemoveOne(View(), id);
      matrix[index[id]] := None;
      index := index - {id};
      activeRows := SatSub(activeRows, 1);
      assert View() == next;
    }

    /** Collects the ids of the expired cells. */
    method ExpiredNow(now: nat) returns (ids: set<ShardId>)
      requires Valid()
      ensures ids == ExpiredIds(View(), now)
    {
      ids := set id | id in index && matrix[index[id]].Some? && Expired(matrix[index[id]].value, now);
    }

    /** `verify_shard`, for any verification function. */
    method VerifyShard(id: ShardId, verify: (seq<Byte>, seq<Byte>, seq<Byte>) -> bool) returns (r: Result<bool, VaultError>)
      requires Valid()
      ensures r == Verify(View(), id, verify) && r != Err(EmptyCell)
    {
      if id !in index {
        return Err(ShardNotFound);
      }
      var cell := matrix[index[id]];
      if cell == None {
        return Err(EmptyCell);
      }
      if !verify(id + cell.value.data, cell.value.signature, cell.value.signerPk) {
        return Err(BadSignature);
      }
      r := Ok(true);
    }

    method ActiveCount() returns (n: nat)
      requires Valid()
      ensures n == CountSome(matrix[..])
    {
      n := activeRows;
    }
  }

  function Verify(v: Vault, id: ShardId, verify: (seq<Byte>, seq<Byte>, seq<Byte>) -> bool): Result<bool, VaultError>
    requires forall id :: id in v.index ==> v.index[id] < |v.matrix|
  {
    if id !in v.index then Err(ShardNotFound)
    else
      match v.matrix[v.index[id]]
      case None => Err(EmptyCell)
      case Some(cell) => if verify(id + cell.data, cell.signature, cell.signerPk) then Ok(true) else Err(BadSignature)
  }

  /** The verdict: true exactly for an indexed id whose cell's signature verifies, under the signer stored with it,
      over the id followed by the 512 bytes of the cell; a bad signature exactly when it does not; not found
      exactly for an id that is not indexed. */
  lemma VerifyExact(v: Vault, id: ShardId, verify: (seq<Byte>, seq<Byte>, seq<Byte>) -> bool)
    requires Inv(v)
    ensures Verify(v, id, verify) == Err(ShardNotFound) <==> id !in v.index
    ensures id in v.index ==>
              var row := v.index[id];
              && row < |v.matrix| && v.matrix[row].Some? && |v.matrix[row].value.data| == 512
              && var c := v.matrix[row].value;
                 Verify(v, id, verify) == if verify(id + c.data, c.signature, c.signerPk) then Ok(true) else Err(BadSignature)
  {
  }

  /** With a matching pair of signing and verification functions, a shard verifies right after its insertion,
      and the insertion changes the verdict on no other id. */
  lemma InsertedShardVerifies(v: Vault, id: ShardId, other: ShardId, data: seq<Byte>, key: SigningKey, now: nat, later: nat,
                              targetEpoch: nat, epochSecs: nat, verify: (seq<Byte>, seq<Byte>, seq<Byte>) -> bool)
    requires Inv(v) && epochSecs > 0 && Insert(v, id, data, key, now, later, targetEpoch, epochSecs).Ok?
    requires forall msg :: verify(msg, key.sign(msg), key.publicKey)
    ensures var w := Insert(v, id, data, key, now, later, targetEpoch, epochSecs).value.0;
            && Inv(w) && Verify(w, id, verify) == Ok(true)
            && (other != id ==> Verify(w, other, verify) == Verify(v, other, verify))
  {
    InsertKeepsInv(v, id, data, key, now, later, targetEpoch, epochSecs);
  }

  lemma InvInRange(v: Vault)
    requires Inv(v)
    ensures forall id :: id in v.index ==> v.index[id] < |v.matrix|
  {
  }

  lemma WithoutNothing(v: Vault)
    ensures Without(v, {}) == v
  {
    assert Without(v, {}).matrix == v.matrix;
    assert v.index - {} == v.index;
  }
}
