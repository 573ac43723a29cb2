/**
 The delta encoder of src/delta/encode/mod.rs: a plan of copy and data operations built from
 the callbacks of a diff algorithm, then written as a delta stream.
 */
module DeltaEncode {
  import opened Basics
  import opened DeltaFormat

  /** Longest literal one data instruction holds. */
  const DATA_INS_LEN: nat := 0x7f

  const OFFSET_BOUND: nat := 0x1_0000_0000
  const SIZE_BOUND: nat := 0x100_0000

  datatype OpType = DataOp | CopyOp

  datatype DeltaOp = DeltaOp(ins: OpType, begin: nat, len: nat)

  /** What the diff algorithm reports: runs of equal, removed and added bytes. */
  datatype Callback =
    | EqualRun(oldAt: nat, newAt: nat, len: nat)
    | DeleteRun(oldAt: nat, len: nat)
    | InsertRun(oldAt: nat, newAt: nat, len: nat)

  // ---------------------------------------------------------------- plans

  predicate InRange(op: DeltaOp, oldData: bytes, newData: bytes) {
    && op.len > 0
    && op.begin + op.len <= (if op.ins.CopyOp? then |oldData| else |newData|)
    && (op.ins.DataOp? ==> op.len <= DATA_INS_LEN)
  }

  /** The bytes an operation stands for. */
  function Contribution(op: DeltaOp, oldData: bytes, newData: bytes): (r: bytes)
    requires InRange(op, oldData, newData)
    ensures |r| == op.len
  {
    if op.ins.CopyOp? then oldData[op.begin..op.begin + op.len] else newData[op.begin..op.begin + op.len]
  }

  predicate PlanInRange(ops: seq<DeltaOp>, oldData: bytes, newData: bytes) {
    forall i :: 0 <= i < |ops| ==> InRange(ops[i], oldData, newData)
  }

  function Rebuilt(ops: seq<DeltaOp>, oldData: bytes, newData: bytes): bytes
    requires PlanInRange(ops, oldData, newData)
  {
    if ops == [] then []
    else Contribution(ops[0], oldData, newData) + Rebuilt(ops[1..], oldData, newData)
  }

  /** Copies that continue each other have been merged into one. */
  ghost predicate CopiesMerged(ops: seq<DeltaOp>) {
    forall i :: 0 <= i < |ops| - 1 ==> !Continues(ops[i], ops[i + 1])
  }

  ghost predicate Continues(a: DeltaOp, b: DeltaOp) {
    a.ins.CopyOp? && b.ins.CopyOp? && a.begin + a.len == b.begin
  }

  lemma {:induction false} RebuiltSnoc(ops: seq<DeltaOp>, op: DeltaOp, oldData: bytes, newData: bytes)
    requires PlanInRange(ops, oldData, newData) && InRange(op, oldData, newData)
    ensures PlanInRange(ops + [op], oldData, newData)
    ensures Rebuilt(ops + [op], oldData, newData)
         == Rebuilt(ops, oldData, newData) + Contribution(op, oldData, newData)
  {
    var all := ops + [op];
    if ops == [] {
      assert all[1..] == [];
    } else {
      RebuiltSnoc(ops[1..], op, oldData, newData);
      assert all[1..] == ops[1..] + [op];
    }
  }

  /** Adding an operation, or growing the last one, extends what the plan rebuilds. */
  lemma Extends(ops: seq<DeltaOp>, op: DeltaOp, oldData: bytes, newData: bytes, upto: nat)
    requires PlanInRange(ops, oldData, newData) && InRange(op, oldData, newData)
    requires upto + op.len <= |newData|
    requires Rebuilt(ops, oldData, newData) == newData[..upto]
    requires Contribution(op, oldData, newData) == newData[upto..upto + op.len]
    ensures PlanInRange(ops + [op], oldData, newData)
    ensures Rebuilt(ops + [op], oldData, newData) == newData[..upto + op.len]
  {
    RebuiltSnoc(ops, op, oldData, newData);
  }

  /** The operation lengthened by `len` bytes. */
  function Longer(op: DeltaOp, len: nat): DeltaOp {
    op.(len := op.len + len)
  }

  lemma Grows(ops: seq<DeltaOp>, op: DeltaOp, len: nat, oldData: bytes, newData: bytes, upto: nat)
    requires PlanInRange(ops, oldData, newData)
    requires InRange(op, oldData, newData) && InRange(Longer(op, len), oldData, newData)
    requires upto + len <= |newData|
    requires PlanInRange(ops + [op], oldData, newData) && Rebuilt(ops + [op], oldData, newData) == newData[..upto]
    requires Contribution(Longer(op, len), oldData, newData)[op.len..] == newData[upto..upto + len]
    ensures PlanInRange(ops + [Longer(op, len)], oldData, newData)
    ensures Rebuilt(ops + [Longer(op, len)], oldData, newData) == newData[..upto + len]
  {
    hide Rebuilt;
    RebuiltSnoc(ops, op, oldData, newData);
    RebuiltSnoc(ops, Longer(op, len), oldData, newData);
    var c := Contribution(Longer(op, len), oldData, newData);
    assert c[..op.len] == Contribution(op, oldData, newData);
    hide Contribution, InRange;
    JoinSplit(Rebuilt(ops, oldData, newData), c, op.len, newData, upto, len);
  }

  lemma JoinSplit(a: bytes, c: bytes, k: nat, target: bytes, upto: nat, len: nat)
    requires k <= |c| && upto + len <= |target|
    requires a + c[..k] == target[..upto] && c[k..] == target[upto..upto + len]
    ensures a + c == target[..upto + len]
  {
    assert a + c == a + c[..k] + c[k..];
  }

  // ---------------------------------------------------------------- the plan of a script

  /** An equal run lengthens the copy it continues, or becomes a copy. */
  function AfterEqual(ops: seq<DeltaOp>, oldAt: nat, len: nat): seq<DeltaOp> {
    var n := |ops| - 1;
    if n >= 0 && ops[n].begin + ops[n].len == oldAt && ops[n].ins.CopyOp? then ops[..n] + [Longer(ops[n], len)]
    else ops + [DeltaOp(CopyOp, oldAt, len)]
  }

  /** Literals of 127 bytes, and what is left over. */
  function Literals(newAt: nat, len: nat): seq<DeltaOp>
    decreases len
  {
    if len > DATA_INS_LEN then [DeltaOp(DataOp, newAt, DATA_INS_LEN)] + Literals(newAt + DATA_INS_LEN, len - DATA_INS_LEN)
    else [DeltaOp(DataOp, newAt, len)]
  }

  lemma LiteralsStep(ops: seq<DeltaOp>, newAt: nat, len: nat)
    ensures len > DATA_INS_LEN ==>
      ops + Literals(newAt, len) == ops + [DeltaOp(DataOp, newAt, DATA_INS_LEN)] + Literals(newAt + DATA_INS_LEN, len - DATA_INS_LEN)
    ensures len <= DATA_INS_LEN ==> Literals(newAt, len) == [DeltaOp(DataOp, newAt, len)]
  {
  }

  /** A short inserted run joins the literal it continues while that stays below 127 bytes; any other becomes literals. */
  function AfterInsert(ops: seq<DeltaOp>, newAt: nat, len: nat): seq<DeltaOp> {
    var n := |ops| - 1;
    if len <= DATA_INS_LEN && n >= 0 && ops[n].begin + ops[n].len == newAt && ops[n].ins.DataOp? && ops[n].len + len < DATA_INS_LEN
    then ops[..n] + [Longer(ops[n], len)]
    else ops + Literals(newAt, len)
  }

  function AfterCallback(ops: seq<DeltaOp>, c: Callback): seq<DeltaOp> {
    match c
    case EqualRun(o, _, len) => AfterEqual(ops, o, len)
    case DeleteRun(_, _) => ops
    case InsertRun(_, n, len) => AfterInsert(ops, n, len)
  }

  /** The operations a sequence of callbacks leads to. */
  function PlanOf(script: seq<Callback>): seq<DeltaOp> {
    if script == [] then [] else AfterCallback(PlanOf(script[..|script| - 1]), script[|script| - 1])
  }

  /** Literals that continue each other could not have been one: together they have at least 127 bytes. */
  ghost predicate LiteralsPacked(ops: seq<DeltaOp>) {
    forall i :: 0 <= i < |ops| - 1 ==> PairPacked(ops[i], ops[i + 1])
  }

  ghost predicate PairPacked(a: DeltaOp, b: DeltaOp) {
    a.ins.DataOp? && b.ins.DataOp? && a.begin + a.len == b.begin ==> a.len + b.len >= 127
  }

  /** A run becomes as few literals as hold it. */
  lemma {:induction false} LiteralsFew(newAt: nat, len: nat)
    requires len > 0
    ensures |Literals(newAt, len)| == (len + 126) / 127
    decreases len
  {
    if len > 127 { LiteralsFew(newAt + 127, len - 127); }
  }

  lemma {:induction false} LiteralsPack(newAt: nat, len: nat)
    ensures LiteralsPacked(Literals(newAt, len)) && |Literals(newAt, len)| > 0 && Literals(newAt, len)[0] == DeltaOp(DataOp, newAt, Min(len, 127))
    decreases len
  {
    if len > DATA_INS_LEN {
      LiteralsPack(newAt + DATA_INS_LEN, len - DATA_INS_LEN);
      PackedJoin([DeltaOp(DataOp, newAt, DATA_INS_LEN)], Literals(newAt + DATA_INS_LEN, len - DATA_INS_LEN));
    }
  }

  lemma PackedJoin(a: seq<DeltaOp>, b: seq<DeltaOp>)
    requires LiteralsPacked(a) && LiteralsPacked(b) && (a != [] && b != [] ==> PairPacked(a[|a| - 1], b[0]))
    ensures LiteralsPacked(a + b)
  {
    hide PairPacked;
    var c := a + b;
    forall i | 0 <= i < |c| - 1 ensures PairPacked(c[i], c[i + 1]) {
      if i >= |a| { assert PairPacked(b[i - |a|], b[i - |a| + 1]); }
    }
  }

  lemma PackedGrow(ops: seq<DeltaOp>, len: nat)
    requires LiteralsPacked(ops) && ops != []
    ensures LiteralsPacked(ops[..|ops| - 1] + [Longer(ops[|ops| - 1], len)])
  {
    var n := |ops| - 1;
    var c := ops[..n] + [Longer(ops[n], len)];
    forall i | 0 <= i < |c| - 1 ensures PairPacked(c[i], c[i + 1]) {
      assert PairPacked(ops[i], ops[i + 1]);
    }
  }

  /** However the runs are reported, neighbouring literals are packed. */
  lemma {:induction false} PlanPacked(script: seq<Callback>)
    ensures LiteralsPacked(PlanOf(script))
  {
    hide LiteralsPacked, Literals;
    if script == [] {
      NothingPacked();
      return;
    }
    var front, c := script[..|script| - 1], script[|script| - 1];
    PlanPacked(front);
    var ops := PlanOf(front);
    if ops != [] && c.EqualRun? { PackedGrow(ops, c.len); }
    if ops != [] && c.InsertRun? { PackedGrow(ops, c.len); }
    if c.EqualRun? {
      OnePacked(DeltaOp(CopyOp, c.oldAt, c.len));
      PackedJoin(ops, [DeltaOp(CopyOp, c.oldAt, c.len)]);
    }
    if c.InsertRun? && PlanOf(script) == ops + Literals(c.newAt, c.len) {
      LiteralsPack(c.newAt, c.len);
      InsertPair(ops, c.newAt, c.len);
      PackedJoin(ops, Literals(c.newAt, c.len));
    }
  }

  lemma NothingPacked()
    ensures LiteralsPacked([])
  {
  }

  lemma OnePacked(op: DeltaOp)
    ensures LiteralsPacked([op])
  {
  }

  lemma InsertPair(ops: seq<DeltaOp>, newAt: nat, len: nat)
    requires AfterInsert(ops, newAt, len) == ops + Literals(newAt, len) && |Literals(newAt, len)| > 0
    requires Literals(newAt, len)[0] == DeltaOp(DataOp, newAt, Min(len, 127))
    ensures ops != [] ==> PairPacked(ops[|ops| - 1], Literals(newAt, len)[0])
  {
    hide Literals;
    if ops != [] {
      var n := |ops| - 1;
      var joined := ops[..n] + [Longer(ops[n], len)];
      assert |joined| == |ops| < |ops + Literals(newAt, len)|;
    }
  }

  /** The plan rebuilds the first `upto` bytes of the new data, with copies merged. */
  ghost predicate Covering(ops: seq<DeltaOp>, oldData: bytes, newData: bytes, upto: nat) {
    && upto <= |newData|
    && PlanInRange(ops, oldData, newData)
    && Rebuilt(ops, oldData, newData) == newData[..upto]
    && CopiesMerged(ops)
  }

  lemma PushCovers(ops: seq<DeltaOp>, op: DeltaOp, oldData: bytes, newData: bytes, upto: nat)
    requires Covering(ops, oldData, newData, upto) && upto + op.len <= |newData| && InRange(op, oldData, newData)
    requires Contribution(op, oldData, newData) == newData[upto..upto + op.len]
    requires |ops| > 0 ==> !Continues(ops[|ops| - 1], op)
    ensures Covering(ops + [op], oldData, newData, upto + op.len)
  {
    Extends(ops, op, oldData, newData, upto);
    hide Rebuilt, Contribution, InRange;
  }

  lemma GrowCovers(ops: seq<DeltaOp>, len: nat, oldData: bytes, newData: bytes, upto: nat)
    requires Covering(ops, oldData, newData, upto) && upto + len <= |newData| && |ops| > 0
    requires var grown := Longer(ops[|ops| - 1], len);
      && InRange(grown, oldData, newData)
      && Contribution(grown, oldData, newData)[ops[|ops| - 1].len..] == newData[upto..upto + len]
    ensures Covering(ops[..|ops| - 1] + [Longer(ops[|ops| - 1], len)], oldData, newData, upto + len)
  {
    var n := |ops| - 1;
    assert ops == ops[..n] + [ops[n]];
    Grows(ops[..n], ops[n], len, oldData, newData, upto);
    hide Rebuilt, Contribution, InRange;
  }

  lemma EqualCovers(ops: seq<DeltaOp>, oldAt: nat, len: nat, oldData: bytes, newData: bytes, upto: nat)
    requires Covering(ops, oldData, newData, upto) && len > 0 && oldAt + len <= |oldData| && upto + len <= |newData|
    requires oldData[oldAt..oldAt + len] == newData[upto..upto + len]
    ensures Covering(AfterEqual(ops, oldAt, len), oldData, newData, upto + len)
  {
    hide Rebuilt, CopiesMerged;
    var n := |ops| - 1;
    if n >= 0 && ops[n].begin + ops[n].len == oldAt && ops[n].ins.CopyOp? {
      GrowCovers(ops, len, oldData, newData, upto);
    } else {
      PushCovers(ops, DeltaOp(CopyOp, oldAt, len), oldData, newData, upto);
    }
  }

  lemma LiteralCovers(ops: seq<DeltaOp>, len: nat, oldData: bytes, newData: bytes, upto: nat)
    requires Covering(ops, oldData, newData, upto) && 0 < len <= DATA_INS_LEN && upto + len <= |newData|
    ensures Covering(ops + [DeltaOp(DataOp, upto, len)], oldData, newData, upto + len)
  {
    hide Rebuilt, CopiesMerged;
    PushCovers(ops, DeltaOp(DataOp, upto, len), oldData, newData, upto);
  }

  lemma {:induction false} LiteralsCover(ops: seq<DeltaOp>, len: nat, oldData: bytes, newData: bytes, upto: nat)
    requires Covering(ops, oldData, newData, upto) && len > 0 && upto + len <= |newData|
    ensures Covering(ops + Literals(upto, len), oldData, newData, upto + len)
    decreases len
  {
    hide Covering;
    if len > DATA_INS_LEN {
      var op := DeltaOp(DataOp, upto, DATA_INS_LEN);
      LiteralCovers(ops, DATA_INS_LEN, oldData, newData, upto);
      LiteralsCover(ops + [op], len - DATA_INS_LEN, oldData, newData, upto + DATA_INS_LEN);
      assert ops + [op] + Literals(upto + DATA_INS_LEN, len - DATA_INS_LEN) == ops + Literals(upto, len);
    } else {
      LiteralCovers(ops, len, oldData, newData, upto);
    }
  }

  lemma InsertCovers(ops: seq<DeltaOp>, len: nat, oldData: bytes, newData: bytes, upto: nat)
    requires Covering(ops, oldData, newData, upto) && len > 0 && upto + len <= |newData|
    ensures Covering(AfterInsert(ops, upto, len), oldData, newData, upto + len)
  {
    hide Rebuilt, CopiesMerged, Literals;
    var n := |ops| - 1;
    if len <= DATA_INS_LEN && n >= 0 && ops[n].begin + ops[n].len == upto && ops[n].ins.DataOp? && ops[n].len + len < DATA_INS_LEN {
      GrowCovers(ops, len, oldData, newData, upto);
    } else {
      LiteralsCover(ops, len, oldData, newData, upto);
    }
  }

  lemma {:induction false} PlanCoversFrom(script: seq<Callback>, i: nat, oldData: bytes, newData: bytes, upto: nat)
    requires i <= |script| && Covering(PlanOf(script[..i]), oldData, newData, upto)
    requires ValidCallbacks(script[i..], oldData, newData, upto)
    ensures Covering(PlanOf(script), oldData, newData, |newData|)
    decreases |script| - i
  {
    hide Covering, AfterEqual, AfterInsert;
    if i == |script| {
      assert script[..i] == script;
    } else {
      var ops := PlanOf(script[..i]);
      assert script[i..][0] == script[i] && script[i..][1..] == script[i + 1..] && script[..i + 1][..i] == script[..i];
      match script[i]
      case EqualRun(o, n, len) =>
        EqualCovers(ops, o, len, oldData, newData, upto);
        PlanCoversFrom(script, i + 1, oldData, newData, upto + len);
      case DeleteRun(_, _) =>
        PlanCoversFrom(script, i + 1, oldData, newData, upto);
      case InsertRun(_, n, len) =>
        InsertCovers(ops, len, oldData, newData, upto);
        PlanCoversFrom(script, i + 1, oldData, newData, upto + len);
    }
  }

  /** For every valid callback sequence the plan rebuilds the new data from literals of 1 to 127 bytes and merged copies. */
  lemma PlanCovers(script: seq<Callback>, oldData: bytes, newData: bytes)
    requires ValidCallbacks(script, oldData, newData, 0)
    ensures PlanInRange(PlanOf(script), oldData, newData) && CopiesMerged(PlanOf(script))
    ensures Rebuilt(PlanOf(script), oldData, newData) == newData
  {
    assert script[..0] == [] && script[0..] == script && newData[..|newData|] == newData;
    PlanCoversFrom(script, 0, oldData, newData, 0);
  }

  // ---------------------------------------------------------------- callbacks

  class DeltaDiff {
    var ops: seq<DeltaOp>
    const oldData: bytes
    const newData: bytes
    var ssam: nat

    constructor (oldData: bytes, newData: bytes)
      ensures this.oldData == oldData && this.newData == newData && ops == [] && ssam == 0
    {
      this.oldData, this.newData := oldData, newData;
      ops, ssam := [], 0;
    }

    method Equal(oldAt: nat, newAt: nat, len: nat)
      modifies this
      ensures ops == AfterEqual(old(ops), oldAt, len) && ssam == old(ssam) + len
    {
      ssam := ssam + len;
      if |ops| > 0 {
        var tail := ops[|ops| - 1];
        if tail.begin + tail.len == oldAt && tail.ins.CopyOp? {
          ops := ops[|ops| - 1 := Longer(tail, len)];
        } else {
          ops := ops + [DeltaOp(CopyOp, oldAt, len)];
        }
      } else {
        ops := ops + [DeltaOp(CopyOp, oldAt, len)];
      }
    }

    method Insert(oldAt: nat, newAt: nat, len: nat)
      modifies this
      ensures ops == AfterInsert(old(ops), newAt, len) && ssam == old(ssam)
    {
      hide Literals;
      var left: nat, from: nat := len, newAt;
      LiteralsStep(ops, from, left);
      if len > DATA_INS_LEN {
        while left > DATA_INS_LEN
          invariant ssam == old(ssam) && ops + Literals(from, left) == old(ops) + Literals(newAt, len)
        {
          LiteralsStep(ops, from, left);
          ops := ops + [DeltaOp(DataOp, from, DATA_INS_LEN)];
          left := left - DATA_INS_LEN;
          from := from + DATA_INS_LEN;
        }
        LiteralsStep(ops, from, left);
        ops := ops + [DeltaOp(DataOp, from, left)];
      } else if |ops| > 0 {
        var tail := ops[|ops| - 1];
        if tail.begin + tail.len == newAt && tail.ins.DataOp? && tail.len + len < DATA_INS_LEN {
          ops := ops[|ops| - 1 := Longer(tail, len)];
        } else {
          ops := ops + [DeltaOp(DataOp, from, left)];
        }
      } else {
        ops := ops + [DeltaOp(DataOp, from, left)];
      }
    }

    /** The whole stream: both sizes, then every operation. */
    method Encode() returns (result: bytes)
      requires PlanInRange(ops, oldData, newData) && |oldData| < USIZE_BOUND && |newData| < USIZE_BOUND
      ensures result == EncodedStream(ops, oldData, newData)
    {
      var v := WriteSizeEncoding(|oldData|);
      var w := WriteSizeEncoding(|newData|);
      result := AppendOps(v + w, ops, oldData, newData);
    }
  }

  /** The loop over the operations, appending to what is already in the stream. */
  method AppendOps(prefix: bytes, ops: seq<DeltaOp>, oldData: bytes, newData: bytes) returns (result: bytes)
    requires PlanInRange(ops, oldData, newData)
    ensures result == prefix + EncodedOps(ops, oldData, newData)
  {
    result := prefix;
    assert ops[0..] == ops;
    for i := 0 to |ops|
      invariant result + EncodedOps(ops[i..], oldData, newData) == prefix + EncodedOps(ops, oldData, newData)
    {
      hide EncodedOps, EncodedOp, InRange;
      var op := EncodeOp(ops[i], oldData, newData);
      EncodedOpsAt(ops, i, oldData, newData);
      assert result + (op + EncodedOps(ops[i + 1..], oldData, newData))
          == result + op + EncodedOps(ops[i + 1..], oldData, newData);
      result := result + op;
    }
  }

  /** The runs of a diff in order: they walk through both inputs and miss no byte of the new one. */
  ghost predicate ValidCallbacks(script: seq<Callback>, oldData: bytes, newData: bytes, upto: nat) {
    if script == [] then upto == |newData|
    else match script[0]
      case EqualRun(o, n, len) =>
        && len > 0 && n == upto && o + len <= |oldData| && n + len <= |newData|
        && oldData[o..o + len] == newData[n..n + len]
        && ValidCallbacks(script[1..], oldData, newData, upto + len)
      case DeleteRun(_, _) => ValidCallbacks(script[1..], oldData, newData, upto)
      case InsertRun(_, n, len) =>
        && len > 0 && n == upto && n + len <= |newData|
        && ValidCallbacks(script[1..], oldData, newData, upto + len)
  }

  /** Number of bytes reported equal. */
  function EqualBytes(script: seq<Callback>): nat {
    if script == [] then 0
    else (if script[0].EqualRun? then script[0].len else 0) + EqualBytes(script[1..])
  }

  /**
   Drives the callbacks as the diff algorithm does, then encodes the plan. The stream decodes to the
   new data exactly when every copy of the script's plan fits its operand bytes; while the old data
   is shorter than 2^24 bytes it always does.
   */
  method EncodeDelta(oldData: bytes, newData: bytes, script: seq<Callback>)
      returns (stream: bytes, plan: seq<DeltaOp>, ssam: nat)
    requires |oldData| < USIZE_BOUND && |newData| < USIZE_BOUND
    requires ValidCallbacks(script, oldData, newData, 0)
    ensures plan == PlanOf(script) && ssam == EqualBytes(script)
    ensures PlanInRange(plan, oldData, newData) && Rebuilt(plan, oldData, newData) == newData && CopiesMerged(plan)
    ensures stream == EncodedStream(plan, oldData, newData)
    ensures Decode(stream, oldData) == Some(newData) <==> AllCopiesFit(plan, oldData, newData)
    ensures |oldData| <= OFFSET_BOUND ==> (Decode(stream, oldData) == Some(newData) <==> CopiesShort(plan))
    ensures |oldData| < SIZE_BOUND ==> Decode(stream, oldData) == Some(newData)
  {
    PlanCovers(script, oldData, newData);
    hide Rebuilt, InRange, Decode, EncodedStream, AllCopiesFit, ValidCallbacks, CopiesMerged, CopiesShort, AfterCallback;
    var d := new DeltaDiff(oldData, newData);
    assert script[0..] == script && script[..0] == [];
    for i := 0 to |script|
      invariant fresh(d) && d.oldData == oldData && d.newData == newData
      invariant d.ops == PlanOf(script[..i])
      invariant d.ssam + EqualBytes(script[i..]) == EqualBytes(script)
    {
      assert script[i..][0] == script[i] && script[i..][1..] == script[i + 1..];
      assert script[..i + 1][..i] == script[..i] && script[..i + 1][i] == script[i];
      CallbackIs(d.ops, script[i]);
      match script[i]
      case EqualRun(o, n, len) => d.Equal(o, n, len);
      case DeleteRun(_, _) =>
      case InsertRun(o, n, len) => d.Insert(o, n, len);
    }
    assert script[..|script|] == script;
    stream := d.Encode();
    plan, ssam := d.ops, d.ssam;
    EncodeDecodes(plan, oldData, newData);
    if |oldData| <= OFFSET_BOUND { EncodeDecodesWithinBounds(plan, oldData, newData); }
    if |oldData| < SIZE_BOUND { ShortOldShortCopies(plan, oldData, newData); }
  }

  lemma CallbackIs(ops: seq<DeltaOp>, c: Callback)
    ensures c.EqualRun? ==> AfterCallback(ops, c) == AfterEqual(ops, c.oldAt, c.len)
    ensures c.DeleteRun? ==> AfterCallback(ops, c) == ops
    ensures c.InsertRun? ==> AfterCallback(ops, c) == AfterInsert(ops, c.newAt, c.len)
  {
  }

  // ---------------------------------------------------------------- encoding

  /** Writes a size as a varint. */
  method WriteSizeEncoding(number: nat) returns (num: bytes)
    ensures num == VarintBytes(number)
  {
    num := [];
    var n := number;
    while true
      invariant num + VarintBytes(n) == VarintBytes(number)
      decreases n
    {
      if n / 128 > 0 {
        num := num + [n % 128 + 128];
      } else {
        num := num + [n % 128];
        break;
      }
      n := n / 128;
    }
  }

  /** Flags of the nonzero bytes among the low `k` bytes of `n`. */
  function OperandFlags(n: nat, k: nat): (f: nat)
    ensures f < Pow2(k)
  {
    if k == 0 then 0 else (if n % 256 != 0 then 1 else 0) + 2 * OperandFlags(n / 256, k - 1)
  }

  /** Those nonzero bytes, least significant first. */
  function OperandBytes(n: nat, k: nat): bytes {
    if k == 0 then []
    else (if n % 256 != 0 then [n % 256] else []) + OperandBytes(n / 256, k - 1)
  }

  function WireOp(op: DeltaOp, newData: bytes): Op
    requires op.ins.DataOp? ==> op.begin + op.len <= |newData|
  {
    if op.ins.DataOp? then Literal(newData[op.begin..op.begin + op.len])
    else Copy(OperandFlags(op.begin, 4) + 16 * OperandFlags(op.len, 3),
              OperandBytes(op.begin, 4) + OperandBytes(op.len, 3))
  }

  /** Encodes one operation; a copy drops every offset byte beyond four and size byte beyond three. */
  method EncodeOp(op: DeltaOp, oldData: bytes, newData: bytes) returns (opData: bytes)
    requires InRange(op, oldData, newData)
    ensures opData == EncodedOp(op, oldData, newData)
  {
    if op.ins.DataOp? {
      opData := [op.len % 128] + newData[op.begin..op.begin + op.len];
    } else {
      opData := EncodeCopy(op.begin, op.len);
      WireFlags(op.begin, op.len);
    }
  }

  /** A copy instruction: the flag byte, then the nonzero bytes of the offset and of the size. */
  method EncodeCopy(begin: nat, len: nat) returns (opData: bytes)
    ensures opData == [128 + (OperandFlags(begin, 4) + 16 * OperandFlags(len, 3))]
                    + (OperandBytes(begin, 4) + OperandBytes(len, 3))
  {
    WireFlags(begin, len);
    hide OperandFlags, OperandBytes, Present, Pow2;
    var instruct, copyData := EncodeOperands(begin, 4, 0x80, 1, []);
    instruct, copyData := EncodeOperands(len, 3, instruct, 16, copyData);
    opData := [instruct] + copyData;
  }

  /** One of the two operand loops: `bit` is the flag of the first byte. */
  method EncodeOperands(number: nat, count: nat, instruct: nat, bit: nat, copyData: bytes)
      returns (flags: nat, data: bytes)
    ensures flags == instruct + bit * OperandFlags(number, count)
    ensures data == copyData + OperandBytes(number, count)
  {
    flags, data := instruct, copyData;
    var rest: nat, b: nat := number, bit;
    for i := 0 to count
      invariant flags + b * OperandFlags(rest, count - i) == instruct + bit * OperandFlags(number, count)
      invariant data + OperandBytes(rest, count - i) == copyData + OperandBytes(number, count)
    {
      FlagsStep(rest, count - i, b);
      if rest % 256 != 0 {
        flags := flags + b;
        data := data + [rest % 256];
      }
      rest := rest / 256;
      b := 2 * b;
    }
  }

  lemma FlagsStep(n: nat, k: nat, b: nat)
    requires k > 0
    ensures b * OperandFlags(n, k) == (if n % 256 != 0 then b else 0) + 2 * b * OperandFlags(n / 256, k - 1)
  {
  }

  /** The number made of the low `k` bytes of `n`. */
  function LowBytes(n: nat, k: nat): nat {
    if k == 0 then 0 else n % 256 + 256 * LowBytes(n / 256, k - 1)
  }

  lemma {:induction false} LowBytesIsRemainder(n: nat, k: nat)
    ensures LowBytes(n, k) == n % Pow2(8 * k)
  {
    if k == 0 {
      assert Pow2(0) == 1;
    } else {
      LowBytesIsRemainder(n / 256, k - 1);
      RemainderStep(n, k - 1);
    }
  }

  /** No operand byte that is written is zero; the flags of the others, which are left out, are not set. */
  lemma {:induction false} OnlyNonZero(n: nat, k: nat)
    ensures forall j :: 0 <= j < |OperandBytes(n, k)| ==> OperandBytes(n, k)[j] != 0
    ensures Present(OperandFlags(n, k), k) == |OperandBytes(n, k)| && OperandFlags(n, k) < Pow2(k)
  {
    OperandRoundTrip(n, k, []);
    if k > 0 {
      hide OperandFlags, Present, Pow2;
      OnlyNonZero(n / 256, k - 1);
    }
  }

  /** Dropping the zero bytes and reading the flagged ones back loses only the high bytes. */
  lemma {:induction false} OperandRoundTrip(n: nat, k: nat, rest: bytes)
    ensures Present(OperandFlags(n, k), k) == |OperandBytes(n, k)|
    ensures PartialInt(OperandFlags(n, k), k, OperandBytes(n, k) + rest) == LowBytes(n, k)
  {
    hide Pow2, OperandFlags, OperandBytes, Present, PartialInt;
    OperandParts(n, k);
    var flags, data := OperandFlags(n, k), OperandBytes(n, k);
    if k == 0 {
      PartialNothing(flags, data + rest);
    } else {
      var f, s := OperandFlags(n / 256, k - 1), OperandBytes(n / 256, k - 1);
      OperandRoundTrip(n / 256, k - 1, rest);
      if n % 256 != 0 {
        assert data + rest == [n % 256] + (s + rest);
        PartialPresent(f, k - 1, n % 256, s + rest);
      } else {
        PartialAbsent(f, k - 1, s + rest);
      }
    }
  }

  lemma OperandParts(n: nat, k: nat)
    ensures k == 0 ==> OperandBytes(n, k) == []
    ensures k > 0 && n % 256 != 0 ==>
      && OperandFlags(n, k) == 1 + 2 * OperandFlags(n / 256, k - 1)
      && OperandBytes(n, k) == [n % 256] + OperandBytes(n / 256, k - 1)
    ensures k > 0 && n % 256 == 0 ==>
      OperandFlags(n, k) == 2 * OperandFlags(n / 256, k - 1) && OperandBytes(n, k) == OperandBytes(n / 256, k - 1)
  {
  }

  lemma PartialNothing(flags: nat, s: bytes)
    ensures Present(flags, 0) == 0 && PartialInt(flags, 0, s) == 0
  {
  }

  lemma PartialPresent(f: nat, k: nat, b: byte, s: bytes)
    requires Present(f, k) <= |s|
    ensures Present(1 + 2 * f, k + 1) == 1 + Present(f, k)
    ensures PartialInt(1 + 2 * f, k + 1, [b] + s) == b + 256 * PartialInt(f, k, s)
  {
    assert (1 + 2 * f) % 2 == 1 && (1 + 2 * f) / 2 == f && ([b] + s)[1..] == s;
  }

  lemma PartialAbsent(f: nat, k: nat, s: bytes)
    requires Present(f, k) <= |s|
    ensures Present(2 * f, k + 1) == Present(f, k) && PartialInt(2 * f, k + 1, s) == 256 * PartialInt(f, k, s)
  {
    assert (2 * f) % 2 == 0 && (2 * f) / 2 == f;
  }

  lemma RemainderStep(n: nat, k: nat)
    ensures n % Pow2(8 * (k + 1)) == n % 256 + 256 * (n / 256 % Pow2(8 * k))
  {
    Pow2EightMore(k);
    NestedRemainder(n, Pow2(8 * k));
  }

  lemma NestedRemainder(n: nat, p: nat)
    requires p > 0
    ensures n % (256 * p) == n % 256 + 256 * (n / 256 % p)
  {
    var q, r := n / 256 / p, n / 256 % p;
    assert n / 256 == p * q + r;
    assert n == 256 * (p * q) + 256 * r + n % 256;
    assert 256 * (p * q) == 256 * p * q;
    DivisionUnique(n, 256 * p, q, n % 256 + 256 * r);
  }

  lemma WireOpWellFormed(op: DeltaOp, oldData: bytes, newData: bytes)
    requires InRange(op, oldData, newData)
    ensures OpWellFormed(WireOp(op, newData))
  {
    if op.ins.CopyOp? { WireFlags(op.begin, op.len); }
  }

  /** The two groups of flags share a byte without disturbing each other. */
  lemma WireFlags(begin: nat, len: nat)
    ensures var flags := OperandFlags(begin, 4) + 16 * OperandFlags(len, 3);
      && flags < 128 && flags / 16 == OperandFlags(len, 3)
      && Present(flags, 4) == |OperandBytes(begin, 4)|
      && Present(flags / 16, 3) == |OperandBytes(len, 3)|
  {
    assert Pow2(4) == 16 && Pow2(3) == 8;
    hide Present, PartialInt, OperandFlags, OperandBytes, Pow2;
    OperandRoundTrip(begin, 4, []);
    OperandRoundTrip(len, 3, []);
    HighBitsIgnored(OperandFlags(begin, 4), 4, OperandFlags(len, 3), []);
  }

  // ---------------------------------------------------------------- the stream

  function EncodedOp(op: DeltaOp, oldData: bytes, newData: bytes): bytes
    requires InRange(op, oldData, newData)
  {
    WireOpWellFormed(op, oldData, newData);
    OpBytes(WireOp(op, newData))
  }

  function EncodedOps(ops: seq<DeltaOp>, oldData: bytes, newData: bytes): bytes
    requires PlanInRange(ops, oldData, newData)
  {
    if ops == [] then []
    else EncodedOp(ops[0], oldData, newData) + EncodedOps(ops[1..], oldData, newData)
  }

  function EncodedStream(ops: seq<DeltaOp>, oldData: bytes, newData: bytes): bytes
    requires PlanInRange(ops, oldData, newData)
  {
    VarintBytes(|oldData|) + VarintBytes(|newData|) + EncodedOps(ops, oldData, newData)
  }

  lemma EncodedOpsAt(ops: seq<DeltaOp>, i: nat, oldData: bytes, newData: bytes)
    requires i < |ops| && PlanInRange(ops, oldData, newData)
    ensures EncodedOps(ops[i..], oldData, newData)
         == EncodedOp(ops[i], oldData, newData) + EncodedOps(ops[i + 1..], oldData, newData)
  {
    hide EncodedOp, InRange;
    assert ops[i..][1..] == ops[i + 1..];
  }

  // ---------------------------------------------------------------- decoding what was encoded

  /**
   A copy survives its encoding when its length has at most three bytes and the source bytes at
   its offset equal the ones at the offset's low four bytes.
   */
  predicate CopyFits(op: DeltaOp, oldData: bytes)
    requires op.begin + op.len <= |oldData|
  {
    && op.len < SIZE_BOUND
    && (var o := op.begin % OFFSET_BOUND; oldData[o..o + op.len] == oldData[op.begin..op.begin + op.len])
  }

  predicate AllCopiesFit(ops: seq<DeltaOp>, oldData: bytes, newData: bytes)
    requires PlanInRange(ops, oldData, newData)
  {
    forall i :: 0 <= i < |ops| && ops[i].ins.CopyOp? ==> CopyFits(ops[i], oldData)
  }

  lemma WireCopy(op: DeltaOp, oldData: bytes, newData: bytes)
    requires InRange(op, oldData, newData) && op.ins.CopyOp?
    ensures var w := WireOp(op, newData);
      && OpApplies(w, oldData)
      && CopyOffset(w.flags, w.operands) == op.begin % OFFSET_BOUND
      && CopySize(w.flags, w.operands) <= op.len
      && (CopySize(w.flags, w.operands) == op.len <==> op.len < SIZE_BOUND)
  {
    hide OperandFlags, OperandBytes, Present, CopyOffset, CopySize, OpWellFormed;
    WireOpWellFormed(op, oldData, newData);
    WireOffset(op.begin, op.len);
    WireSize(op.begin, op.len);
    RemainderFacts(op.begin, OFFSET_BOUND);
  }

  lemma RemainderFacts(x: nat, p: nat)
    requires p > 0
    ensures x % p <= x && x % p < p
    ensures x % p == x <==> x < p
  {
    if x < p { DivisionUnique(x, p, 0, x); }
    if x >= p { assert x % p < p; }
    assert x == p * (x / p) + x % p && p * (x / p) >= 0;
  }

  /** The size a copy instruction stands for: the low three bytes, or 64 KiB when they are zero. */
  lemma WireSizeValue(begin: nat, len: nat)
    ensures var flags := OperandFlags(begin, 4) + 16 * OperandFlags(len, 3);
      var operands := OperandBytes(begin, 4) + OperandBytes(len, 3);
      var n := len % SIZE_BOUND;
      && Present(flags, 4) + Present(flags / 16, 3) == |operands|
      && CopySize(flags, operands) == if n == 0 then COPY_ZERO_SIZE else n
  {
    var a, b := OperandBytes(begin, 4), OperandBytes(len, 3);
    Pow2Words();
    WireFlags(begin, len);
    LowBytesIsRemainder(len, 3);
    hide OperandFlags, OperandBytes, Present, PartialInt, Pow2, LowBytes;
    OperandRoundTrip(len, 3, []);
    assert (a + b)[|a|..] == b && b + [] == b;
  }

  lemma WireSize(begin: nat, len: nat)
    requires len > 0
    ensures var flags := OperandFlags(begin, 4) + 16 * OperandFlags(len, 3);
      var operands := OperandBytes(begin, 4) + OperandBytes(len, 3);
      && Present(flags, 4) + Present(flags / 16, 3) <= |operands|
      && CopySize(flags, operands) <= len
      && (CopySize(flags, operands) == len <==> len < SIZE_BOUND)
  {
    hide OperandFlags, OperandBytes, Present, CopySize;
    WireSizeValue(begin, len);
    RemainderFacts(len, SIZE_BOUND);
  }

  lemma WireOffset(begin: nat, len: nat)
    ensures var flags := OperandFlags(begin, 4) + 16 * OperandFlags(len, 3);
      var operands := OperandBytes(begin, 4) + OperandBytes(len, 3);
      Present(flags, 4) <= |operands| && CopyOffset(flags, operands) == begin % OFFSET_BOUND
  {
    Pow2Words();
    assert Pow2(4) == 16;
    WireFlags(begin, len);
    LowBytesIsRemainder(begin, 4);
    hide OperandFlags, OperandBytes, Present, PartialInt, Pow2, LowBytes;
    OperandRoundTrip(begin, 4, OperandBytes(len, 3));
    HighBitsIgnored(OperandFlags(begin, 4), 4, OperandFlags(len, 3), OperandBytes(begin, 4) + OperandBytes(len, 3));
  }

  /** An operation's instruction always applies, and denotes its bytes exactly when it fits. */
  lemma WireMeaning(op: DeltaOp, oldData: bytes, newData: bytes)
    requires InRange(op, oldData, newData)
    ensures OpApplies(WireOp(op, newData), oldData)
    ensures var m := OpMeaning(WireOp(op, newData), oldData);
      && |m| <= op.len
      && (m == Contribution(op, oldData, newData) <==> (op.ins.CopyOp? ==> CopyFits(op, oldData)))
  {
    if op.ins.CopyOp? { WireCopy(op, oldData, newData); }
  }

  function WireOps(ops: seq<DeltaOp>, newData: bytes): (w: seq<Op>)
    requires forall i :: 0 <= i < |ops| && ops[i].ins.DataOp? ==> ops[i].begin + ops[i].len <= |newData|
    ensures |w| == |ops| && forall i :: 0 <= i < |ops| ==> w[i] == WireOp(ops[i], newData)
  {
    seq(|ops|, i requires 0 <= i < |ops| => WireOp(ops[i], newData))
  }

  lemma {:induction false} StreamOps(ops: seq<DeltaOp>, oldData: bytes, newData: bytes)
    requires PlanInRange(ops, oldData, newData)
    ensures AllApply(WireOps(ops, newData), oldData)
    ensures EncodedOps(ops, oldData, newData) == OpsBytes(WireOps(ops, newData), oldData)
    ensures |OpsMeaning(WireOps(ops, newData), oldData)| <= |Rebuilt(ops, oldData, newData)|
    ensures OpsMeaning(WireOps(ops, newData), oldData) == Rebuilt(ops, oldData, newData)
       <==> AllCopiesFit(ops, oldData, newData)
  {
    hide WireOp, OpBytes, OpWellFormed, OpMeaning, OpApplies, CopyFits;
    if ops != [] {
      var tail := ops[1..];
      StreamOps(tail, oldData, newData);
      WireMeaning(ops[0], oldData, newData);
      var w := WireOps(ops, newData);
      assert w[1..] == WireOps(tail, newData);
      var m, c := OpMeaning(w[0], oldData), Contribution(ops[0], oldData, newData);
      ConcatEqual(m, OpsMeaning(w[1..], oldData), c, Rebuilt(tail, oldData, newData));
      assert AllCopiesFit(ops, oldData, newData) <==>
        (ops[0].ins.CopyOp? ==> CopyFits(ops[0], oldData)) && AllCopiesFit(tail, oldData, newData);
    }
  }

  /** Two concatenations of pieces no longer than their counterparts agree only piecewise. */
  lemma ConcatEqual(a: bytes, b: bytes, c: bytes, d: bytes)
    requires |a| <= |c| && |b| <= |d|
    ensures a + b == c + d <==> a == c && b == d
  {
    if a + b == c + d {
      assert a == (a + b)[..|a|] && c == (c + d)[..|c|];
      assert b == (a + b)[|a|..] && d == (c + d)[|c|..];
    }
  }

  /**
   Decoding the encoded plan against the old data yields the new data exactly when every copy
   fits; otherwise the decoder rejects the stream or yields something else.
   */
  lemma EncodeDecodes(ops: seq<DeltaOp>, oldData: bytes, newData: bytes)
    requires |oldData| < USIZE_BOUND && |newData| < USIZE_BOUND
    requires PlanInRange(ops, oldData, newData) && Rebuilt(ops, oldData, newData) == newData
    ensures Decode(EncodedStream(ops, oldData, newData), oldData) == Some(newData)
       <==> AllCopiesFit(ops, oldData, newData)
  {
    var v, w, body := VarintBytes(|oldData|), VarintBytes(|newData|), EncodedOps(ops, oldData, newData);
    var wire := WireOps(ops, newData);
    SizeRoundTrip(|oldData|, []);
    SizeRoundTrip(|newData|, []);
    StreamOps(ops, oldData, newData);
    hide *;
    SplitThree(v, w, body);
    ReadOpsInverts(wire, oldData);
    DecodeSplit(v + w + body, oldData, |v|, |w|, |newData|);
  }

  /** Within the bounds of the format every plan decodes to the new data. */
  lemma EncodeDecodesWithinBounds(ops: seq<DeltaOp>, oldData: bytes, newData: bytes)
    requires |oldData| <= OFFSET_BOUND && |newData| < USIZE_BOUND
    requires PlanInRange(ops, oldData, newData) && Rebuilt(ops, oldData, newData) == newData
    ensures Decode(EncodedStream(ops, oldData, newData), oldData) == Some(newData)
       <==> CopiesShort(ops)
  {
    EncodeDecodes(ops, oldData, newData);
    hide Rebuilt, EncodedStream, Decode, CopyFits;
    forall i | 0 <= i < |ops| && ops[i].ins.CopyOp?
      ensures CopyFits(ops[i], oldData) <==> ops[i].len < SIZE_BOUND
    {
      ShortOffsetFits(ops[i], oldData);
    }
  }

  lemma ShortOffsetFits(op: DeltaOp, oldData: bytes)
    requires op.begin + op.len <= |oldData| <= OFFSET_BOUND && op.len > 0
    ensures CopyFits(op, oldData) <==> op.len < SIZE_BOUND
  {
    assert op.begin % OFFSET_BOUND == op.begin;
  }

  /** No copy needs more than three size bytes. */
  predicate CopiesShort(ops: seq<DeltaOp>) {
    forall i :: 0 <= i < |ops| && ops[i].ins.CopyOp? ==> ops[i].len < SIZE_BOUND
  }

  lemma ShortOldShortCopies(ops: seq<DeltaOp>, oldData: bytes, newData: bytes)
    requires PlanInRange(ops, oldData, newData) && |oldData| < SIZE_BOUND
    ensures CopiesShort(ops)
  {
  }

  /** Data of 2^24 bytes that did not change at all is lost: one equal run, one copy. */
  lemma LongCopyLost(data: bytes)
    requires |data| == SIZE_BOUND
    ensures var script := [EqualRun(0, 0, SIZE_BOUND)];
      && ValidCallbacks(script, data, data, 0) && PlanInRange(PlanOf(script), data, data)
      && Decode(EncodedStream(PlanOf(script), data, data), data) != Some(data)
  {
    var script := [EqualRun(0, 0, |data|)];
    UnchangedScript(data);
    PlanCovers(script, data, data);
    hide Decode, EncodedStream, Rebuilt, PlanOf, ValidCallbacks, PlanInRange;
    var plan := PlanOf(script);
    EncodeDecodes(plan, data, data);
    assert !CopyFits(plan[0], data);
  }

  lemma UnchangedScript(data: bytes)
    requires data != []
    ensures ValidCallbacks([EqualRun(0, 0, |data|)], data, data, 0)
    ensures PlanOf([EqualRun(0, 0, |data|)]) == [DeltaOp(CopyOp, 0, |data|)]
  {
    var script := [EqualRun(0, 0, |data|)];
    assert script[1..] == [] && script[..0] == [];
    assert ValidCallbacks(script[1..], data, data, |data|);
  }
}
