/**
 The delta stream format of gitformat-pack(5), "Deltified representation", given twice: as a
 grammar (which byte strings are deltas, and what they denote) and as a left-to-right reading
 function. The main lemma of this file, `ReadingIsTheGrammar`, says that the two agree.
 */
module DeltaFormat {
  import opened Basics

  /** usize::MAX + 1 on the 64-bit targets the crate is built for. */
  const USIZE_BOUND: nat := 0x1_0000_0000_0000_0000

  /** Longest size varint the reader follows: the tenth byte is shifted by 63 bits. */
  const MAX_VARINT: nat := 10

  /** Size a copy instruction stands for when all its size bytes are zero. */
  const COPY_ZERO_SIZE: nat := 0x10000

  // ---------------------------------------------------------------- size varints

  /** Little-endian base-128 value of a byte string, ignoring the continuation bits. */
  function VarintValue(v: bytes): nat {
    if v == [] then 0 else v[0] % 128 + 128 * VarintValue(v[1..])
  }

  /** Every byte but the last carries the continuation bit. */
  ghost predicate IsVarint(v: bytes) {
    && |v| > 0
    && v[|v| - 1] < 128
    && forall i :: 0 <= i < |v| - 1 ==> v[i] >= 128
  }

  ghost predicate IsSize(v: bytes, n: nat) {
    IsVarint(v) && |v| <= MAX_VARINT && VarintValue(v) == n < USIZE_BOUND
  }

  /** The varint a number is written as. */
  function VarintBytes(n: nat): (v: bytes)
    ensures |v| > 0
  {
    if n < 128 then [n] else [128 + n % 128] + VarintBytes(n / 128)
  }

  /** Number of bytes up to and including the first one without a continuation bit. */
  function VarintEnd(s: bytes): (k: Option<nat>)
    ensures k.Some? ==> 0 < k.value <= |s| && IsVarint(s[..k.value]) && s[k.value - 1] < 128
    ensures k.None? ==> forall i :: 0 <= i < |s| ==> s[i] >= 128
  {
    if s == [] then None
    else if s[0] < 128 then Some(1)
    else match VarintEnd(s[1..])
      case None => None
      case Some(k) =>
        assert forall i :: 0 <= i < k ==> s[..k + 1][i + 1] == s[1..][..k][i];
        Some(k + 1)
  }

  /** The size at the front of `s`, with the number of bytes it takes. */
  function ReadSize(s: bytes): Option<(nat, nat)> {
    match VarintEnd(s)
    case None => None
    case Some(k) =>
      if k <= MAX_VARINT && VarintValue(s[..k]) < USIZE_BOUND
      then Some((VarintValue(s[..k]), k)) else None
  }

  /** At most one prefix of a stream is a varint. */
  lemma VarintPrefixUnique(s: bytes, k: nat)
    requires k <= |s| && IsVarint(s[..k])
    ensures VarintEnd(s) == Some(k)
  {
    hide VarintEnd;
    var p := s[..k];
    assert s[k - 1] == p[|p| - 1] < 128;
    assert forall i :: 0 <= i < k - 1 ==> s[i] == p[i] >= 128;
    var j := VarintEnd(s).value;
    var q := s[..j];
    assert s[j - 1] == q[|q| - 1] < 128;
    assert forall i :: 0 <= i < j - 1 ==> s[i] == q[i] >= 128;
  }

  /** The reader accepts exactly the in-range varints. */
  lemma ReadSizeIffSize(s: bytes, k: nat, n: nat)
    requires k <= |s|
    ensures ReadSize(s) == Some((n, k)) <==> IsSize(s[..k], n)
  {
    if IsSize(s[..k], n) { VarintPrefixUnique(s, k); }
  }

  lemma {:induction false} VarintBytesValue(n: nat)
    ensures IsVarint(VarintBytes(n)) && VarintValue(VarintBytes(n)) == n
  {
    if n >= 128 {
      var rest := VarintBytes(n / 128);
      VarintBytesValue(n / 128);
      var v := [128 + n % 128] + rest;
      assert v[1..] == rest;
      assert forall i :: 1 <= i < |v| ==> v[i] == rest[i - 1];
    }
  }

  lemma {:induction false} VarintBytesLength(n: nat, digits: nat)
    requires n < Pow2(7 * digits) && digits > 0
    ensures |VarintBytes(n)| <= digits
  {
    if n >= 128 {
      assert Pow2(0) == 1;
      Pow2SevenMore(digits - 1);
      VarintBytesLength(n / 128, digits - 1);
    }
  }

  lemma Pow2SevenMore(d: nat)
    ensures Pow2(7 * (d + 1)) == 128 * Pow2(7 * d)
  {
    var e := 7 * d;
    assert Pow2(e + 7) == 2 * Pow2(e + 6) == 4 * Pow2(e + 5) == 8 * Pow2(e + 4);
    assert Pow2(e + 4) == 2 * Pow2(e + 3) == 4 * Pow2(e + 2) == 8 * Pow2(e + 1);
    assert Pow2(e + 1) == 2 * Pow2(e);
  }

  lemma UsizeBoundIsPow2()
    ensures Pow2(63) == USIZE_BOUND / 2 && Pow2(70) == 64 * USIZE_BOUND
  {
    assert Pow2(0) == 1;
    Pow2SevenMore(0); Pow2SevenMore(1); Pow2SevenMore(2); Pow2SevenMore(3); Pow2SevenMore(4);
    Pow2SevenMore(5); Pow2SevenMore(6); Pow2SevenMore(7); Pow2SevenMore(8); Pow2SevenMore(9);
  }

  /** Reading inverts writing for every usize, whatever follows in the stream. */
  lemma SizeRoundTrip(n: nat, rest: bytes)
    requires n < USIZE_BOUND
    ensures IsSize(VarintBytes(n), n)
    ensures ReadSize(VarintBytes(n) + rest) == Some((n, |VarintBytes(n)|))
  {
    var v := VarintBytes(n);
    VarintBytesValue(n);
    UsizeBoundIsPow2();
    VarintBytesLength(n, MAX_VARINT);
    assert (v + rest)[..|v|] == v;
    VarintPrefixUnique(v + rest, |v|);
  }

  lemma {:induction false} VarintValueSnoc(v: bytes, b: byte)
    ensures VarintValue(v + [b]) == VarintValue(v) + (b % 128) * Pow2(7 * |v|)
  {
    if v == [] {
      assert v + [b] == [b];
      assert Pow2(0) == 1;
    } else {
      var t := v[1..];
      assert (v + [b])[1..] == t + [b];
      VarintValueSnoc(t, b);
      Pow2SevenMore(|t|);
      assert 7 * |v| == 7 * (|t| + 1);
      assert 128 * ((b % 128) * Pow2(7 * |t|)) == (b % 128) * (128 * Pow2(7 * |t|));
    }
  }

  lemma {:induction false} VarintValueBound(v: bytes)
    ensures VarintValue(v) < Pow2(7 * |v|)
  {
    if v == [] {
      assert Pow2(0) == 1;
    } else {
      VarintValueBound(v[1..]);
      Pow2SevenMore(|v| - 1);
    }
  }

  lemma {:induction false} VarintValueMonotone(v: bytes, w: bytes)
    ensures VarintValue(v) <= VarintValue(v + w)
  {
    if v != [] {
      assert (v + w)[1..] == v[1..] + w;
      VarintValueMonotone(v[1..], w);
    }
  }

  // ---------------------------------------------------------------- instructions

  /** An instruction as it stands in the stream. */
  datatype Op =
    | Literal(data: bytes)
    | Copy(flags: nat, operands: bytes)

  /** Number of set bits among the low `n` bits of `flags`. */
  function Present(flags: nat, n: nat): (c: nat)
    ensures c <= n
  {
    if n == 0 then 0 else flags % 2 + Present(flags / 2, n - 1)
  }

  /** The little-endian number whose nonzero-flagged bytes are at the front of `s`. */
  function PartialInt(flags: nat, n: nat, s: bytes): nat
    requires Present(flags, n) <= |s|
  {
    if n == 0 then 0
    else if flags % 2 == 1 then s[0] + 256 * PartialInt(flags / 2, n - 1, s[1..])
    else 256 * PartialInt(flags / 2, n - 1, s)
  }

  /** Bits above the ones asked for do not matter. */
  lemma {:induction false} HighBitsIgnored(flags: nat, n: nat, m: nat, s: bytes)
    ensures Present(flags + Pow2(n) * m, n) == Present(flags, n)
    ensures Present(flags, n) <= |s| ==> PartialInt(flags + Pow2(n) * m, n, s) == PartialInt(flags, n, s)
  {
    if n > 0 {
      var p := Pow2(n - 1) * m;
      assert Pow2(n) * m == 2 * p;
      assert (flags + 2 * p) / 2 == flags / 2 + p && (flags + 2 * p) % 2 == flags % 2;
      HighBitsIgnored(flags / 2, n - 1, m, s);
      if flags % 2 == 1 && s != [] { HighBitsIgnored(flags / 2, n - 1, m, s[1..]); }
    }
  }

  /** Only the flagged bytes are looked at. */
  lemma {:induction false} OperandsSuffice(flags: nat, n: nat, s: bytes, t: bytes)
    requires Present(flags, n) <= |t| && t <= s
    ensures PartialInt(flags, n, s) == PartialInt(flags, n, t)
  {
    if n > 0 {
      if flags % 2 == 1 {
        OperandsSuffice(flags / 2, n - 1, s[1..], t[1..]);
      } else {
        OperandsSuffice(flags / 2, n - 1, s, t);
      }
    }
  }

  predicate OpWellFormed(op: Op) {
    match op
    case Literal(data) => 1 <= |data| <= 127
    case Copy(flags, operands) =>
      flags < 128 && |operands| == Present(flags, 4) + Present(flags / 16, 3)
  }

  function OpBytes(op: Op): (s: bytes)
    requires OpWellFormed(op)
    ensures |s| > 0
  {
    match op
    case Literal(data) => [|data|] + data
    case Copy(flags, operands) => [128 + flags] + operands
  }

  function CopyOffset(flags: nat, operands: bytes): nat
    requires Present(flags, 4) <= |operands|
  {
    PartialInt(flags, 4, operands)
  }

  function CopySize(flags: nat, operands: bytes): (size: nat)
    requires Present(flags, 4) + Present(flags / 16, 3) <= |operands|
    ensures size > 0
  {
    var n := PartialInt(flags / 16, 3, operands[Present(flags, 4)..]);
    if n == 0 then COPY_ZERO_SIZE else n
  }

  predicate OpApplies(op: Op, base: bytes) {
    && OpWellFormed(op)
    && (op.Copy? ==> CopyOffset(op.flags, op.operands) + CopySize(op.flags, op.operands) <= |base|)
  }

  /** The bytes an instruction contributes to the result. */
  function OpMeaning(op: Op, base: bytes): (r: bytes)
    requires OpApplies(op, base)
    ensures |r| > 0
  {
    match op
    case Literal(data) => data
    case Copy(flags, operands) =>
      var offset := CopyOffset(flags, operands);
      base[offset..offset + CopySize(flags, operands)]
  }

  predicate AllApply(ops: seq<Op>, base: bytes) {
    forall i :: 0 <= i < |ops| ==> OpApplies(ops[i], base)
  }

  function OpsBytes(ops: seq<Op>, base: bytes): bytes
    requires AllApply(ops, base)
  {
    if ops == [] then [] else OpBytes(ops[0]) + OpsBytes(ops[1..], base)
  }

  function OpsMeaning(ops: seq<Op>, base: bytes): bytes
    requires AllApply(ops, base)
  {
    if ops == [] then [] else OpMeaning(ops[0], base) + OpsMeaning(ops[1..], base)
  }

  /** `stream` is the two sizes followed by complete, applicable instructions denoting `result`. */
  ghost predicate IsDelta(stream: bytes, base: bytes, result: bytes,
                          baseSize: bytes, resultSize: bytes, ops: seq<Op>) {
    && IsSize(baseSize, |base|)
    && IsSize(resultSize, |result|)
    && AllApply(ops, base)
    && stream == baseSize + resultSize + OpsBytes(ops, base)
    && result == OpsMeaning(ops, base)
  }

  ghost predicate Denotes(stream: bytes, base: bytes, result: bytes) {
    exists baseSize, resultSize, ops :: IsDelta(stream, base, result, baseSize, resultSize, ops)
  }

  // ---------------------------------------------------------------- reading left to right

  /** The instruction at the front of a nonempty stream, when it is complete and applies. */
  function ReadOp(s: bytes, base: bytes): (op: Option<Op>)
    requires s != []
    ensures op.Some? ==> OpApplies(op.value, base)
    ensures op.Some? ==> |OpBytes(op.value)| <= |s| && s[..|OpBytes(op.value)|] == OpBytes(op.value)
  {
    if s[0] < 128 then
      if s[0] == 0 || s[0] >= |s| then None else Some(Literal(s[1..1 + s[0]]))
    else
      var flags := s[0] - 128;
      var n := Present(flags, 4) + Present(flags / 16, 3);
      if 1 + n > |s| then None
      else
        var op := Copy(flags, s[1..1 + n]);
        if OpApplies(op, base) then Some(op) else None
  }

  /** What the instructions in `s` denote, or `None` when one of them is malformed. */
  function ReadOps(s: bytes, base: bytes): Option<bytes>
    decreases |s|
  {
    if s == [] then Some([])
    else match ReadOp(s, base)
      case None => None
      case Some(op) =>
        match ReadOps(s[|OpBytes(op)|..], base)
        case None => None
        case Some(rest) => Some(OpMeaning(op, base) + rest)
  }

  /** The result of applying a whole delta stream, or `None` when it is rejected. */
  function Decode(stream: bytes, base: bytes): Option<bytes> {
    match ReadSize(stream)
    case None => None
    case Some((baseSize, k)) =>
      if baseSize != |base| then None
      else match ReadSize(stream[k..])
        case None => None
        case Some((resultSize, l)) =>
          match ReadOps(stream[k..][l..], base)
          case None => None
          case Some(result) => if |result| == resultSize then Some(result) else None
  }

  /** A written instruction is read back, whatever follows it. */
  lemma ReadOpInverts(op: Op, base: bytes, rest: bytes)
    requires OpApplies(op, base)
    ensures ReadOp(OpBytes(op) + rest, base) == Some(op)
  {
    var s := OpBytes(op) + rest;
    match op
    case Literal(data) => assert s[1..1 + |data|] == data;
    case Copy(flags, operands) => assert s[1..1 + |operands|] == operands;
  }

  lemma {:induction false} ReadOpsInverts(ops: seq<Op>, base: bytes)
    requires AllApply(ops, base)
    ensures ReadOps(OpsBytes(ops, base), base) == Some(OpsMeaning(ops, base))
  {
    hide OpWellFormed, OpBytes, OpMeaning, ReadOp, Present, PartialInt;
    if ops != [] {
      var rest := OpsBytes(ops[1..], base);
      ReadOpInverts(ops[0], base, rest);
      assert (OpBytes(ops[0]) + rest)[|OpBytes(ops[0])|..] == rest;
      ReadOpsInverts(ops[1..], base);
    }
  }

  lemma OpsCons(op: Op, ops: seq<Op>, base: bytes)
    requires OpApplies(op, base) && AllApply(ops, base)
    ensures AllApply([op] + ops, base)
    ensures OpsBytes([op] + ops, base) == OpBytes(op) + OpsBytes(ops, base)
    ensures OpsMeaning([op] + ops, base) == OpMeaning(op, base) + OpsMeaning(ops, base)
  {
    hide OpWellFormed, OpBytes, OpMeaning, ReadOp, Present, PartialInt;
    assert ([op] + ops)[1..] == ops;
  }

  lemma {:induction false} ReadOpsComplete(s: bytes, base: bytes) returns (ops: seq<Op>)
    requires ReadOps(s, base).Some?
    ensures AllApply(ops, base)
    ensures s == OpsBytes(ops, base) && ReadOps(s, base).value == OpsMeaning(ops, base)
    decreases |s|
  {
    hide OpWellFormed, OpBytes, OpMeaning, ReadOp, Present, PartialInt;
    if s == [] {
      ops := [];
    } else {
      var op := ReadOp(s, base).value;
      var rest := s[|OpBytes(op)|..];
      var tail := ReadOpsComplete(rest, base);
      OpsCons(op, tail, base);
      ops := [op] + tail;
      assert s == OpBytes(op) + rest;
      assert ReadOps(s, base).value == OpMeaning(op, base) + ReadOps(rest, base).value;
    }
  }

  lemma SplitThree(a: bytes, b: bytes, c: bytes)
    ensures |a| + |b| <= |a + b + c|
    ensures (a + b + c)[..|a|] == a
    ensures (a + b + c)[|a|..][..|b|] == b && (a + b + c)[|a|..][|b|..] == c
  {
    assert (a + b + c)[|a|..] == b + c;
  }

  /** The result of a stream whose two sizes take `k` and `l` bytes. */
  lemma DecodeSplit(stream: bytes, base: bytes, k: nat, l: nat, n: nat)
    requires k + l <= |stream|
    requires IsSize(stream[..k], |base|) && IsSize(stream[k..][..l], n)
    ensures Decode(stream, base) ==
            match ReadOps(stream[k..][l..], base)
            case None => None
            case Some(r) => if |r| == n then Some(r) else None
  {
    ReadSizeIffSize(stream, k, |base|);
    ReadSizeIffSize(stream[k..], l, n);
  }

  /** Every delta of the grammar decodes to what it denotes. */
  lemma DeltaDecodes(stream: bytes, base: bytes, result: bytes,
                     baseSize: bytes, resultSize: bytes, ops: seq<Op>)
    requires IsDelta(stream, base, result, baseSize, resultSize, ops)
    ensures Decode(stream, base) == Some(result)
  {
    hide OpWellFormed, OpBytes, OpMeaning, ReadOp, Present, PartialInt, VarintValue, Decode, ReadOps;
    var body := OpsBytes(ops, base);
    var k, l := |baseSize|, |resultSize|;
    SplitThree(baseSize, resultSize, body);
    ReadOpsInverts(ops, base);
    DecodeSplit(stream, base, k, l, |result|);
  }

  /** A stream denotes at most one result, and reading finds it exactly when there is one. */
  lemma ReadingIsTheGrammar(stream: bytes, base: bytes, result: bytes)
    ensures Decode(stream, base) == Some(result) <==> Denotes(stream, base, result)
  {
    hide Present, PartialInt, OpApplies, ReadOps, OpsBytes, OpsMeaning, VarintEnd, VarintValue;
    if Denotes(stream, base, result) {
      var v, w, ops :| IsDelta(stream, base, result, v, w, ops);
      DeltaDecodes(stream, base, result, v, w, ops);
    }
    if Decode(stream, base) == Some(result) {
      var (n, k) := ReadSize(stream).value;
      var (m, l) := ReadSize(stream[k..]).value;
      ReadSizeIffSize(stream, k, n);
      ReadSizeIffSize(stream[k..], l, m);
      var ops := ReadOpsComplete(stream[k..][l..], base);
      assert stream == stream[..k] + stream[k..][..l] + stream[k..][l..];
      assert IsDelta(stream, base, result, stream[..k], stream[k..][..l], ops);
    }
  }
}
