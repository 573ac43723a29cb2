/**
 The delta decoder of src/delta/decode/mod.rs and its readers in src/delta/utils.rs. A reader
 takes the stream and the position of its cursor and returns the position it leaves behind;
 reading past the end is the `UnexpectedEof` of the original.
 */
module DeltaDecode {
  import opened Basics
  import opened DeltaFormat

  datatype DecodeError =
    | UnexpectedEof
    | VarintExceedsUsize
    | BaseLengthMismatch
    | InvalidDataInstruction
    | InvalidCopyInstruction
    | ResultExceedsDeclaredSize
    | ResultLengthMismatch

  datatype Result<+T> = Ok(value: T) | Err(error: DecodeError) {
    function PropagateError<U>(): Result<U>
      requires Err?
    {
      Err(error)
    }
  }

  /** Reads a size varint, refusing every byte that would not fit into a usize. */
  method ReadSizeEncoding(stream: bytes, pos: nat) returns (r: Result<nat>, next: nat)
    requires pos <= |stream|
    ensures r.Ok? ==> pos < next <= |stream| && ReadSize(stream[pos..]) == Some((r.value, next - pos))
    ensures r.Ok? ==> r.value < USIZE_BOUND
    ensures r.Err? ==> ReadSize(stream[pos..]) == None
  {
    hide VarintEnd, VarintValue, ReadSize, Pow2;
    var value, length: nat := 0, 0;
    next := pos;
    VarintNothing(stream[pos..next]);
    while true
      invariant pos <= next <= |stream|
      invariant length == 7 * (next - pos) && next - pos <= MAX_VARINT
      invariant forall i :: pos <= i < next ==> stream[i] >= 128
      invariant value == VarintValue(stream[pos..next])
      decreases |stream| - next
    {
      if next == |stream| {
        NoVarintEnd(stream[pos..]);
        return Err(UnexpectedEof), next;
      }
      var byteValue, more := stream[next] % 128, stream[next] >= 128;
      assert stream[pos..next + 1] == stream[pos..next] + [stream[next]];
      VarintValueSnoc(stream[pos..next], stream[next]);
      RangeCheck(length, byteValue);
      next := next + 1;
      if length >= 64 || (length + 7 > 64 && byteValue > (USIZE_BOUND - 1) / Pow2(length)) {
        TooWide(stream[pos..], next - pos);
        return Err(VarintExceedsUsize), next;
      }
      value := value + byteValue * Pow2(length);
      if !more {
        Accepted(stream[pos..], next - pos);
        assert stream[pos..][..next - pos] == stream[pos..next];
        return Ok(value), next;
      }
      length := length + 7;
    }
  }

  lemma VarintNothing(v: bytes)
    requires v == []
    ensures VarintValue(v) == 0
  {
  }

  lemma NoVarintEnd(s: bytes)
    requires forall i :: 0 <= i < |s| ==> s[i] >= 128
    ensures ReadSize(s) == None
  {
  }

  /** A tenth byte above one, or an eleventh byte, puts every continuation out of range. */
  lemma TooWide(s: bytes, n: nat)
    requires 0 < n <= |s|
    requires forall i :: 0 <= i < n - 1 ==> s[i] >= 128
    requires n > 10 || (n == 10 && s[9] % 128 > 1)
    ensures ReadSize(s) == None
  {
    UsizeBoundIsPow2();
    hide VarintEnd, VarintValue, Pow2;
    match VarintEnd(s)
    case None =>
    case Some(k) =>
      if n == 10 {
        assert s[..9] + [s[9]] == s[..10];
        VarintValueSnoc(s[..9], s[9]);
        assert (s[9] % 128) * Pow2(63) >= 2 * Pow2(63);
        assert s[..10] + s[10..k] == s[..k];
        VarintValueMonotone(s[..10], s[10..k]);
      }
  }

  /** The overflow guard fires on a tenth byte above one and on every later byte. */
  lemma RangeCheck(length: nat, byteValue: nat)
    requires length % 7 == 0 && length <= 70
    ensures (length >= 64 || (length + 7 > 64 && byteValue > (USIZE_BOUND - 1) / Pow2(length)))
       <==> (length > 63 || (length == 63 && byteValue > 1))
  {
    UsizeBoundIsPow2();
  }

  lemma Accepted(s: bytes, n: nat)
    requires 0 < n <= |s| && n <= MAX_VARINT && s[n - 1] < 128
    requires forall i :: 0 <= i < n - 1 ==> s[i] >= 128
    requires n == 10 ==> s[9] % 128 <= 1
    ensures ReadSize(s) == Some((VarintValue(s[..n]), n)) && VarintValue(s[..n]) < USIZE_BOUND
  {
    VarintPrefixUnique(s, n);
    FitsUsize(s[..n]);
  }

  lemma FitsUsize(v: bytes)
    requires |v| < 10 || (|v| == 10 && v[9] % 128 <= 1)
    ensures VarintValue(v) < USIZE_BOUND
  {
    UsizeBoundIsPow2();
    hide VarintValue, Pow2;
    if |v| == 10 {
      assert v[..9] + [v[9]] == v;
      VarintValueSnoc(v[..9], v[9]);
      VarintValueBound(v[..9]);
    } else {
      VarintValueBound(v);
      Pow2Monotone(7 * |v|, 63);
    }
  }

  /** Reads the operand bytes whose flags are set in `present`, least significant first. */
  method ReadPartialInt(stream: bytes, pos: nat, count: nat, present: nat)
      returns (r: Result<nat>, next: nat, presentAfter: nat)
    requires pos <= |stream|
    ensures pos <= next <= |stream|
    ensures presentAfter == present / Pow2(count) || r.Err?
    ensures r.Err? <==> Present(present, count) > |stream| - pos
    ensures r.Ok? ==> next == pos + Present(present, count) && r.value == PartialInt(present, count, stream[pos..])
  {
    var value, scale := 0, 1;
    next := pos;
    presentAfter := present;
    assert Pow2(0) == 1;
    for i := 0 to count
      invariant pos <= next <= |stream|
      invariant scale == Pow2(8 * i)
      invariant presentAfter == present / Pow2(i)
      invariant Present(present, count) == next - pos + Present(presentAfter, count - i)
      invariant Present(present, count) <= |stream| - pos ==>
          PartialInt(present, count, stream[pos..])
            == value + scale * PartialInt(presentAfter, count - i, stream[next..])
    {
      ghost var before := next;
      if presentAfter % 2 == 1 {
        if next == |stream| {
          return Err(UnexpectedEof), next, presentAfter;
        }
        assert stream[next..][1..] == stream[next + 1..];
        value := value + stream[next] * scale;
        next := next + 1;
      }
      if Present(present, count) <= |stream| - pos {
        PartialIntStep(stream[before..], presentAfter, count - i, scale);
      }
      HalfOfQuotient(present, i);
      Pow2EightMore(i);
      presentAfter := presentAfter / 2;
      scale := 256 * scale;
    }
    r := Ok(value);
  }

  lemma PartialIntStep(s: bytes, flags: nat, n: nat, scale: nat)
    requires n > 0 && Present(flags, n) <= |s|
    ensures scale * PartialInt(flags, n, s) ==
            if flags % 2 == 1
            then s[0] * scale + 256 * scale * PartialInt(flags / 2, n - 1, s[1..])
            else 256 * scale * PartialInt(flags / 2, n - 1, s)
  {
  }

  /** The size the result would have, when it is still within the declared size. */
  method PrepareResultAppend(length: nat, instructionSize: nat, resultSize: nat) returns (ok: bool)
    requires resultSize < USIZE_BOUND
    ensures ok <==> length + instructionSize <= resultSize
  {
    // The checked addition: a sum beyond usize is an error as well.
    if length + instructionSize >= USIZE_BOUND {
      return false;
    }
    ok := length + instructionSize <= resultSize;
  }

  /** `x` followed by a possibly failing rest. */
  ghost function Prepend(x: bytes, rest: Option<bytes>): Option<bytes> {
    match rest
    case None => None
    case Some(y) => Some(x + y)
  }

  /** One step of reading: consume an instruction, then continue behind it. */
  lemma ReadOpsStep(s: bytes, base: bytes)
    requires s != []
    ensures ReadOp(s, base) == None ==> ReadOps(s, base) == None
    ensures ReadOp(s, base).Some? ==>
      var op := ReadOp(s, base).value;
      ReadOps(s, base) == Prepend(OpMeaning(op, base), ReadOps(s[|OpBytes(op)|..], base))
  {
    hide OpWellFormed, OpBytes, OpMeaning, ReadOp, Present, PartialInt;
  }

  /** The flag byte and its low seven bits select the same operands. */
  lemma FlagBits(instruction: byte)
    requires instruction >= 128
    ensures Present(instruction, 4) == Present(instruction - 128, 4)
    ensures Present(instruction / 16, 3) == Present((instruction - 128) / 16, 3)
  {
    assert Pow2(4) * 8 == 128 && Pow2(3) * 1 == 8;
    hide Present, PartialInt, Pow2;
    HighBitsIgnored(instruction - 128, 4, 8, []);
    HighBitsIgnored((instruction - 128) / 16, 3, 1, []);
  }

  /** What the operands at the front of `s` mean. */
  lemma OperandValues(instruction: byte, s: bytes, a: nat, n: nat)
    requires instruction >= 128 && a == Present(instruction, 4)
    requires n == a + Present(instruction / 16, 3) <= |s|
    ensures n == Present(instruction - 128, 4) + Present((instruction - 128) / 16, 3)
    ensures CopyOffset(instruction - 128, s[..n]) == PartialInt(instruction, 4, s)
    ensures
      var size := PartialInt(instruction / 16, 3, s[a..]);
      CopySize(instruction - 128, s[..n]) == if size == 0 then COPY_ZERO_SIZE else size
  {
    var flags := instruction - 128;
    FlagBits(instruction);
    assert Pow2(4) * 8 == 128 && Pow2(3) * 1 == 8;
    hide Present, PartialInt, Pow2;
    HighBitsIgnored(flags, 4, 8, s);
    HighBitsIgnored(flags / 16, 3, 1, s[a..]);
    OperandsSuffice(flags, 4, s, s[..n]);
    OperandsSuffice(flags / 16, 3, s[a..], s[..n][a..]);
  }

  /** Reads the operands behind a copy instruction: an offset and a length. */
  method ReadCopyOperands(stream: bytes, pos: nat, instruction: byte)
      returns (r: Result<(nat, nat)>, next: nat)
    requires pos <= |stream| && instruction >= 128
    ensures
      var flags := instruction - 128;
      var n := Present(flags, 4) + Present(flags / 16, 3);
      && (r.Err? <==> n > |stream| - pos)
      && (r.Ok? ==> && next == pos + n
                    && r.value.0 == CopyOffset(flags, stream[pos..next])
                    && r.value.1 == CopySize(flags, stream[pos..next]))
  {
    assert Pow2(4) == 16;
    hide Present, PartialInt, CopyOffset, CopySize, Pow2;
    FlagBits(instruction);
    var offset, size, nonzeroBytes;
    offset, next, nonzeroBytes := ReadPartialInt(stream, pos, 4, instruction);
    if offset.Err? { return offset.PropagateError(), next; }
    ghost var a := next - pos;
    size, next, nonzeroBytes := ReadPartialInt(stream, next, 3, nonzeroBytes);
    if size.Err? { return size.PropagateError(), next; }
    OperandValues(instruction, stream[pos..], a, next - pos);
    assert stream[pos..][a..] == stream[pos + a..];
    assert stream[pos..][..next - pos] == stream[pos..next];
    r := Ok((offset.value, if size.value == 0 then COPY_ZERO_SIZE else size.value));
  }

  /** Executes the instruction at `pos`: the bytes it contributes and where the next one starts. */
  method ReadInstruction(stream: bytes, pos: nat, base: bytes) returns (r: Result<bytes>, next: nat)
    requires pos < |stream| && |base| < USIZE_BOUND
    ensures r.Err? <==> ReadOp(stream[pos..], base) == None
    ensures r.Ok? ==>
      var op := ReadOp(stream[pos..], base).value;
      next == pos + |OpBytes(op)| <= |stream| && r.value == OpMeaning(op, base)
  {
    hide Present, PartialInt;
    var instruction := stream[pos];
    next := pos + 1;
    if instruction < 128 {
      if instruction == 0 { return Err(InvalidDataInstruction), next; }
      if next + instruction > |stream| { return Err(UnexpectedEof), next; }
      assert stream[next..next + instruction] == stream[pos..][1..1 + instruction];
      return Ok(stream[next..next + instruction]), next + instruction;
    }
    var copy;
    copy, next := ReadCopyOperands(stream, next, instruction);
    if copy.Err? { return copy.PropagateError(), next; }
    assert stream[pos + 1..next] == stream[pos..][1..next - pos];
    var (offset, size) := copy.value;
    if offset + size >= USIZE_BOUND || offset + size > |base| {
      return Err(InvalidCopyInstruction), next;
    }
    r := Ok(base[offset..offset + size]);
  }

  /** The same in terms of the rest of the stream. */
  method Step(stream: bytes, pos: nat, base: bytes) returns (r: Result<bytes>, next: nat)
    requires pos < |stream| && |base| < USIZE_BOUND
    ensures r.Err? ==> ReadOps(stream[pos..], base) == None
    ensures r.Ok? ==> pos < next <= |stream|
    ensures r.Ok? ==> ReadOps(stream[pos..], base) == Prepend(r.value, ReadOps(stream[next..], base))
  {
    hide OpWellFormed, OpBytes, OpMeaning, ReadOp, ReadOps, Present, PartialInt;
    r, next := ReadInstruction(stream, pos, base);
    ReadOpsStep(stream[pos..], base);
    if r.Ok? { assert stream[pos..][next - pos..] == stream[next..]; }
  }

  /** Reads both sizes; on success the result of the whole stream depends on the rest only. */
  method ReadHeader(stream: bytes, base: bytes) returns (r: Result<nat>, pos: nat)
    ensures r.Err? ==> Decode(stream, base) == None
    ensures r.Ok? ==> pos <= |stream| && r.value < USIZE_BOUND
    ensures r.Ok? ==>
      var body := ReadOps(stream[pos..], base);
      Decode(stream, base) == if body.Some? && |body.value| == r.value then body else None
  {
    assert stream[0..] == stream;
    var baseSize;
    baseSize, pos := ReadSizeEncoding(stream, 0);
    if baseSize.Err? { return baseSize.PropagateError(), pos; }
    if |base| != baseSize.value { return Err(BaseLengthMismatch), pos; }
    ghost var k := pos;
    r, pos := ReadSizeEncoding(stream, pos);
    if r.Ok? { assert stream[k..][pos - k..] == stream[pos..]; }
  }

  /**
   Applies a delta to its base. Allocation failure aside, the decoder accepts exactly what
   `Decode` accepts, and its buffer never grows beyond the size the stream declares.
   */
  method DeltaDecode(stream: bytes, base: bytes) returns (r: Result<bytes>)
    requires |base| < USIZE_BOUND
    ensures r.Ok? <==> Decode(stream, base).Some?
    ensures r.Ok? ==> Decode(stream, base) == Some(r.value)
  {
    hide Present, PartialInt, ReadOp, Decode;
    var resultSize, pos := ReadHeader(stream, base);
    if resultSize.Err? { return resultSize.PropagateError(); }
    ghost var whole := ReadOps(stream[pos..], base);
    var buffer: bytes := [];
    PrependNothing(whole);
    while pos < |stream|
      invariant pos <= |stream|
      invariant |buffer| <= resultSize.value
      invariant whole == Prepend(buffer, ReadOps(stream[pos..], base))
    {
      var chunk, next := Step(stream, pos, base);
      if chunk.Err? { return chunk.PropagateError(); }
      PrependTwice(buffer, chunk.value, ReadOps(stream[next..], base));
      var fits := PrepareResultAppend(|buffer|, |chunk.value|, resultSize.value);
      if !fits { return Err(ResultExceedsDeclaredSize); }
      buffer := buffer + chunk.value;
      pos := next;
    }
    assert whole == Some(buffer) by { assert stream[pos..] == [] && buffer + [] == buffer; }
    if |buffer| != resultSize.value { return Err(ResultLengthMismatch); }
    r := Ok(buffer);
  }

  lemma PrependNothing(rest: Option<bytes>)
    ensures Prepend([], rest) == rest
  {
    if rest.Some? { assert [] + rest.value == rest.value; }
  }

  lemma PrependTwice(x: bytes, y: bytes, rest: Option<bytes>)
    ensures Prepend(x, Prepend(y, rest)) == Prepend(x + y, rest)
  {
    if rest.Some? { assert x + (y + rest.value) == x + y + rest.value; }
  }
}
