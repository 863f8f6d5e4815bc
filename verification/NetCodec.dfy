// Integers in network byte order: the parser over a Buffer, the unparser, and how they undo each other.
module NetCodec {
  import opened Bytes
  import opened Buffers
  import Bits

  // ---------------------------------------------------------------------------------------------
  // Big-endian numerals
  // ---------------------------------------------------------------------------------------------

  function Pow256(n: nat): (r: nat)
    ensures r > 0
  {
    if n == 0 then 1 else 0x100 * Pow256(n - 1)
  }

  /** The `width` low octets of `val`, most significant first. */
  function Encode(width: nat, val: nat): (r: seq<byte>)
    ensures |r| == width
  {
    if width == 0 then [] else Encode(width - 1, val / 0x100) + [val % 0x100]
  }

  function Decode(octets: seq<byte>): nat {
    if octets == [] then 0 else Decode(octets[..|octets| - 1]) * 0x100 + octets[|octets| - 1]
  }

  lemma {:induction false} DecodeBound(octets: seq<byte>)
    ensures Decode(octets) < Pow256(|octets|)
  {
    if octets != [] {
      DecodeBound(octets[..|octets| - 1]);
    }
  }

  lemma {:induction false} DecodeEncode(width: nat, val: nat)
    requires val < Pow256(width)
    ensures Decode(Encode(width, val)) == val
  {
    if width > 0 {
      DecodeEncode(width - 1, val / 0x100);
      assert Encode(width, val)[..width - 1] == Encode(width - 1, val / 0x100);
    }
  }

  lemma {:induction false} EncodeDecode(octets: seq<byte>)
    ensures Encode(|octets|, Decode(octets)) == octets
  {
    if octets != [] {
      var front, last := octets[..|octets| - 1], octets[|octets| - 1];
      EncodeDecode(front);
      assert Decode(octets) / 0x100 == Decode(front) && Decode(octets) % 0x100 == last;
    }
  }

  /** `val >> 8k`. */
  function ShiftRight(val: nat, k: nat): nat {
    QuotientIsNat(val, Pow256(k));
    val / Pow256(k)
  }

  lemma {:induction false} QuotientIsNat(n: nat, m: nat)
    requires m > 0
    ensures n / m >= 0
  {
  }

  /** `n` stored in an unsigned integer of `len` octets. */
  function Truncate(n: nat, len: nat): (r: nat)
    ensures r < Pow256(len)
    ensures n < Pow256(len) ==> r == n
  {
    SmallModulus(n, Pow256(len));
    n % Pow256(len)
  }

  /** The arithmetic above is the shifting of the code, on integers of `8 * len` bits. */
  lemma {:induction false} ShiftsAreBitShifts(b: Bits.bits, len: nat, k: nat)
    requires |b| == 8 * len && k <= len
    ensures Bits.Number(Bits.ShiftRight(b, 8 * k)) == ShiftRight(Bits.Number(b), k)
    ensures len > 0 ==> Bits.Number(Bits.ShiftLeft(b, 8)) == Truncate(Bits.Number(b) * 0x100, len)
  {
    hide Bits.Number, Bits.Pow2;
    PowersAgree(k);
    PowersAgree(len);
    PowersAgree(1);
    Bits.ShiftAndMask(b, 8 * k);
    if len > 0 {
      Bits.ShiftLeftMultiplies(b, 8);
    }
  }

  lemma {:induction false} PowersAgree(k: nat)
    ensures Pow256(k) == Bits.Pow2(8 * k)
    ensures k == 1 ==> Pow256(k) == 0x100
  {
    if k > 0 {
      PowersAgree(k - 1);
      Bits.PowersAdd(8, 8 * (k - 1));
      assert Bits.Pow2(8) == 0x100 by {
        assert Bits.Pow2(4) == 16;
        Bits.PowersAdd(4, 4);
      }
    }
  }

  lemma {:induction false} SmallModulus(n: nat, m: nat)
    requires m > 0
    ensures n < m ==> n % m == n
  {
  }

  lemma {:induction false} ShiftRightOneMore(val: nat, k: nat)
    ensures ShiftRight(val, k + 1) == ShiftRight(val, k) / 0x100
    ensures ShiftRight(val, 0) == val
  {
    assert Pow256(0) == 1;
    DivideTwice(val, Pow256(k));
  }

  lemma {:induction false} DivideTwice(val: nat, p: nat)
    requires p > 0
    ensures val / (0x100 * p) == val / p / 0x100
  {
    var q := val / p;
    var high, low := q / 0x100, q % 0x100;
    assert val == (0x100 * p) * high + (p * low + val % p) by {
      assert val == p * q + val % p;
      assert q == 0x100 * high + low;
      Regroup(p, high, low);
    }
    Bits.MultiplesAreApart(p, low, 0x100);
    Bits.Split(val, p * low + val % p, high, 0x100 * p);
  }

  lemma {:induction false} Regroup(p: nat, high: nat, low: nat)
    ensures p * (0x100 * high + low) == (0x100 * p) * high + p * low
  {
  }

  // ---------------------------------------------------------------------------------------------
  // The parser as a state machine
  // ---------------------------------------------------------------------------------------------

  datatype ParseResult =
    | NoError
    | BadChecksum
    | PacketTooShort
    | WrongIPVersion
    | HeaderTooShort
    | TruncatedPacket
    | Unsupported

  /** What a parser still has to read, and its error so far. */
  datatype State = State(rest: seq<byte>, error: ParseResult)

  datatype Op =
    | ReadInt(width: nat)
    | Skip(n: nat)

  function Width(op: Op): nat {
    match op
    case ReadInt(width) => width
    case Skip(n) => n
  }

  /** The size check comes first and may overwrite an earlier error; a parser in error stays put. */
  function Step(st: State, op: Op): State {
    if Width(op) > |st.rest| then st.(error := PacketTooShort)
    else if st.error != NoError then st
    else st.(rest := st.rest[Width(op)..])
  }

  /** The number that a read returns, zero in error; skips return nothing, written zero here. */
  function Result(st: State, op: Op): nat {
    if Width(op) > |st.rest| || st.error != NoError || op.Skip? then 0 else Decode(st.rest[..op.width])
  }

  function Run(st: State, ops: seq<Op>): State
    decreases |ops|
  {
    if ops == [] then st else Run(Step(st, ops[0]), ops[1..])
  }

  function Results(st: State, ops: seq<Op>): (vs: seq<nat>)
    ensures |vs| == |ops|
    decreases |ops|
  {
    if ops == [] then [] else [Result(st, ops[0])] + Results(Step(st, ops[0]), ops[1..])
  }

  function TotalWidth(ops: seq<Op>): nat {
    if ops == [] then 0 else Width(ops[0]) + TotalWidth(ops[1..])
  }

  /** A run from a fresh parser is free of error exactly when the widths fit, and then it has consumed
      exactly their total. */
  lemma {:induction false} ErrorIffTooWide(data: seq<byte>, ops: seq<Op>)
    ensures Run(State(data, NoError), ops).error == NoError <==> TotalWidth(ops) <= |data|
    ensures TotalWidth(ops) <= |data| ==> Run(State(data, NoError), ops) == State(data[TotalWidth(ops)..], NoError)
    decreases |ops|
  {
    if ops != [] {
      if Width(ops[0]) <= |data| {
        ErrorIffTooWide(data[Width(ops[0])..], ops[1..]);
      } else {
        ErrorSticks(State(data, PacketTooShort), ops[1..]);
      }
    }
  }

  /** Whatever the error: it stays an error, the buffer no longer changes and every read returns 0. */
  lemma {:induction false} ErrorSticks(st: State, ops: seq<Op>)
    requires st.error != NoError
    ensures Run(st, ops).error in {st.error, PacketTooShort} && Run(st, ops).rest == st.rest
    ensures forall k :: 0 <= k < |ops| ==> Results(st, ops)[k] == 0
    decreases |ops|
  {
    if ops != [] {
      ErrorSticks(Step(st, ops[0]), ops[1..]);
    }
  }

  lemma {:induction false} RunConcat(st: State, a: seq<Op>, b: seq<Op>)
    ensures Run(st, a + b) == Run(Run(st, a), b)
    ensures Results(st, a + b) == Results(st, a) + Results(Run(st, a), b)
    ensures TotalWidth(a + b) == TotalWidth(a) + TotalWidth(b)
    decreases |a|
  {
    if a == [] {
      assert a + b == b;
    } else {
      assert (a + b)[1..] == a[1..] + b;
      RunConcat(Step(st, a[0]), a[1..], b);
    }
  }

  lemma {:induction false} FailureSticks(st: State, failing: Op, after: seq<Op>)
    requires st.error == NoError && Width(failing) > |st.rest|
    ensures Run(st, [failing] + after) == State(st.rest, PacketTooShort)
    ensures forall k :: 0 <= k <= |after| ==> Results(st, [failing] + after)[k] == 0
  {
    assert ([failing] + after)[1..] == after;
    ErrorSticks(Step(st, failing), after);
  }

  /** The first failure is the first operation whose cumulative width exceeds the input. Nothing before
      it fails; it and everything after it leave the buffer where the failure found it and return 0. */
  lemma {:induction false} FirstFailure(data: seq<byte>, before: seq<Op>, failing: Op, after: seq<Op>)
    requires TotalWidth(before) <= |data| < TotalWidth(before) + Width(failing)
    ensures Run(State(data, NoError), before) == State(data[TotalWidth(before)..], NoError)
    ensures Run(State(data, NoError), before + ([failing] + after)) == State(data[TotalWidth(before)..], PacketTooShort)
    ensures forall k :: |before| <= k <= |before| + |after| ==>
              Results(State(data, NoError), before + ([failing] + after))[k] == 0
  {
    hide Run, Results, TotalWidth, Step;
    var start := State(data, NoError);
    ErrorIffTooWide(data, before);
    RunConcat(start, before, [failing] + after);
    FailureSticks(Run(start, before), failing, after);
  }

  // ---------------------------------------------------------------------------------------------
  // Round trips
  // ---------------------------------------------------------------------------------------------

  datatype Field = Field(width: nat, val: nat)

  ghost predicate InRange(fields: seq<Field>) {
    forall k :: 0 <= k < |fields| ==> fields[k].val < Pow256(fields[k].width)
  }

  function Unparse(fields: seq<Field>): seq<byte> {
    if fields == [] then [] else Encode(fields[0].width, fields[0].val) + Unparse(fields[1..])
  }

  function Reads(fields: seq<Field>): seq<Op> {
    seq(|fields|, k requires 0 <= k < |fields| => ReadInt(fields[k].width))
  }

  function Vals(fields: seq<Field>): seq<nat> {
    seq(|fields|, k requires 0 <= k < |fields| => fields[k].val)
  }

  /** Parsing what was unparsed returns the same values and leaves exactly the suffix. */
  lemma {:induction false} ParseUnparse(fields: seq<Field>, suffix: seq<byte>)
    requires InRange(fields)
    ensures Run(State(Unparse(fields) + suffix, NoError), Reads(fields)) == State(suffix, NoError)
    ensures Results(State(Unparse(fields) + suffix, NoError), Reads(fields)) == Vals(fields)
  {
    if fields == [] {
      assert Unparse(fields) + suffix == suffix;
    } else {
      var f, rest := fields[0], fields[1..];
      var input := Unparse(fields) + suffix;
      assert input[..f.width] == Encode(f.width, f.val);
      assert input[f.width..] == Unparse(rest) + suffix;
      DecodeEncode(f.width, f.val);
      assert Reads(fields)[1..] == Reads(rest);
      assert Vals(fields) == [f.val] + Vals(rest);
      ParseUnparse(rest, suffix);
    }
  }

  /** The same behind any prefix that is skipped first. */
  lemma {:induction false} ParseUnparseAfterPrefix(prefix: seq<byte>, fields: seq<Field>, suffix: seq<byte>)
    requires InRange(fields)
    ensures var start := State(prefix + Unparse(fields) + suffix, NoError);
            var ops := [Skip(|prefix|)] + Reads(fields);
            Run(start, ops) == State(suffix, NoError) && Results(start, ops)[1..] == Vals(fields)
  {
    var start := State(prefix + Unparse(fields) + suffix, NoError);
    assert start.rest[|prefix|..] == Unparse(fields) + suffix;
    assert ([Skip(|prefix|)] + Reads(fields))[1..] == Reads(fields);
    ParseUnparse(fields, suffix);
  }

  /** The widths of some reads together with the values they returned. */
  function Parsed(st: State, widths: seq<nat>): (fields: seq<Field>)
    ensures |fields| == |widths|
    decreases |widths|
  {
    if widths == [] then []
    else [Field(widths[0], Result(st, ReadInt(widths[0])))] + Parsed(Step(st, ReadInt(widths[0])), widths[1..])
  }

  lemma {:induction false} ParsedCons(data: seq<byte>, w: nat, more: seq<nat>)
    requires w <= |data|
    ensures Parsed(State(data, NoError), [w] + more)
         == [Field(w, Decode(data[..w]))] + Parsed(State(data[w..], NoError), more)
  {
  }

  lemma {:induction false} FieldCons(data: seq<byte>, w: nat, fields: seq<Field>)
    requires w <= |data|
    ensures var all := [Field(w, Decode(data[..w]))] + fields;
            && Run(State(data, NoError), Reads(all)) == Run(State(data[w..], NoError), Reads(fields))
            && Results(State(data, NoError), Reads(all))
               == [Decode(data[..w])] + Results(State(data[w..], NoError), Reads(fields))
            && Vals(all) == [Decode(data[..w])] + Vals(fields)
            && Unparse(all) == data[..w] + Unparse(fields)
  {
    var all := [Field(w, Decode(data[..w]))] + fields;
    assert all[1..] == fields && Reads(all)[1..] == Reads(fields);
    EncodeDecode(data[..w]);
  }

  lemma {:induction false} WidthCons(w: nat, v: nat, fields: seq<Field>)
    ensures TotalWidth(Reads([Field(w, v)] + fields)) == w + TotalWidth(Reads(fields))
  {
    assert Reads([Field(w, v)] + fields)[1..] == Reads(fields);
  }

  /** Unparsing the values of an error-free parse reproduces exactly the octets it consumed. */
  lemma {:induction false} UnparseParse(data: seq<byte>, widths: seq<nat>)
    requires TotalWidth(Reads(Parsed(State(data, NoError), widths))) <= |data|
    ensures var fields := Parsed(State(data, NoError), widths);
            && InRange(fields)
            && Vals(fields) == Results(State(data, NoError), Reads(fields))
            && data == Unparse(fields) + Run(State(data, NoError), Reads(fields)).rest
    decreases |widths|
  {
    if widths != [] {
      var w, more := widths[0], widths[1..];
      assert widths == [w] + more;
      var st := State(data, NoError);
      WidthCons(w, Result(st, ReadInt(w)), Parsed(Step(st, ReadInt(w)), more));
      hide Encode, Decode, Parsed, Run, Results, Reads, Vals, Unparse, TotalWidth;
      ParsedCons(data, w, more);
      UnparseParse(data[w..], more);
      FieldCons(data, w, Parsed(State(data[w..], NoError), more));
      DecodeBound(data[..w]);
      assert data == data[..w] + data[w..];
    } else {
      assert Reads([]) == [];
    }
  }

  // ---------------------------------------------------------------------------------------------
  // NetParser
  // ---------------------------------------------------------------------------------------------

  /** One more octet never overflows an integer that has room for it. */
  lemma {:induction false} OneMoreOctet(text: seq<byte>, i: nat, len: nat)
    requires i < len <= |text|
    ensures Decode(text[..i + 1]) == Decode(text[..i]) * 0x100 + text[i] < Pow256(len)
  {
    assert text[..i + 1][..i] == text[..i];
    DecodeBound(text[..i + 1]);
    PowersGrow(i + 1, len);
  }

  class NetParser {
    const buffer: Buffer  // the parser's own copy
    var error: ParseResult

    ghost predicate Valid()
      reads this, buffer
    {
      buffer.Valid()
    }

    ghost function Now(): State
      requires Valid()
      reads this, buffer
    {
      State(buffer.Str(), error)
    }

    constructor (input: Buffer)
      requires input.Valid()
      ensures Valid() && fresh(buffer) && Now() == State(input.Str(), NoError)
    {
      buffer := new Buffer.CopyOf(input);
      error := NoError;
    }

    method SetError(res: ParseResult)
      requires Valid()
      modifies this
      ensures Valid() && Now() == old(Now()).(error := res)
    {
      error := res;
    }

    method CheckSize(size: nat)
      requires Valid()
      modifies this
      ensures Valid()
      ensures Now() == old(Now()).(error := if size > |old(Now()).rest| then PacketTooShort else old(Now()).error)
    {
      if size > |buffer.Str()| {
        SetError(PacketTooShort);
      }
    }

    /** `len` is the size of the integer type; the accumulator is cut to that type at every step. */
    method ParseInt(len: nat) returns (ret: nat)
      requires Valid()
      modifies this, buffer
      ensures Valid() && Now() == Step(old(Now()), ReadInt(len))
      ensures ret == Result(old(Now()), ReadInt(len)) < Pow256(len)
    {
      CheckSize(len);
      if error != NoError {
        return 0;
      }
      ret := 0;
      var text := buffer.Str();
      assert text[..0] == [];
      for i := 0 to len
        invariant ret == Decode(text[..i])
        invariant Valid() && Now() == old(Now()) && text == buffer.Str() && error == NoError
      {
        hide Decode, Pow256, Truncate;
        var ok, octet := buffer.At(i);
        OneMoreOctet(text, i, len);
        ret := Truncate(ret * 0x100, len);
        ret := Truncate(ret + octet, len);
      }
      DecodeBound(text[..len]);
      var _ := buffer.RemovePrefix(len);
    }

    method RemovePrefix(n: nat)
      requires Valid()
      modifies this, buffer
      ensures Valid() && Now() == Step(old(Now()), Skip(n))
    {
      CheckSize(n);
      if error != NoError {
        return;
      }
      var _ := buffer.RemovePrefix(n);
    }

    method U32() returns (ret: uint32)
      requires Valid()
      modifies this, buffer
      ensures Valid() && Now() == Step(old(Now()), ReadInt(4)) && ret == Result(old(Now()), ReadInt(4))
    {
      assert Pow256(4) == 0x1_0000_0000 by { PowerValues(); }
      ret := ParseInt(4);
    }

    method U16() returns (ret: uint16)
      requires Valid()
      modifies this, buffer
      ensures Valid() && Now() == Step(old(Now()), ReadInt(2)) && ret == Result(old(Now()), ReadInt(2))
    {
      assert Pow256(2) == 0x1_0000 by { PowerValues(); }
      ret := ParseInt(2);
    }

    method U8() returns (ret: byte)
      requires Valid()
      modifies this, buffer
      ensures Valid() && Now() == Step(old(Now()), ReadInt(1)) && ret == Result(old(Now()), ReadInt(1))
    {
      assert Pow256(1) == 0x100 by { PowerValues(); }
      ret := ParseInt(1);
    }
  }

  lemma {:induction false} PowersGrow(m: nat, n: nat)
    requires m <= n
    ensures Pow256(m) <= Pow256(n)
  {
    if m < n {
      PowersGrow(m, n - 1);
    }
  }

  lemma {:induction false} PowerValues()
    ensures Pow256(1) == 0x100 && Pow256(2) == 0x1_0000 && Pow256(4) == 0x1_0000_0000
  {
  }

  // ---------------------------------------------------------------------------------------------
  // NetUnparser
  // ---------------------------------------------------------------------------------------------

  lemma {:induction false} EncodeOneMore(val: nat, i: nat, k: nat)
    ensures Encode(i + 1, ShiftRight(val, k)) == Encode(i, ShiftRight(val, k + 1)) + [ShiftRight(val, k) % 0x100]
  {
    hide ShiftRight;
    ShiftRightOneMore(val, k);
  }

  /** Appends the octets of `val` to `s`, each one picked out by a shift and a mask. */
  method UnparseInt(s: seq<byte>, len: nat, val: nat) returns (r: seq<byte>)
    ensures r == s + Encode(len, val)
  {
    hide ShiftRight;
    r := s;
    for i := 0 to len
      invariant r == s + Encode(i, ShiftRight(val, len - i))
    {
      hide ShiftRight, Encode;
      var theByte: byte := ShiftRight(val, len - i - 1) % 0x100;
      EncodeOneMore(val, i, len - i - 1);
      r := r + [theByte];
    }
    ShiftRightOneMore(val, 0);
  }

  method UnparseU32(s: seq<byte>, val: uint32) returns (r: seq<byte>)
    ensures r == s + Encode(4, val) && Decode(r[|s|..]) == val
  {
    r := UnparseInt(s, 4, val);
    PowerValues();
    DecodeEncode(4, val);
  }

  method UnparseU16(s: seq<byte>, val: uint16) returns (r: seq<byte>)
    ensures r == s + Encode(2, val) && Decode(r[|s|..]) == val
  {
    r := UnparseInt(s, 2, val);
    PowerValues();
    DecodeEncode(2, val);
  }

  method UnparseU8(s: seq<byte>, val: byte) returns (r: seq<byte>)
    ensures r == s + Encode(1, val) && Decode(r[|s|..]) == val
  {
    r := UnparseInt(s, 1, val);
    PowerValues();
    DecodeEncode(1, val);
  }

  // ---------------------------------------------------------------------------------------------
  // Both together
  // ---------------------------------------------------------------------------------------------

  lemma {:induction false} UnparseSnoc(fields: seq<Field>, f: Field)
    ensures Unparse(fields + [f]) == Unparse(fields) + Encode(f.width, f.val)
  {
    if fields == [] {
      assert [] + [f] == [f] && [f][1..] == [];
    } else {
      assert (fields + [f])[1..] == fields[1..] + [f];
      UnparseSnoc(fields[1..], f);
    }
  }

  /** Integers of any of the three widths, written behind a prefix and read back with a parser that skips
      it, come back as they were, without error and with exactly the suffix left over. */
  method WriteThenRead(prefix: seq<byte>, fields: seq<Field>, suffix: seq<byte>)
    returns (vals: seq<nat>, error: ParseResult, rest: seq<byte>)
    requires InRange(fields) && forall k :: 0 <= k < |fields| ==> fields[k].width in {1, 2, 4}
    ensures vals == Vals(fields) && error == NoError && rest == suffix
  {
    hide Unparse, Run, Results, Reads, Vals, InRange;
    var text := UnparseAll(prefix, fields);
    text := text + suffix;
    var input := new Buffer.FromString(text);
    var parser := new NetParser(input);
    parser.RemovePrefix(|prefix|);
    assert text[|prefix|..] == Unparse(fields) + suffix;
    ParseUnparse(fields, suffix);
    vals := ParseAll(parser, fields);
    error, rest := parser.error, parser.buffer.Str();
    assert parser.Now() == State(rest, error);
  }

  method UnparseAll(s: seq<byte>, fields: seq<Field>) returns (r: seq<byte>)
    requires InRange(fields) && forall k :: 0 <= k < |fields| ==> fields[k].width in {1, 2, 4}
    ensures r == s + Unparse(fields)
  {
    r := s;
    for i := 0 to |fields|
      invariant r == s + Unparse(fields[..i])
    {
      UnparseSnoc(fields[..i], fields[i]);
      assert fields[..i + 1] == fields[..i] + [fields[i]];
      r := UnparseOne(r, fields[i]);
    }
    assert fields[..|fields|] == fields;
  }

  /** Reads with the widths of the given fields. */
  method ParseAll(parser: NetParser, fields: seq<Field>) returns (vals: seq<nat>)
    requires parser.Valid() && forall k :: 0 <= k < |fields| ==> fields[k].width in {1, 2, 4}
    modifies parser, parser.buffer
    ensures parser.Valid() && parser.Now() == Run(old(parser.Now()), Reads(fields))
    ensures vals == Results(old(parser.Now()), Reads(fields))
  {
    vals := [];
    ghost var start, ops := parser.Now(), Reads(fields);
    assert ops[0..] == ops;
    for i := 0 to |fields|
      invariant parser.Valid()
      invariant Run(parser.Now(), ops[i..]) == Run(start, ops)
      invariant vals + Results(parser.Now(), ops[i..]) == Results(start, ops)
    {
      hide Step, Result;
      assert ops[i..] == [ReadInt(fields[i].width)] + ops[i + 1..];
      var v := ReadOne(parser, fields[i].width);
      vals := vals + [v];
    }
  }

  method UnparseOne(s: seq<byte>, f: Field) returns (r: seq<byte>)
    requires f.width in {1, 2, 4} && f.val < Pow256(f.width)
    ensures r == s + Encode(f.width, f.val)
  {
    PowerValues();
    match f.width {
      case 1 => r := UnparseU8(s, f.val);
      case 2 => r := UnparseU16(s, f.val);
      case _ => r := UnparseU32(s, f.val);
    }
  }

  method ReadOne(parser: NetParser, width: nat) returns (v: nat)
    requires parser.Valid() && width in {1, 2, 4}
    modifies parser, parser.buffer
    ensures parser.Valid() && parser.Now() == Step(old(parser.Now()), ReadInt(width))
    ensures v == Result(old(parser.Now()), ReadInt(width))
  {
    match width {
      case 1 => v := parser.U8();
      case 2 => v := parser.U16();
      case _ => v := parser.U32();
    }
  }
}
