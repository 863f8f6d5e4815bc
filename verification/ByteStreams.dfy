// The bounded in-memory byte stream: first in, first out, with counters.
module ByteStreams {
  import opened Bytes

  const SIZE_T := 0x1_0000_0000_0000_0000

  /** The fields of a stream. The counters are kept whole; they are reported cut to 64 bits. */
  datatype State = State(
    capacity: nat,
    buffer: seq<byte>,
    readCount: nat,
    writeCount: nat,
    inputEnded: bool,
    error: bool
  ) {
    predicate Valid() {
      |buffer| <= capacity
    }

    predicate Eof() {
      inputEnded && buffer == []
    }
  }

  function Min(a: nat, b: nat): nat {
    if a < b then a else b
  }

  /** How much of `data` fits. */
  function Accepted(st: State, data: seq<byte>): (n: nat)
    requires st.Valid()
    ensures n <= |data|
  {
    Min(|data|, st.capacity - |st.buffer|)
  }

  function AfterWrite(st: State, data: seq<byte>): (r: State)
    requires st.Valid()
    ensures r.Valid() && r.capacity == st.capacity
  {
    var n := Accepted(st, data);
    st.(buffer := st.buffer + data[..n], writeCount := st.writeCount + n)
  }

  function Peek(st: State, len: nat): seq<byte> {
    st.buffer[..Min(len, |st.buffer|)]
  }

  function AfterPop(st: State, len: nat): (r: State)
    requires st.Valid()
    ensures r.Valid() && r.capacity == st.capacity
  {
    var n := Min(len, |st.buffer|);
    st.(buffer := st.buffer[n..], readCount := st.readCount + n)
  }

  // ---------------------------------------------------------------------------------------------
  // The class
  // ---------------------------------------------------------------------------------------------

  class ByteStream {
    var buffer: seq<byte>
    const capacity: nat
    var readCount: nat
    var writeCount: nat
    var isInputEnded: bool
    var hasError: bool

    // Every octet ever accepted and every octet ever taken out.
    ghost var accepted: seq<byte>
    ghost var popped: seq<byte>

    ghost function Now(): State
      reads this
    {
      State(capacity, buffer, readCount, writeCount, isInputEnded, hasError)
    }

    /** What every operation keeps: nothing is lost, reordered or made up, the counters are the lengths
        of the histories and the buffer stays within its capacity. */
    ghost predicate Valid()
      reads this
    {
      && |buffer| <= capacity
      && accepted == popped + buffer
      && writeCount == |accepted|
      && readCount == |popped|
    }

    constructor (capacity: nat)
      ensures Valid() && Now() == State(capacity, [], 0, 0, false, false)
      ensures accepted == popped == []
    {
      this.capacity := capacity;
      buffer, readCount, writeCount, isInputEnded, hasError := [], 0, 0, false, false;
      accepted, popped := [], [];
    }

    method Write(data: seq<byte>) returns (len: nat)
      requires Valid()
      modifies this
      ensures Valid() && Now() == AfterWrite(old(Now()), data)
      ensures len == Accepted(old(Now()), data)
      ensures accepted == old(accepted) + data[..len] && popped == old(popped)
    {
      len := |data|;
      if len > capacity - |buffer| {
        len := capacity - |buffer|;
      }
      writeCount := writeCount + len;
      for i := 0 to len
        invariant buffer == old(buffer) + data[..i]
        invariant unchanged(`readCount, `isInputEnded, `hasError, `accepted, `popped)
        invariant writeCount == old(writeCount) + len
      {
        assert data[..i + 1] == data[..i] + [data[i]];
        buffer := buffer + [data[i]];
      }
      accepted := accepted + data[..len];
    }

    method PeekOutput(len: nat) returns (s: seq<byte>)
      requires Valid()
      ensures s == Peek(Now(), len)
    {
      var length := len;
      if |buffer| == 0 {
        return [];
      }
      if length > |buffer| {
        length := |buffer|;
      }
      return buffer[..length];
    }

    method PopOutput(len: nat)
      requires Valid()
      modifies this
      ensures Valid() && Now() == AfterPop(old(Now()), len)
      ensures popped == old(popped) + Peek(old(Now()), len) && accepted == old(accepted)
    {
      var length := len;
      if |buffer| == 0 {
        return;
      }
      if length > |buffer| {
        length := |buffer|;
      }
      readCount := readCount + length;
      for i := 0 to length
        invariant buffer == old(buffer)[i..]
        invariant unchanged(`writeCount, `isInputEnded, `hasError, `accepted, `popped)
        invariant readCount == old(readCount) + length
      {
        buffer := buffer[1..];
      }
      popped := popped + old(buffer)[..length];
    }

    method Read(len: nat) returns (res: seq<byte>)
      requires Valid()
      modifies this
      ensures Valid() && Now() == AfterPop(old(Now()), len)
      ensures popped == old(popped) + res && accepted == old(accepted)
      ensures res + buffer == old(buffer) && |res| == Min(len, |old(buffer)|)
    {
      res := PeekOutput(len);
      PopOutput(len);
    }

    method EndInput()
      requires Valid()
      modifies `isInputEnded
      ensures Valid() && Now() == old(Now()).(inputEnded := true)
    {
      isInputEnded := true;
    }

    method SetError()
      requires Valid()
      modifies `hasError
      ensures Valid() && Now() == old(Now()).(error := true)
    {
      hasError := true;
    }

    /** At end of file everything that was accepted has been taken out. */
    method Eof() returns (r: bool)
      requires Valid()
      ensures r <==> isInputEnded && popped == accepted
      ensures r <==> isInputEnded && readCount == writeCount
    {
      r := isInputEnded && |buffer| == 0;
    }

    /** The counters as the code reports them, from 64-bit fields. */
    method BytesWritten() returns (n: nat)
      requires Valid()
      ensures n == |accepted| % 0x1_0000_0000_0000_0000
    {
      n := writeCount % SIZE_T;
    }

    method BytesRead() returns (n: nat)
      requires Valid()
      ensures n == |popped| % 0x1_0000_0000_0000_0000
    {
      n := readCount % SIZE_T;
    }

    method RemainingCapacity() returns (n: nat)
      requires Valid()
      ensures n + writeCount == capacity + readCount
    {
      n := capacity - |buffer|;
    }
  }

  // ---------------------------------------------------------------------------------------------
  // Whole runs
  // ---------------------------------------------------------------------------------------------

  datatype Op =
    | DoWrite(data: seq<byte>)
    | DoPop(len: nat)
    | DoEndInput
    | DoSetError

  function Step(st: State, op: Op): (r: State)
    requires st.Valid()
    ensures r.Valid() && r.capacity == st.capacity
  {
    match op
    case DoWrite(data) => AfterWrite(st, data)
    case DoPop(len) => AfterPop(st, len)
    case DoEndInput => st.(inputEnded := true)
    case DoSetError => st.(error := true)
  }

  function Run(st: State, ops: seq<Op>): (r: State)
    requires st.Valid()
    ensures r.Valid() && r.capacity == st.capacity
    decreases |ops|
  {
    if ops == [] then st else Run(Step(st, ops[0]), ops[1..])
  }

  /** What a single operation gets in, and what it takes out. */
  function In(st: State, op: Op): seq<byte>
    requires st.Valid()
  {
    if op.DoWrite? then op.data[..Accepted(st, op.data)] else []
  }

  function Out(st: State, op: Op): seq<byte>
    requires st.Valid()
  {
    if op.DoPop? then Peek(st, op.len) else []
  }

  function Inflow(st: State, ops: seq<Op>): seq<byte>
    requires st.Valid()
    decreases |ops|
  {
    if ops == [] then [] else In(st, ops[0]) + Inflow(Step(st, ops[0]), ops[1..])
  }

  function Outflow(st: State, ops: seq<Op>): seq<byte>
    requires st.Valid()
    decreases |ops|
  {
    if ops == [] then [] else Out(st, ops[0]) + Outflow(Step(st, ops[0]), ops[1..])
  }

  lemma {:induction false} StepConserves(st: State, op: Op)
    requires st.Valid()
    ensures st.buffer + In(st, op) == Out(st, op) + Step(st, op).buffer
    ensures Step(st, op).writeCount == st.writeCount + |In(st, op)|
    ensures Step(st, op).readCount == st.readCount + |Out(st, op)|
  {
  }

  lemma {:induction false} Chain(b0: seq<byte>, i0: seq<byte>, o0: seq<byte>, b1: seq<byte>,
                               i1: seq<byte>, o1: seq<byte>, b2: seq<byte>)
    requires b0 + i0 == o0 + b1 && b1 + i1 == o1 + b2
    ensures b0 + (i0 + i1) == (o0 + o1) + b2
  {
    assert b0 + (i0 + i1) == (b0 + i0) + i1;
    assert (o0 + b1) + i1 == o0 + (b1 + i1);
  }

  /** What goes in comes out, once and in order, except for what is still buffered; and the counters
      count exactly that. */
  lemma {:induction false} Conservation(st: State, ops: seq<Op>)
    requires st.Valid()
    ensures st.buffer + Inflow(st, ops) == Outflow(st, ops) + Run(st, ops).buffer
    ensures Run(st, ops).writeCount == st.writeCount + |Inflow(st, ops)|
    ensures Run(st, ops).readCount == st.readCount + |Outflow(st, ops)|
    decreases |ops|
  {
    if ops != [] {
      hide In, Out, Step;
      var op, next := ops[0], Step(st, ops[0]);
      StepConserves(st, op);
      Conservation(next, ops[1..]);
      Chain(st.buffer, In(st, op), Out(st, op), next.buffer,
            Inflow(next, ops[1..]), Outflow(next, ops[1..]), Run(st, ops).buffer);
    }
  }

  /** The stream does not refuse input after its end: end of file lasts over a run exactly when the
      stream can hold nothing or the run writes nothing. */
  lemma {:induction false} EofLastsIff(st: State, ops: seq<Op>)
    requires st.Valid() && st.Eof()
    ensures (forall k :: 0 <= k <= |ops| ==> Run(st, ops[..k]).Eof())
        <==> st.capacity == 0 || forall k :: 0 <= k < |ops| && ops[k].DoWrite? ==> ops[k].data == []
    decreases |ops|
  {
    if ops == [] {
      assert ops[..0] == [];
    } else {
      var next := Step(st, ops[0]);
      forall k | 0 < k <= |ops|
        ensures Run(st, ops[..k]) == Run(next, ops[1..][..k - 1])
      {
        assert ops[..k][1..] == ops[1..][..k - 1];
      }
      assert ops[..0] == [];
      if ops[0].DoWrite? && ops[0].data != [] && st.capacity > 0 {
        assert ops[1..][..0] == [] && Run(st, ops[..1]) == next;
        assert !next.Eof();
      } else {
        EofLastsIff(next, ops[1..]);
        assert forall k :: 0 <= k <= |ops[1..]| ==> Run(next, ops[1..][..k]) == Run(st, ops[..k + 1]);
        assert forall k :: 0 <= k < |ops[1..]| ==> ops[1..][k] == ops[k + 1];
      }
    }
  }

  /** A writer can revive a stream that was at end of file. */
  lemma {:induction false} EofCanEnd()
    ensures var st := Run(State(1, [], 0, 0, false, false), [DoEndInput]);
            st.Eof() && !AfterWrite(st, [0x41]).Eof()
  {
  }

  /** Over a run nothing goes in exactly when every write is empty or meets a full buffer. This is all that
      keeps a stream shut: the end of its input does not. */
  lemma {:induction false} NothingGoesInIff(st: State, ops: seq<Op>)
    requires st.Valid()
    ensures Inflow(st, ops) == []
        <==> forall k :: 0 <= k < |ops| && ops[k].DoWrite? ==>
               ops[k].data == [] || |Run(st, ops[..k]).buffer| == st.capacity
    decreases |ops|
  {
    if ops != [] {
      var next, rest := Step(st, ops[0]), ops[1..];
      NothingGoesInIff(next, rest);
      assert ops[..0] == [];
      forall k | 0 <= k < |rest|
        ensures rest[k] == ops[k + 1] && Run(next, rest[..k]) == Run(st, ops[..k + 1])
      {
        assert ops[..k + 1][1..] == rest[..k];
      }
      if forall k :: 0 <= k < |rest| && rest[k].DoWrite? ==>
           rest[k].data == [] || |Run(next, rest[..k]).buffer| == next.capacity
      {
        assert forall k :: 0 < k < |ops| ==> ops[k] == rest[k - 1] && Run(next, rest[..k - 1]) == Run(st, ops[..k]);
      }
    }
  }

  /** Having ended changes nothing for a writer. */
  lemma {:induction false} EndIsIgnored(st: State, ops: seq<Op>)
    requires st.Valid()
    ensures Inflow(st.(inputEnded := true), ops) == Inflow(st, ops)
    ensures Outflow(st.(inputEnded := true), ops) == Outflow(st, ops)
    decreases |ops|
  {
    if ops != [] {
      var ended := st.(inputEnded := true);
      var next := Step(st, ops[0]);
      assert Step(ended, ops[0]) == next.(inputEnded := true);
      EndIsIgnored(next, ops[1..]);
    }
  }

  /** A stream whose input has ended, with an octet still to be read, takes another one behind it. */
  lemma {:induction false} WrittenAfterEnd()
    ensures var st := State(2, [1], 0, 1, true, false);
            st.Valid() && Accepted(st, [2]) == 1 && AfterWrite(st, [2]).buffer == [1, 2]
  {
  }

  // ---------------------------------------------------------------------------------------------
  // Chunking does not matter
  // ---------------------------------------------------------------------------------------------

  lemma {:induction false} WriteTwice(st: State, x: seq<byte>, y: seq<byte>)
    requires st.Valid()
    ensures AfterWrite(AfterWrite(st, x), y) == AfterWrite(st, x + y)
    ensures Accepted(st, x) + Accepted(AfterWrite(st, x), y) == Accepted(st, x + y)
  {
  }

  /** Any way of cutting a string into consecutive writes leaves the same state. */
  lemma {:induction false} WriteChunks(st: State, chunks: seq<seq<byte>>)
    requires st.Valid()
    ensures Run(st, Writes(chunks)) == AfterWrite(st, Flat(chunks))
    decreases |chunks|
  {
    if chunks == [] {
      assert st.buffer + [] == st.buffer;
    } else {
      assert Writes(chunks)[1..] == Writes(chunks[1..]);
      WriteChunks(AfterWrite(st, chunks[0]), chunks[1..]);
      WriteTwice(st, chunks[0], Flat(chunks[1..]));
    }
  }

  function Writes(chunks: seq<seq<byte>>): seq<Op> {
    seq(|chunks|, i requires 0 <= i < |chunks| => DoWrite(chunks[i]))
  }

  lemma {:induction false} ReadTwice(st: State, a: nat, b: nat)
    requires st.Valid()
    ensures AfterPop(AfterPop(st, a), b) == AfterPop(st, a + b)
    ensures Peek(st, a) + Peek(AfterPop(st, a), b) == Peek(st, a + b)
  {
  }

  function Pops(lens: seq<nat>): seq<Op> {
    seq(|lens|, i requires 0 <= i < |lens| => DoPop(lens[i]))
  }

  function Total(lens: seq<nat>): nat {
    if lens == [] then 0 else lens[0] + Total(lens[1..])
  }

  /** Any way of cutting a length into consecutive reads yields the same octets and the same state. */
  lemma {:induction false} ReadChunks(st: State, lens: seq<nat>)
    requires st.Valid()
    ensures Run(st, Pops(lens)) == AfterPop(st, Total(lens))
    ensures Outflow(st, Pops(lens)) == Peek(st, Total(lens))
    decreases |lens|
  {
    if lens != [] {
      assert Pops(lens)[1..] == Pops(lens[1..]);
      ReadChunks(AfterPop(st, lens[0]), lens[1..]);
      ReadTwice(st, lens[0], Total(lens[1..]));
    }
  }
}
