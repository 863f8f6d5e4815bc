// File descriptors: a shared record per kernel descriptor, short writes and end of file.
module FileDescriptors {
  import opened Bytes
  import opened Buffers

  const BUFFER_SIZE := 1024 * 1024
  const UNSIGNED_SIZE := 0x1_0000_0000

  /** A count as it reads from a 32-bit unsigned field. */
  function AsUnsigned(n: nat): uint32 {
    n % UNSIGNED_SIZE
  }

  /** The state behind a descriptor number, shared by all duplicates of a FileDescriptor. The counts are
      kept whole here; everything that looks at them sees them cut to 32 bits. */
  class FDWrapper {
    const fd: nat
    var eof: bool
    var closed: bool
    var readCount: nat
    var writeCount: nat

    constructor (fd: nat)
      ensures this.fd == fd && !eof && !closed && readCount == 0 && writeCount == 0
    {
      this.fd := fd;
      eof, closed, readCount, writeCount := false, false, 0, 0;
    }
  }

  // ---------------------------------------------------------------------------------------------
  // The kernel
  // ---------------------------------------------------------------------------------------------

  /** The answers of the kernel, one per system call: negative for an error, otherwise a count. */
  type Schedule = nat -> int

  /** One open file as the process sees it. Which answer comes when is up to the schedule; `sink` is
      everything the kernel has taken, `source` everything that is still there to be read. */
  class Kernel {
    const schedule: Schedule
    var clock: nat
    var sink: seq<byte>
    var source: seq<byte>

    constructor (schedule: Schedule, source: seq<byte>)
      ensures this.schedule == schedule && clock == 0 && sink == [] && this.source == source
    {
      this.schedule, this.source := schedule, source;
      clock, sink := 0, [];
    }

    /** Takes as many octets as it says it does, if there are that many. */
    method Writev(iovecs: seq<Iovec>) returns (ret: int)
      requires AllIovecs(iovecs)
      modifies `clock, `sink
      ensures clock == old(clock) + 1 && ret == schedule(old(clock))
      ensures sink == old(sink) + Taken(Gathered(iovecs), ret)
    {
      var text := [];
      for i := 0 to |iovecs|
        invariant clock == old(clock) && sink == old(sink)
        invariant text == Flat(IovecTexts(iovecs)[..i])
      {
        FlatSnoc(IovecTexts(iovecs)[..i], iovecs[i].Text());
        assert IovecTexts(iovecs)[..i + 1] == IovecTexts(iovecs)[..i] + [iovecs[i].Text()];
        text := text + iovecs[i].Text();
      }
      assert IovecTexts(iovecs)[..|iovecs|] == IovecTexts(iovecs);
      ret := schedule(clock);
      clock := clock + 1;
      sink := sink + Taken(text, ret);
    }

    /** Hands out the front of the source, never more than there is. */
    method Read(size: nat) returns (ret: int, data: seq<byte>)
      modifies `clock, `source
      ensures clock == old(clock) + 1
      ensures ret == if schedule(old(clock)) < |old(source)| then schedule(old(clock)) else |old(source)|
      ensures data == Taken(old(source), ret) && source == old(source)[|data|..]
    {
      ret := schedule(clock);
      if ret >= |source| {
        ret := |source|;
      }
      clock := clock + 1;
      data := Taken(source, ret);
      source := source[|data|..];
    }
  }

  /** The octets that an answer of `ret` accounts for. */
  function Taken(text: seq<byte>, ret: int): seq<byte> {
    if ret <= 0 then [] else if ret <= |text| then text[..ret] else text
  }

  lemma {:induction false} TakenExtends(whole: seq<byte>, done: nat, ret: int) returns (next: nat)
    requires done <= |whole|
    ensures next == if ret <= 0 then done else if done + ret <= |whole| then done + ret else |whole|
    ensures whole[..done] + Taken(whole[done..], ret) == whole[..next]
  {
    next := if ret <= 0 then done else if done + ret <= |whole| then done + ret else |whole|;
  }

  // ---------------------------------------------------------------------------------------------
  // Which schedules let a write succeed
  // ---------------------------------------------------------------------------------------------

  /** The rounds of a write-everything loop for `size` octets: each takes something, none too much,
      and together they take it all. An empty string needs one round that takes nothing. */
  predicate Completes(schedule: Schedule, clock: nat, size: nat)
    decreases size
  {
    var ret := schedule(clock);
    if size == 0 then ret == 0
    else 0 < ret <= size && (ret < size ==> Completes(schedule, clock + 1, size - ret))
  }

  /** How many calls that takes. */
  function CallCount(schedule: Schedule, clock: nat, size: nat): nat
    requires Completes(schedule, clock, size)
    decreases size
  {
    if schedule(clock) == size then 1 else 1 + CallCount(schedule, clock + 1, size - schedule(clock))
  }

  function Sum(schedule: Schedule, clock: nat, rounds: nat): int
    decreases rounds
  {
    if rounds == 0 then 0 else schedule(clock) + Sum(schedule, clock + 1, rounds - 1)
  }

  lemma {:induction false} SumOfNone(schedule: Schedule, clock: nat)
    ensures Sum(schedule, clock, 0) == 0
  {
  }

  lemma {:induction false} SumSnoc(schedule: Schedule, clock: nat, rounds: nat)
    ensures Sum(schedule, clock, rounds + 1) == Sum(schedule, clock, rounds) + schedule(clock + rounds)
    decreases rounds
  {
    if rounds > 0 {
      SumSnoc(schedule, clock + 1, rounds - 1);
    } else {
      assert Sum(schedule, clock + 1, 0) == 0;
    }
  }

  ghost predicate AddsUp(schedule: Schedule, clock: nat, size: nat, rounds: nat) {
    && Sum(schedule, clock, rounds) == size
    && forall t :: clock <= t < clock + rounds ==> schedule(t) > 0
  }

  lemma {:induction false} SumIsPositive(schedule: Schedule, clock: nat, rounds: nat)
    requires rounds > 0 && forall t :: clock <= t < clock + rounds ==> schedule(t) > 0
    ensures Sum(schedule, clock, rounds) > 0
    decreases rounds
  {
    assert schedule(clock) > 0;
    if rounds > 1 {
      SumIsPositive(schedule, clock + 1, rounds - 1);
    }
  }

  lemma {:induction false} AddsUpMeansCompletes(schedule: Schedule, clock: nat, size: nat, rounds: nat)
    requires size > 0 && AddsUp(schedule, clock, size, rounds)
    ensures Completes(schedule, clock, size)
    decreases rounds
  {
    assert schedule(clock) > 0;
    if rounds > 1 {
      SumIsPositive(schedule, clock + 1, rounds - 1);
      AddsUpMeansCompletes(schedule, clock + 1, size - schedule(clock), rounds - 1);
    } else {
      assert Sum(schedule, clock + 1, 0) == 0;
    }
  }

  lemma {:induction false} CompletesAddsUp(schedule: Schedule, clock: nat, size: nat)
    requires size > 0 && Completes(schedule, clock, size)
    ensures AddsUp(schedule, clock, size, CallCount(schedule, clock, size))
    decreases size
  {
    if schedule(clock) < size {
      CompletesAddsUp(schedule, clock + 1, size - schedule(clock));
    } else {
      assert Sum(schedule, clock + 1, 0) == 0;
    }
  }

  /** A write of everything goes through if and only if some number of positive answers adds up to
      exactly the size. */
  lemma {:induction false} CompletesIffAddsUp(schedule: Schedule, clock: nat, size: nat)
    requires size > 0
    ensures Completes(schedule, clock, size) <==> exists rounds: nat :: AddsUp(schedule, clock, size, rounds)
  {
    if Completes(schedule, clock, size) {
      CompletesAddsUp(schedule, clock, size);
    }
    forall rounds: nat | AddsUp(schedule, clock, size, rounds)
      ensures Completes(schedule, clock, size)
    {
      AddsUpMeansCompletes(schedule, clock, size, rounds);
    }
  }

  /** What one round decides. */
  lemma {:induction false} CompletesStep(schedule: Schedule, clock: nat, size: nat)
    ensures var ret := schedule(clock);
            && (ret == size ==> Completes(schedule, clock, size))
            && (ret < 0 || ret > size || (ret == 0 && size > 0) ==> !Completes(schedule, clock, size))
            && (0 < ret < size ==>
                  (Completes(schedule, clock, size) <==> Completes(schedule, clock + 1, size - ret)))
  {
  }

  // ---------------------------------------------------------------------------------------------
  // FileDescriptor
  // ---------------------------------------------------------------------------------------------

  datatype WriteResult =
    | Wrote(total: nat)
    | WriteFailed   // the system call reported an error
    | WroteNothing  // nothing taken of something
    | WroteTooMuch  // more taken than offered

  datatype ReadResult =
    | Got(text: seq<byte>)
    | ReadFailed
    | ReadTooMuch

  /** A string cut, or stretched with zeros, to `size` octets. */
  function Resized(str: seq<byte>, size: nat): (r: seq<byte>)
    ensures |r| == size && forall i :: 0 <= i < size ==> r[i] == if i < |str| then str[i] else 0
  {
    if size <= |str| then str[..size] else str + seq(size - |str|, _ => 0)
  }

  /** What a round makes of the kernel's answer when `size` octets were offered. */
  function RoundResult(ret: int, size: nat): WriteResult {
    if ret < 0 then WriteFailed
    else if ret == 0 && size != 0 then WroteNothing
    else if ret > size then WroteTooMuch
    else Wrote(ret)
  }

  class FileDescriptor {
    const internal: FDWrapper

    constructor (internal: FDWrapper)
      ensures this.internal == internal
    {
      this.internal := internal;
    }

    /** Only a non-negative number makes a descriptor. */
    static method Open(fd: int) returns (r: FileDescriptor?)
      ensures r == null <==> fd < 0
      ensures r != null ==> fresh(r) && fresh(r.internal) && r.internal.fd == fd
      ensures r != null ==> !r.internal.eof && !r.internal.closed && r.internal.readCount == r.internal.writeCount == 0
    {
      r := null;
      if fd >= 0 {
        var wrapper := new FDWrapper(fd);
        r := new FileDescriptor(wrapper);
      }
    }

    method Duplicate() returns (d: FileDescriptor)
      ensures fresh(d) && d.internal == internal
    {
      d := new FileDescriptor(internal);
    }

    /** `ret` is the kernel's answer to close(2). Both flags are set for every duplicate. */
    method Close(ret: int) returns (ok: bool)
      modifies internal`eof, internal`closed
      ensures ok <==> ret >= 0
      ensures internal.eof == (ok || old(internal.eof)) && internal.closed == (ok || old(internal.closed))
    {
      ok := ret >= 0;
      if ok {
        internal.closed := true;
        internal.eof := true;
      }
    }

    method ReadCount() returns (n: uint32)
      ensures n == internal.readCount % 0x1_0000_0000
    {
      n := internal.readCount % UNSIGNED_SIZE;
    }

    method WriteCount() returns (n: uint32)
      ensures n == internal.writeCount % 0x1_0000_0000
    {
      n := internal.writeCount % UNSIGNED_SIZE;
    }

    method RegisterRead()
      modifies internal`readCount
      ensures internal.readCount == old(internal.readCount) + 1
      ensures internal.readCount % 0x1_0000_0000 == (old(internal.readCount) % 0x1_0000_0000 + 1) % 0x1_0000_0000
    {
      internal.readCount := internal.readCount + 1;
    }

    method RegisterWrite()
      modifies internal`writeCount
      ensures internal.writeCount == old(internal.writeCount) + 1
      ensures internal.writeCount % 0x1_0000_0000 == (old(internal.writeCount) % 0x1_0000_0000 + 1) % 0x1_0000_0000
    {
      internal.writeCount := internal.writeCount + 1;
    }

    /** Reads into a string of the caller's, which becomes `str'`. End of file is noticed only by a read
        that asked for something and got nothing. A failed read leaves the string stretched or cut to the
        size asked for; one that got too much leaves it holding as much of that as fits. */
    method ReadInto(str: seq<byte>, limit: nat, kernel: Kernel) returns (r: ReadResult, str': seq<byte>)
      modifies internal`eof, internal`readCount, kernel`clock, kernel`source
      ensures var size := if limit < 0x10_0000 then limit else 0x10_0000;
              var offered := kernel.schedule(old(kernel.clock));
              && (r.ReadFailed? <==> offered < 0)
              && (r.ReadTooMuch? <==> offered > size && |old(kernel.source)| > size)
              && (r.ReadFailed? ==> str' == Resized(str, size))
              && (r.ReadTooMuch? ==> str' == old(kernel.source)[..size])
      ensures r.Got? ==> str' == r.text
      ensures kernel.clock == old(kernel.clock) + 1
      ensures r.Got? ==> old(kernel.source) == r.text + kernel.source
      ensures r.Got? && kernel.schedule(old(kernel.clock)) > 0 && old(kernel.source) != [] ==> r.text != []
      ensures r.ReadFailed? ==> kernel.source == old(kernel.source)
      ensures internal.eof == (old(internal.eof) || (limit > 0 && r == Got([])))
      ensures internal.readCount == old(internal.readCount) + (if r.Got? then 1 else 0)
    {
      var sizeToRead := if limit < BUFFER_SIZE then limit else BUFFER_SIZE;
      str' := Resized(str, sizeToRead);
      var bytesRead, text := kernel.Read(sizeToRead);
      if bytesRead < 0 {
        return ReadFailed, str';
      }
      str' := if |text| > sizeToRead then text[..sizeToRead] else text + str'[|text|..];
      if limit > 0 && bytesRead == 0 {
        internal.eof := true;
      }
      if bytesRead > sizeToRead {
        return ReadTooMuch, str';
      }
      str' := str'[..bytesRead];
      RegisterRead();
      return Got(str'), str';
    }

    /** The same into a string of its own, which is lost with an exception. */
    method Read(limit: nat, kernel: Kernel) returns (r: ReadResult)
      modifies internal`eof, internal`readCount, kernel`clock, kernel`source
      ensures var size := if limit < 0x10_0000 then limit else 0x10_0000;
              var offered := kernel.schedule(old(kernel.clock));
              && (r.ReadFailed? <==> offered < 0)
              && (r.ReadTooMuch? <==> offered > size && |old(kernel.source)| > size)
      ensures kernel.clock == old(kernel.clock) + 1
      ensures r.Got? ==> old(kernel.source) == r.text + kernel.source
      ensures r.Got? && kernel.schedule(old(kernel.clock)) > 0 && old(kernel.source) != [] ==> r.text != []
      ensures r.ReadFailed? ==> kernel.source == old(kernel.source)
      ensures internal.eof == (old(internal.eof) || (limit > 0 && r == Got([])))
      ensures internal.readCount == old(internal.readCount) + (if r.Got? then 1 else 0)
    {
      var result, _ := ReadInto([], limit, kernel);
      r := result;
    }

    /** One round of the write loop: a system call, its checks, and the trimming of what went out. */
    method WriteRound(rest: BufferViewList, kernel: Kernel) returns (r: WriteResult)
      requires rest.Valid()
      modifies rest, internal`writeCount, kernel`clock, kernel`sink
      ensures rest.Valid() && kernel.clock == old(kernel.clock) + 1
      ensures r == RoundResult(kernel.schedule(old(kernel.clock)), |old(rest.Contents())|)
      ensures kernel.sink == old(kernel.sink) + Taken(old(rest.Contents()), kernel.schedule(old(kernel.clock)))
      ensures r.Wrote? ==> rest.Contents() == old(rest.Contents())[r.total..]
      ensures internal.writeCount == old(internal.writeCount) + (if r.Wrote? then 1 else 0)
    {
      hide Flat, ViewTexts;
      var iovecs := rest.AsIovecs();
      var bytesWritten := kernel.Writev(iovecs);
      if bytesWritten < 0 {
        return WriteFailed;
      }
      var size := rest.Size();
      if bytesWritten == 0 && size != 0 {
        return WroteNothing;
      }
      if bytesWritten > size {
        return WroteTooMuch;
      }
      RegisterWrite();
      var _ := rest.RemovePrefix(bytesWritten);
      return Wrote(bytesWritten);
    }

    /** The sink receives a prefix of the contents, each octet once and in order, whatever happens; all
        of it when everything was to be written and no error is reported. Every accepted call to the
        kernel is counted. The caller's buffer, passed by value, is untouched. */
    method Write(buffer: BufferViewList, writeAll: bool, kernel: Kernel) returns (r: WriteResult)
      requires buffer.Valid()
      modifies internal`writeCount, kernel`clock, kernel`sink
      ensures old(kernel.sink) <= kernel.sink <= old(kernel.sink) + buffer.Contents()
      ensures r.Wrote? ==> r.total <= |buffer.Contents()|
                           && kernel.sink == old(kernel.sink) + buffer.Contents()[..r.total]
      ensures r.Wrote? && writeAll ==> r.total == |buffer.Contents()|
      ensures writeAll ==> (r.Wrote? <==> Completes(kernel.schedule, old(kernel.clock), |buffer.Contents()|))
      ensures !writeAll ==> r == RoundResult(kernel.schedule(old(kernel.clock)), |buffer.Contents()|)
                            && kernel.clock == old(kernel.clock) + 1
      ensures kernel.clock > old(kernel.clock)
      ensures internal.writeCount - old(internal.writeCount)
           == kernel.clock - old(kernel.clock) - (if r.Wrote? then 0 else 1)
      ensures r.WriteFailed? <==> kernel.schedule(kernel.clock - 1) < 0
      ensures r.WroteNothing? ==>
                kernel.schedule(kernel.clock - 1) == 0
                && |kernel.sink| < |old(kernel.sink)| + |buffer.Contents()|
      ensures !r.WroteTooMuch? ==>
                var accepted := internal.writeCount - old(internal.writeCount);
                |kernel.sink| == |old(kernel.sink)| + Sum(kernel.schedule, old(kernel.clock), accepted)
      ensures r.WroteTooMuch? ==> kernel.sink == old(kernel.sink) + buffer.Contents()
    {
      hide Flat, ViewTexts, Completes, Taken, Sum;
      SumOfNone(kernel.schedule, kernel.clock);
      var rest := new BufferViewList.CopyOf(buffer);
      var total: nat := 0;
      ghost var whole := buffer.Contents();
      while true
        invariant rest.Valid() && fresh(rest)
        invariant total <= |whole| && rest.Contents() == whole[total..]
        invariant kernel.sink == old(kernel.sink) + whole[..total]
        invariant internal.writeCount - old(internal.writeCount) == kernel.clock - old(kernel.clock)
        invariant kernel.clock >= old(kernel.clock)
        invariant total == Sum(kernel.schedule, old(kernel.clock), kernel.clock - old(kernel.clock))
        invariant kernel.clock > old(kernel.clock) ==> writeAll && total < |whole|
        invariant kernel.clock == old(kernel.clock) ==> total == 0
        invariant writeAll ==> (Completes(kernel.schedule, kernel.clock, |whole| - total)
                                <==> Completes(kernel.schedule, old(kernel.clock), |whole|))
        decreases |whole| - total
      {
        CompletesStep(kernel.schedule, kernel.clock, |whole| - total);
        SumSnoc(kernel.schedule, old(kernel.clock), kernel.clock - old(kernel.clock));
        ghost var next := TakenExtends(whole, total, kernel.schedule(kernel.clock));
        r := WriteRound(rest, kernel);
        if !r.Wrote? {
          assert kernel.sink == old(kernel.sink) + whole[..next];
          return r;
        }
        total := total + r.total;
        var size := rest.Size();
        if !(writeAll && size != 0) {
          return Wrote(total);
        }
      }
    }

    /** The same for a plain string. */
    method WriteString(str: seq<byte>, writeAll: bool, kernel: Kernel) returns (r: WriteResult)
      modifies internal`writeCount, kernel`clock, kernel`sink
      ensures old(kernel.sink) <= kernel.sink <= old(kernel.sink) + str
      ensures r.Wrote? ==> r.total <= |str| && kernel.sink == old(kernel.sink) + str[..r.total]
      ensures writeAll ==> (r.Wrote? <==> Completes(kernel.schedule, old(kernel.clock), |str|))
      ensures r.Wrote? && writeAll ==> kernel.sink == old(kernel.sink) + str
      ensures !writeAll ==> r == RoundResult(kernel.schedule(old(kernel.clock)), |str|)
      ensures internal.writeCount - old(internal.writeCount)
           == kernel.clock - old(kernel.clock) - (if r.Wrote? then 0 else 1)
    {
      var views := new BufferViewList.FromString(str);
      r := Write(views, writeAll, kernel);
      assert str[..|str|] == str;
    }

    /** Reading until end of file, as a client of the class does. A loop that meets no error has received
        the whole source if the kernel answers zero only at the end; otherwise it has received what came
        before the zero that it stopped at. It ends under every schedule. */
    method ReadToEof(kernel: Kernel) returns (ok: bool, text: seq<byte>)
      modifies internal`eof, internal`readCount, kernel`clock, kernel`source
      ensures text <= old(kernel.source)
      ensures ok ==> old(kernel.source) == text + kernel.source
      ensures ok && !old(internal.eof) ==>
                kernel.clock > 0 && (kernel.source == [] || kernel.schedule(kernel.clock - 1) == 0)
      ensures ok && !old(internal.eof) && (forall i :: kernel.schedule(i) != 0) ==> text == old(kernel.source)
      ensures ok ==> internal.eof
      ensures !old(internal.eof) && (forall i :: 1 <= kernel.schedule(i) <= 0x10_0000) ==> ok
    {
      text := [];
      while !internal.eof
        invariant old(kernel.source) == text + kernel.source
        invariant internal.eof && !old(internal.eof) ==>
                    kernel.clock > 0 && (kernel.source == [] || kernel.schedule(kernel.clock - 1) == 0)
        decreases !internal.eof, |kernel.source|
      {
        var r := Read(0xffff_ffff_ffff_ffff, kernel);
        if !r.Got? {
          return false, text;
        }
        text := text + r.text;
      }
      ok := true;
    }
  }
}
