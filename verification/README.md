# A Dafny model of the Sponge library, lab 0

Sponge is a user-space TCP library. At this stage it consists of helpers: an Internet checksum, ropes of
shared buffers, a codec for integers in network byte order, file descriptors with short reads and writes,
an event loop around `poll(2)`, and a bounded byte stream. This project models each of them in the form the
code has (classes with mutable fields, loops, in-place erasing) and proves what they are for.

`dafny verify dfyconfig.toml` checks everything. Every lemma spells out its own induction.

| file | contents |
|---|---|
| `Bytes.dfy`, `Bits.dfy` | octets, machine words, flat strings; shifts, masks and complement on strings of bits |
| `Checksum.dfy`, `ChecksumLaws.dfy` | the checksum of RFC 1071, the streaming class, and their laws |
| `Buffers.dfy`, `BufferRuns.dfy` | `Buffer`, `BufferList`, `BufferViewList`; runs over several lists that share storage |
| `NetCodec.dfy` | `NetParser`, `NetUnparser` and their round trips |
| `FileDescriptors.dfy` | `FDWrapper`, `FileDescriptor` and a kernel that answers by a schedule |
| `EventLoopSpec.dfy`, `EventLoops.dfy` | one call of `wait_next_event` as a function on lists, and the class that refines it with an iterator and an index |
| `EventLoopLaws.dfy`, `EventLoopRuns.dfy`, `EventLoopService.dfy`, `EventLoopOutcomes.dfy`, `EventLoopErrors.dfy`, `EventLoopBits.dfy`, `EventLoopDriver.dfy` | whole runs: cancelling, service counts, meaning of the outcomes, of the exceptions and of the bits of a poll result, a program driving the object |
| `ByteStreams.dfy` | `ByteStream` and its runs |

## How the outside world is modelled

* The kernel. `writev` and `read` answer by a schedule, an arbitrary function from the number of the call to
  a return value; a kernel object records what it took and what is still to be read. A reply of `poll` is an
  arbitrary return value, error number and vector of conditions; the laws hold for every reply.
* Callbacks. Every call into a rule's `callback`, `interest` or `cancel` is answered by an environment, an
  arbitrary function from the number of the call to an answer, a flag saying whether it throws, and changes
  to the shared descriptor records. Changes only add: counts grow, `eof` and `closed` are never reset.
  Callbacks do not add rules and do not re-enter the loop; the index safety of the second pass rests on that.
  Every call is logged, and whole-run statements are about that log.
* Exceptions are results. A method that throws in the code returns an outcome that says so, with the state
  as the exception leaves it.
* Words. The 32-bit accumulator of the checksum wraps. `x >> k`, `x & (2^k - 1)`, `x << k` and `~x` are written
  as quotient, remainder, product and difference; `Bits` proves that reading for words of any length. Counters
  that only grow are kept whole and cut to 32 or 64 bits where they are looked at, the busy-wait check included.

## Where the code and its documentation differ

The model follows the code.

* `eventloop.cc:46` says that an error during polling throws. A failure of `poll` other than an interruption is
  swallowed and the results are processed as they stand (`FailedPollIsSwallowed`). An exception is thrown for
  it exactly when the pass comes across a result that carries an error (`FailedPollThrowsIff`).
* `eventloop.hh:44` says that success means at least one rule was triggered. That holds exactly when some polled
  rule was ready (`SuccessTriggersIffReady`). A hangup of a descriptor whose rule was not interested is enough for
  a success without a callback (`HangupTriggersNothing`).
* `eventloop.cc:55-60` asks every callback to read from or write to its descriptor, or else to lose interest. The
  code looks at the count of the rule's own direction only, and at 32 bits of it (`BusyWaitIff`, `IdleIffNotMoved`):
  a rule for input whose callback writes is taken for a busy wait (`WriterIsIdle`).
* `byte_stream.hh:9-11` says that nothing can be written once the input has ended. The code does not refuse it
  (`WrittenAfterEnd`): what goes in after the end is what would have gone in before it (`EndIsIgnored`), and nothing
  does exactly when every write is empty or meets a full buffer (`NothingGoesInIff`). So end of file can end
  (`EofCanEnd`, and the exact condition in `EofLastsIff`).
* A cancel callback that throws leaves its rule in the loop, to be cancelled again; each rule is cancelled
  exactly once if and only if none throws (`CancelledExactlyOnceIff`; `CancelledTwice` is a run where it fails).
* `util.cc:76-86` says that a message with a correct checksum evaluates to zero. Where the 32-bit sum wraps it may
  not (`CorrectMessageRefused`); it does exactly when the wraps lost nothing (`CorrectMessageVerifiesIff`), which
  is certain for all messages of a length exactly as long as their largest sum fits (`CorrectLengths`).

## Model

| member | source | states |
|---|---|---|
| Checksum.InternetChecksum.constructor | libsponge/util/util.cc:87 | a fresh checksum has nothing added and carries the initial sum |
| Checksum.InternetChecksum.Add | libsponge/util/util.cc:89-98 | adding extends the string of octets summed so far, at any chunk boundary, odd ones included; the accumulator stays the 32-bit residue of the weighted sum |
| Checksum.InternetChecksum.Value | libsponge/util/util.cc:100-108 | the result depends only on the octets added, not on chunking; it is the RFC 1071 checksum if and only if the wraps of the accumulator lost nothing |
| Checksum.OnesSumIsResidue | libsponge/util/util.cc:89-108 | adding the carry back at every word and deferring all carries give the same 16-bit word |
| Checksum.RfcChecksumIsResidue | libsponge/util/util.cc:72-108 | the checksum of sections 1 and 2 of RFC 1071, odd tail padded with zero and initial sum taken as two words, is the complement of the folded plain sum |
| Checksum.CorrectIffNoLoss | libsponge/util/util.cc:87-108 | for every initial sum and message, the code agrees with RFC 1071 exactly when the number of 32-bit wraps is a multiple of 65535 and no positive sum was left as zero |
| Checksum.CorrectWithoutWrap | libsponge/util/util.cc:87-108 | the checksum is right whenever the sum stays below 2^32 |
| Checksum.FoldStepKeepsResidue | libsponge/util/util.cc:103-105 | a round of the carry fold keeps the residue modulo 65535, never turns a positive sum into zero and makes progress |
| Checksum.FoldIsResidue | libsponge/util/util.cc:100-108 | the fold ends in the residue after zero, one or two rounds for every 32-bit sum |
| Checksum.TwoRoundsCanBeNeeded | libsponge/util/util.cc:103-105 | two rounds are really needed for some sums |
| Checksum.FoldIsShiftAndMask | libsponge/util/util.cc:104 | on the 32 bits of the sum, quotient plus remainder is shift plus mask |
| Checksum.ComplementIsSubtraction | libsponge/util/util.cc:107 | bitwise complement cut to 16 bits is subtraction from 0xffff |
| ChecksumLaws.ChecksumOfPieces | libsponge/util/util.cc:87-108 | for every splitting of a message into chunks, feeding the chunks one by one gives the checksum of the whole |
| ChecksumLaws.SafeLengths | libsponge/util/util.cc:87-98 | for every initial sum, all messages of a given length are free of overflow if and only if the sum of that many octets 0xff fits behind it; with initial sum 0 that is 131074 octets |
| ChecksumLaws.CorrectLengths | libsponge/util/util.cc:87-108 | for every initial sum, the code gives RFC 1071's checksum of all messages of a given length under the very same condition: beyond it every length has a message that comes out wrong |
| ChecksumLaws.Extremes | libsponge/util/util.cc:100-108 | the value is 0xffff exactly for a zero accumulator and 0 exactly for its positive multiples of 65535; without a wrap it is 0xffff only for all zeros |
| ChecksumLaws.StoredChecksumVerifies | libsponge/util/util.cc:76-86 | zeroing an even-offset field, computing RFC 1071's checksum, storing it there and recomputing gives zero, for every message and initial sum |
| ChecksumLaws.CodeChecksumVerifies | libsponge/util/util.cc:76-108 | the code's own checksum, stored in the zeroed field, verifies with the code for every message and initial sum, even where the accumulator has wrapped |
| ChecksumLaws.CorrectMessageVerifiesIff | libsponge/util/util.cc:76-108 | a message that is correct by RFC 1071 evaluates to zero exactly when the number of wraps is a multiple of 65535 and the accumulator is not zero |
| ChecksumLaws.CorrectMessageRefused | libsponge/util/util.cc:76-108 | correct messages, of every even length from 131076 to 262148, that do not evaluate to zero |
| ChecksumLaws.SealAndCheck | libsponge/util/util.cc:76-108 | the same through the objects: checksum, unparser, second checksum |
| ChecksumLaws.FieldIsInNetworkOrder | libsponge/util/util.cc:72-73 | the stored field is what the unparser writes for the host-order value |
| ChecksumLaws.OddOffsetVerifiesIffSymmetric | libsponge/util/util.cc:89-98 | RFC 1071's checksum stored at an odd offset verifies if and only if its two octets are equal |
| ChecksumLaws.CodeOddOffsetVerifiesIffSymmetric | libsponge/util/util.cc:87-108 | so does the code's own checksum with the code, for every initial sum and message, wraps included |
| ChecksumLaws.ByteOrderIndependence | libsponge/util/util.cc:89-108 | swapping the octets of every word swaps the octets of RFC 1071's checksum (section 2 of RFC 1071) |
| ChecksumLaws.CodeByteOrderIndependence | libsponge/util/util.cc:87-108 | for every initial sum and even-length message the code keeps this law exactly when the two numbers of wraps are related like the sums and neither accumulator alone is zero; in particular when neither sum wraps |
| ChecksumLaws.Commutativity | libsponge/util/util.cc:89-108 | permuting the 16-bit words changes neither RFC 1071's checksum nor the code's |
| ChecksumLaws.UndetectedWordErrors | libsponge/util/util.cc:89-108 | for RFC 1071's checksum, overwriting an aligned word goes unnoticed exactly when it replaces one spelling of zero by the other in a message that is not otherwise zero |
| ChecksumLaws.CodeUndetectedWordErrors | libsponge/util/util.cc:87-108 | in the code it does so exactly when, in addition, the rest leaves a positive accumulator and no wrap lies between the two spellings |
| ChecksumLaws.OctetErrorDetected | libsponge/util/util.cc:89-108 | changing any one octet of any message changes RFC 1071's checksum |
| ChecksumLaws.CodeOctetErrorDetected | libsponge/util/util.cc:87-108 | it changes the code's value too, for every initial sum and length, whether or not the accumulator wraps |
| Bits.ShiftAndMask | libsponge/util/util.cc:104 | a right shift divides and a low mask takes the remainder, for words of any length |
| Bits.ShiftLeftMultiplies | libsponge/util/parser.cc:36 | a left shift multiplies modulo the word size |
| Bits.ComplementSubtracts | libsponge/util/util.cc:107 | complement subtracts from all ones |
| Buffers.Slice.Drop | libsponge/util/buffer.cc:9-12 | moving the offset drops exactly that prefix; the storage is let go exactly when nothing is left |
| Buffers.Buffer.FromString | libsponge/util/buffer.hh:23 | a buffer made from a string denotes it, on storage of its own |
| Buffers.Buffer.CopyOf | libsponge/util/buffer.hh:14-17 | a copy shares the storage and has its own offset |
| Buffers.Buffer.At | libsponge/util/buffer.hh:38 | the octet at a position, or an out-of-range error |
| Buffers.Buffer.RemovePrefix | libsponge/util/buffer.cc:5-13 | succeeds if and only if there is that much; then drops exactly the prefix, otherwise changes nothing |
| Buffers.BufferList.FromBuffer | libsponge/util/buffer.hh:67 | a list of one buffer |
| Buffers.BufferList.FromString | libsponge/util/buffer.hh:70-73 | a list made from a string denotes it |
| Buffers.BufferList.Append | libsponge/util/buffer.cc:15-19 | appends the other list's slices in order, on the same storage; the flat strings concatenate |
| Buffers.BufferList.ToBuffer | libsponge/util/buffer.cc:21-32 | succeeds if and only if the list has at most one buffer, and then denotes the same string |
| Buffers.BufferList.Concatenate | libsponge/util/buffer.cc:34-41 | the flat string |
| Buffers.BufferList.Size | libsponge/util/buffer.cc:43-49 | the length of the flat string |
| Buffers.BufferList.RemovePrefix | libsponge/util/buffer.cc:51-65 | within the size it drops exactly that many octets; beyond it, it fails with the list emptied; terminates with empty buffers in front |
| Buffers.TrimDropsPrefix | libsponge/util/buffer.cc:51-65 | trimming the slices is dropping a prefix of the flat string |
| Buffers.TrimTwice | libsponge/util/buffer.cc:51-65 | trimming by m and then n leaves the very slices of trimming by their sum |
| Buffers.TrimCommutesWithViews | libsponge/util/buffer.cc:51-87 | trimming and then taking views gives the same pointers and lengths as taking views and then trimming |
| Buffers.BufferViewList.FromBuffers | libsponge/util/buffer.cc:67-71 | one view per buffer, denoting the same flat string |
| Buffers.BufferViewList.FromString | libsponge/util/buffer.hh:104-114 | one view of a whole string denotes it |
| Buffers.BufferViewList.RemovePrefix | libsponge/util/buffer.cc:73-87 | as for the list of buffers |
| Buffers.BufferViewList.Size | libsponge/util/buffer.cc:89-95 | the length of the flat string |
| Buffers.BufferViewList.AsIovecs | libsponge/util/buffer.cc:97-104 | one entry per view, and what they gather is the flat string |
| Buffers.TrimViewsDropsPrefix | libsponge/util/buffer.cc:73-87 | trimming views is dropping a prefix of the flat string |
| BufferRuns.Step | libsponge/util/buffer.cc:15-65 | one operation changes the flat string of its own list as described and of no other list, shared storage or not; it fails exactly when it removes more than there is |
| BufferRuns.RunScript | libsponge/util/buffer.cc:15-65 | after any run of appends and removals over several lists, each denotes exactly the string the operations describe, and exactly those removals have failed that asked for more than there was at that point |
| NetCodec.DecodeEncode | libsponge/util/parser.cc:26-60 | decoding an encoded value in range returns it |
| NetCodec.EncodeDecode | libsponge/util/parser.cc:26-60 | encoding a decoded string returns it |
| NetCodec.ShiftsAreBitShifts | libsponge/util/parser.cc:36-57 | the divisions and truncations of the model are the shifts of the code on words of 8, 16 or 32 bits |
| NetCodec.NetParser.constructor | libsponge/util/parser.hh:38 | a fresh parser has the input before it and no error |
| NetCodec.NetParser.SetError | libsponge/util/parser.hh:47 | sets the error and nothing else |
| NetCodec.NetParser.CheckSize | libsponge/util/parser.cc:20-24 | a request beyond the input sets "packet too short", over an earlier error too |
| NetCodec.NetParser.ParseInt | libsponge/util/parser.cc:26-43 | reads a big-endian integer and consumes it, or returns 0 in error; the accumulator never overflows its type |
| NetCodec.NetParser.RemovePrefix | libsponge/util/parser.cc:45-51 | skips octets, or does nothing in error |
| NetCodec.NetParser.U32 | libsponge/util/parser.cc:62 | a 32-bit read |
| NetCodec.NetParser.U16 | libsponge/util/parser.cc:64 | a 16-bit read |
| NetCodec.NetParser.U8 | libsponge/util/parser.cc:66 | an 8-bit read |
| NetCodec.ErrorIffTooWide | libsponge/util/parser.cc:20-51 | a run on a fresh parser is free of error exactly when its total width fits, and then has consumed exactly that much |
| NetCodec.ErrorSticks | libsponge/util/parser.cc:20-51 | in error the error stays, the buffer never changes and every read returns 0 |
| NetCodec.FirstFailure | libsponge/util/parser.cc:20-51 | the first failure is the first operation whose cumulative width exceeds the input; everything from there returns 0 and leaves the buffer alone |
| NetCodec.UnparseInt | libsponge/util/parser.cc:53-60 | appends exactly the big-endian octets |
| NetCodec.UnparseU32 | libsponge/util/parser.cc:68 | what is appended decodes to the value |
| NetCodec.UnparseU16 | libsponge/util/parser.cc:70 | what is appended decodes to the value |
| NetCodec.UnparseU8 | libsponge/util/parser.cc:72 | what is appended decodes to the value |
| NetCodec.ParseUnparse | libsponge/util/parser.cc:26-60 | parsing unparsed fields with the same widths returns the values, no error, and leaves the suffix |
| NetCodec.ParseUnparseAfterPrefix | libsponge/util/parser.cc:26-60 | the same behind any skipped prefix |
| NetCodec.UnparseParse | libsponge/util/parser.cc:26-60 | unparsing the values of any error-free parse reproduces exactly the octets consumed |
| NetCodec.WriteThenRead | doctests/parser_example.cc:1-33 | the round trip through the objects, for any prefix, fields and suffix |
| FileDescriptors.FileDescriptor.Open | libsponge/util/file_descriptor.cc:15-39 | a descriptor exists if and only if the number is not negative, with all flags and counts clear |
| FileDescriptors.FileDescriptor.Duplicate | libsponge/util/file_descriptor.cc:45 | a duplicate shares the record |
| FileDescriptors.FileDescriptor.Close | libsponge/util/file_descriptor.cc:21-24 | sets both flags of the shared record if the system call succeeds |
| FileDescriptors.FileDescriptor.ReadCount | libsponge/util/file_descriptor.hh:87 | the number of accepted reads as a 32-bit unsigned shows it |
| FileDescriptors.FileDescriptor.WriteCount | libsponge/util/file_descriptor.hh:88 | the number of accepted writes as a 32-bit unsigned shows it |
| FileDescriptors.FileDescriptor.RegisterRead | libsponge/util/file_descriptor.hh:48 | one more read; the 32-bit count goes up by one and wraps |
| FileDescriptors.FileDescriptor.RegisterWrite | libsponge/util/file_descriptor.hh:49 | one more write; the 32-bit count goes up by one and wraps |
| FileDescriptors.FileDescriptor.ReadInto | libsponge/util/file_descriptor.cc:49-64 | asks for the limit, at most 1048576 octets, and takes every answer up to that; hands out the front of the source; end of file is set exactly by a read that wanted something and got nothing; only accepted reads are counted; says what the caller's string holds after each kind of failure |
| FileDescriptors.FileDescriptor.Read | libsponge/util/file_descriptor.cc:68-74 | the same into a string of its own |
| FileDescriptors.FileDescriptor.WriteRound | libsponge/util/file_descriptor.cc:80-95 | one system call, its checks, and the trimming of what went out |
| FileDescriptors.FileDescriptor.Write | libsponge/util/file_descriptor.cc:76-99 | under any schedule the sink receives a prefix, each octet once and in order; everything if all is to be written and no error is reported; succeeds exactly when the answers complete the size; counts accepted calls; terminates |
| FileDescriptors.FileDescriptor.WriteString | libsponge/util/file_descriptor.hh:63-67 | the same for a plain string |
| FileDescriptors.CompletesIffAddsUp | libsponge/util/file_descriptor.cc:79-96 | a non-empty write of everything goes through if and only if some number of positive answers adds up to exactly the size |
| FileDescriptors.FileDescriptor.ReadToEof | apps/webget.cc:28-33 | a loop that reads until end of file ends under every schedule, and has received the whole source if the kernel answers zero only at the end, otherwise what came before the zero that it stopped at; it succeeds if every answer is from 1 to 1048576 |
| EventLoops.EventLoop.AddRule | libsponge/util/eventloop.cc:23-29 | the new rule goes last with a duplicate of the descriptor |
| EventLoops.EventLoop.UserCall | libsponge/util/eventloop.cc:71-135 | a call into the caller's code changes the shared records as the environment says and is logged |
| EventLoops.EventLoop.CancelAt | libsponge/util/eventloop.cc:70-80 | cancel, then erase at the iterator, which is left at the next rule; an exception comes before the erasing |
| EventLoops.EventLoop.SetUpPollFds | libsponge/util/eventloop.cc:62-89 | the first pass, erasing in place, leaves the rules, poll entries and calls of the list function; entry i carries the descriptor number of rule i and asks for 0x01 (input) or 0x04 (output) if that rule is interested, for nothing otherwise |
| EventLoops.EventLoop.Serve | libsponge/util/eventloop.cc:129-139 | callback, count comparison and busy-wait check |
| EventLoops.EventLoop.ServiceCount | libsponge/util/eventloop.cc:13-15 | the 32-bit count of reads or of writes, by direction |
| EventLoops.EventLoop.GoThroughResults | libsponge/util/eventloop.cc:107-144 | the second pass, with iterator and index running apart, refines a function that pairs each rule with its own result; its loop keeps the unvisited rules the rules of the unvisited results, so the index stays in range whatever is erased |
| EventLoops.EventLoop.WaitNextEvent | libsponge/util/eventloop.cc:61-145 | a whole call, exceptions included, leaves exactly the rules, records, log and outcome of the list function; unless it throws, no rule is left whose record said before the call that it is closed, or at end of file for input |
| EventLoopLaws.PrepareProgress | libsponge/util/eventloop.cc:67-89 | the first pass keeps exactly the rules not cancelled, in order, and never calls a cancelled one |
| EventLoopLaws.DispatchProgress | libsponge/util/eventloop.cc:109-142 | so does the second pass, part-way exceptions included |
| EventLoopRuns.WaitProgress | libsponge/util/eventloop.cc:61-145 | so does a whole call |
| EventLoopRuns.StepKeepsGood | libsponge/util/eventloop.cc:23-145 | adding, waiting and outside activity keep the invariant: the loop holds the rules added and not cancelled, in insertion order, and none is called after its cancellation |
| EventLoopRuns.RunKeepsGood | libsponge/util/eventloop.cc:23-145 | the invariant holds over every run, those that throw part-way included |
| EventLoopRuns.CancelledExactlyOnceIff | libsponge/util/eventloop.cc:69-127 | each rule is still there and never cancelled, or gone and cancelled once, if and only if no cancel callback threw |
| EventLoopRuns.CancelledTwice | libsponge/util/eventloop.cc:69-74 | a run in which one rule is cancelled twice: its record is at end of file and its cancel callback throws the first time |
| EventLoopService.RunBounded | libsponge/util/eventloop.cc:129-139 | over any run, thrown errors included, and for every descriptor, known from the start or added on the way, callbacks grow by at most the growth of the count since it came in plus the busy-wait questions |
| EventLoopService.RunDeclined | libsponge/util/eventloop.cc:134-138 | in a run without thrown errors every busy-wait question was answered: no longer interested |
| EventLoopService.CallbacksBoundedByService | libsponge/util/eventloop.cc:129-139 | in a run without thrown errors, for every descriptor and direction, callbacks not followed by a loss of interest are at most the reads or writes since the descriptor came into the loop, however many rules share it |
| EventLoopOutcomes.DispatchSucceeds | libsponge/util/eventloop.cc:107-144 | a second pass that succeeds has called back exactly the ready rules, once each and in order, cancelled exactly the hung-up ones and kept the others |
| EventLoopErrors.DispatchStopsIff | libsponge/util/eventloop.cc:107-144 | a pass that does not succeed ends as the visit of some rule does, exactly when the pass over the results in front of that rule succeeds |
| EventLoopErrors.TimeoutAndExitIff | libsponge/util/eventloop.cc:91-105 | a timeout if and only if somebody was interested and poll returned 0; an exit if and only if nobody was, or poll failed with error number 4 |
| EventLoopErrors.CallThrewIff | libsponge/util/eventloop.cc:70-135 | an exception of the caller's code leaves the wait if and only if one of its calls threw, and that was the last call made |
| EventLoopBits.VisitByBits | libsponge/util/eventloop.cc:107-141 | on the bits of the i-th result: 0x28 throws; otherwise the asked-for bit (0x01 or 0x04) of an interested rule leads to its callback, whatever else is set; otherwise 0x10 cancels an interested rule; otherwise nothing happens. With the calls, their order and the outcome, exceptions included |
| EventLoopBits.SuccessByBits | libsponge/util/eventloop.cc:107-144 | for a whole wait that succeeds: no error bits, and exactly which rules were called back, cancelled and kept, by the bits |
| EventLoopBits.OnlyRuleCalledBack | libsponge/util/eventloop.cc:61-145 | a loop with one interested rule, for input or output, whose bit is found calls it back and keeps it, also if the other side has hung up |
| EventLoopErrors.PollErrorIff | libsponge/util/eventloop.cc:107-144 | the pass throws for an error exactly when some result carries one and the pass over the results in front of it succeeds |
| EventLoopErrors.BusyWaitIff | libsponge/util/eventloop.cc:129-139 | the pass throws for a busy wait exactly when, behind a success, a ready rule's callback returns without moving its count and the rule is still interested |
| EventLoopErrors.IdleIffNotMoved | libsponge/util/eventloop.cc:55-60 | what counts as reading or writing: a number of reads, for input, or of writes, for output, that is not a multiple of 2^32 |
| EventLoopErrors.WriterIsIdle | libsponge/util/eventloop.cc:129-139 | a wait that throws for a busy wait although the callback has written the descriptor |
| EventLoopErrors.WaitThrowsIff | libsponge/util/eventloop.cc:61-145 | a wait throws for an error, or for a busy wait, exactly when it polls something, the reply is neither a timeout nor an interruption, and the pass comes across such a result, or such a rule |
| EventLoopErrors.FailedPollThrowsIff | libsponge/util/eventloop.cc:97-115 | when poll fails other than by an interruption, the promised exception is thrown exactly when something was polled and the pass comes across a result that carries an error |
| EventLoopOutcomes.SuccessTriggersIffReady | libsponge/util/eventloop.cc:107-144 | success triggers a rule exactly when some polled rule was ready |
| EventLoopOutcomes.HangupTriggersNothing | libsponge/util/eventloop.cc:82-144 | poll reports one descriptor, hung up, whose rule declined interest: a success, and nobody is called back |
| EventLoopOutcomes.NothingTriggered | libsponge/util/eventloop.cc:67-105 | a timeout or exit has called nobody back; each rule was called once, in order, to ask or to cancel, and those asked are the ones left |
| EventLoopOutcomes.FailedPollIsSwallowed | libsponge/util/eventloop.cc:97-105 | the family of inputs that break the promise of an exception: a failed poll that was not interrupted and reported nothing passes for a success that did nothing |
| EventLoopOutcomes.WaitDropsDefunct | libsponge/util/eventloop.cc:69-80 | no rule whose input had ended or whose descriptor was closed survives a wait that does not throw |
| EventLoopOutcomes.CancelledOnlyIfEnded | libsponge/util/eventloop.cc:69-80 | the first pass cancels only rules whose descriptor is closed, or whose input has ended |
| EventLoopOutcomes.EndedByCallIsDropped | libsponge/util/eventloop.cc:69-80 | a rule whose record is closed, or at end of file for input, by any call is gone after the next wait that does not throw |
| EventLoopOutcomes.PrepareTakesAnswers | libsponge/util/eventloop.cc:82-88 | the rules polled with interest are those that answered so, in order |
| EventLoopDriver.Drive | libsponge/util/eventloop.cc:23-145 | any program of additions, waits and outside activity takes the loop object through exactly the run on values that its commands describe; it reports whether anything was thrown, the invariant of runs holds of the object, and without a throw each record has seen at most as many undeclined callbacks as reads or writes |
| ByteStreams.ByteStream.constructor | libsponge/byte_stream.cc:16 | an empty stream of the given capacity |
| ByteStreams.ByteStream.Write | libsponge/byte_stream.cc:18-31 | accepts as much as fits, appends it to the history and returns its length |
| ByteStreams.ByteStream.PeekOutput | libsponge/byte_stream.cc:34-44 | the front of the buffer, cut to what there is |
| ByteStreams.ByteStream.PopOutput | libsponge/byte_stream.cc:47-63 | takes out exactly what a peek shows and counts it |
| ByteStreams.ByteStream.Read | libsponge/byte_stream.cc:68-72 | returns what it takes out: result and rest make up the old buffer |
| ByteStreams.ByteStream.EndInput | libsponge/byte_stream.cc:74-76 | ends the input and changes nothing else |
| ByteStreams.ByteStream.SetError | libsponge/byte_stream.hh:45 | sets the error and changes nothing else |
| ByteStreams.ByteStream.Eof | libsponge/byte_stream.cc:90-92 | at end of file everything accepted has been taken out |
| ByteStreams.ByteStream.BytesWritten | libsponge/byte_stream.cc:94-95 | the length of everything accepted, modulo 2^64 |
| ByteStreams.ByteStream.BytesRead | libsponge/byte_stream.cc:97-99 | the length of everything taken out, modulo 2^64 |
| ByteStreams.ByteStream.RemainingCapacity | libsponge/byte_stream.cc:101-103 | the free room, which balances capacity against what came in and went out |
| ByteStreams.Conservation | libsponge/byte_stream.cc:18-99 | over any run, what came in is what went out followed by what is buffered, and the counters are the lengths of those histories |
| ByteStreams.EofLastsIff | libsponge/byte_stream.cc:18-92 | end of file lasts over a run exactly when the stream has no capacity or the run writes nothing |
| ByteStreams.EofCanEnd | libsponge/byte_stream.cc:18-92 | a stream at end of file that is written to is no longer at end of file |
| ByteStreams.NothingGoesInIff | libsponge/byte_stream.cc:18-31 | over any run nothing goes in exactly when every write is empty or meets a full buffer; ended streams are no exception |
| ByteStreams.EndIsIgnored | libsponge/byte_stream.cc:18-76 | what goes in and what comes out over a run does not depend on whether the input had ended |
| ByteStreams.WrittenAfterEnd | libsponge/byte_stream.cc:18-31 | an ended stream, not yet at end of file, that takes another octet |
| ByteStreams.WriteTwice | libsponge/byte_stream.cc:18-31 | two writes reach the state of one write of the concatenation, with the same total accepted, even when truncated |
| ByteStreams.WriteChunks | libsponge/byte_stream.cc:18-31 | so does any chunking |
| ByteStreams.ReadTwice | libsponge/byte_stream.cc:34-72 | two reads return and leave what one read of the summed length does |
| ByteStreams.ReadChunks | libsponge/byte_stream.cc:34-72 | so does any chunking |

## Left out

- `Address`, `Socket` and its subclasses, `TunTapFD`: wrappers over system interfaces without logic of their own.
- `hexdump`, `timestamp_ms`, `get_random_generator`, `as_string`, error classes: formatting, clock, randomness, messages.
- Reference counting, destructors and the release of memory: only the sharing of storage and of descriptor records is kept. Views are assumed to be used while their storage lives.
- Callbacks that add rules or re-enter the loop, and appending a list to itself: both are outside what the code supports.
- `SystemCall`: return values are assumed to fit its `int`, and a failing call to set a non-zero error number.
- `FileDescriptor::set_blocking`: flag manipulation in the kernel.
- NetCodec.NetParser.SetError: runs of the parser do not include outside calls of it, which may clear an error.
