// What the Internet checksum is for: laws of RFC 1071 and of the code that streams it.
module ChecksumLaws {
  import opened Bytes
  import opened Checksum
  import NetCodec

  /** The most octets that can be added to a fresh checksum without any wrap of the sum. */
  const SAFE_LENGTH := 131074

  /** A checksum object fed the pieces of a discontiguous string, in order, whatever their lengths. */
  method ChecksumOfPieces(initial: uint32, pieces: seq<seq<byte>>) returns (v: uint16)
    ensures v == CodeValue(initial, Flat(pieces))
    ensures FullSum(initial, Flat(pieces)) < SUM_SIZE ==> v == RfcChecksum(initial, Flat(pieces))
  {
    var sum := new InternetChecksum(initial);
    for i := 0 to |pieces|
      invariant sum.Valid() && sum.initial == initial
      invariant sum.added == Flat(pieces[..i])
      invariant fresh(sum)
    {
      FlatSnoc(pieces[..i], pieces[i]);
      assert pieces[..i + 1] == pieces[..i] + [pieces[i]];
      sum.Add(pieces[i]);
    }
    assert pieces[..|pieces|] == pieces;
    v := sum.Value();
    if FullSum(initial, Flat(pieces)) < SUM_SIZE {
      CorrectWithoutWrap(initial, Flat(pieces));
    }
  }

  // ---------------------------------------------------------------------------------------------
  // The overflow bound
  // ---------------------------------------------------------------------------------------------

  /** The largest sum of `n` octets: 0xff at every position. */
  function MaxSum(n: nat): nat {
    (n + 1) / 2 * 0xff00 + n / 2 * 0xff
  }

  lemma {:induction false} ByteSumBound(data: seq<byte>)
    ensures ByteSum(data, false) <= MaxSum(|data|)
  {
    if |data| == 1 {
      assert data[1..] == [];
    } else if |data| > 1 {
      ByteSumOfPair(data);
      MaxSumOfPair(|data|);
      hide ByteSum, MaxSum;
      ByteSumBound(data[2..]);
    }
  }

  lemma {:induction false} ByteSumOfPair(data: seq<byte>)
    requires |data| > 1
    ensures ByteSum(data, false) == Word(data[0], data[1]) + ByteSum(data[2..], false)
  {
    assert data[1..][1..] == data[2..];
  }

  lemma {:induction false} MaxSumOfPair(n: nat)
    requires n > 1
    ensures MaxSum(n) == ALL_ONES + MaxSum(n - 2)
  {
  }

  /** `n` octets, of 0xff until their sum has reached `t` and of zero from there on. */
  function Reaching(n: nat, t: nat): seq<byte> {
    if n == 0 then []
    else if n == 1 then [if t == 0 then 0 else 0xff]
    else if t == 0 then [0, 0] + Reaching(n - 2, 0)
    else [0xff, 0xff] + Reaching(n - 2, if t > ALL_ONES then t - ALL_ONES else 0)
  }

  lemma {:induction false} SumOfReaching(n: nat, t: nat)
    requires t <= MaxSum(n)
    ensures |Reaching(n, t)| == n
    ensures t <= ByteSum(Reaching(n, t), false) <= if t == 0 then 0 else t + ALL_ONES
    decreases n
  {
    var data := Reaching(n, t);
    if n == 1 {
      assert data[1..] == [];
    } else if n > 1 {
      var left := if t > ALL_ONES then t - ALL_ONES else 0;
      assert data[2..] == Reaching(n - 2, left);
      ByteSumOfPair(data);
      MaxSumOfPair(n);
      hide ByteSum, MaxSum;
      SumOfReaching(n - 2, left);
    }
  }

  ghost predicate NeverWraps(initial: uint32, n: nat) {
    forall data: seq<byte> :: |data| == n ==> FullSum(initial, data) < SUM_SIZE
  }

  /** The longest messages that are safe after an initial sum: the bound is exact, and for a fresh checksum it
      is at most 131074 octets. */
  lemma {:induction false} SafeLengths(initial: uint32, n: nat)
    ensures NeverWraps(initial, n) <==> initial + MaxSum(n) < SUM_SIZE
    ensures NeverWraps(0, n) <==> n <= SAFE_LENGTH
  {
    NeverWrapsIff(initial, n);
    NeverWrapsIff(0, n);
  }

  lemma {:induction false} NeverWrapsIff(initial: uint32, n: nat)
    ensures NeverWraps(initial, n) <==> initial + MaxSum(n) < SUM_SIZE
  {
    hide ByteSum, MaxSum;
    if initial + MaxSum(n) < SUM_SIZE {
      forall data: seq<byte> | |data| == n
        ensures FullSum(initial, data) < SUM_SIZE
      {
        ByteSumBound(data);
      }
    } else {
      SumOfReaching(n, SUM_SIZE - initial);
      assert |Reaching(n, SUM_SIZE - initial)| == n && FullSum(initial, Reaching(n, SUM_SIZE - initial)) >= SUM_SIZE;
    }
  }

  ghost predicate AlwaysCorrect(initial: uint32, n: nat) {
    forall data: seq<byte> :: |data| == n ==> CodeValue(initial, data) == RfcChecksum(initial, data)
  }

  /** The same bounds are exact for the result: beyond them every length has a message whose checksum the
      code gets wrong. */
  lemma {:induction false} CorrectLengths(initial: uint32, n: nat)
    ensures AlwaysCorrect(initial, n) <==> initial + MaxSum(n) < SUM_SIZE
    ensures AlwaysCorrect(0, n) <==> n <= SAFE_LENGTH
  {
    AlwaysCorrectIff(initial, n);
    AlwaysCorrectIff(0, n);
  }

  lemma {:induction false} AlwaysCorrectIff(initial: uint32, n: nat)
    ensures AlwaysCorrect(initial, n) <==> initial + MaxSum(n) < SUM_SIZE
  {
    hide RfcChecksum, CodeValue, ByteSum, MaxSum;
    if initial + MaxSum(n) < SUM_SIZE {
      NeverWrapsIff(initial, n);
      forall data: seq<byte> | |data| == n
        ensures CodeValue(initial, data) == RfcChecksum(initial, data)
      {
        CorrectWithoutWrap(initial, data);
      }
    } else {
      var data := Reaching(n, SUM_SIZE - initial);
      SumOfReaching(n, SUM_SIZE - initial);
      CorrectIffNoLoss(initial, data);
      assert Wraps(initial, data) == 1;
      assert |data| == n && CodeValue(initial, data) != RfcChecksum(initial, data);
    }
  }

  // ---------------------------------------------------------------------------------------------
  // The two representations of zero
  // ---------------------------------------------------------------------------------------------

  /** The value is 0xffff for an accumulator of zero only, and 0 for the other multiples of 0xffff. Without
      a wrap the former means that everything is zero. */
  lemma {:induction false} Extremes(initial: uint32, data: seq<byte>)
    ensures var t := FullSum(initial, data) % SUM_SIZE;
            && (CodeValue(initial, data) == ALL_ONES <==> t == 0)
            && (CodeValue(initial, data) == 0 <==> t > 0 && t % ALL_ONES == 0)
    ensures FullSum(initial, data) < SUM_SIZE ==>
              (CodeValue(initial, data) == ALL_ONES <==> initial == 0 && forall i :: 0 <= i < |data| ==> data[i] == 0)
  {
    NothingAddsUpToZero(data, false);
  }

  lemma {:induction false} NothingAddsUpToZero(data: seq<byte>, odd: bool)
    ensures ByteSum(data, odd) == 0 <==> forall i :: 0 <= i < |data| ==> data[i] == 0
  {
    if data != [] {
      NothingAddsUpToZero(data[1..], !odd);
      if ByteSum(data, odd) == 0 {
        forall i | 0 <= i < |data|
          ensures data[i] == 0
        {
          assert i > 0 ==> data[i] == data[1..][i - 1];
        }
      }
    }
  }

  // ---------------------------------------------------------------------------------------------
  // Storing a checksum and checking it
  // ---------------------------------------------------------------------------------------------

  /** A message whose two octets after `head` hold `field` in network byte order. */
  function WithField(head: seq<byte>, field: uint16, tail: seq<byte>): seq<byte> {
    head + [field / 0x100, field % 0x100] + tail
  }

  lemma {:induction false} FullSumWithField(initial: uint32, head: seq<byte>, field: uint16, tail: seq<byte>)
    ensures FullSum(initial, WithField(head, field, tail))
         == FullSum(initial, WithField(head, 0, tail))
            + (if |head| % 2 == 0 then field else SwapBytes(field))
  {
    var odd := |head| % 2 == 1;
    forall x: uint16
      ensures FullSum(initial, WithField(head, x, tail))
           == initial + ByteSum(head, false) + (if odd then SwapBytes(x) else x) + ByteSum(tail, odd)
    {
      var octets: seq<byte> := [x / 0x100, x % 0x100];
      assert WithField(head, x, tail) == head + (octets + tail);
      ByteSumConcat(head, octets + tail, false);
      ByteSumConcat(octets, tail, odd);
      assert octets[1..] == [octets[1]] && octets[1..][1..] == [];
    }
  }

  /** A receiver that computes the checksum of RFC 1071 over a message whose checksum field was zeroed,
      computed and stored at an even offset gets zero, for every message. */
  lemma {:induction false} StoredChecksumVerifies(initial: uint32, head: seq<byte>, tail: seq<byte>)
    requires |head| % 2 == 0
    ensures var c := RfcChecksum(initial, WithField(head, 0, tail));
            RfcChecksum(initial, WithField(head, c, tail)) == 0
  {
    var zeroed := WithField(head, 0, tail);
    var c := RfcChecksum(initial, zeroed);
    RfcChecksumIsResidue(initial, zeroed);
    FullSumWithField(initial, head, c, tail);
    RfcChecksumIsResidue(initial, WithField(head, c, tail));
    hide Residue, RfcChecksum, FullSum, WithField;
    CompletesToZero(FullSum(initial, zeroed), c, c);
  }

  /** Adding its checksum rounds the accumulator up to a positive multiple of 0xffff. The largest 32-bit
      number is such a multiple, so this never wraps. */
  lemma {:induction false} RoundingUpNeverWraps(t: uint32)
    ensures t + (ALL_ONES - Residue(t)) < SUM_SIZE
    ensures Residue(t + (ALL_ONES - Residue(t))) == ALL_ONES
  {
    assert SUM_SIZE - 1 == 0x1_0001 * ALL_ONES;
    assert (t + (ALL_ONES - Residue(t))) % ALL_ONES == 0;
  }

  /** A receiver gets zero for a message that is correct by RFC 1071 exactly when the wraps lost nothing. */
  lemma {:induction false} CorrectMessageVerifiesIff(initial: uint32, data: seq<byte>)
    requires RfcChecksum(initial, data) == 0
    ensures CodeValue(initial, data) == 0
        <==> Wraps(initial, data) % ALL_ONES == 0 && FullSum(initial, data) % SUM_SIZE != 0
  {
    hide FullSum;
    RfcChecksumIsResidue(initial, data);
    CorrectIffNoLoss(initial, data);
  }

  /** A correct message that does not verify: nothing but 0xff, and more of it than the safe length. */
  lemma {:induction false} CorrectMessageRefused(n: nat, data: seq<byte>)
    requires n % 2 == 0 && SAFE_LENGTH < n <= 2 * SAFE_LENGTH && data == Reaching(n, MaxSum(n))
    ensures RfcChecksum(0, data) == 0 && CodeValue(0, data) != 0
  {
    hide Reaching, ByteSum, RfcChecksum, CodeValue;
    SumOfReaching(n, MaxSum(n));
    ByteSumBound(data);
    EvenMaxSum(n);
    RfcChecksumIsResidue(0, data);
    hide MaxSum, Residue;
    CorrectMessageVerifiesIff(0, data);
  }

  lemma {:induction false} EvenMaxSum(n: nat)
    requires n % 2 == 0 && SAFE_LENGTH < n <= 2 * SAFE_LENGTH
    ensures Residue(MaxSum(n)) == ALL_ONES && MaxSum(n) / SUM_SIZE == 1
  {
    var pairs := n / 2;
    assert n == 2 * pairs && (n + 1) / 2 == pairs;
    assert MaxSum(n) == pairs * ALL_ONES;
    Congruent(pairs * ALL_ONES, 0, pairs);
    assert SUM_SIZE <= pairs * ALL_ONES < 2 * SUM_SIZE;
    ResidueUnique(MaxSum(n), ALL_ONES);
    hide Residue, MaxSum;
  }

  lemma {:induction false} AddToAccumulator(s: nat, c: uint16)
    requires s % SUM_SIZE + c < SUM_SIZE
    ensures (s + c) % SUM_SIZE == s % SUM_SIZE + c
  {
  }

  /** The code's own checksum, stored in the zeroed field, always verifies with the code: for every
      message and initial sum, even where the accumulator has wrapped and RFC 1071 would say otherwise. */
  lemma {:induction false} CodeChecksumVerifies(initial: uint32, head: seq<byte>, tail: seq<byte>)
    requires |head| % 2 == 0
    ensures CodeValue(initial, WithField(head, CodeValue(initial, WithField(head, 0, tail)), tail)) == 0
  {
    hide Residue, FullSum, WithField;
    var s := FullSum(initial, WithField(head, 0, tail));
    var c := CodeValue(initial, WithField(head, 0, tail));
    FullSumWithField(initial, head, c, tail);
    RoundingUpNeverWraps(s % SUM_SIZE);
    AddToAccumulator(s, c);
  }

  /** Which words complete a sum to zero: its complement, or the other spelling of zero. */
  lemma {:induction false} CompletesToZero(s: nat, c: uint16, d: uint16)
    requires c == ALL_ONES - Residue(s)
    ensures Residue(s + d) == ALL_ONES <==> d == c || (d == ALL_ONES && c == 0) || (d == 0 && c == ALL_ONES && s > 0)
  {
  }

  lemma {:induction false} FieldIsInNetworkOrder(head: seq<byte>, field: uint16, tail: seq<byte>)
    ensures WithField(head, field, tail) == head + NetCodec.Encode(2, field) + tail
  {
  }

  /** What a sender does, and then a receiver: sum the message with its field zeroed, unparse the result
      into the field, sum again. The receiver always gets zero. */
  method SealAndCheck(initial: uint32, head: seq<byte>, tail: seq<byte>) returns (sealed: seq<byte>, check: uint16)
    requires |head| % 2 == 0
    ensures sealed == WithField(head, CodeValue(initial, WithField(head, 0, tail)), tail)
    ensures check == 0
  {
    var sender := new InternetChecksum(initial);
    var zeroed := head + [0, 0] + tail;
    sender.Add(zeroed);
    var sum := sender.Value();
    sealed := NetCodec.UnparseU16(head, sum);
    sealed := sealed + tail;
    assert [] + zeroed == zeroed == WithField(head, 0, tail);
    FieldIsInNetworkOrder(head, sum, tail);
    var receiver := new InternetChecksum(initial);
    receiver.Add(sealed);
    check := receiver.Value();
    assert [] + sealed == sealed;
    CodeChecksumVerifies(initial, head, tail);
  }

  /** At an odd offset a stored checksum verifies only when its two octets are equal. */
  lemma {:induction false} OddOffsetVerifiesIffSymmetric(initial: uint32, head: seq<byte>, tail: seq<byte>)
    requires |head| % 2 == 1
    ensures var c := RfcChecksum(initial, WithField(head, 0, tail));
            RfcChecksum(initial, WithField(head, c, tail)) == 0 <==> c / 0x100 == c % 0x100
  {
    var zeroed := WithField(head, 0, tail);
    var c := RfcChecksum(initial, zeroed);
    RfcChecksumIsResidue(initial, zeroed);
    FullSumWithField(initial, head, c, tail);
    RfcChecksumIsResidue(initial, WithField(head, c, tail));
    CompletesToZero(FullSum(initial, zeroed), c, SwapBytes(c));
    SwapFixesPalindromes(c);
  }

  /** So it is with the code, whether or not its accumulator wraps on either side. */
  lemma {:induction false} CodeOddOffsetVerifiesIffSymmetric(initial: uint32, head: seq<byte>, tail: seq<byte>)
    requires |head| % 2 == 1
    ensures var c := CodeValue(initial, WithField(head, 0, tail));
            CodeValue(initial, WithField(head, c, tail)) == 0 <==> c / 0x100 == c % 0x100
  {
    hide Residue, FullSum, WithField;
    var s := FullSum(initial, WithField(head, 0, tail));
    var c := CodeValue(initial, WithField(head, 0, tail));
    FullSumWithField(initial, head, c, tail);
    RoundingUpNeverWraps(s % SUM_SIZE);
    AddToAccumulator(s, c);
    SwapFixesPalindromes(c);
    if SwapBytes(c) > c {
      NearSums(s + c, s + SwapBytes(c));
    } else if SwapBytes(c) < c {
      NearSums(s + SwapBytes(c), s + c);
    }
  }

  /** Two sums at most 0xffff apart, each cut to 32 bits, fold to the same word only if they are exactly that
      far apart, the smaller leaves something in the accumulator and no wrap lies between them. */
  lemma {:induction false} NearSums(x: nat, y: nat)
    requires x < y <= x + ALL_ONES
    ensures Residue(x % SUM_SIZE) == Residue(y % SUM_SIZE)
        <==> y == x + ALL_ONES && 0 < x % SUM_SIZE && x % SUM_SIZE + ALL_ONES < SUM_SIZE
  {
    var t, d := x % SUM_SIZE, y - x;
    AddOrWrap(x, d);
    ResiduesEqual(t, y % SUM_SIZE);
    hide Residue;
    if t + d < SUM_SIZE {
      Apart(t, d);
    } else {
      var u := t + d - SUM_SIZE;
      assert SUM_SIZE == 0x1_0001 * ALL_ONES + 1;
      Congruent(t + d, u + 1, 0x1_0001);
      Apart(u, 1);
      Apart(t, d);
      if d > 1 {
        assert (u + 1 + ALL_ONES - 1) % ALL_ONES == u % ALL_ONES;
        Apart(t, d - 1);
      }
    }
  }

  lemma {:induction false} AddOrWrap(x: nat, d: uint16)
    ensures (x + d) % SUM_SIZE
         == if x % SUM_SIZE + d < SUM_SIZE then x % SUM_SIZE + d else x % SUM_SIZE + d - SUM_SIZE
  {
  }

  lemma {:induction false} Apart(t: nat, d: nat)
    requires 0 < d <= ALL_ONES
    ensures t % ALL_ONES == (t + d) % ALL_ONES <==> d == ALL_ONES
  {
  }

  lemma {:induction false} SwapFixesPalindromes(w: uint16)
    ensures SwapBytes(w) == w <==> w / 0x100 == w % 0x100
    ensures SwapBytes(w) == 0 <==> w == 0
    ensures SwapBytes(w) == ALL_ONES <==> w == ALL_ONES
  {
  }

  // ---------------------------------------------------------------------------------------------
  // Byte order independence and commutativity
  // ---------------------------------------------------------------------------------------------

  function SwapBytes(w: uint16): uint16 {
    w % 0x100 * 0x100 + w / 0x100
  }

  function SwapAll(words: seq<uint16>): seq<uint16> {
    seq(|words|, i requires 0 <= i < |words| => SwapBytes(words[i]))
  }

  /** Every even-odd pair of octets exchanged. */
  function SwapPairs(data: seq<byte>): seq<byte>
    requires |data| % 2 == 0
  {
    if data == [] then [] else [data[1], data[0]] + SwapPairs(data[2..])
  }

  lemma {:induction false} SwapOfPair(high: byte, low: byte)
    ensures SwapBytes(Word(high, low)) == Word(low, high)
  {
    var w: int := Word(high, low);
    assert w - low == high * 0x100;
    assert w / 0x100 == high && w % 0x100 == low;
  }

  lemma {:induction false} WordsOfSwapPairs(data: seq<byte>)
    requires |data| % 2 == 0
    ensures Words(SwapPairs(data)) == SwapAll(Words(data))
  {
    if data != [] {
      var swapped := SwapPairs(data);
      SwapOfPair(data[0], data[1]);
      hide SwapBytes;
      WordsOfSwapPairs(data[2..]);
      assert swapped[2..] == SwapPairs(data[2..]);
      assert SwapAll(Words(data)) == [SwapBytes(Words(data)[0])] + SwapAll(Words(data[2..]));
    }
  }

  lemma {:induction false} SumsCongruent(a: nat, b: nat, c: nat, d: nat)
    requires a % ALL_ONES == b % ALL_ONES && c % ALL_ONES == d % ALL_ONES
    ensures (a + c) % ALL_ONES == (b + d) % ALL_ONES
  {
  }

  /** Exchanging the octets of a word multiplies it by 256, modulo 0xffff. */
  lemma {:induction false} SwapMultiplies(w: uint16)
    ensures SwapBytes(w) % ALL_ONES == w * 0x100 % ALL_ONES
    ensures SwapBytes(w) == 0 <==> w == 0
  {
    Congruent(w * 0x100, SwapBytes(w), w / 0x100);
  }

  lemma {:induction false} TotalOfSwapAll(words: seq<uint16>)
    ensures Total(SwapAll(words)) % ALL_ONES == Total(words) * 0x100 % ALL_ONES
    ensures Total(SwapAll(words)) == 0 <==> Total(words) == 0
  {
    if words != [] {
      assert SwapAll(words)[1..] == SwapAll(words[1..]);
      TotalOfSwapAll(words[1..]);
      SwapMultiplies(words[0]);
      SumsCongruent(SwapBytes(words[0]), words[0] as int * 0x100,
                    Total(SwapAll(words[1..])), Total(words[1..]) * 0x100);
    }
  }

  lemma {:induction false} ResidueOfSwapped(n: nat, m: nat)
    requires m % ALL_ONES == n * 0x100 % ALL_ONES
    requires m == 0 <==> n == 0
    ensures Residue(m) == SwapBytes(Residue(n))
  {
    var w := Residue(n);
    SwapMultiplies(w);
    assert w * 0x100 % ALL_ONES == n * 0x100 % ALL_ONES by {
      if n > 0 {
        Congruent(n * 0x100, w * 0x100, (n - 1) / ALL_ONES * 0x100);
      }
    }
    ResidueUnique(m, SwapBytes(w));
  }

  lemma {:induction false} OnesSumOfSwapAll(words: seq<uint16>)
    ensures OnesSum(SwapAll(words)) == SwapBytes(OnesSum(words))
  {
    TotalOfSwapAll(words);
    OnesSumIsResidue(words);
    OnesSumIsResidue(SwapAll(words));
    ResidueOfSwapped(Total(words), Total(SwapAll(words)));
  }

  lemma {:induction false} SwapAllConcat(a: seq<uint16>, b: seq<uint16>)
    ensures SwapAll(a + b) == SwapAll(a) + SwapAll(b)
  {
  }

  lemma {:induction false} ComplementSwaps(words: seq<uint16>)
    ensures ALL_ONES - OnesSum(SwapAll(words)) == SwapBytes(ALL_ONES - OnesSum(words))
  {
    hide OnesSum;
    OnesSumOfSwapAll(words);
    var w := OnesSum(words);
    assert ALL_ONES - SwapBytes(w) == SwapBytes(ALL_ONES - w);
  }

  /** Swapping the octets of every word, those of the initial sum included, swaps the octets of the
      checksum. */
  lemma {:induction false} ByteOrderIndependence(initial: uint32, swappedInitial: uint32, data: seq<byte>)
    requires |data| % 2 == 0
    requires Halves(swappedInitial) == SwapAll(Halves(initial))
    ensures RfcChecksum(swappedInitial, SwapPairs(data)) == SwapBytes(RfcChecksum(initial, data))
  {
    hide OnesSum, SwapBytes, SwapPairs, Words;
    assert Halves(swappedInitial) + Words(SwapPairs(data)) == SwapAll(Halves(initial) + Words(data)) by {
      WordsOfSwapPairs(data);
      SwapAllConcat(Halves(initial), Words(data));
    }
    ComplementSwaps(Halves(initial) + Words(data));
  }

  /** Plain sums are multiplied by 256, modulo 0xffff. */
  lemma {:induction false} FullSumOfSwapped(initial: uint32, swappedInitial: uint32, data: seq<byte>)
    requires |data| % 2 == 0
    requires Halves(swappedInitial) == SwapAll(Halves(initial))
    ensures FullSum(swappedInitial, SwapPairs(data)) % ALL_ONES == FullSum(initial, data) * 0x100 % ALL_ONES
    ensures FullSum(swappedInitial, SwapPairs(data)) == 0 <==> FullSum(initial, data) == 0
  {
    hide SwapBytes, SwapPairs, Words, Total, Halves, SwapAll, FullSum;
    var words := Halves(initial) + Words(data);
    WordsOfSwapPairs(data);
    SwapAllConcat(Halves(initial), Words(data));
    TotalOfSwapAll(words);
    FullSumIsTotal(initial, data);
    FullSumIsTotal(swappedInitial, SwapPairs(data));
    TimesKeepsCongruence(Total(words), FullSum(initial, data));
  }

  lemma {:induction false} TimesKeepsCongruence(a: nat, b: nat)
    requires a % ALL_ONES == b % ALL_ONES
    ensures a * 0x100 % ALL_ONES == b * 0x100 % ALL_ONES
  {
    Congruent(a * 0x100, a % ALL_ONES * 0x100, a / ALL_ONES * 0x100);
    Congruent(b * 0x100, b % ALL_ONES * 0x100, b / ALL_ONES * 0x100);
  }

  /** The residues of two wrapped sums, one 256 times the other, are so related exactly when the numbers of
      wraps are. */
  lemma {:induction false} WrapsOfSwapped(s: nat, s': nat)
    requires s' % ALL_ONES == s * 0x100 % ALL_ONES
    ensures s' % SUM_SIZE % ALL_ONES == s % SUM_SIZE * 0x100 % ALL_ONES
        <==> s' / SUM_SIZE % ALL_ONES == s / SUM_SIZE * 0x100 % ALL_ONES
  {
    var k, t, k', t' := s / SUM_SIZE, s % SUM_SIZE, s' / SUM_SIZE, s' % SUM_SIZE;
    assert SUM_SIZE == 0x1_0001 * ALL_ONES + 1;
    Congruent(s', t' + k', k' * 0x1_0001);
    Congruent(s * 0x100, t * 0x100 + k * 0x100, k * 0x100 * 0x1_0001);
    EqualSums(t', k', t * 0x100, k * 0x100);
  }

  lemma {:induction false} EqualSums(a: nat, b: nat, c: nat, d: nat)
    requires (a + b) % ALL_ONES == (c + d) % ALL_ONES
    ensures a % ALL_ONES == c % ALL_ONES <==> b % ALL_ONES == d % ALL_ONES
  {
  }

  lemma {:induction false} ComplementOfSwapped(v: uint16, w: uint16)
    ensures ALL_ONES - v == SwapBytes(ALL_ONES - w) <==> v == SwapBytes(w)
  {
  }

  lemma {:induction false} ResidueOfSwappedIff(t: nat, t': nat)
    ensures Residue(t') == SwapBytes(Residue(t))
        <==> t' % ALL_ONES == t * 0x100 % ALL_ONES && (t' == 0 <==> t == 0)
  {
    hide Residue;
    if t' % ALL_ONES == t * 0x100 % ALL_ONES && (t' == 0 <==> t == 0) {
      ResidueOfSwapped(t, t');
    } else if Residue(t') == SwapBytes(Residue(t)) {
      ResidueKeeps(t);
      ResidueKeeps(t');
      SwapMultiplies(Residue(t));
      TimesKeepsCongruence(Residue(t), t);
      assert false;
    }
  }

  /** The code keeps this law exactly when the wraps do: their numbers are related like the sums, and one
      accumulator is zero only if the other is. In particular it keeps it wherever neither sum wraps. */
  lemma {:induction false} CodeByteOrderIndependence(initial: uint32, swappedInitial: uint32, data: seq<byte>)
    requires |data| % 2 == 0
    requires Halves(swappedInitial) == SwapAll(Halves(initial))
    ensures var swapped := SwapPairs(data);
            (CodeValue(swappedInitial, swapped) == SwapBytes(CodeValue(initial, data))
             <==> Wraps(swappedInitial, swapped) % ALL_ONES == Wraps(initial, data) * 0x100 % ALL_ONES
                  && (FullSum(swappedInitial, swapped) % SUM_SIZE == 0 <==> FullSum(initial, data) % SUM_SIZE == 0))
    ensures FullSum(initial, data) < SUM_SIZE && FullSum(swappedInitial, SwapPairs(data)) < SUM_SIZE ==>
              CodeValue(swappedInitial, SwapPairs(data)) == SwapBytes(CodeValue(initial, data))
  {
    hide Residue, FullSum, SwapPairs, SwapBytes, Halves, SwapAll;
    var s, s' := FullSum(initial, data), FullSum(swappedInitial, SwapPairs(data));
    FullSumOfSwapped(initial, swappedInitial, data);
    WrapsOfSwapped(s, s');
    ComplementOfSwapped(Residue(s' % SUM_SIZE), Residue(s % SUM_SIZE));
    ResidueOfSwappedIff(s % SUM_SIZE, s' % SUM_SIZE);
  }

  /** Takes one occurrence of `w` out of the middle of `b`. */
  lemma {:induction false} TakeOut(w: uint16, b: seq<uint16>) returns (rest: seq<uint16>)
    requires w in multiset(b)
    ensures multiset(b) == multiset{w} + multiset(rest)
    ensures Total(b) == w + Total(rest)
  {
    var i :| 0 <= i < |b| && b[i] == w;
    var head, tail := b[..i], b[i + 1..];
    rest := head + tail;
    assert b == head + ([w] + tail);
    TotalConcat(head, [w] + tail);
    TotalConcat(head, tail);
    assert ([w] + tail)[1..] == tail;
  }

  lemma {:induction false} TotalOfPermutation(a: seq<uint16>, b: seq<uint16>)
    requires multiset(a) == multiset(b)
    ensures Total(a) == Total(b)
  {
    if a == [] {
      assert |multiset(b)| == 0;
    } else {
      assert a == [a[0]] + a[1..];
      assert a[0] in multiset(a);
      var rest := TakeOut(a[0], b);
      assert multiset(a) == multiset{a[0]} + multiset(a[1..]);
      assert multiset(a[1..]) == multiset(a) - multiset{a[0]} == multiset(rest);
      TotalOfPermutation(a[1..], rest);
    }
  }

  /** The order of the 16-bit words does not matter, to RFC 1071 or to the code. */
  lemma {:induction false} Commutativity(initial: uint32, a: seq<byte>, b: seq<byte>)
    requires multiset(Words(a)) == multiset(Words(b))
    ensures RfcChecksum(initial, a) == RfcChecksum(initial, b)
    ensures CodeValue(initial, a) == CodeValue(initial, b)
  {
    assert FullSum(initial, a) == FullSum(initial, b) by {
      TotalOfPermutation(Words(a), Words(b));
      TotalOfWords(a);
      TotalOfWords(b);
    }
    RfcChecksumIsResidue(initial, a);
    RfcChecksumIsResidue(initial, b);
  }

  // ---------------------------------------------------------------------------------------------
  // Error detection
  // ---------------------------------------------------------------------------------------------

  /** One spelling of zero in place of the other. */
  predicate ZeroRespelled(before: uint16, after: uint16) {
    (before == 0 && after == ALL_ONES) || (before == ALL_ONES && after == 0)
  }

  lemma {:induction false} WordsCongruent(s: nat, before: uint16, after: uint16)
    ensures (s + before) % ALL_ONES == (s + after) % ALL_ONES <==> before == after || ZeroRespelled(before, after)
  {
  }

  /** Overwriting one aligned word goes unnoticed exactly when it is one spelling of zero for the other
      in a message that is not otherwise all zeros. */
  lemma {:induction false} UndetectedWordErrors(initial: uint32, head: seq<byte>, tail: seq<byte>,
                                              before: uint16, after: uint16)
    requires |head| % 2 == 0
    ensures RfcChecksum(initial, WithField(head, before, tail)) == RfcChecksum(initial, WithField(head, after, tail))
        <==> before == after
             || (ZeroRespelled(before, after) && FullSum(initial, WithField(head, 0, tail)) > 0)
  {
    var s := FullSum(initial, WithField(head, 0, tail));
    FullSumWithField(initial, head, before, tail);
    FullSumWithField(initial, head, after, tail);
    RfcChecksumIsResidue(initial, WithField(head, before, tail));
    RfcChecksumIsResidue(initial, WithField(head, after, tail));
    ResiduesEqual(s + before, s + after);
    WordsCongruent(s, before, after);
  }

  /** In the code it does so exactly when, in addition, the rest has left something in the accumulator and
      no wrap comes between the two spellings. */
  lemma {:induction false} CodeUndetectedWordErrors(initial: uint32, head: seq<byte>, tail: seq<byte>,
                                                  before: uint16, after: uint16)
    requires |head| % 2 == 0
    ensures var t := FullSum(initial, WithField(head, 0, tail)) % SUM_SIZE;
            (CodeValue(initial, WithField(head, before, tail)) == CodeValue(initial, WithField(head, after, tail))
             <==> before == after || (ZeroRespelled(before, after) && 0 < t && t + ALL_ONES < SUM_SIZE))
  {
    hide Residue, FullSum, WithField;
    var s := FullSum(initial, WithField(head, 0, tail));
    FullSumWithField(initial, head, before, tail);
    FullSumWithField(initial, head, after, tail);
    if before < after {
      NearSums(s + before, s + after);
    } else if after < before {
      NearSums(s + after, s + before);
    }
  }

  lemma {:induction false} ByteSumAround(head: seq<byte>, x: byte, tail: seq<byte>)
    ensures ByteSum(head + [x] + tail, false)
         == ByteSum(head, false) + Weight(x, |head| % 2 == 1) + ByteSum(tail, |head| % 2 == 0)
  {
    assert head + [x] + tail == head + ([x] + tail);
    ByteSumConcat(head, [x] + tail, false);
    assert ([x] + tail)[1..] == tail;
  }

  lemma {:induction false} OneOctetApart(s: nat, x: byte, y: byte, odd: bool)
    requires x != y
    ensures (s + Weight(x, odd)) % ALL_ONES != (s + Weight(y, odd)) % ALL_ONES
  {
  }

  /** Changing any one octet of any message changes its checksum; in particular a message that verifies
      no longer does. */
  lemma {:induction false} OctetErrorDetected(initial: uint32, data: seq<byte>, i: nat, x: byte)
    requires i < |data| && x != data[i]
    ensures RfcChecksum(initial, data[i := x]) != RfcChecksum(initial, data)
  {
    assert data == data[..i] + [data[i]] + data[i + 1..];
    assert data[i := x] == data[..i] + [x] + data[i + 1..];
    ByteSumAround(data[..i], data[i], data[i + 1..]);
    ByteSumAround(data[..i], x, data[i + 1..]);
    hide Residue, ByteSum, Weight;
    OneOctetApart(initial + ByteSum(data[..i], false) + ByteSum(data[i + 1..], i % 2 == 0), x, data[i], i % 2 == 1);
    RfcChecksumIsResidue(initial, data);
    RfcChecksumIsResidue(initial, data[i := x]);
    ResiduesEqual(FullSum(initial, data), FullSum(initial, data[i := x]));
  }

  /** The code detects it too, for every initial sum and length: a wrap never hides it. */
  lemma {:induction false} CodeOctetErrorDetected(initial: uint32, data: seq<byte>, i: nat, x: byte)
    requires i < |data| && x != data[i]
    ensures CodeValue(initial, data[i := x]) != CodeValue(initial, data)
  {
    assert data == data[..i] + [data[i]] + data[i + 1..];
    assert data[i := x] == data[..i] + [x] + data[i + 1..];
    ByteSumAround(data[..i], data[i], data[i + 1..]);
    ByteSumAround(data[..i], x, data[i + 1..]);
    var s, s' := FullSum(initial, data), FullSum(initial, data[i := x]);
    assert s' + Weight(data[i], i % 2 == 1) == s + Weight(x, i % 2 == 1);
    hide Residue, ByteSum, FullSum;
    if s < s' {
      NearSums(s, s');
    } else {
      NearSums(s', s);
    }
  }
}
