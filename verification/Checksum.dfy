// The Internet checksum of RFC 1071 and the streaming class that computes it.
module Checksum {
  import opened Bytes
  import Bits

  const WORD := 0x1_0000
  const ALL_ONES := 0xffff
  const SUM_SIZE := 0x1_0000_0000

  // ---------------------------------------------------------------------------------------------
  // Reference definition: sections 1 and 2 of RFC 1071
  // ---------------------------------------------------------------------------------------------

  /** One's-complement addition of 16-bit words: the carry is added back at once. */
  function OnesAdd(a: uint16, b: uint16): uint16 {
    if a + b >= WORD then a + b - WORD + 1 else a + b
  }

  function OnesSum(words: seq<uint16>): uint16 {
    if words == [] then 0 else OnesAdd(words[0], OnesSum(words[1..]))
  }

  function Word(high: byte, low: byte): uint16 {
    high as int * 0x100 + low
  }

  /** Adjacent octets paired into big-endian words, an odd last octet padded with zero. */
  function Words(data: seq<byte>): seq<uint16> {
    if |data| == 0 then []
    else if |data| == 1 then [Word(data[0], 0)]
    else [Word(data[0], data[1])] + Words(data[2..])
  }

  /** The two words of a 32-bit starting value, such as the sum over a pseudo-header. */
  function Halves(initial: uint32): seq<uint16> {
    [initial / WORD, initial % WORD]
  }

  function RfcChecksum(initial: uint32, data: seq<byte>): uint16 {
    ALL_ONES - OnesSum(Halves(initial) + Words(data))
  }

  // ---------------------------------------------------------------------------------------------
  // Deferred carries: plain sums and their residues
  // ---------------------------------------------------------------------------------------------

  function Total(words: seq<uint16>): nat {
    if words == [] then 0 else words[0] + Total(words[1..])
  }

  /** What an octet adds to the running sum: high octets come at even positions. */
  function Weight(x: byte, odd: bool): uint16 {
    if odd then x else x as int * 0x100
  }

  /** The plain sum of `data` when its first octet stands at an even (or `odd`) position. */
  function ByteSum(data: seq<byte>, odd: bool): nat {
    if data == [] then 0 else Weight(data[0], odd) + ByteSum(data[1..], !odd)
  }

  /** The 16-bit word an unbounded sum folds to: zero only for zero, otherwise 1 up to 0xffff. */
  function Residue(n: nat): uint16 {
    if n == 0 then 0 else (n - 1) % ALL_ONES + 1
  }

  /** The sum that the code's accumulator stands for before it is cut to 32 bits. */
  function FullSum(initial: uint32, data: seq<byte>): nat {
    initial + ByteSum(data, false)
  }

  /** What `value()` returns after `data` has been added, whether or not the sum wrapped. */
  function CodeValue(initial: uint32, data: seq<byte>): uint16 {
    ALL_ONES - Residue(FullSum(initial, data) % SUM_SIZE)
  }

  lemma {:induction false} ResidueUnique(n: nat, r: uint16)
    requires r == 0 <==> n == 0
    requires r % ALL_ONES == n % ALL_ONES
    ensures r == Residue(n)
  {
  }

  lemma {:induction false} ByteSumConcat(a: seq<byte>, b: seq<byte>, odd: bool)
    ensures ByteSum(a + b, odd) == ByteSum(a, odd) + ByteSum(b, odd != (|a| % 2 == 1))
  {
    if a == [] {
      assert a + b == b;
    } else {
      assert (a + b)[1..] == a[1..] + b;
      ByteSumConcat(a[1..], b, !odd);
    }
  }

  lemma {:induction false} TotalConcat(a: seq<uint16>, b: seq<uint16>)
    ensures Total(a + b) == Total(a) + Total(b)
  {
    if a == [] {
      assert a + b == b;
    } else {
      assert (a + b)[1..] == a[1..] + b;
      TotalConcat(a[1..], b);
    }
  }

  lemma {:induction false} TotalOfWords(data: seq<byte>)
    ensures Total(Words(data)) == ByteSum(data, false)
  {
    if |data| == 1 {
      assert Words(data)[1..] == [];
      assert data[1..] == [];
    } else if |data| > 1 {
      assert Words(data)[1..] == Words(data[2..]);
      assert data[1..][1..] == data[2..];
      TotalOfWords(data[2..]);
    }
  }

  /** Adding carries back at every step gives the residue of the plain sum. */
  lemma {:induction false} OnesSumIsResidue(words: seq<uint16>)
    ensures OnesSum(words) == Residue(Total(words))
  {
    if words != [] {
      OnesSumIsResidue(words[1..]);
      ResidueUnique(Total(words), OnesSum(words));
    }
  }

  lemma {:induction false} FullSumIsTotal(initial: uint32, data: seq<byte>)
    ensures Total(Halves(initial) + Words(data)) % ALL_ONES == FullSum(initial, data) % ALL_ONES
    ensures Total(Halves(initial) + Words(data)) == 0 <==> FullSum(initial, data) == 0
  {
    hide ByteSum, Words;
    TotalConcat(Halves(initial), Words(data));
    TotalOfWords(data);
    assert Halves(initial)[1..] == [initial % WORD];
    assert Total(Halves(initial)) == initial / WORD + initial % WORD;
  }

  lemma {:induction false} RfcChecksumIsResidue(initial: uint32, data: seq<byte>)
    ensures RfcChecksum(initial, data) == ALL_ONES - Residue(FullSum(initial, data))
  {
    hide Halves, FullSum, Total, OnesSum;
    OnesSumIsResidue(Halves(initial) + Words(data));
    FullSumIsTotal(initial, data);
    ResidueUnique(FullSum(initial, data), Residue(Total(Halves(initial) + Words(data))));
  }

  /** How often the 32-bit accumulator has wrapped around. */
  function Wraps(initial: uint32, data: seq<byte>): nat {
    FullSum(initial, data) / SUM_SIZE
  }

  lemma {:induction false} Congruent(a: nat, b: nat, k: nat)
    requires a == b + k * ALL_ONES
    ensures a % ALL_ONES == b % ALL_ONES
  {
  }

  /** A wrap takes away 2^32, which is 1 modulo 0xffff. */
  lemma {:induction false} WrapsShiftResidue(s: nat, t: nat, wraps: nat)
    requires s == wraps * SUM_SIZE + t
    ensures s % ALL_ONES == t % ALL_ONES <==> wraps % ALL_ONES == 0
  {
    assert SUM_SIZE == 0x1_0001 * ALL_ONES + 1;
    Congruent(s, t + wraps, wraps * 0x1_0001);
    assert (t + wraps) % ALL_ONES == t % ALL_ONES <==> wraps % ALL_ONES == 0;
  }

  lemma {:induction false} ResidueKeeps(n: nat)
    ensures Residue(n) % ALL_ONES == n % ALL_ONES
    ensures Residue(n) == 0 <==> n == 0
  {
  }

  lemma {:induction false} ResiduesEqual(s: nat, t: nat)
    ensures Residue(s) == Residue(t) <==> s % ALL_ONES == t % ALL_ONES && (s == 0 <==> t == 0)
  {
    ResidueKeeps(s);
    ResidueKeeps(t);
    hide Residue;
    if s % ALL_ONES == t % ALL_ONES && (s == 0 <==> t == 0) {
      ResidueUnique(t, Residue(s));
    }
  }

  /** The code agrees with RFC 1071 exactly when the wraps lost nothing: their number is a multiple
      of 0xffff and they did not leave a zero accumulator behind. */
  lemma {:induction false} CorrectIffNoLoss(initial: uint32, data: seq<byte>)
    ensures CodeValue(initial, data) == RfcChecksum(initial, data)
        <==> Wraps(initial, data) % ALL_ONES == 0
             && (FullSum(initial, data) % SUM_SIZE == 0 ==> FullSum(initial, data) == 0)
  {
    hide Residue, RfcChecksum, FullSum;
    RfcChecksumIsResidue(initial, data);
    var s := FullSum(initial, data);
    WrapsShiftResidue(s, s % SUM_SIZE, Wraps(initial, data));
    ResiduesEqual(s % SUM_SIZE, s);
  }

  /** In particular the checksum is right whenever the sum fits in 32 bits. */
  lemma {:induction false} CorrectWithoutWrap(initial: uint32, data: seq<byte>)
    requires FullSum(initial, data) < SUM_SIZE
    ensures CodeValue(initial, data) == RfcChecksum(initial, data)
  {
    CorrectIffNoLoss(initial, data);
  }

  // ---------------------------------------------------------------------------------------------
  // The carry fold
  // ---------------------------------------------------------------------------------------------

  /** One round of the fold: high half plus low half. */
  function FoldStep(x: uint32): uint32 {
    x / WORD + x % WORD
  }

  /** A round keeps the residue, keeps a positive sum positive and makes progress. */
  lemma {:induction false} FoldStepKeepsResidue(x: uint32)
    ensures Residue(FoldStep(x)) == Residue(x)
    ensures x > ALL_ONES ==> FoldStep(x) < x
  {
  }

  /** Folding until the sum fits in a word, and the number of rounds that takes. */
  function Fold(x: uint32): (r: (uint16, nat))
    decreases x
  {
    if x <= ALL_ONES then (x, 0)
    else
      FoldStepKeepsResidue(x);
      var (y, rounds) := Fold(FoldStep(x));
      (y, rounds + 1)
  }

  /** The fold ends in at most two rounds for every 32-bit sum, in the residue of that sum. */
  lemma {:induction false} FoldIsResidue(x: uint32)
    ensures Fold(x).0 == Residue(x)
    ensures Fold(x).1 == if x <= ALL_ONES then 0 else if FoldStep(x) <= ALL_ONES then 1 else 2
    decreases x
  {
    if x > ALL_ONES {
      var y := FoldStep(x);
      FoldStepKeepsResidue(x);
      FoldIsResidue(y);
      assert y <= ALL_ONES + ALL_ONES && FoldStep(y) <= ALL_ONES;
    }
  }

  lemma {:induction false} TwoRoundsCanBeNeeded()
    ensures Fold(0x1_ffff).1 == 2
  {
  }

  /** The arithmetic of the fold is the shift, mask and complement of the code. */
  lemma {:induction false} FoldIsShiftAndMask(b: Bits.bits)
    requires |b| == 32
    ensures Bits.Number(b) < SUM_SIZE
    ensures FoldStep(Bits.Number(b)) == Bits.Number(Bits.ShiftRight(b, 16)) + Bits.Number(Bits.LowMask(b, 16))
  {
    Bits.NumberBound(b);
    Bits.ShiftAndMask(b, 16);
    Pow2Values();
  }

  lemma {:induction false} ComplementIsSubtraction(b: Bits.bits)
    requires |b| == 32 && Bits.Number(b) <= ALL_ONES
    ensures Bits.Number(Bits.LowMask(Bits.Complement(b), 16)) == ALL_ONES - Bits.Number(b)
  {
    hide Bits.Number, Bits.Pow2;
    Bits.ComplementSubtracts(b);
    Bits.ShiftAndMask(Bits.Complement(b), 16);
    Pow2Values();
  }

  lemma {:induction false} Pow2Values()
    ensures Bits.Pow2(8) == 0x100 && Bits.Pow2(16) == WORD && Bits.Pow2(32) == SUM_SIZE
  {
    assert Bits.Pow2(4) == 16;
    Bits.PowersAdd(4, 4);
    Bits.PowersAdd(8, 8);
    Bits.PowersAdd(16, 16);
  }

  // ---------------------------------------------------------------------------------------------
  // The streaming class
  // ---------------------------------------------------------------------------------------------

  lemma {:induction false} OneMoreOctet(initial: uint32, added: seq<byte>, x: byte)
    ensures FullSum(initial, added + [x]) % SUM_SIZE
         == (FullSum(initial, added) % SUM_SIZE + Weight(x, |added| % 2 == 1)) % SUM_SIZE
  {
    ByteSumConcat(added, [x], false);
    assert [x][1..] == [];
  }

  class InternetChecksum {
    var sum: uint32
    var parity: bool
    ghost const initial: uint32
    ghost var added: seq<byte>  // everything passed to Add so far, chunk boundaries forgotten

    ghost predicate Valid()
      reads this
    {
      && sum == FullSum(initial, added) % SUM_SIZE
      && parity == (|added| % 2 == 1)
    }

    constructor (initialSum: uint32)
      ensures Valid() && initial == initialSum && added == []
    {
      sum, parity := initialSum, false;
      initial, added := initialSum, [];
    }

    method Add(data: seq<byte>)
      requires Valid()
      modifies this
      ensures Valid() && added == old(added) + data
    {
      for i := 0 to |data|
        invariant Valid() && added == old(added) + data[..i]
      {
        var val: uint16 := data[i];
        if !parity {
          val := val * 0x100 % WORD;
        }
        OneMoreOctet(initial, added, data[i]);
        sum := (sum + val) % SUM_SIZE;
        parity := !parity;
        assert added + [data[i]] == old(added) + data[..i + 1];
        added := added + [data[i]];
      }
      assert data[..|data|] == data;
    }

    /** The result depends on the octets added and not on how they were split into chunks; it is the
        checksum of RFC 1071 if and only if the wraps of the accumulator lost nothing. */
    method Value() returns (v: uint16)
      requires Valid()
      ensures v == CodeValue(initial, added)
      ensures v == RfcChecksum(initial, added)
          <==> Wraps(initial, added) % ALL_ONES == 0 && (sum == 0 ==> FullSum(initial, added) == 0)
    {
      var ret: uint32 := sum;
      while ret > ALL_ONES
        invariant Fold(ret).0 == Fold(sum).0
      {
        FoldStepKeepsResidue(ret);
        ret := ret / WORD + ret % WORD;
      }
      FoldIsResidue(sum);
      CorrectIffNoLoss(initial, added);
      v := ALL_ONES - ret;
    }
  }
}
