// Octets, machine words and flat views of pieced-together strings, shared by every other module.
module Bytes {

  type byte = x: int | 0 <= x < 0x100
  type uint16 = x: int | 0 <= x < 0x1_0000
  type uint32 = x: int | 0 <= x < 0x1_0000_0000

  /** The flat string that a list of pieces denotes. */
  ghost function Flat(pieces: seq<seq<byte>>): seq<byte> {
    if pieces == [] then [] else pieces[0] + Flat(pieces[1..])
  }

  lemma {:induction false} FlatAppend(a: seq<seq<byte>>, b: seq<seq<byte>>)
    ensures Flat(a + b) == Flat(a) + Flat(b)
  {
    if a == [] {
      assert a + b == b;
    } else {
      assert (a + b)[1..] == a[1..] + b;
      FlatAppend(a[1..], b);
    }
  }

  lemma {:induction false} FlatSnoc(a: seq<seq<byte>>, p: seq<byte>)
    ensures Flat(a + [p]) == Flat(a) + p
  {
    FlatAppend(a, [p]);
    assert Flat([p]) == p + Flat([]);
  }
}
