// Buffers that share immutable storage, ropes of them, and non-owning views of such ropes.
module Buffers {
  import opened Bytes

  /** A string on the heap. It never changes, and any number of buffers may point at it. */
  class Storage {
    const data: seq<byte>

    constructor (data: seq<byte>)
      ensures this.data == data
    {
      this.data := data;
    }
  }

  // ---------------------------------------------------------------------------------------------
  // Values: what a Buffer and a view stand for
  // ---------------------------------------------------------------------------------------------

  /** The two fields of a Buffer: shared storage and a private offset. */
  datatype Slice = Slice(storage: Storage?, offset: nat) {
    predicate Valid() {
      storage != null ==> offset <= |storage.data|
    }

    function Str(): seq<byte>
      requires Valid()
    {
      if storage == null then [] else storage.data[offset..]
    }

    /** The slice without its first `n` octets; storage is let go once nothing is left of it. */
    function Drop(n: nat): (r: Slice)
      requires Valid() && n <= |Str()|
      ensures r.Valid() && r.Str() == Str()[n..]
      ensures r.storage == if n < |Str()| then storage else null
    {
      if storage != null && offset + n == |storage.data| then Slice(null, offset + n) else Slice(storage, offset + n)
    }

    /** The view that `str()` hands out. */
    function AsView(): (v: View)
      requires Valid()
      ensures v.Valid() && v.Text() == Str()
    {
      if storage == null then View(null, 0, 0) else View(storage, offset, |storage.data| - offset)
    }
  }

  /** A pointer and a length. */
  datatype View = View(storage: Storage?, start: nat, length: nat) {
    predicate Valid() {
      if storage == null then length == 0 else start + length <= |storage.data|
    }

    function Text(): (s: seq<byte>)
      requires Valid()
      ensures |s| == length
    {
      if storage == null then [] else storage.data[start..start + length]
    }

    function Drop(n: nat): (r: View)
      requires Valid() && n <= length
      ensures r.Valid() && r.Text() == Text()[n..]
    {
      View(storage, start + n, length - n)
    }
  }

  /** One entry of a scatter-gather list as the kernel reads it. */
  datatype Iovec = Iovec(base: Storage?, start: nat, len: nat) {
    predicate Valid() {
      if base == null then len == 0 else start + len <= |base.data|
    }

    function Text(): seq<byte>
      requires Valid()
    {
      if base == null then [] else base.data[start..start + len]
    }
  }

  ghost predicate AllSlices(ss: seq<Slice>) {
    forall i :: 0 <= i < |ss| ==> ss[i].Valid()
  }

  ghost predicate AllViews(vs: seq<View>) {
    forall i :: 0 <= i < |vs| ==> vs[i].Valid()
  }

  ghost predicate AllIovecs(vs: seq<Iovec>) {
    forall i :: 0 <= i < |vs| ==> vs[i].Valid()
  }

  ghost function Texts(ss: seq<Slice>): seq<seq<byte>>
    requires AllSlices(ss)
  {
    seq(|ss|, i requires 0 <= i < |ss| => ss[i].Str())
  }

  ghost function ViewTexts(vs: seq<View>): seq<seq<byte>>
    requires AllViews(vs)
  {
    seq(|vs|, i requires 0 <= i < |vs| => vs[i].Text())
  }

  /** What `writev` would send: the iovecs one after the other. */
  ghost function Gathered(vs: seq<Iovec>): seq<byte>
    requires AllIovecs(vs)
  {
    Flat(IovecTexts(vs))
  }

  ghost function IovecTexts(vs: seq<Iovec>): seq<seq<byte>>
    requires AllIovecs(vs)
  {
    seq(|vs|, i requires 0 <= i < |vs| => vs[i].Text())
  }

  ghost function ViewsOf(ss: seq<Slice>): (vs: seq<View>)
    requires AllSlices(ss)
    ensures AllViews(vs)
  {
    seq(|ss|, i requires 0 <= i < |ss| => ss[i].AsView())
  }

  // ---------------------------------------------------------------------------------------------
  // Trimming: dropping octets from the front of a rope
  // ---------------------------------------------------------------------------------------------

  /** Pieces that are used up go, empty ones in front included; the next one loses what is left to
      drop. Nothing is left when `n` exceeds the total. */
  ghost function TrimSlices(ss: seq<Slice>, n: nat): (r: seq<Slice>)
    requires AllSlices(ss)
    ensures AllSlices(r)
    decreases |ss|
  {
    if n == 0 || ss == [] then ss
    else if n < |ss[0].Str()| then [ss[0].Drop(n)] + ss[1..]
    else TrimSlices(ss[1..], n - |ss[0].Str()|)
  }

  ghost function TrimViews(vs: seq<View>, n: nat): (r: seq<View>)
    requires AllViews(vs)
    ensures AllViews(r)
    decreases |vs|
  {
    if n == 0 || vs == [] then vs
    else if n < vs[0].length then [vs[0].Drop(n)] + vs[1..]
    else TrimViews(vs[1..], n - vs[0].length)
  }

  lemma {:induction false} TextsCons(front: Slice, rest: seq<Slice>)
    requires front.Valid() && AllSlices(rest)
    ensures AllSlices([front] + rest)
    ensures Flat(Texts([front] + rest)) == front.Str() + Flat(Texts(rest))
  {
    assert Texts([front] + rest)[1..] == Texts(rest);
  }

  /** One round of a trimming loop: the front piece is cut, or used up and removed. */
  lemma {:induction false} TrimFront(ss: seq<Slice>, n: nat)
    requires AllSlices(ss) && ss != [] && n > 0
    ensures n < |ss[0].Str()| ==>
              TrimSlices(ss, n) == [ss[0].Drop(n)] + ss[1..] && n <= |Flat(Texts(ss))|
    ensures n >= |ss[0].Str()| ==>
              && TrimSlices(ss, n) == TrimSlices(ss[1..], n - |ss[0].Str()|)
              && (n <= |Flat(Texts(ss))| <==> n - |ss[0].Str()| <= |Flat(Texts(ss[1..]))|)
  {
    hide Texts, Flat, Slice.Str;
    assert ss == [ss[0]] + ss[1..];
    TextsCons(ss[0], ss[1..]);
  }

  /** Trimming a rope drops exactly that many octets of the string it denotes. */
  lemma {:induction false} TrimDropsPrefix(ss: seq<Slice>, n: nat)
    requires AllSlices(ss)
    ensures n <= |Flat(Texts(ss))| ==> Flat(Texts(TrimSlices(ss, n))) == Flat(Texts(ss))[n..]
    ensures n > |Flat(Texts(ss))| ==> TrimSlices(ss, n) == []
    decreases |ss|
  {
    if ss != [] {
      hide Texts, Flat, Slice.Str, Slice.Drop;
      assert ss == [ss[0]] + ss[1..];
      TextsCons(ss[0], ss[1..]);
      if n > 0 {
        if n < |ss[0].Str()| {
          TextsCons(ss[0].Drop(n), ss[1..]);
        } else {
          TrimDropsPrefix(ss[1..], n - |ss[0].Str()|);
        }
      }
    }
  }

  lemma {:induction false} ViewsCons(front: Slice, rest: seq<Slice>)
    requires front.Valid() && AllSlices(rest)
    ensures AllSlices([front] + rest)
    ensures ViewsOf([front] + rest) == [front.AsView()] + ViewsOf(rest)
  {
  }

  lemma {:induction false} ViewOfDrop(s: Slice, n: nat)
    requires s.Valid() && n < |s.Str()|
    ensures s.Drop(n).AsView() == s.AsView().Drop(n)
  {
  }

  /** Taking views and trimming commute, down to the very pointers and lengths. */
  lemma {:induction false} TrimCommutesWithViews(ss: seq<Slice>, n: nat)
    requires AllSlices(ss)
    ensures ViewsOf(TrimSlices(ss, n)) == TrimViews(ViewsOf(ss), n)
    decreases |ss|
  {
    if n > 0 && ss != [] {
      hide ViewsOf, Slice.Str, Slice.Drop, Slice.AsView, View.Drop;
      assert ss == [ss[0]] + ss[1..];
      ViewsCons(ss[0], ss[1..]);
      assert |ss[0].AsView().Text()| == |ss[0].Str()|;
      if n < |ss[0].Str()| {
        ViewsCons(ss[0].Drop(n), ss[1..]);
        ViewOfDrop(ss[0], n);
      } else {
        TrimCommutesWithViews(ss[1..], n - |ss[0].Str()|);
      }
    }
  }

  lemma {:induction false} DropTwice(s: Slice, m: nat, n: nat)
    requires s.Valid() && m < m + n < |s.Str()|
    ensures s.Drop(m).Drop(n) == s.Drop(m + n)
  {
  }

  lemma {:induction false} TrimCons(front: Slice, rest: seq<Slice>, n: nat)
    requires front.Valid() && AllSlices(rest) && n > 0
    ensures TrimSlices([front] + rest, n)
         == if n < |front.Str()| then [front.Drop(n)] + rest else TrimSlices(rest, n - |front.Str()|)
  {
    assert ([front] + rest)[1..] == rest;
  }

  lemma {:induction false} TrimNone(ss: seq<Slice>, n: nat)
    requires AllSlices(ss)
    ensures TrimSlices(ss, 0) == ss && TrimSlices([], n) == []
  {
  }

  /** Trimming twice is trimming once by the sum. */
  lemma {:induction false} TrimTwice(ss: seq<Slice>, m: nat, n: nat)
    requires AllSlices(ss)
    ensures TrimSlices(TrimSlices(ss, m), n) == TrimSlices(ss, m + n)
    decreases |ss|
  {
    hide Slice.Str, Slice.Drop, TrimSlices;
    TrimNone(ss, m);
    TrimNone(TrimSlices(ss, m), n);
    TrimNone(ss, m + n);
    if m > 0 && n > 0 && ss != [] {
      var front, rest := ss[0], ss[1..];
      assert ss == [front] + rest;
      TrimCons(front, rest, m);
      TrimCons(front, rest, m + n);
      if m >= |front.Str()| {
        TrimTwice(rest, m - |front.Str()|, n);
      } else {
        TrimCons(front.Drop(m), rest, n);
        if m + n < |front.Str()| {
          DropTwice(front, m, n);
        }
      }
    }
  }

  lemma {:induction false} ViewTextsOfViews(ss: seq<Slice>)
    requires AllSlices(ss)
    ensures ViewTexts(ViewsOf(ss)) == Texts(ss)
  {
  }

  lemma {:induction false} ViewTextsCons(front: View, rest: seq<View>)
    requires front.Valid() && AllViews(rest)
    ensures AllViews([front] + rest)
    ensures Flat(ViewTexts([front] + rest)) == front.Text() + Flat(ViewTexts(rest))
  {
    assert ViewTexts([front] + rest)[1..] == ViewTexts(rest);
  }

  lemma {:induction false} NoViews()
    ensures Flat(ViewTexts([])) == []
  {
  }

  lemma {:induction false} TrimViewFront(vs: seq<View>, n: nat)
    requires AllViews(vs) && vs != [] && n > 0
    ensures n < vs[0].length ==>
              TrimViews(vs, n) == [vs[0].Drop(n)] + vs[1..] && n <= |Flat(ViewTexts(vs))|
    ensures n >= vs[0].length ==>
              && TrimViews(vs, n) == TrimViews(vs[1..], n - vs[0].length)
              && (n <= |Flat(ViewTexts(vs))| <==> n - vs[0].length <= |Flat(ViewTexts(vs[1..]))|)
  {
    hide ViewTexts, Flat, View.Text;
    assert vs == [vs[0]] + vs[1..];
    ViewTextsCons(vs[0], vs[1..]);
  }

  /** Views trim like the slices they were taken from. */
  lemma {:induction false} TrimViewsDropsPrefix(vs: seq<View>, n: nat)
    requires AllViews(vs)
    ensures n <= |Flat(ViewTexts(vs))| ==> Flat(ViewTexts(TrimViews(vs, n))) == Flat(ViewTexts(vs))[n..]
    ensures n > |Flat(ViewTexts(vs))| ==> TrimViews(vs, n) == []
    decreases |vs|
  {
    if vs != [] {
      hide ViewTexts, Flat, View.Text;
      assert vs == [vs[0]] + vs[1..];
      ViewTextsCons(vs[0], vs[1..]);
      if n > 0 {
        if n < vs[0].length {
          ViewTextsCons(vs[0].Drop(n), vs[1..]);
        } else {
          TrimViewsDropsPrefix(vs[1..], n - vs[0].length);
        }
      }
    }
  }

  // ---------------------------------------------------------------------------------------------
  // Buffer
  // ---------------------------------------------------------------------------------------------

  class Buffer {
    var storage: Storage?
    var offset: nat

    function Value(): Slice
      reads this
    {
      Slice(storage, offset)
    }

    ghost predicate Valid()
      reads this
    {
      Value().Valid()
    }

    constructor Empty()
      ensures Value() == Slice(null, 0)
    {
      storage, offset := null, 0;
    }

    constructor FromString(text: seq<byte>)
      ensures Valid() && Str() == text && storage != null && fresh(storage)
    {
      storage := new Storage(text);
      offset := 0;
    }

    /** The implicit copy: the same storage, an offset of its own. */
    constructor CopyOf(other: Buffer)
      ensures Value() == other.Value()
    {
      storage, offset := other.storage, other.offset;
    }

    function Str(): seq<byte>
      requires Valid()
      reads this
    {
      Value().Str()
    }

    /** The octet at position `n`, or an out-of-range error. */
    method At(n: nat) returns (ok: bool, x: byte)
      requires Valid()
      ensures ok <==> n < |Str()|
      ensures ok ==> x == Str()[n]
    {
      ok, x := n < |Str()|, 0;
      if ok {
        x := Str()[n];
      }
    }

    /** Fails, and changes nothing, when asked to drop more than there is. */
    method RemovePrefix(n: nat) returns (ok: bool)
      requires Valid()
      modifies this
      ensures Valid()
      ensures ok <==> n <= |old(Str())|
      ensures ok ==> Value() == old(Value()).Drop(n) && Str() == old(Str())[n..]
      ensures !ok ==> Value() == old(Value())
    {
      if n > |Str()| {
        return false;
      }
      offset := offset + n;
      if storage != null && offset == |storage.data| {
        storage := null;
      }
      return true;
    }
  }

  // ---------------------------------------------------------------------------------------------
  // BufferList
  // ---------------------------------------------------------------------------------------------

  ghost function Values(bs: seq<Buffer>): seq<Slice>
    reads bs
  {
    seq(|bs|, i requires 0 <= i < |bs| reads bs => bs[i].Value())
  }

  class BufferList {
    var buffers: seq<Buffer>

    /** The buffers are the list's own: no other object holds them. */
    ghost function Owned(): set<Buffer>
      reads this
    {
      set b | b in buffers
    }

    ghost predicate Valid()
      reads this, buffers
    {
      && (forall i, j :: 0 <= i < j < |buffers| ==> buffers[i] != buffers[j])
      && (forall i :: 0 <= i < |buffers| ==> buffers[i].Valid())
    }

    ghost function Slices(): (ss: seq<Slice>)
      requires Valid()
      reads this, buffers
      ensures AllSlices(ss)
    {
      Values(buffers)
    }

    /** The flat string that the list denotes. */
    ghost function Contents(): seq<byte>
      requires Valid()
      reads this, buffers
    {
      Flat(Texts(Slices()))
    }

    constructor Empty()
      ensures Valid() && Slices() == [] && fresh(Owned())
    {
      buffers := [];
    }

    constructor FromBuffer(buffer: Buffer)
      requires buffer.Valid()
      ensures Valid() && Slices() == [buffer.Value()] && fresh(Owned())
    {
      var copy := new Buffer.CopyOf(buffer);
      buffers := [copy];
    }

    constructor FromString(text: seq<byte>)
      ensures Valid() && Texts(Slices()) == [text] && fresh(Owned())
    {
      var buffer := new Buffer.FromString(text);
      buffers := [buffer];
    }

    method Append(other: BufferList)
      requires Valid() && other.Valid() && other != this && Owned() !! other.Owned()
      modifies this
      ensures Valid() && fresh(Owned() - old(Owned()))
      ensures Slices() == old(Slices()) + other.Slices()
      ensures Contents() == old(Contents()) + other.Contents()
    {
      for i := 0 to |other.buffers|
        invariant Valid() && fresh(Owned() - old(Owned()))
        invariant unchanged(other) && unchanged(other.buffers) && unchanged(old(buffers))
        invariant |buffers| == |old(buffers)| + i
        invariant forall k :: 0 <= k < |old(buffers)| ==> buffers[k] == old(buffers)[k]
        invariant forall k :: 0 <= k < i ==> buffers[|old(buffers)| + k].Value() == other.buffers[k].Value()
      {
        var copy := new Buffer.CopyOf(other.buffers[i]);
        buffers := buffers + [copy];
      }
      assert Slices() == old(Slices()) + other.Slices();
      assert Texts(Slices()) == old(Texts(Slices())) + Texts(other.Slices());
      FlatAppend(old(Texts(Slices())), Texts(other.Slices()));
    }

    /** Only a list of at most one buffer is contiguous enough to become one. */
    method ToBuffer() returns (ok: bool, buffer: Buffer)
      requires Valid()
      ensures ok <==> |buffers| <= 1
      ensures fresh(buffer) && buffer.Valid() && (ok ==> buffer.Str() == Contents())
    {
      if |buffers| == 1 {
        ok := true;
        buffer := new Buffer.CopyOf(buffers[0]);
        assert Texts(Slices()) == [buffers[0].Str()];
        FlatSnoc([], buffers[0].Str());
        assert [] + [buffers[0].Str()] == [buffers[0].Str()];
      } else {
        ok := |buffers| == 0;
        buffer := new Buffer.Empty();
      }
    }

    method Concatenate() returns (ret: seq<byte>)
      requires Valid()
      ensures ret == Contents()
    {
      ret := [];
      for i := 0 to |buffers|
        invariant ret == Flat(Texts(Slices())[..i])
      {
        FlatSnoc(Texts(Slices())[..i], buffers[i].Str());
        assert Texts(Slices())[..i + 1] == Texts(Slices())[..i] + [buffers[i].Str()];
        ret := ret + buffers[i].Str();
      }
      assert Texts(Slices())[..|buffers|] == Texts(Slices());
    }

    method Size() returns (ret: nat)
      requires Valid()
      ensures ret == |Contents()|
    {
      ret := 0;
      for i := 0 to |buffers|
        invariant ret == |Flat(Texts(Slices())[..i])|
      {
        FlatSnoc(Texts(Slices())[..i], buffers[i].Str());
        assert Texts(Slices())[..i + 1] == Texts(Slices())[..i] + [buffers[i].Str()];
        ret := ret + |buffers[i].Str()|;
      }
      assert Texts(Slices())[..|buffers|] == Texts(Slices());
    }

    /** Cuts the front buffer in place; the other buffers do not notice. */
    method CutFront(n: nat)
      requires Valid() && buffers != [] && n < |buffers[0].Str()|
      modifies buffers[0]
      ensures Valid()
      ensures Slices() == [old(Slices())[0].Drop(n)] + old(Slices())[1..]
    {
      hide Slice.Str;
      var front := buffers[0];
      var _ := front.RemovePrefix(n);
      assert forall k :: 0 < k < |buffers| ==> buffers[k] != front && buffers[k].Value() == old(buffers[k].Value());
    }

    method PopFront()
      requires Valid() && buffers != []
      modifies this
      ensures Valid() && buffers == old(buffers)[1..] && Owned() <= old(Owned())
      ensures Slices() == old(Slices())[1..]
    {
      buffers := buffers[1..];
    }

    /** Asked for more than there is, it fails and leaves the list empty. */
    method RemovePrefix(n: nat) returns (ok: bool)
      requires Valid()
      modifies this, buffers
      ensures Valid() && Owned() <= old(Owned())
      ensures ok <==> n <= |old(Contents())|
      ensures Slices() == TrimSlices(old(Slices()), n)
      ensures Contents() == if ok then old(Contents())[n..] else []
    {
      hide Flat, Texts, TrimSlices, Slice.Str;
      var left: nat := n;
      ghost var all := Slices();
      TrimDropsPrefix(all, n);
      while left > 0
        invariant Valid() && Owned() <= old(Owned())
        invariant TrimSlices(Slices(), left) == TrimSlices(all, n)
        invariant left <= |Flat(Texts(Slices()))| <==> n <= |Flat(Texts(all))|
        decreases |buffers|, left
      {
        hide Flat, Texts, TrimSlices, Slice.Str;
        if buffers == [] {
          NothingToTrim(left);
          return false;
        }
        var front := buffers[0];
        assert front in Owned() && front in old(buffers);
        TrimFront(Slices(), left);
        if left < |front.Str()| {
          CutFront(left);
          TrimNothing(Slices());
          left := 0;
        } else {
          left := left - |front.Str()|;
          PopFront();
        }
      }
      TrimNothing(Slices());
      ok := true;
    }
  }

  lemma {:induction false} TrimNothing(ss: seq<Slice>)
    requires AllSlices(ss)
    ensures TrimSlices(ss, 0) == ss
  {
  }

  lemma {:induction false} NothingToTrim(n: nat)
    ensures TrimSlices([], n) == [] && Flat(Texts([])) == []
  {
  }

  // ---------------------------------------------------------------------------------------------
  // BufferViewList
  // ---------------------------------------------------------------------------------------------

  class BufferViewList {
    var views: seq<View>

    ghost predicate Valid()
      reads this
    {
      AllViews(views)
    }

    ghost function Contents(): seq<byte>
      requires Valid()
      reads this
    {
      Flat(ViewTexts(views))
    }

    /** One view of the whole of a string. */
    constructor FromString(str: seq<byte>)
      ensures Valid() && Contents() == str
    {
      var storage := new Storage(str);
      views := [View(storage, 0, |str|)];
      new;
      ViewTextsCons(views[0], []);
      NoViews();
      assert [views[0]] + [] == views;
    }

    constructor CopyOf(other: BufferViewList)
      ensures views == other.views
    {
      views := other.views;
    }

    constructor FromBuffers(list: BufferList)
      requires list.Valid()
      ensures Valid() && views == ViewsOf(list.Slices())
      ensures Contents() == list.Contents()
    {
      views := [];
      new;
      for i := 0 to |list.buffers|
        invariant views == ViewsOf(list.Slices())[..i]
        invariant unchanged(list) && unchanged(list.buffers)
      {
        views := views + [list.buffers[i].Value().AsView()];
      }
      ViewTextsOfViews(list.Slices());
    }

    method RemovePrefix(n: nat) returns (ok: bool)
      requires Valid()
      modifies this
      ensures Valid()
      ensures ok <==> n <= |old(Contents())|
      ensures views == TrimViews(old(views), n)
      ensures ok ==> Contents() == old(Contents())[n..]
      ensures !ok ==> views == []
    {
      hide Flat, ViewTexts;
      var left: nat := n;
      TrimViewsDropsPrefix(views, n);
      while left > 0
        invariant Valid()
        invariant TrimViews(views, left) == TrimViews(old(views), n)
        invariant left <= |Contents()| <==> n <= |old(Contents())|
        decreases |views|, left
      {
        if views == [] {
          NoViews();
          return false;
        }
        TrimViewFront(views, left);
        if left < views[0].length {
          views := [views[0].Drop(left)] + views[1..];
          left := 0;
        } else {
          left := left - views[0].length;
          views := views[1..];
        }
      }
      ok := true;
    }

    method Size() returns (ret: nat)
      requires Valid()
      ensures ret == |Contents()|
    {
      ret := 0;
      for i := 0 to |views|
        invariant ret == |Flat(ViewTexts(views)[..i])|
      {
        FlatSnoc(ViewTexts(views)[..i], views[i].Text());
        assert ViewTexts(views)[..i + 1] == ViewTexts(views)[..i] + [views[i].Text()];
        ret := ret + views[i].length;
      }
      assert ViewTexts(views)[..|views|] == ViewTexts(views);
    }

    /** One iovec per view, in order; together they are the contents. */
    method AsIovecs() returns (ret: seq<Iovec>)
      requires Valid()
      ensures |ret| == |views| && AllIovecs(ret)
      ensures forall i :: 0 <= i < |ret| ==> ret[i] == Iovec(views[i].storage, views[i].start, views[i].length)
      ensures Gathered(ret) == Contents()
    {
      ret := [];
      for i := 0 to |views|
        invariant |ret| == i
        invariant forall j :: 0 <= j < i ==> ret[j] == Iovec(views[j].storage, views[j].start, views[j].length)
      {
        ret := ret + [Iovec(views[i].storage, views[i].start, views[i].length)];
      }
      assert IovecTexts(ret) == ViewTexts(views);
    }
  }
}
