// Whole runs over several ropes whose buffers share storage.
module BufferRuns {
  import opened Bytes
  import opened Buffers

  datatype Op =
    | Append(to: nat, from: nat)
    | RemovePrefix(at: nat, n: nat)

  /** The operation names existing lists, and does not append a list to itself. */
  predicate Fits(op: Op, count: nat) {
    match op
    case Append(to, from) => to < count && from < count && to != from
    case RemovePrefix(at, _) => at < count
  }

  /** What an operation does to the flat strings: removing too much empties the one list. */
  function Apply(texts: seq<seq<byte>>, op: Op): seq<seq<byte>>
    requires Fits(op, |texts|)
  {
    match op
    case Append(to, from) => texts[to := texts[to] + texts[from]]
    case RemovePrefix(at, n) => texts[at := if n <= |texts[at]| then texts[at][n..] else []]
  }

  /** Appending always succeeds; removing needs that much to be there. */
  predicate Succeeds(texts: seq<seq<byte>>, op: Op)
    requires Fits(op, |texts|)
  {
    op.RemovePrefix? ==> op.n <= |texts[op.at]|
  }

  function Run(texts: seq<seq<byte>>, script: seq<Op>): (r: seq<seq<byte>>)
    requires forall k :: 0 <= k < |script| ==> Fits(script[k], |texts|)
    ensures |r| == |texts|
    decreases |script|
  {
    if script == [] then texts
    else Apply(Run(texts, script[..|script| - 1]), script[|script| - 1])
  }

  /** The lists are different objects and no buffer belongs to two of them; storage may be shared.
      Everything they consist of is in `frame`. */
  ghost predicate Separate(lists: seq<BufferList>, frame: set<object>)
    reads frame
  {
    && (forall i :: 0 <= i < |lists| ==> lists[i] in frame && Within(lists[i], frame) && lists[i].Valid())
    && (forall i, j :: 0 <= i < j < |lists| ==> lists[i] != lists[j])
    && (forall i, j :: 0 <= i < j < |lists| ==> lists[i].Owned() !! lists[j].Owned())
  }

  ghost predicate Within(list: BufferList, frame: set<object>)
    reads list
  {
    forall k :: 0 <= k < |list.buffers| ==> list.buffers[k] in frame
  }

  ghost function AllContents(lists: seq<BufferList>, frame: set<object>): (texts: seq<seq<byte>>)
    requires Separate(lists, frame)
    reads frame
    ensures |texts| == |lists|
  {
    seq(|lists|, i requires 0 <= i < |lists| && Separate(lists, frame) reads frame => lists[i].Contents())
  }

  /** One operation; the other lists stay valid, separate and unchanged. */
  method Step(lists: seq<BufferList>, op: Op, ghost frame: set<object>)
    returns (ok: bool, ghost frame': set<object>)
    requires Separate(lists, frame) && Fits(op, |lists|)
    modifies frame
    ensures Separate(lists, frame') && fresh(frame' - frame) && frame <= frame'
    ensures AllContents(lists, frame') == Apply(old(AllContents(lists, frame)), op)
    ensures ok <==> Succeeds(old(AllContents(lists, frame)), op)
  {
    match op {
      case Append(to, from) => frame' := StepAppend(lists, to, from, frame); ok := true;
      case RemovePrefix(at, n) => ok := StepRemove(lists, at, n, frame); frame' := frame;
    }
  }

  method StepAppend(lists: seq<BufferList>, to: nat, from: nat, ghost frame: set<object>)
    returns (ghost frame': set<object>)
    requires Separate(lists, frame) && Fits(Append(to, from), |lists|)
    modifies frame
    ensures Separate(lists, frame') && fresh(frame' - frame) && frame <= frame'
    ensures AllContents(lists, frame') == Apply(old(AllContents(lists, frame)), Append(to, from))
  {
    hide Flat, Texts;
    lists[to].Append(lists[from]);
    frame' := frame + lists[to].Owned();
    forall b | b in lists[to].Owned()
      ensures b in frame'
    {
    }
    forall i | 0 <= i < |lists| && i != to
      ensures lists[i].Valid() && Within(lists[i], frame') && lists[i].Owned() !! lists[to].Owned()
      ensures lists[i].Contents() == old(lists[i].Contents())
    {
      assert lists[i].buffers == old(lists[i].buffers);
      assert lists[i].Owned() == old(lists[i].Owned());
      assert old(lists[i].Owned()) !! old(lists[to].Owned());
      assert lists[i].Slices() == old(lists[i].Slices());
    }
  }

  method StepRemove(lists: seq<BufferList>, at: nat, n: nat, ghost frame: set<object>) returns (ok: bool)
    requires Separate(lists, frame) && Fits(RemovePrefix(at, n), |lists|)
    modifies frame
    ensures Separate(lists, frame)
    ensures AllContents(lists, frame) == Apply(old(AllContents(lists, frame)), RemovePrefix(at, n))
    ensures ok <==> n <= |old(lists[at].Contents())|
  {
    hide Flat, Texts;
    ok := lists[at].RemovePrefix(n);
    forall b | b in lists[at].Owned()
      ensures b in frame
    {
      assert b in old(lists[at].Owned());
    }
    forall i | 0 <= i < |lists| && i != at
      ensures lists[i].Valid() && Within(lists[i], frame) && lists[i].Owned() !! lists[at].Owned()
      ensures lists[i].Contents() == old(lists[i].Contents())
    {
      assert lists[i].buffers == old(lists[i].buffers);
      assert old(lists[i].Owned()) !! old(lists[at].Owned());
      forall j | 0 <= j < |lists[i].buffers|
        ensures unchanged(lists[i].buffers[j])
      {
        assert lists[i].buffers[j] in old(lists[i].Owned());
      }
      assert lists[i].Slices() == old(lists[i].Slices());
    }
  }

  /** Every run of appends and removals leaves each list denoting exactly the flat string that the
      operations describe, and the removals that fail are exactly those asking for more than there is. */
  method RunScript(lists: seq<BufferList>, script: seq<Op>, ghost frame: set<object>)
    returns (oks: seq<bool>, ghost frame': set<object>)
    requires Separate(lists, frame)
    requires forall k :: 0 <= k < |script| ==> Fits(script[k], |lists|)
    modifies frame
    ensures Separate(lists, frame') && fresh(frame' - frame) && frame <= frame'
    ensures AllContents(lists, frame') == Run(old(AllContents(lists, frame)), script)
    ensures |oks| == |script|
    ensures forall k :: 0 <= k < |script| ==>
              (oks[k] <==> Succeeds(Run(old(AllContents(lists, frame)), script[..k]), script[k]))
  {
    hide Separate, AllContents, Apply, Succeeds, Fits;
    oks, frame' := [], frame;
    ghost var texts := AllContents(lists, frame);
    for k := 0 to |script|
      invariant Separate(lists, frame') && fresh(frame' - frame) && frame <= frame'
      invariant AllContents(lists, frame') == Run(texts, script[..k])
      invariant |oks| == k
      invariant forall i :: 0 <= i < k ==> (oks[i] <==> Succeeds(Run(texts, script[..i]), script[i]))
    {
      hide Separate, AllContents, Apply, Succeeds, Fits;
      assert script[..k + 1][..k] == script[..k];
      var ok;
      ok, frame' := Step(lists, script[k], frame');
      oks := oks + [ok];
    }
    assert script[..|script|] == script;
  }
}
