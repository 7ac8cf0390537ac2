/** The ledger as the code holds it: mutable node records linked through their `children`
    arrays (src/types.ts), with `recalc`, `distribute` and `deepClone` of
    src/utils/treeUtils.ts as methods that update `value` in place. Every method is proved
    to do to the abstraction `Abs()` exactly what the functions of module TreeModel do. */
module Nodes {
  import opened Rounding
  import opened TreeModel

  /** A node record. Only `value` is ever assigned; `children` is `None` when the record
      has no `children` key. */
  class TreeNode {
    const id: string
    const labelText: string
    var value: real
    const originalValue: real
    const children: Option<seq<TreeNode>>
    /** The nodes strictly below this one. */
    ghost const Desc: set<TreeNode>

    ghost function Repr(): set<TreeNode>
    {
      {this} + Desc
    }

    /** The children arrays form a tree: a node is below itself nowhere, and sibling
        subtrees share no node. */
    ghost predicate Valid()
      decreases Repr(), 0, 0
    {
      this !in Desc &&
      match children
      case None => Desc == {}
      case Some(cs) => Desc == ReprOf(cs) && ValidSeq(cs)
    }

    /** The node as a value. */
    ghost function Abs(): (t: Tree)
      requires Valid()
      reads Repr()
      decreases Repr(), 0, 0
      ensures t.id == id && t.value == value && (t.Leaf? <==> children.None?)
    {
      match children
      case None => Leaf(id, labelText, value, originalValue)
      case Some(cs) => Internal(id, labelText, value, originalValue, AbsSeq(cs))
    }

    constructor(id: string, labelText: string, value: real, originalValue: real, children: Option<seq<TreeNode>>)
      requires children.Some? ==> ValidSeq(children.value)
      ensures Valid()
      ensures this.id == id && this.labelText == labelText && this.value == value
      ensures this.originalValue == originalValue && this.children == children
      ensures Desc == if children.Some? then ReprOf(children.value) else {}
    {
      if children.Some? {
        ReprOfAllocated(children.value);
      }
      this.id := id;
      this.labelText := labelText;
      this.value := value;
      this.originalValue := originalValue;
      this.children := children;
      this.Desc := if children.Some? then ReprOf(children.value) else {};
    }

    /** `recalc(node)`: recalculate every subtree below, then store and return the sum
        of the children. A node without a children array returns its value unchanged. */
    method Recalc() returns (r: real)
      requires Valid()
      modifies Repr()
      decreases Repr(), 0
      ensures Abs() == TreeModel.Recalc(old(Abs()))
      ensures r == value
      ensures children.None? ==> value == old(value)
    {
      match children
      case None =>
        r := value;
      case Some(cs) =>
        ghost var t0 := Abs();
        RecalcInternal(t0);
        RecalcAll(cs);
        var s := SumOfValues(cs);
        value := s;
        r := s;
    }

    /** `distribute(node, newValue)`: a leaf takes `newValue`; otherwise each child is
        distributed its share of `newValue`, in proportion to the children's values before
        the call (evenly when they total 0), rounded to four decimals. */
    method Distribute(newValue: real)
      requires Valid()
      modifies Repr()
      decreases Repr(), 0
      ensures Abs() == TreeModel.Distribute(old(Abs()), newValue, Round4)
    {
      match children
      case None =>
        value := newValue;
      case Some(cs) =>
        ghost var t0 := Abs();
        ghost var before := AbsSeq(cs);
        var total := SumOfValues(cs);
        DistributeShares(cs, newValue, total);
        SharesOverTotal(before, newValue, total, Round4);
        DistributeInternal(t0, newValue, Round4);
    }
  }

  /** The nodes of the subtrees rooted at `cs`. */
  ghost function ReprOf(cs: seq<TreeNode>): set<TreeNode>
  {
    if cs == [] then {} else cs[0].Repr() + ReprOf(cs[1..])
  }

  lemma {:induction false} ReprOfAllocated(cs: seq<TreeNode>)
    ensures forall o :: o in ReprOf(cs) ==> allocated(o)
  {
    if cs != [] {
      ReprOfAllocated(cs[1..]);
    }
  }

  /** Every subtree is valid and no two share a node. */
  ghost predicate ValidSeq(cs: seq<TreeNode>)
    decreases ReprOf(cs), 1, |cs|
  {
    cs == [] || (cs[0].Valid() && ValidSeq(cs[1..]) && cs[0].Repr() !! ReprOf(cs[1..]))
  }

  /** The children array as values. */
  ghost function AbsSeq(cs: seq<TreeNode>): (ts: seq<Tree>)
    requires ValidSeq(cs)
    reads ReprOf(cs)
    decreases ReprOf(cs), 1, |cs|
    ensures |ts| == |cs|
  {
    if cs == [] then [] else [cs[0].Abs()] + AbsSeq(cs[1..])
  }

  /** A valid array splits at `i` into two valid, disjoint arrays. */
  lemma {:induction false} Split(cs: seq<TreeNode>, i: nat)
    requires ValidSeq(cs) && i <= |cs|
    ensures ValidSeq(cs[..i]) && ValidSeq(cs[i..])
    ensures ReprOf(cs) == ReprOf(cs[..i]) + ReprOf(cs[i..]) && ReprOf(cs[..i]) !! ReprOf(cs[i..])
    decreases i
  {
    if i == 0 {
      assert cs[..0] == [] && cs[0..] == cs;
    } else {
      Split(cs[1..], i - 1);
      assert cs[..i][0] == cs[0] && cs[..i][1..] == cs[1..][..i - 1];
      assert cs[i..] == cs[1..][i - 1..];
    }
  }

  /** The first element of a valid suffix, and the rest of it. */
  lemma {:induction false} Uncons(cs: seq<TreeNode>, i: nat)
    requires i < |cs| && ValidSeq(cs[i..])
    ensures cs[i].Valid() && ValidSeq(cs[i + 1..])
    ensures ReprOf(cs[i..]) == cs[i].Repr() + ReprOf(cs[i + 1..]) && cs[i].Repr() !! ReprOf(cs[i + 1..])
    ensures AbsSeq(cs[i..]) == [cs[i].Abs()] + AbsSeq(cs[i + 1..])
  {
    assert cs[i..][0] == cs[i] && cs[i..][1..] == cs[i + 1..];
  }

  /** Element `i` of a valid array is valid and inside its footprint. */
  lemma {:induction false} ValidAt(cs: seq<TreeNode>, i: nat)
    requires ValidSeq(cs) && i < |cs|
    ensures cs[i].Valid() && cs[i].Repr() <= ReprOf(cs)
    decreases i
  {
    if i > 0 {
      ValidAt(cs[1..], i - 1);
    }
  }

  /** Element `i` of the abstraction is the abstraction of element `i`. */
  lemma {:induction false} AbsSeqAt(cs: seq<TreeNode>, i: nat)
    requires ValidSeq(cs) && i < |cs|
    ensures cs[i].Valid() && cs[i].Repr() <= ReprOf(cs) && AbsSeq(cs)[i] == cs[i].Abs()
    decreases i
  {
    if i > 0 {
      AbsSeqAt(cs[1..], i - 1);
    }
  }

  /** Appending a subtree disjoint from the others keeps the array valid. */
  lemma {:induction false} ValidSeqSnoc(cs: seq<TreeNode>, c: TreeNode)
    requires ValidSeq(cs) && c.Valid() && c.Repr() !! ReprOf(cs)
    ensures ValidSeq(cs + [c]) && ReprOf(cs + [c]) == ReprOf(cs) + c.Repr()
    decreases |cs|
  {
    if cs == [] {
      assert [] + [c] == [c];
      assert [c][1..] == [];
    } else {
      assert (cs + [c])[0] == cs[0];
      assert (cs + [c])[1..] == cs[1..] + [c];
      ValidSeqSnoc(cs[1..], c);
    }
  }

  lemma {:induction false} AbsSeqSnoc(cs: seq<TreeNode>, c: TreeNode)
    requires ValidSeq(cs) && c.Valid() && ValidSeq(cs + [c])
    ensures AbsSeq(cs + [c]) == AbsSeq(cs) + [c.Abs()]
    decreases |cs|
  {
    if cs == [] {
      assert [] + [c] == [c];
      assert [c][1..] == [];
    } else {
      assert (cs + [c])[0] == cs[0];
      assert (cs + [c])[1..] == cs[1..] + [c];
      AbsSeqSnoc(cs[1..], c);
    }
  }

  /** The prefix grows by one element. */
  lemma {:induction false} PrefixSnoc(cs: seq<TreeNode>, i: nat)
    requires ValidSeq(cs) && i < |cs|
    ensures ValidSeq(cs[..i]) && cs[i].Valid() && ValidSeq(cs[..i + 1])
    ensures AbsSeq(cs[..i + 1]) == AbsSeq(cs[..i]) + [cs[i].Abs()]
  {
    PrefixValid(cs, i);
    AbsSeqSnoc(cs[..i], cs[i]);
  }

  lemma {:induction false} PrefixValid(cs: seq<TreeNode>, i: nat)
    requires ValidSeq(cs) && i < |cs|
    ensures ValidSeq(cs[..i]) && cs[i].Valid() && ValidSeq(cs[..i + 1])
    ensures cs[..i + 1] == cs[..i] + [cs[i]]
  {
    TakeValid(cs, i);
    TakeValid(cs, i + 1);
    ValidAt(cs, i);
    assert cs[..i + 1] == cs[..i] + [cs[i]];
  }

  /** A prefix of a valid array is valid. */
  lemma {:induction false} TakeValid(cs: seq<TreeNode>, i: nat)
    requires ValidSeq(cs) && i <= |cs|
    ensures ValidSeq(cs[..i])
  {
    TakeInside(cs, i);
  }

  lemma {:induction false} TakeInside(cs: seq<TreeNode>, i: nat)
    requires ValidSeq(cs) && i <= |cs|
    ensures ValidSeq(cs[..i]) && ReprOf(cs[..i]) <= ReprOf(cs)
    decreases i
  {
    if i > 0 {
      TakeInside(cs[1..], i - 1);
      assert cs[..i][0] == cs[0] && cs[..i][1..] == cs[1..][..i - 1];
    }
  }

  /** `children.reduce((s, c) => s + c.value, 0)`. */
  method SumOfValues(cs: seq<TreeNode>) returns (s: real)
    requires ValidSeq(cs)
    ensures s == SumValues(AbsSeq(cs))
  {
    ghost var ts := AbsSeq(cs);
    ReprOfAllocated(cs);
    s := 0.0;
    for i := 0 to |cs|
      invariant s == SumValues(ts[..i])
    {
      AbsSeqAt(cs, i);
      SumValuesTake(ts, i);
      s := s + cs[i].value;
    }
    assert ts[..|cs|] == ts;
  }

  /** Before step `i` of a loop over `cs`: element `i` is valid, inside the footprint and
      as it was before the loop, and so is the rest. */
  lemma {:induction false} Pick(cs: seq<TreeNode>, i: nat, before: seq<Tree>)
    requires ValidSeq(cs) && i < |cs| && |before| == |cs|
    requires ValidSeq(cs[i..]) && AbsSeq(cs[i..]) == before[i..]
    ensures cs[i].Valid() && cs[i].Repr() <= ReprOf(cs) && ValidSeq(cs[i + 1..])
    ensures cs[i].Abs() == before[i] && AbsSeq(cs[i + 1..]) == before[i + 1..]
  {
    Split(cs, i);
    Uncons(cs, i);
    assert before[i..] == [before[i]] + before[i + 1..];
  }

  /** The elements before and after element `i` lie outside its nodes. */
  lemma {:induction false} Around(cs: seq<TreeNode>, i: nat)
    requires ValidSeq(cs) && i < |cs|
    ensures ValidSeq(cs[..i]) && ValidSeq(cs[i + 1..])
    ensures ReprOf(cs[..i]) <= ReprOf(cs) - cs[i].Repr()
    ensures ReprOf(cs[i + 1..]) <= ReprOf(cs) - cs[i].Repr()
  {
    Split(cs, i);
    Uncons(cs, i);
  }

  /** A step that changed only the nodes of element `i` left the elements before and after
      it as they were. */
  twostate lemma {:induction false} Untouched(cs: seq<TreeNode>, new i: nat)
    requires ValidSeq(cs) && i < |cs|
    requires forall o :: o in ReprOf(cs) ==> old(allocated(o))
    requires unchanged(ReprOf(cs) - cs[i].Repr())
    ensures ValidSeq(cs[..i]) && ValidSeq(cs[i + 1..])
    ensures AbsSeq(cs[..i]) == old(AbsSeq(cs[..i])) && AbsSeq(cs[i + 1..]) == old(AbsSeq(cs[i + 1..]))
  {
    Around(cs, i);
  }

  /** Once element `i` holds its target, the finished prefix grows by one. */
  lemma {:induction false} Advance(cs: seq<TreeNode>, i: nat, before: seq<Tree>, target: seq<Tree>)
    requires ValidSeq(cs) && i < |cs| && |before| == |cs| && |target| == |cs|
    requires ValidSeq(cs[..i]) && ValidSeq(cs[i + 1..])
    requires AbsSeq(cs[..i]) == target[..i] && AbsSeq(cs[i + 1..]) == before[i + 1..]
    requires cs[i].Valid() && cs[i].Abs() == target[i]
    ensures ValidSeq(cs[..i + 1]) && ValidSeq(cs[i + 1..])
    ensures AbsSeq(cs[..i + 1]) == target[..i + 1] && AbsSeq(cs[i + 1..]) == before[i + 1..]
  {
    PrefixSnoc(cs, i);
    assert target[..i + 1] == target[..i] + [target[i]];
  }

  /** `nodes.forEach(recalc)`: recalc every root in order. */
  method RecalcAll(cs: seq<TreeNode>)
    requires ValidSeq(cs)
    modifies ReprOf(cs)
    ensures AbsSeq(cs) == RecalcSeq(old(AbsSeq(cs)))
    decreases ReprOf(cs), 1
  {
    ghost var before := AbsSeq(cs);
    ghost var target := RecalcSeq(before);
    ReprOfAllocated(cs);
    Split(cs, 0);
    for i := 0 to |cs|
      invariant ValidSeq(cs[..i]) && ValidSeq(cs[i..])
      invariant AbsSeq(cs[..i]) == target[..i] && AbsSeq(cs[i..]) == before[i..]
    {
      Pick(cs, i, before);
      label step:
      var sum := cs[i].Recalc();
      Untouched@step(cs, i);
      Advance(cs, i, before, target);
    }
    assert cs[..|cs|] == cs && target[..|cs|] == target;
  }

  /** The `forEach` of `distribute`: each child in turn is distributed
      `Round4(newValue * ratio)`, its ratio computed from its own value, which no earlier
      step has touched, the children's `total` and their number. */
  method DistributeShares(cs: seq<TreeNode>, newValue: real, total: real)
    requires ValidSeq(cs)
    modifies ReprOf(cs)
    decreases ReprOf(cs), 1
    ensures AbsSeq(cs) == DistributeEach(old(AbsSeq(cs)), SharesOver(old(AbsSeq(cs)), newValue, total, Round4), Round4)
  {
    ghost var before := AbsSeq(cs);
    ghost var shares := SharesOver(before, newValue, total, Round4);
    ghost var target := DistributeEach(before, shares, Round4);
    ReprOfAllocated(cs);
    Split(cs, 0);
    for i := 0 to |cs|
      invariant ValidSeq(cs[..i]) && ValidSeq(cs[i..])
      invariant AbsSeq(cs[..i]) == target[..i] && AbsSeq(cs[i..]) == before[i..]
    {
      Pick(cs, i, before);
      var share := Round4(newValue * Ratio(cs[i].value, total, |cs|));
      EachAt(before, newValue, total, Round4, i, cs[i].value);
      label step:
      cs[i].Distribute(share);
      Untouched@step(cs, i);
      Advance(cs, i, before, target);
    }
    assert cs[..|cs|] == cs && target[..|cs|] == target;
  }

  /** `deepClone` of one node: fresh records with the same contents. */
  method DeepClone(n: TreeNode) returns (c: TreeNode)
    requires n.Valid()
    decreases n.Repr(), 0
    ensures c.Valid() && fresh(c.Repr())
    ensures c.Abs() == n.Abs()
  {
    match n.children
    case None =>
      c := new TreeNode(n.id, n.labelText, n.value, n.originalValue, None);
    case Some(cs) =>
      var ds := DeepCloneAll(cs);
      ReprOfAllocated(ds);
      ReprOfAllocated(cs);
      c := new TreeNode(n.id, n.labelText, n.value, n.originalValue, Some(ds));
  }

  /** `deepClone` of an array of nodes. */
  method DeepCloneAll(cs: seq<TreeNode>) returns (ds: seq<TreeNode>)
    requires ValidSeq(cs)
    decreases ReprOf(cs), 1, |cs|
    ensures ValidSeq(ds) && fresh(ReprOf(ds))
    ensures AbsSeq(ds) == AbsSeq(cs)
  {
    if cs == [] {
      ds := [];
    } else {
      ReprOfAllocated(cs);
      var c := DeepClone(cs[0]);
      ReprOfAllocated([c]);
      var rest := DeepCloneAll(cs[1..]);
      ds := [c] + rest;
      assert ds[0] == c && ds[1..] == rest;
    }
  }
}
