/** The allocation ledger as values: the `TreeNode` record of src/types.ts and the
    algorithms of src/utils/treeUtils.ts (`recalc`, `distribute`) and of the lookup in
    src/components/TreeTable.tsx (`findNode`), written as functions. The imperative code
    in module Nodes is proved to compute exactly these functions. */
module TreeModel {
  import opened Rounding

  datatype Option<+T> = None | Some(value: T)

  /** A ledger node. `Leaf` is a record without a `children` key; `Internal` has a
      `children` array, which may be empty: the code tests `!node.children`, so an
      empty array counts as internal (recalc gives it 0, distribute leaves it alone). */
  datatype Tree =
    | Leaf(id: string, labelText: string, value: real, originalValue: real)
    | Internal(id: string, labelText: string, value: real, originalValue: real, children: seq<Tree>)

  /** `ts.reduce((s, c) => s + c.value, 0)`: the values added left to right. */
  function SumValues(ts: seq<Tree>): real
  {
    if ts == [] then 0.0 else SumValues(ts[..|ts| - 1]) + ts[|ts| - 1].value
  }

  /** One more term of the left-to-right sum. */
  lemma {:induction false} SumValuesTake(ts: seq<Tree>, i: nat)
    requires i < |ts|
    ensures SumValues(ts[..i + 1]) == SumValues(ts[..i]) + ts[i].value
  {
    assert ts[..i + 1] == ts[..i] + [ts[i]];
    assert [ts[i]][..0] == [];
    SumValuesAppend(ts[..i], [ts[i]]);
  }

  /** The sum of two arrays laid end to end is the sum of their sums: a children array can
      be summed in consecutive pieces, as `reduce` does one element at a time. */
  lemma {:induction false} SumValuesAppend(a: seq<Tree>, b: seq<Tree>)
    ensures SumValues(a + b) == SumValues(a) + SumValues(b)
    decreases |b|
  {
    if b != [] {
      var b' := b[..|b| - 1];
      assert (a + b)[..|a + b| - 1] == a + b';
      assert (a + b)[|a + b| - 1] == b[|b| - 1];
      SumValuesAppend(a, b');
    } else {
      assert a + b == a;
    }
  }

  /** Every node that has a children array holds the sum of its children's values. */
  predicate Balanced(t: Tree)
  {
    match t
    case Leaf(_, _, _, _) => true
    case Internal(_, _, v, _, cs) => v == SumValues(cs) && forall i :: 0 <= i < |cs| ==> Balanced(cs[i])
  }

  predicate AllBalanced(ts: seq<Tree>)
  {
    forall i :: 0 <= i < |ts| ==> Balanced(ts[i])
  }

  /** `t` and `u` differ at most in their `value` fields: same ids, labels, original
      values, leaf/internal status and number and order of children. */
  predicate SameShape(t: Tree, u: Tree)
  {
    t.id == u.id && t.labelText == u.labelText && t.originalValue == u.originalValue &&
    match t
    case Leaf(_, _, _, _) => u.Leaf?
    case Internal(_, _, _, _, cs) =>
      u.Internal? && |u.children| == |cs| &&
      forall i :: 0 <= i < |cs| ==> SameShape(cs[i], u.children[i])
  }

  predicate SameShapes(ts: seq<Tree>, us: seq<Tree>)
  {
    |ts| == |us| && forall i :: 0 <= i < |ts| ==> SameShape(ts[i], us[i])
  }

  /** `t` and `u` have the same leaf/internal structure and the same leaf values. */
  predicate SameLeaves(t: Tree, u: Tree)
  {
    match t
    case Leaf(_, _, v, _) => u.Leaf? && u.value == v
    case Internal(_, _, _, _, cs) =>
      u.Internal? && |u.children| == |cs| &&
      forall i :: 0 <= i < |cs| ==> SameLeaves(cs[i], u.children[i])
  }

  /** No node of `t` has an empty children array. */
  predicate NoEmptyArrays(t: Tree)
  {
    match t
    case Leaf(_, _, _, _) => true
    case Internal(_, _, _, _, cs) => |cs| > 0 && forall i :: 0 <= i < |cs| ==> NoEmptyArrays(cs[i])
  }

  /** Number of nodes strictly below `t`: one rounding step each in a distribute. */
  function Descendants(t: Tree): nat
  {
    if t.Leaf? then 0 else |Preorder(t.children)|
  }

  // ---------------------------------------------------------------- recalc

  /** `recalc(node)`: post-order, every node with a children array gets the sum of its
      recalculated children; a node without one keeps its value. */
  function Recalc(t: Tree): (r: Tree)
    ensures Balanced(r)
    ensures SameShape(t, r)
    ensures SameLeaves(t, r)
  {
    match t
    case Leaf(_, _, _, _) => t
    case Internal(id, lbl, _, orig, cs) =>
      var rs := seq(|cs|, i requires 0 <= i < |cs| => Recalc(cs[i]));
      Internal(id, lbl, SumValues(rs), orig, rs)
  }

  /** `rows.forEach(recalc)`. */
  function RecalcSeq(ts: seq<Tree>): (rs: seq<Tree>)
    ensures AllBalanced(rs)
    ensures SameShapes(ts, rs)
  {
    seq(|ts|, i requires 0 <= i < |ts| => Recalc(ts[i]))
  }

  /** One level of Recalc on a node with a children array. */
  lemma {:induction false} RecalcInternal(t: Tree)
    requires t.Internal?
    ensures Recalc(t).children == RecalcSeq(t.children)
    ensures Recalc(t).value == SumValues(RecalcSeq(t.children))
  {
    assert Recalc(t).children == RecalcSeq(t.children);
  }

  /** Recalc changes nothing exactly when the sum invariant already holds. */
  lemma {:induction false} RecalcFixpoint(t: Tree)
    ensures Recalc(t) == t <==> Balanced(t)
  {
    match t
    case Leaf(_, _, _, _) =>
    case Internal(_, _, _, _, cs) =>
      var rs := Recalc(t).children;
      if Balanced(t) {
        forall i | 0 <= i < |cs| ensures rs[i] == cs[i] {
          RecalcFixpoint(cs[i]);
        }
        assert rs == cs;
      }
  }

  /** Recalculating twice is recalculating once. */
  lemma {:induction false} RecalcIdempotent(t: Tree)
    ensures Recalc(Recalc(t)) == Recalc(t)
  {
    RecalcFixpoint(Recalc(t));
  }

  /** Recalc of each root leaves the forest unchanged exactly when it is balanced. */
  lemma {:induction false} RecalcSeqFixpoint(ts: seq<Tree>)
    ensures RecalcSeq(ts) == ts <==> AllBalanced(ts)
  {
    if AllBalanced(ts) {
      forall i | 0 <= i < |ts| ensures RecalcSeq(ts)[i] == ts[i] {
        RecalcFixpoint(ts[i]);
      }
    }
  }

  // ---------------------------------------------------------------- distribute

  /** A child's share of its parent: the pre-edit ratio `value / total`, or `1 / n` when
      the children total 0. */
  function Ratio(childValue: real, total: real, n: nat): (r: real)
    requires n > 0
    ensures total != 0.0 ==> r * total == childValue
    ensures total == 0.0 ==> r * n as real == 1.0
  {
    if total == 0.0 then 1.0 / n as real else childValue / total
  }

  /** The share, rounded by `round`, of `v` for a child worth `value` among `n` children
      that total `total`. */
  function ShareOf(v: real, value: real, total: real, n: nat, round: real -> real): real
    requires n > 0
  {
    round(v * Ratio(value, total, n))
  }

  /** What child `i` of `cs` receives when its parent is distributed `v`. */
  function Share(cs: seq<Tree>, i: nat, v: real, round: real -> real): real
    requires i < |cs|
  {
    ShareOf(v, cs[i].value, SumValues(cs), |cs|, round)
  }

  /** Share computed from the child's value, the children's total and their number. */
  lemma {:induction false} ShareFrom(cs: seq<Tree>, i: nat, v: real, round: real -> real, value: real, total: real, n: nat)
    requires i < |cs| && value == cs[i].value && total == SumValues(cs) && n == |cs|
    ensures Share(cs, i, v, round) == ShareOf(v, value, total, n, round)
  {
  }

  /** The share before rounding. */
  function ExactShare(cs: seq<Tree>, i: nat, v: real): real
    requires i < |cs|
  {
    v * Ratio(cs[i].value, SumValues(cs), |cs|)
  }

  /** `distribute(node, v)`, with the per-share rounding `round` as a parameter
      (the code uses Round4). A leaf takes `v`; an internal node keeps its own value and
      hands each child its rounded share, computed from the pre-edit child values. */
  function Distribute(t: Tree, v: real, round: real -> real): (r: Tree)
    ensures SameShape(t, r)
    ensures r.value == if t.Leaf? then v else t.value
  {
    match t
    case Leaf(id, lbl, _, orig) => Leaf(id, lbl, v, orig)
    case Internal(id, lbl, w, orig, cs) =>
      Internal(id, lbl, w, orig, seq(|cs|, i requires 0 <= i < |cs| => Distribute(cs[i], Share(cs, i, v, round), round)))
  }

  /** Each tree of `ts` distributed the matching amount of `shares`. */
  function DistributeEach(ts: seq<Tree>, shares: seq<real>, round: real -> real): (r: seq<Tree>)
    requires |shares| == |ts|
    ensures SameShapes(ts, r)
  {
    seq(|ts|, i requires 0 <= i < |ts| => Distribute(ts[i], shares[i], round))
  }

  /** The shares of `v` among the trees `ts`, by Share. */
  function Shares(ts: seq<Tree>, v: real, round: real -> real): (r: seq<real>)
    ensures |r| == |ts|
  {
    seq(|ts|, i requires 0 <= i < |ts| => Share(ts, i, v, round))
  }

  /** The shares as a loop computes them from an accumulated `total` of the values. */
  function SharesOver(ts: seq<Tree>, v: real, total: real, round: real -> real): (r: seq<real>)
    ensures |r| == |ts|
  {
    seq(|ts|, i requires 0 <= i < |ts| => ShareOf(v, ts[i].value, total, |ts|, round))
  }

  /** Element `i` of DistributeEach over the loop's shares. */
  lemma {:induction false} EachAt(ts: seq<Tree>, v: real, total: real, round: real -> real, i: nat, value: real)
    requires i < |ts| && value == ts[i].value
    ensures DistributeEach(ts, SharesOver(ts, v, total, round), round)[i]
            == Distribute(ts[i], ShareOf(v, value, total, |ts|, round), round)
  {
  }

  /** With the true total, the loop's shares are the shares. */
  lemma {:induction false} SharesOverTotal(ts: seq<Tree>, v: real, total: real, round: real -> real)
    requires total == SumValues(ts)
    ensures SharesOver(ts, v, total, round) == Shares(ts, v, round)
  {
    forall i | 0 <= i < |ts|
      ensures SharesOver(ts, v, total, round)[i] == Shares(ts, v, round)[i]
    {
      ShareFrom(ts, i, v, round, ts[i].value, total, |ts|);
    }
  }

  /** One level of Distribute on a node with a children array. */
  lemma {:induction false} DistributeInternal(t: Tree, v: real, round: real -> real)
    requires t.Internal?
    ensures Distribute(t, v, round).children == DistributeEach(t.children, Shares(t.children, v, round), round)
  {
  }

  /** A node with an empty children array is left as it is. */
  lemma {:induction false} DistributeEmpty(t: Tree, v: real, round: real -> real)
    requires t.Internal? && t.children == []
    ensures Distribute(t, v, round) == t
  {
    assert Distribute(t, v, round).children == [];
  }

  function SumReals(xs: seq<real>): real
  {
    if xs == [] then 0.0 else SumReals(xs[..|xs| - 1]) + xs[|xs| - 1]
  }

  /** The shares children would receive with exact arithmetic. */
  function ExactShares(cs: seq<Tree>, v: real): (w: seq<real>)
  {
    seq(|cs|, i requires 0 <= i < |cs| => ExactShare(cs, i, v))
  }

  /** The exact shares of `v` add up to `v`, by ratio or by even split. */
  lemma {:induction false} SharesSum(cs: seq<Tree>, v: real)
    requires |cs| > 0
    ensures SumReals(ExactShares(cs, v)) == v
  {
    var w := ExactShares(cs, v);
    assert w[..|cs|] == w;
    assert cs[..|cs|] == cs;
    if SumValues(cs) == 0.0 {
      SharesPrefixEven(cs, v, |cs|);
      EvenSplit(cs, v);
    } else {
      SharesPrefixRatio(cs, v, |cs|);
      assert SumValues(cs) / SumValues(cs) == 1.0;
    }
  }

  /** `|cs|` even parts of `v` make `v`. */
  lemma {:induction false} EvenSplit(cs: seq<Tree>, v: real)
    requires |cs| > 0
    ensures Bound(|cs|, v * (1.0 / |cs| as real)) == v
  {
    BoundIsProduct(|cs|, v * (1.0 / |cs| as real));
    assert (|cs| as real) * (1.0 / |cs| as real) == 1.0;
  }

  /** With a zero total the first `k` shares are `k` equal parts `v / n`. */
  lemma {:induction false} SharesPrefixEven(cs: seq<Tree>, v: real, k: nat)
    requires 0 < |cs| && k <= |cs| && SumValues(cs) == 0.0
    ensures SumReals(ExactShares(cs, v)[..k]) == Bound(k, v * (1.0 / |cs| as real))
  {
    var w := ExactShares(cs, v);
    if k == 0 {
      assert w[..0] == [];
    } else {
      SharesPrefixEven(cs, v, k - 1);
      assert w[..k][..k - 1] == w[..k - 1];
      assert w[k - 1] == ExactShare(cs, k - 1, v);
    }
  }

  /** With a non-zero total the first `k` shares are `v` times their part of the total. */
  lemma {:induction false} SharesPrefixRatio(cs: seq<Tree>, v: real, k: nat)
    requires 0 < |cs| && k <= |cs| && SumValues(cs) != 0.0
    ensures SumReals(ExactShares(cs, v)[..k]) == v * (SumValues(cs[..k]) / SumValues(cs))
  {
    var total := SumValues(cs);
    var w := ExactShares(cs, v);
    if k == 0 {
      assert w[..0] == [];
      assert cs[..0] == [];
    } else {
      SharesPrefixRatio(cs, v, k - 1);
      assert w[..k][..k - 1] == w[..k - 1];
      assert cs[..k][..k - 1] == cs[..k - 1];
      assert w[k - 1] == v * (cs[k - 1].value / total);
      ShareStep(v, SumValues(cs[..k - 1]), cs[k - 1].value, total);
    }
  }

  lemma {:induction false} ShareStep(v: real, a: real, c: real, total: real)
    requires total != 0.0
    ensures v * (a / total) + v * (c / total) == v * ((a + c) / total)
  {
    assert a / total + c / total == (a + c) / total;
  }

  /** Sums of termwise-close sequences are close: the bounds add up. */
  lemma {:induction false} SumsClose(rs: seq<Tree>, w: seq<real>, e: seq<real>)
    requires |rs| == |w| == |e|
    requires forall i :: 0 <= i < |rs| ==> -e[i] <= rs[i].value - w[i] <= e[i]
    ensures -SumReals(e) <= SumValues(rs) - SumReals(w) <= SumReals(e)
  {
    if rs != [] {
      var k := |rs| - 1;
      SumsClose(rs[..k], w[..k], e[..k]);
    }
  }

  /** Distribute followed by recalc brings the node's value back to `v`, up to one
      rounding error `eps` per node below it. Needs every children array non-empty:
      an empty array recalculates to 0 whatever was distributed. */
  lemma {:induction false} DistributeRecalcError(t: Tree, v: real, round: real -> real, eps: real)
    requires NoEmptyArrays(t)
    requires eps >= 0.0
    requires forall x :: -eps <= round(x) - x <= eps
    ensures -Bound(Descendants(t), eps) <= Recalc(Distribute(t, v, round)).value - v <= Bound(Descendants(t), eps)
    decreases t, if t.Internal? then |t.children| + 1 else 0
  {
    if t.Internal? {
      var cs := t.children;
      var n := |cs|;
      var targets := seq(n, j requires 0 <= j < n => Share(cs, j, v, round));
      var w := ExactShares(cs, v);
      var rs := Pushed(cs, targets, round);
      forall j | 0 <= j < n
        ensures -eps <= targets[j] - w[j] <= eps
      {
        ShareClose(cs, j, v, round, eps);
      }
      RecalcDistributeUnfold(t, v, round, targets);
      ErrorPrefix(t, targets, w, round, eps, n);
      assert rs[..n] == rs;
      assert w[..n] == w;
      assert cs[..n] == cs;
      SharesSum(cs, v);
    }
  }

  /** `n` rounding errors of at most `eps` each. */
  function Bound(n: nat, eps: real): real
  {
    if n == 0 then 0.0 else Bound(n - 1, eps) + eps
  }

  lemma {:induction false} BoundAdd(a: nat, d: nat, eps: real)
    ensures Bound(a + 1 + d, eps) == Bound(a, eps) + eps + Bound(d, eps)
    decreases d
  {
    if d > 0 {
      BoundAdd(a, d - 1, eps);
    }
  }

  lemma {:induction false} BoundIsProduct(n: nat, eps: real)
    ensures Bound(n, eps) == (n as real) * eps
  {
    if n > 0 {
      BoundIsProduct(n - 1, eps);
    }
  }

  /** The children `cs` after each was distributed its target and recalculated. */
  function Pushed(cs: seq<Tree>, targets: seq<real>, round: real -> real): (rs: seq<Tree>)
    requires |targets| == |cs|
  {
    seq(|cs|, j requires 0 <= j < |cs| => Recalc(Distribute(cs[j], targets[j], round)))
  }

  lemma {:induction false} RecalcDistributeUnfold(t: Tree, v: real, round: real -> real, targets: seq<real>)
    requires t.Internal?
    requires targets == seq(|t.children|, j requires 0 <= j < |t.children| => Share(t.children, j, v, round))
    ensures var r := Recalc(Distribute(t, v, round));
            r.Internal? && r.children == Pushed(t.children, targets, round) &&
            r.value == SumValues(r.children)
  {
  }

  /** Each rounded share is within `eps` of the exact one. */
  lemma {:induction false} ShareClose(cs: seq<Tree>, j: nat, v: real, round: real -> real, eps: real)
    requires 0 <= j < |cs|
    requires forall x :: -eps <= round(x) - x <= eps
    ensures -eps <= Share(cs, j, v, round) - ExactShares(cs, v)[j] <= eps
  {
    var x := ExactShare(cs, j, v);
    assert ExactShares(cs, v)[j] == x;
    assert -eps <= round(x) - x <= eps;
  }

  /** The error bound over the first `k` children of `t`, each distributed a target
      within `eps` of its exact share `w[j]`. */
  lemma {:induction false} ErrorPrefix(t: Tree, targets: seq<real>, w: seq<real>, round: real -> real, eps: real, k: nat)
    requires t.Internal? && NoEmptyArrays(t) && k <= |t.children|
    requires |targets| == |w| == |t.children|
    requires eps >= 0.0
    requires forall x :: -eps <= round(x) - x <= eps
    requires forall j :: 0 <= j < |w| ==> -eps <= targets[j] - w[j] <= eps
    ensures var b := Bound(|Preorder(t.children[..k])|, eps);
            var d := SumValues(Pushed(t.children, targets, round)[..k]) - SumReals(w[..k]);
            -b <= d <= b
    decreases t, k
  {
    var cs := t.children;
    var rs := Pushed(cs, targets, round);
    if k == 0 {
      assert rs[..0] == [] && w[..0] == [] && cs[..0] == [];
    } else {
      ErrorPrefix(t, targets, w, round, eps, k - 1);
      var c := cs[k - 1];
      assert c < t;
      DistributeRecalcError(c, targets[k - 1], round, eps);
      assert rs[k - 1] == Recalc(Distribute(c, targets[k - 1], round));
      PrefixSums(rs, w, k);
      PreorderSnoc(cs, k);
      StepBound(SumValues(rs[..k - 1]), SumReals(w[..k - 1]), rs[k - 1].value, targets[k - 1], w[k - 1],
                |Preorder(cs[..k - 1])|, Descendants(c), |Preorder(cs[..k])|, eps);
    }
  }

  /** The bound for the first `k - 1` children, the bound below child `k` and the
      rounding of child `k`'s own share add up. */
  lemma {:induction false} StepBound(s: real, w: real, x: real, target: real, wk: real, a: nat, d: nat, p: nat, eps: real)
    requires p == a + 1 + d
    requires -Bound(a, eps) <= s - w <= Bound(a, eps)
    requires -Bound(d, eps) <= x - target <= Bound(d, eps)
    requires -eps <= target - wk <= eps
    ensures -Bound(p, eps) <= (s + x) - (w + wk) <= Bound(p, eps)
  {
    BoundAdd(a, d, eps);
  }

  lemma {:induction false} PrefixSums(rs: seq<Tree>, w: seq<real>, k: nat)
    requires 0 < k <= |rs| && k <= |w|
    ensures SumValues(rs[..k]) == SumValues(rs[..k - 1]) + rs[k - 1].value
    ensures SumReals(w[..k]) == SumReals(w[..k - 1]) + w[k - 1]
  {
    assert rs[..k][..k - 1] == rs[..k - 1];
    assert w[..k][..k - 1] == w[..k - 1];
  }

  lemma {:induction false} PreorderSnoc(cs: seq<Tree>, k: nat)
    requires 0 < k <= |cs|
    ensures |Preorder(cs[..k])| == |Preorder(cs[..k - 1])| + 1 + Descendants(cs[k - 1])
  {
    var c := cs[k - 1];
    assert cs[..k] == cs[..k - 1] + [c];
    PreorderAppend(cs[..k - 1], [c]);
    assert [c][1..] == [];
  }

  /** With exact arithmetic (no rounding of shares), distribute then recalc gives the
      node exactly the distributed value. */
  lemma {:induction false} DistributeRecalcExact(t: Tree, v: real)
    requires NoEmptyArrays(t)
    ensures Recalc(Distribute(t, v, x => x)).value == v
  {
    DistributeRecalcError(t, v, x => x, 0.0);
    BoundIsProduct(Descendants(t), 0.0);
  }

  /** With the code's 4-decimal rounding the error is at most 0.00005 per node below. */
  lemma {:induction false} DistributeRecalcRound4(t: Tree, v: real)
    requires NoEmptyArrays(t)
    ensures -((Descendants(t) as real) * 0.00005) <= Recalc(Distribute(t, v, Round4)).value - v
                                                   <= (Descendants(t) as real) * 0.00005
  {
    DistributeRecalcError(t, v, Round4, 0.00005);
    BoundIsProduct(Descendants(t), 0.00005);
  }

  // ---------------------------------------------------------------- lookup

  /** `findNode(nodes, id)`: roots left to right, each node before its children, first
      match wins. */
  function Find(ts: seq<Tree>, id: string): (r: Option<Tree>)
    ensures r.Some? ==> r.value.id == id
  {
    if ts == [] then None
    else if ts[0].id == id then Some(ts[0])
    else
      var inChildren := if ts[0].Internal? then Find(ts[0].children, id) else None;
      if inChildren.Some? then inChildren else Find(ts[1..], id)
  }

  /** The nodes of a forest in depth-first order. */
  function Preorder(ts: seq<Tree>): seq<Tree>
  {
    if ts == [] then []
    else [ts[0]] + (if ts[0].Internal? then Preorder(ts[0].children) else []) + Preorder(ts[1..])
  }

  lemma {:induction false} PreorderAppend(a: seq<Tree>, b: seq<Tree>)
    ensures Preorder(a + b) == Preorder(a) + Preorder(b)
  {
    if a == [] {
      assert a + b == b;
    } else {
      assert (a + b)[0] == a[0];
      assert (a + b)[1..] == a[1..] + b;
      PreorderAppend(a[1..], b);
    }
  }

  /** The first root, then the nodes below it, then the other roots. */
  lemma {:induction false} PreorderCons(ts: seq<Tree>)
    requires ts != []
    ensures Preorder(ts)[0] == ts[0]
    ensures Preorder(ts)[1..] == (if ts[0].Internal? then Preorder(ts[0].children) else []) + Preorder(ts[1..])
  {
    var kids := if ts[0].Internal? then Preorder(ts[0].children) else [];
    var rest := Preorder(ts[1..]);
    var ps := Preorder(ts);
    assert ps[0] == ts[0] by {
      assert ps == [ts[0]] + (kids + rest);
    }
    assert ps[1..] == kids + rest by {
      assert ps == [ts[0]] + (kids + rest);
    }
  }

  /** Reference definition of a first-match search over a flat list. */
  function FirstWithId(ps: seq<Tree>, id: string): (r: Option<Tree>)
    ensures r.None? <==> forall k :: 0 <= k < |ps| ==> ps[k].id != id
    ensures r.Some? ==> exists k :: 0 <= k < |ps| && ps[k] == r.value && r.value.id == id &&
                                    forall j :: 0 <= j < k ==> ps[j].id != id
  {
    if ps == [] then None
    else if ps[0].id == id then Some(ps[0])
    else
      FirstWithId(ps[1..], id)
  }

  lemma {:induction false} FirstWithIdAppend(a: seq<Tree>, b: seq<Tree>, id: string)
    ensures FirstWithId(a + b, id) == if FirstWithId(a, id).Some? then FirstWithId(a, id) else FirstWithId(b, id)
  {
    if a != [] {
      assert (a + b)[1..] == a[1..] + b;
      FirstWithIdAppend(a[1..], b, id);
    } else {
      assert a + b == b;
    }
  }

  /** findNode returns the first node of the depth-first order with that id, and nothing
      exactly when no node has it. */
  lemma {:induction false} FindIsFirstInPreorder(ts: seq<Tree>, id: string)
    ensures Find(ts, id) == FirstWithId(Preorder(ts), id)
  {
    if ts != [] {
      var kids := if ts[0].Internal? then Preorder(ts[0].children) else [];
      PreorderCons(ts);
      if ts[0].id != id {
        FirstWithIdAppend(kids, Preorder(ts[1..]), id);
        if ts[0].Internal? {
          FindIsFirstInPreorder(ts[0].children, id);
        }
        FindIsFirstInPreorder(ts[1..], id);
      }
    }
  }

  /** Lookup in the recalculated forest finds the recalculated node. */
  lemma {:induction false} FindRecalc(ts: seq<Tree>, id: string)
    ensures Find(RecalcSeq(ts), id) == match Find(ts, id) case None => None case Some(n) => Some(Recalc(n))
  {
    if ts != [] {
      var rs := RecalcSeq(ts);
      assert rs[0] == Recalc(ts[0]);
      assert rs[1..] == RecalcSeq(ts[1..]);
      if ts[0].id != id {
        if ts[0].Internal? {
          assert rs[0].children == RecalcSeq(ts[0].children);
          FindRecalc(ts[0].children, id);
        }
        FindRecalc(ts[1..], id);
      }
    }
  }

  // ---------------------------------------------------------------- one edit

  /** The forest after the first node with `id` (in findNode's order) has been
      distributed `v`; the forest itself when there is no such node. */
  function DistributeAt(ts: seq<Tree>, id: string, v: real, round: real -> real): (r: seq<Tree>)
    ensures |r| == |ts|
  {
    if ts == [] then []
    else if ts[0].id == id then [Distribute(ts[0], v, round)] + ts[1..]
    else if ts[0].Internal? && Find(ts[0].children, id).Some? then
      var t := ts[0];
      [Internal(t.id, t.labelText, t.value, t.originalValue, DistributeAt(t.children, id, v, round))] + ts[1..]
    else [ts[0]] + DistributeAt(ts[1..], id, v, round)
  }

  lemma {:induction false} DistributeAtMissing(ts: seq<Tree>, id: string, v: real, round: real -> real)
    requires Find(ts, id).None?
    ensures DistributeAt(ts, id, v, round) == ts
  {
    if ts != [] {
      DistributeAtMissing(ts[1..], id, v, round);
    }
  }

  /** Only values change. */
  lemma {:induction false} DistributeAtShape(ts: seq<Tree>, id: string, v: real, round: real -> real)
    ensures SameShapes(ts, DistributeAt(ts, id, v, round))
  {
    if ts != [] {
      var r := DistributeAt(ts, id, v, round);
      if ts[0].id == id {
      } else if ts[0].Internal? && Find(ts[0].children, id).Some? {
        DistributeAtShape(ts[0].children, id, v, round);
      } else {
        DistributeAtShape(ts[1..], id, v, round);
        assert r[1..] == DistributeAt(ts[1..], id, v, round);
        forall i | 1 <= i < |ts| ensures SameShape(ts[i], r[i]) {
          assert ts[i] == ts[1..][i - 1];
        }
        SameShapeRefl(ts[0]);
      }
      forall i | 1 <= i < |ts| && r[i] == ts[i] ensures SameShape(ts[i], r[i]) {
        SameShapeRefl(ts[i]);
      }
    }
  }

  /** The node found for `id` afterwards is the distributed target. */
  lemma {:induction false} DistributeAtTarget(ts: seq<Tree>, id: string, v: real, round: real -> real)
    requires Find(ts, id).Some?
    ensures Find(DistributeAt(ts, id, v, round), id) == Some(Distribute(Find(ts, id).value, v, round))
  {
    var r := DistributeAt(ts, id, v, round);
    if ts[0].id == id {
    } else if ts[0].Internal? && Find(ts[0].children, id).Some? {
      DistributeAtTarget(ts[0].children, id, v, round);
    } else {
      assert r[1..] == DistributeAt(ts[1..], id, v, round);
      DistributeAtTarget(ts[1..], id, v, round);
    }
  }

  /** A root whose tree has no node with `id` is untouched. */
  lemma {:induction false} DistributeAtElsewhere(ts: seq<Tree>, id: string, v: real, round: real -> real, k: nat)
    requires k < |ts| && Find([ts[k]], id).None?
    ensures DistributeAt(ts, id, v, round)[k] == ts[k]
  {
    if k > 0 && ts[0].id != id && !(ts[0].Internal? && Find(ts[0].children, id).Some?) {
      assert ts[1..][k - 1] == ts[k];
      DistributeAtElsewhere(ts[1..], id, v, round, k - 1);
    }
  }

  /** The values of a list of nodes, in order. */
  function Values(ps: seq<Tree>): (vs: seq<real>)
    ensures |vs| == |ps| && forall i :: 0 <= i < |ps| ==> vs[i] == ps[i].value
  {
    seq(|ps|, i requires 0 <= i < |ps| => ps[i].value)
  }

  lemma {:induction false} ValuesAppend(a: seq<Tree>, b: seq<Tree>)
    ensures Values(a + b) == Values(a) + Values(b)
  {
    assert |Values(a + b)| == |Values(a) + Values(b)|;
    forall i | 0 <= i < |a + b| ensures Values(a + b)[i] == (Values(a) + Values(b))[i] {
      if i < |a| {
        assert (a + b)[i] == a[i];
      } else {
        assert (a + b)[i] == b[i - |a|];
      }
    }
  }

  /** The nodes that come before the first node with `id` in depth-first order. */
  function Before(ts: seq<Tree>, id: string): seq<Tree>
    requires Find(ts, id).Some?
  {
    if ts[0].id == id then []
    else if ts[0].Internal? && Find(ts[0].children, id).Some? then [ts[0]] + Before(ts[0].children, id)
    else Preorder([ts[0]]) + Before(ts[1..], id)
  }

  /** The nodes that come after the subtree of the first node with `id`. */
  function After(ts: seq<Tree>, id: string): seq<Tree>
    requires Find(ts, id).Some?
  {
    if ts[0].id == id then Preorder(ts[1..])
    else if ts[0].Internal? && Find(ts[0].children, id).Some? then After(ts[0].children, id) + Preorder(ts[1..])
    else After(ts[1..], id)
  }

  /** A single tree in depth-first order: the root, then the nodes below it. */
  lemma {:induction false} PreorderOne(t: Tree)
    ensures Preorder([t]) == [t] + (if t.Internal? then Preorder(t.children) else [])
  {
    assert [t][1..] == [];
  }

  /** A forest in depth-first order: its first tree, then the other trees. */
  lemma {:induction false} PreorderSplit(ts: seq<Tree>)
    requires ts != []
    ensures Preorder(ts) == Preorder([ts[0]]) + Preorder(ts[1..])
  {
    assert ts == [ts[0]] + ts[1..];
    PreorderAppend([ts[0]], ts[1..]);
  }

  /** Values of three lists in a row. */
  lemma {:induction false} ValuesAppend3(a: seq<Tree>, b: seq<Tree>, c: seq<Tree>)
    ensures Values(a + b + c) == Values(a) + Values(b) + Values(c)
  {
    ValuesAppend(a + b, c);
    ValuesAppend(a, b);
  }

  /** In depth-first order a forest is the nodes before the first node with `id`, that
      node's subtree and the nodes after it; no node before it has the id. */
  lemma {:induction false} BeforeAfter(ts: seq<Tree>, id: string)
    requires Find(ts, id).Some?
    ensures Preorder(ts) == Before(ts, id) + Preorder([Find(ts, id).value]) + After(ts, id)
    ensures FirstWithId(Before(ts, id), id).None?
  {
    var t0, rest := ts[0], ts[1..];
    var pt := Preorder([Find(ts, id).value]);
    PreorderSplit(ts);
    if t0.id == id {
      Regroup([], [], pt, [], Preorder(rest));
    } else if t0.Internal? && Find(t0.children, id).Some? {
      var cs := t0.children;
      BeforeAfter(cs, id);
      PreorderOne(t0);
      assert Preorder(ts) == [t0] + (Before(cs, id) + pt + After(cs, id)) + Preorder(rest);
      Regroup([t0], Before(cs, id), pt, After(cs, id), Preorder(rest));
      FirstWithIdAppend([t0], Before(cs, id), id);
    } else {
      BeforeAfter(rest, id);
      assert Preorder(ts) == Preorder([t0]) + (Before(rest, id) + pt + After(rest, id));
      Regroup(Preorder([t0]), Before(rest, id), pt, After(rest, id), []);
      assert Find([t0], id).None? by {
        assert [t0][1..] == [];
      }
      FindIsFirstInPreorder([t0], id);
      FirstWithIdAppend(Preorder([t0]), Before(rest, id), id);
    }
  }

  lemma {:induction false} Regroup<T>(a: seq<T>, b: seq<T>, c: seq<T>, d: seq<T>, e: seq<T>)
    ensures a + (b + c + d) + e == (a + b) + c + (d + e)
    ensures a + (b + c + d) == (a + b) + c + d
  {
  }

  /** The frame of one edit: after the closure, the depth-first values are those of the
      nodes before the target, then those of the distributed subtree, then those of the
      nodes after it (BeforeAfter). So only values inside the target's subtree change; its
      ancestors, which come before it, keep theirs. */
  lemma {:induction false} DistributeAtFrame(ts: seq<Tree>, id: string, v: real, round: real -> real)
    requires Find(ts, id).Some?
    ensures Values(Preorder(DistributeAt(ts, id, v, round))) ==
            Values(Before(ts, id)) + Values(Preorder([Distribute(Find(ts, id).value, v, round)])) + Values(After(ts, id))
  {
    var d := DistributeAt(ts, id, v, round);
    PreorderSplit(d);
    if ts[0].id == id {
      assert d[1..] == ts[1..];
      ValuesAppend(Preorder([d[0]]), Preorder(ts[1..]));
    } else if ts[0].Internal? && Find(ts[0].children, id).Some? {
      DistributeAtFrame(ts[0].children, id, v, round);
      FrameBelow(ts, id, v, round);
    } else {
      DistributeAtFrame(ts[1..], id, v, round);
      FrameLater(ts, id, v, round);
    }
  }

  /** DistributeAtFrame when the target lies below the first root. */
  lemma {:induction false} FrameBelow(ts: seq<Tree>, id: string, v: real, round: real -> real)
    requires ts != [] && ts[0].id != id && ts[0].Internal? && Find(ts[0].children, id).Some?
    requires var cs := ts[0].children;
             Values(Preorder(DistributeAt(cs, id, v, round))) ==
             Values(Before(cs, id)) + Values(Preorder([Distribute(Find(cs, id).value, v, round)])) + Values(After(cs, id))
    ensures Values(Preorder(DistributeAt(ts, id, v, round))) ==
            Values(Before(ts, id)) + Values(Preorder([Distribute(Find(ts, id).value, v, round)])) + Values(After(ts, id))
  {
    var t0, cs, rest := ts[0], ts[0].children, ts[1..];
    var d := DistributeAt(ts, id, v, round);
    var dt := d[0];
    var dcs := Preorder(DistributeAt(cs, id, v, round));
    var pt := Preorder([Distribute(Find(cs, id).value, v, round)]);
    var r := Preorder(rest);
    assert d[1..] == rest;
    PreorderSplit(d);
    PreorderOne(dt);
    assert Preorder(d) == [dt] + dcs + r;
    ValuesAppend3([dt], dcs, r);
    assert Values([dt]) == Values([t0]);
    ValuesAppend([t0], Before(cs, id));
    ValuesAppend(After(cs, id), r);
    calc {
      Values(Preorder(d));
      Values([t0]) + (Values(Before(cs, id)) + Values(pt) + Values(After(cs, id))) + Values(r);
      { Regroup(Values([t0]), Values(Before(cs, id)), Values(pt), Values(After(cs, id)), Values(r)); }
      (Values([t0]) + Values(Before(cs, id))) + Values(pt) + (Values(After(cs, id)) + Values(r));
      Values(Before(ts, id)) + Values(pt) + Values(After(ts, id));
    }
  }

  /** DistributeAtFrame when the target lies in a later root. */
  lemma {:induction false} FrameLater(ts: seq<Tree>, id: string, v: real, round: real -> real)
    requires ts != [] && ts[0].id != id && !(ts[0].Internal? && Find(ts[0].children, id).Some?)
    requires Find(ts[1..], id).Some?
    requires var rest := ts[1..];
             Values(Preorder(DistributeAt(rest, id, v, round))) ==
             Values(Before(rest, id)) + Values(Preorder([Distribute(Find(rest, id).value, v, round)])) + Values(After(rest, id))
    ensures Values(Preorder(DistributeAt(ts, id, v, round))) ==
            Values(Before(ts, id)) + Values(Preorder([Distribute(Find(ts, id).value, v, round)])) + Values(After(ts, id))
  {
    var t0, rest := ts[0], ts[1..];
    var d := DistributeAt(ts, id, v, round);
    var dr := DistributeAt(rest, id, v, round);
    var p0 := Preorder([t0]);
    var pt := Preorder([Distribute(Find(rest, id).value, v, round)]);
    assert d[1..] == dr;
    PreorderSplit(d);
    ValuesAppend(p0, Preorder(dr));
    ValuesAppend(p0, Before(rest, id));
    calc {
      Values(Preorder(d));
      Values(p0) + (Values(Before(rest, id)) + Values(pt) + Values(After(rest, id)));
      { Regroup(Values(p0), Values(Before(rest, id)), Values(pt), Values(After(rest, id)), []); }
      (Values(p0) + Values(Before(rest, id))) + Values(pt) + Values(After(rest, id));
      Values(Before(ts, id)) + Values(pt) + Values(After(ts, id));
    }
  }

  lemma {:induction false} SameShapeRefl(t: Tree)
    ensures SameShape(t, t)
  {
    match t
    case Leaf(_, _, _, _) =>
    case Internal(_, _, _, _, cs) =>
      forall i | 0 <= i < |cs| ensures SameShape(cs[i], cs[i]) {
        SameShapeRefl(cs[i]);
      }
  }

  lemma {:induction false} SameShapeTrans(a: Tree, b: Tree, c: Tree)
    requires SameShape(a, b) && SameShape(b, c)
    ensures SameShape(a, c)
  {
    match a
    case Leaf(_, _, _, _) =>
    case Internal(_, _, _, _, cs) =>
      forall i | 0 <= i < |cs| ensures SameShape(cs[i], c.children[i]) {
        SameShapeTrans(cs[i], b.children[i], c.children[i]);
      }
  }

  /** `x * (1 + pct / 100)`: `x` changed by `pct` percent, before rounding. */
  function Raised(x: real, pct: real): real
  {
    x * (1.0 + pct / 100.0)
  }

  /** `(x * (1 + pct / 100)).toFixed(4)`: the value a percent edit distributes. */
  function PercentTarget(current: real, pct: real): (r: real)
    ensures OnGrid(r, 10000.0)
    ensures -0.00005 <= r - Raised(current, pct) <= 0.00005
    ensures Raised(current, pct) >= 0.0 ==> r - Raised(current, pct) > -0.00005
    ensures Raised(current, pct) <= 0.0 ==> r - Raised(current, pct) < 0.00005
    ensures RoundsTo(Raised(current, pct), 10000.0, r)
    ensures pct == 0.0 && OnGrid(current, 10000.0) ==> r == current
  {
    Round4(Raised(current, pct))
  }

  /** The two edits the table offers, with their parsed input: `applyValue` distributes
      the number itself, `applyPercent` the target's current value changed by `pct` percent. */
  datatype Change = SetValue(v: real) | AddPercent(pct: real)

  /** The value an edit distributes into a target whose current value is `current`. */
  function NewValue(c: Change, current: real): (r: real)
    ensures c.SetValue? ==> r == c.v
    ensures c.AddPercent? ==> OnGrid(r, 10000.0) && -0.00005 <= r - Raised(current, c.pct) <= 0.00005
    ensures c.AddPercent? ==> RoundsTo(Raised(current, c.pct), 10000.0, r)
  {
    match c
    case SetValue(v) => v
    case AddPercent(pct) => PercentTarget(current, pct)
  }

  /** One edit as updateTree runs it: find the target, distribute the new value computed
      from its pre-edit value, then recalc every root. With no target only the recalc
      happens. */
  function Edit(ts: seq<Tree>, id: string, c: Change): (r: seq<Tree>)
    ensures AllBalanced(r)
  {
    RecalcSeq(DistributeEdit(ts, id, c))
  }

  /** The closure an edit hands to updateTree: distribute into the first node with `id`,
      if there is one. */
  function DistributeEdit(ts: seq<Tree>, id: string, c: Change): (r: seq<Tree>)
    ensures |r| == |ts|
  {
    match Find(ts, id)
    case None => ts
    case Some(n) => DistributeAt(ts, id, NewValue(c, n.value), Round4)
  }

  /** Edits never change ids, labels, original values or the tree shape. */
  lemma {:induction false} EditShape(ts: seq<Tree>, id: string, c: Change)
    ensures SameShapes(ts, Edit(ts, id, c))
  {
    var mid := DistributeEdit(ts, id, c);
    if Find(ts, id).Some? {
      DistributeAtShape(ts, id, NewValue(c, Find(ts, id).value.value), Round4);
    } else {
      forall i | 0 <= i < |ts| ensures SameShape(ts[i], mid[i]) {
        SameShapeRefl(ts[i]);
      }
    }
    var r := Edit(ts, id, c);
    forall i | 0 <= i < |ts| ensures SameShape(ts[i], r[i]) {
      SameShapeTrans(ts[i], mid[i], r[i]);
    }
  }

  /** With an unknown id the edit publishes the recalculated forest, which is the old
      forest only if that already satisfied the sum invariant. */
  lemma {:induction false} EditMissing(ts: seq<Tree>, id: string, c: Change)
    requires Find(ts, id).None?
    ensures Edit(ts, id, c) == RecalcSeq(ts)
    ensures Edit(ts, id, c) == ts <==> AllBalanced(ts)
  {
    RecalcSeqFixpoint(ts);
  }

  /** The edited node ends up holding the distributed value, up to 0.00005 per node
      below it; a leaf target holds it exactly. */
  lemma {:induction false} EditTarget(ts: seq<Tree>, id: string, c: Change)
    requires Find(ts, id).Some? && NoEmptyArrays(Find(ts, id).value)
    ensures var n := Find(ts, id).value;
            var m := Find(Edit(ts, id, c), id);
            m.Some? &&
            -((Descendants(n) as real) * 0.00005) <= m.value.value - NewValue(c, n.value) <= (Descendants(n) as real) * 0.00005
  {
    var n := Find(ts, id).value;
    var v := NewValue(c, n.value);
    var mid := DistributeAt(ts, id, v, Round4);
    DistributeAtTarget(ts, id, v, Round4);
    FindRecalc(mid, id);
    DistributeRecalcRound4(n, v);
  }
}
