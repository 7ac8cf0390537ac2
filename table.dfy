/** The editing session of src/components/TreeTable.tsx: the component state (`rows`, a
    private deep copy of the input forest, and `inputs`, what the user typed per node),
    `findNode`, and the edit path `applyValue` / `applyPercent` -> `updateTree`, which
    clones the rows, distributes into the first node with the id, recalculates every
    root and publishes the copy. */
module Table {
  import opened Rounding
  import opened TreeModel
  import opened Nodes

  /** The node `findNode` returns, by reference: roots left to right, each node before the
      nodes below it. */
  ghost function FindRef(ns: seq<TreeNode>, id: string): (r: TreeNode?)
    requires ValidSeq(ns)
    decreases ReprOf(ns), |ns|
    ensures r != null ==> r.id == id && r.Valid() && r.Repr() <= ReprOf(ns)
  {
    if ns == [] then null
    else if ns[0].id == id then ns[0]
    else
      assert ns[0].Valid() && ValidSeq(ns[1..]);
      var inChildren := if ns[0].children.Some? then FindRef(ns[0].children.value, id) else null;
      if inChildren != null then inChildren else FindRef(ns[1..], id)
  }

  /** The node found by reference is the node found in the forest of values. */
  lemma {:induction false} FindRefAbs(ns: seq<TreeNode>, id: string)
    requires ValidSeq(ns)
    decreases ReprOf(ns), |ns|
    ensures FindRef(ns, id) == null <==> Find(AbsSeq(ns), id).None?
    ensures FindRef(ns, id) != null ==> Find(AbsSeq(ns), id) == Some(FindRef(ns, id).Abs())
  {
    if ns != [] {
      var ts := AbsSeq(ns);
      assert ts[0] == ns[0].Abs() && ts[1..] == AbsSeq(ns[1..]);
      if ns[0].id != id {
        if ns[0].children.Some? {
          FindRefAbs(ns[0].children.value, id);
        }
        FindRefAbs(ns[1..], id);
      }
    }
  }

  /** FindRefAbs for the values the nodes held in the earlier state. */
  twostate lemma {:induction false} FindRefAbsBefore(ns: seq<TreeNode>, new id: string)
    requires ValidSeq(ns)
    requires forall o :: o in ReprOf(ns) ==> old(allocated(o))
    decreases ReprOf(ns), |ns|
    ensures FindRef(ns, id) == null <==> old(Find(AbsSeq(ns), id)).None?
    ensures FindRef(ns, id) != null ==> old(Find(AbsSeq(ns), id)) == Some(old(FindRef(ns, id).Abs()))
  {
    if ns != [] {
      assert old(AbsSeq(ns))[0] == old(ns[0].Abs()) && old(AbsSeq(ns))[1..] == old(AbsSeq(ns[1..]));
      if ns[0].id != id {
        if ns[0].children.Some? {
          FindRefAbsBefore(ns[0].children.value, id);
        }
        FindRefAbsBefore(ns[1..], id);
      }
    }
  }

  /** `distribute(target, v)` on the node findNode returned changes the forest exactly as
      DistributeAt describes, when nothing outside that node's subtree changed. */
  twostate lemma {:induction false} DistributeAtHeap(ns: seq<TreeNode>, new id: string, new v: real)
    requires ValidSeq(ns) && FindRef(ns, id) != null
    requires forall o :: o in ReprOf(ns) ==> old(allocated(o))
    requires unchanged(ReprOf(ns) - FindRef(ns, id).Repr())
    requires FindRef(ns, id).Abs() == Distribute(old(FindRef(ns, id).Abs()), v, Round4)
    decreases ReprOf(ns), |ns|
    ensures AbsSeq(ns) == DistributeAt(old(AbsSeq(ns)), id, v, Round4)
  {
    var n := ns[0];
    Uncons(ns, 0);
    assert ns[0..] == ns;
    var target := FindRef(ns, id);
    if n.id == id {
      RestUnchanged(ns, target);
    } else if n.children.Some? && FindRef(n.children.value, id) != null {
      var cs := n.children.value;
      DistributeAtHeap(cs, id, v);
      FindRefAbsBefore(cs, id);
      RestUnchanged(ns, target);
      assert n.value == old(n.value);
    } else {
      if n.children.Some? {
        FindRefAbsBefore(n.children.value, id);
      }
      DistributeAtHeap(ns[1..], id, v);
      assert n.Repr() <= ReprOf(ns) - target.Repr();
      assert n.Abs() == old(n.Abs());
    }
  }

  /** The roots after the first are outside the first root's subtree. */
  twostate lemma {:induction false} RestUnchanged(ns: seq<TreeNode>, new target: TreeNode)
    requires ValidSeq(ns) && ns != [] && target.Repr() <= ns[0].Repr()
    requires forall o :: o in ReprOf(ns) ==> old(allocated(o))
    requires unchanged(ReprOf(ns) - target.Repr())
    ensures ValidSeq(ns[1..]) && AbsSeq(ns[1..]) == old(AbsSeq(ns[1..]))
  {
    Uncons(ns, 0);
    assert ns[0..] == ns;
    assert ReprOf(ns[1..]) <= ReprOf(ns) - target.Repr();
  }

  /** The component. `rows` is its own copy of the forest; `inputs` holds, per node id, the
      number the user typed (`None` where `Number(...)` gives NaN). */
  class TreeTable {
    var rows: seq<TreeNode>
    var inputs: map<string, Option<real>>

    ghost predicate Valid()
      reads this
    {
      ValidSeq(rows)
    }

    /** The rows as values. */
    ghost function Rows(): seq<Tree>
      requires Valid()
      reads this, ReprOf(rows)
    {
      AbsSeq(rows)
    }

    /** `rows: deepClone(props.data), inputs: {}`: the component never shares a node with
        the forest it was given. */
    constructor(data: seq<TreeNode>)
      requires ValidSeq(data)
      ensures Valid() && fresh(ReprOf(rows))
      ensures Rows() == AbsSeq(data) && inputs == map[]
    {
      var copy := DeepCloneAll(data);
      rows := copy;
      inputs := map[];
    }

    /** `findNode(nodes, id)`: the loop over the roots, searching each root's children
        before moving on. */
    method FindNode(nodes: seq<TreeNode>, id: string) returns (r: TreeNode?)
      requires ValidSeq(nodes)
      decreases ReprOf(nodes)
      ensures r == FindRef(nodes, id)
    {
      Split(nodes, 0);
      assert nodes[0..] == nodes;
      for i := 0 to |nodes|
        invariant ValidSeq(nodes[i..]) && ReprOf(nodes[i..]) <= ReprOf(nodes)
        invariant FindRef(nodes[i..], id) == FindRef(nodes, id)
      {
        Uncons(nodes, i);
        var n := nodes[i];
        if n.id == id {
          return n;
        }
        if n.children.Some? {
          var found := FindNode(n.children.value, id);
          if found != null {
            return found;
          }
        }
      }
      assert |nodes[|nodes|..]| == 0;
      return null;
    }

    /** `handleInput(id, value)`: record the parsed input for `id`. */
    method HandleInput(id: string, parsed: Option<real>)
      modifies this
      ensures inputs == old(inputs)[id := parsed] && rows == old(rows)
    {
      inputs := inputs[id := parsed];
    }

    /** `Number(this.state.inputs[id])`: a missing entry is NaN. */
    function Input(id: string): (r: Option<real>)
      reads this
      ensures id in inputs ==> r == inputs[id]
      ensures id !in inputs ==> r.None?
    {
      if id in inputs then inputs[id] else None
    }

    /** `updateTree` with the closure of applyValue or applyPercent: clone the rows,
        distribute into the node findNode returns (the value computed from its current
        value), recalc every root of the copy and make it the new rows. The old rows are
        never touched. */
    method UpdateTree(id: string, c: Change)
      requires Valid()
      modifies this
      ensures Valid() && fresh(ReprOf(rows)) && inputs == old(inputs)
      ensures Rows() == Edit(old(Rows()), id, c)
    {
      ReprOfAllocated(rows);
      var copy := DeepCloneAll(rows);
      ghost var cloned := AbsSeq(copy);
      assert cloned == old(Rows());
      EditRows(copy, id, c);
      ghost var edited := AbsSeq(copy);
      RecalcAll(copy);
      assert AbsSeq(copy) == RecalcSeq(edited) && edited == DistributeEdit(cloned, id, c);
      rows := copy;
    }

    /** The closure applyValue and applyPercent pass to updateTree: find the node in the
        copy and distribute the new value into it; without such a node, do nothing. */
    method EditRows(copy: seq<TreeNode>, id: string, c: Change)
      requires ValidSeq(copy)
      modifies ReprOf(copy)
      ensures AbsSeq(copy) == DistributeEdit(old(AbsSeq(copy)), id, c)
    {
      ReprOfAllocated(copy);
      FindRefAbs(copy, id);
      var target := FindNode(copy, id);
      if target != null {
        var v := NewValue(c, target.value);
        label edit:
        target.Distribute(v);
        DistributeAtHeap@edit(copy, id, v);
      }
    }

    /** `applyValue(node)`: with a number typed for the node, distribute it there. */
    method ApplyValue(id: string)
      requires Valid()
      modifies this
      ensures Valid() && inputs == old(inputs)
      ensures old(Input(id)).None? ==> rows == old(rows)
      ensures old(Input(id)).Some? ==> fresh(ReprOf(rows)) && Rows() == Edit(old(Rows()), id, SetValue(old(Input(id)).value))
    {
      var val := Input(id);
      if val.None? {
        return;
      }
      UpdateTree(id, SetValue(val.value));
    }

    /** `applyPercent(node)`: with a number typed for the node, change its value by that
        many percent (rounded to four decimals) and distribute the result there. */
    method ApplyPercent(id: string)
      requires Valid()
      modifies this
      ensures Valid() && inputs == old(inputs)
      ensures old(Input(id)).None? ==> rows == old(rows)
      ensures old(Input(id)).Some? ==> fresh(ReprOf(rows)) && Rows() == Edit(old(Rows()), id, AddPercent(old(Input(id)).value))
    {
      var pct := Input(id);
      if pct.None? {
        return;
      }
      UpdateTree(id, AddPercent(pct.value));
    }
  }
}
