# Hierarchical allocation ledger

A model of the ledger behind the goods-management dashboard. The data is a forest of
`TreeNode` records. Each record has an `id`, a `label`, a `value`, an `originalValue` and,
when it is not a leaf, a `children` array. Editing a node goes through five steps:

1. The `TreeTable` component makes a deep copy of its rows.
2. `findNode`, a depth-first, first-match lookup, picks the node to edit in the copy.
3. `distribute` pushes the new value down the node's subtree. Each child gets a share in
   proportion to its value before the edit, or an even share when the children total 0.
   Every share is rounded to four decimals.
4. `recalc`, run on every root, makes every parent the sum of its children again.
5. The component replaces its state with the edited copy.

The project has two layers.

- **The specification: values.** Module `TreeModel` (tree_model.dfy) defines the
  algorithms as functions over the datatype `Tree`:
  - `Recalc` and `Distribute`, the latter parameterised by its rounding function;
  - `Find`, with `Preorder` and `FirstWithId` as an independent reference;
  - `DistributeAt` and `Edit`.

  It proves the properties the code relies on as lemmas. Module `Rounding` holds
  `toFixed` read back as a number (`Round4`, `Round2`). Module `Percentages` holds
  `variance`. Module `Seed` holds the sample forest and what edits do to it.
- **The program: mutable records.** Module `Nodes` (nodes.dfy) holds `class TreeNode`,
  whose `value` is the only mutable field. Its `Recalc`, `Distribute` and `DeepClone`
  update or copy records in place, and the sibling loops are written as `for` loops.
  Module `Table` (table.dfy) holds `class TreeTable`, with the fields `rows` and `inputs`
  and the methods `FindNode`, `UpdateTree`, `ApplyValue` and `ApplyPercent`.

  Every method is proved to change its records exactly as the matching function changes
  their abstraction `Abs()` / `AbsSeq()`. So every lemma of the value layer holds for the
  component's methods too.

Numbers are exact reals. `+(x).toFixed(d)` is modelled as rounding to `d` decimals with
halves going away from zero.

The code tests `!node.children`. So a record without the key is a `Leaf`, and a record
with an empty array is an `Internal` node with no children: `recalc` sets its value to 0
and `distribute` leaves it alone.

The record field `label` is called `labelText` in the model.

## Model

| member | source | states |
|---|---|---|
| Rounding.RoundHalfAway | src/utils/treeUtils.ts:24 | the integer within half of `a`, a tie going to the side away from 0; a whole `a` is kept |
| Rounding.RoundHalfAwayUnique | src/utils/treeUtils.ts:24 | no other integer meets those bounds |
| Rounding.RoundTo | src/utils/treeUtils.ts:24 | the result has no digits beyond the last kept decimal, is within half a unit of that decimal from `x`, and a tie goes away from 0; a value with no further decimals is kept; 0 stays 0; the sign is never flipped |
| Rounding.RoundToUnique | src/utils/treeUtils.ts:24 | any number meeting those clauses is RoundTo's result, so they fix what toFixed returns |
| Rounding.Round4 | src/utils/treeUtils.ts:24 | `+(x).toFixed(4)` has at most four decimals, is within 0.00005 of `x` with ties away from 0, and leaves a four-decimal `x` as it is |
| Rounding.Round2 | src/utils/treeUtils.ts:30 | `(x).toFixed(2)` has at most two decimals, is within 0.005 of `x` with ties away from 0, and leaves a two-decimal `x` as it is |
| TreeModel.Recalc | src/utils/treeUtils.ts:6-11 | afterwards every node with a children array holds the sum of its children; ids, labels, original values and the shape are unchanged; leaf values are unchanged |
| TreeModel.RecalcSeq | src/components/TreeTable.tsx:37 | after `rows.forEach(recalc)` every root satisfies the sum invariant and keeps its shape |
| TreeModel.RecalcFixpoint | src/utils/treeUtils.ts:6-11 | recalc changes a tree exactly when the tree breaks the sum invariant |
| TreeModel.RecalcIdempotent | src/utils/treeUtils.ts:6-11 | recalculating twice gives the same result as once |
| TreeModel.RecalcSeqFixpoint | src/components/TreeTable.tsx:37 | recalculating every root leaves the forest unchanged exactly when it is balanced |
| TreeModel.Distribute | src/utils/treeUtils.ts:13-26 | only values change; a leaf gets exactly the new value; an internal node keeps its own value |
| TreeModel.SumValuesAppend | src/utils/treeUtils.ts:9 | the left-to-right sum of `reduce` over two arrays laid end to end is the sum of their two sums |
| TreeModel.Ratio | src/utils/treeUtils.ts:22-23 | the ratio times the total gives the child's value; with a zero total, `n` ratios make 1 |
| TreeModel.DistributeEmpty | src/utils/treeUtils.ts:19-25 | a node with an empty children array is left exactly as it was |
| TreeModel.SharesSum | src/utils/treeUtils.ts:19-23 | before rounding, the shares of all children add up to the distributed value, for both the proportional and the even split |
| TreeModel.DistributeRecalcError | src/utils/treeUtils.ts:13-26 | for any rounding within `eps`, recalc after distribute gives the node `v` up to `eps` per node below it (given no empty children arrays) |
| TreeModel.DistributeRecalcExact | src/utils/treeUtils.ts:13-26 | with exact arithmetic, recalc after distribute gives the node exactly `v` |
| TreeModel.DistributeRecalcRound4 | src/utils/treeUtils.ts:13-26 | with four-decimal rounding, the node ends within 0.00005 times its number of descendants of `v` |
| TreeModel.Find | src/components/TreeTable.tsx:23-32 | a node that is found has the requested id |
| TreeModel.FirstWithId | src/components/TreeTable.tsx:23-32 | reference search: nothing exactly when no node has the id, otherwise the first node that has it |
| TreeModel.FindIsFirstInPreorder | src/components/TreeTable.tsx:23-32 | findNode returns the first node with the id in depth-first order (roots left to right, a node before its children), and null exactly when there is none |
| TreeModel.PreorderAppend | src/components/TreeTable.tsx:24 | the depth-first order of two forests is one order after the other |
| TreeModel.FindRecalc | src/components/TreeTable.tsx:23-32 | looking up an id in the recalculated forest finds the recalculated node |
| TreeModel.DistributeAt | src/components/TreeTable.tsx:66-69 | distributing into the first node with the id keeps the number of roots |
| TreeModel.DistributeAtMissing | src/components/TreeTable.tsx:67-68 | when no node has the id, the closure changes nothing |
| TreeModel.DistributeAtShape | src/components/TreeTable.tsx:66-69 | the closure changes values only |
| TreeModel.DistributeAtTarget | src/components/TreeTable.tsx:66-69 | afterwards the node found for the id is the distributed target |
| TreeModel.BeforeAfter | src/components/TreeTable.tsx:23-32 | the depth-first order splits into the nodes before the first node with the id, that node's subtree and the nodes after it; none before it has the id |
| TreeModel.DistributeAtFrame | src/components/TreeTable.tsx:66-69 | after the closure the depth-first values are those before the target, then the distributed subtree's, then those after it: nothing outside the target's subtree changes, ancestors included |
| TreeModel.DistributeAtElsewhere | src/components/TreeTable.tsx:66-69 | roots whose trees do not contain the id are untouched |
| TreeModel.PercentTarget | src/components/TreeTable.tsx:56 | the percent edit's value has four decimals, is within 0.00005 of `current * (1 + pct / 100)` with a tie going away from 0, so it is exactly `toFixed(4)`'s number; a 0% edit keeps a four-decimal value |
| TreeModel.NewValue | src/components/TreeTable.tsx:52-68 | applyValue distributes the typed number itself; applyPercent the four-decimal rounding of `current * (1 + pct / 100)`, within 0.00005 and with ties away from 0 (`RoundsTo`, which RoundToUnique shows fixes the number) |
| TreeModel.DistributeEdit | src/components/TreeTable.tsx:51-69 | the closure handed to updateTree keeps the number of roots |
| TreeModel.Edit | src/components/TreeTable.tsx:34-39 | after any edit every published root satisfies the sum invariant |
| TreeModel.EditShape | src/components/TreeTable.tsx:34-39 | edits never change ids, labels, original values or the shape |
| TreeModel.EditMissing | src/components/TreeTable.tsx:37 | with an unknown id the edit publishes the recalculated rows, which equal the old rows exactly when those were already balanced |
| TreeModel.EditTarget | src/components/TreeTable.tsx:51-69 | the edited node ends up with the new value computed from its pre-edit value, up to 0.00005 per node below it |
| Nodes.TreeNode.Abs | src/types.ts:1-7 | the record as a value keeps its id and value, and is a leaf exactly when it has no `children` key |
| Nodes.TreeNode.constructor | src/types.ts:1-7 | a record built over valid, disjoint children arrays is a valid tree with those fields |
| Nodes.TreeNode.Recalc | src/utils/treeUtils.ts:6-11 | in place: the subtree becomes its recalculated value, the node's new value is returned, and a record without children keeps its value |
| Nodes.TreeNode.Distribute | src/utils/treeUtils.ts:13-26 | in place: the subtree becomes its distributed value, rounded to four decimals |
| Nodes.SumOfValues | src/utils/treeUtils.ts:9 | the `reduce` loop returns the left-to-right sum of the children's values |
| Nodes.RecalcAll | src/utils/treeUtils.ts:8 | `forEach(recalc)` recalculates every tree of the array in order and leaves each tree as its own recalc made it |
| Nodes.DistributeShares | src/utils/treeUtils.ts:21-25 | the `forEach` hands each child its rounded share, computed from that child's untouched value and the total taken before the loop |
| Nodes.DeepClone | src/utils/treeUtils.ts:3-4 | the copy is made of fresh records and equals the original as a value |
| Nodes.DeepCloneAll | src/utils/treeUtils.ts:3-4 | the copied array consists of fresh records and has the same value |
| Table.FindRef | src/components/TreeTable.tsx:23-32 | by reference: the record findNode returns, which has the id and lies inside the searched forest |
| Table.FindRefAbs | src/components/TreeTable.tsx:23-32 | the record found by reference is the node found in the forest of values, and it is null exactly when the value search finds nothing |
| Table.FindRefAbsBefore | src/components/TreeTable.tsx:23-32 | the same as FindRefAbs, for the values the records held before a change |
| Table.DistributeAtHeap | src/components/TreeTable.tsx:67-68 | `distribute(target, v)` on the record findNode returned changes the forest exactly as DistributeAt describes |
| Table.TreeTable.constructor | src/components/TreeTable.tsx:15-21 | the initial rows are a fresh copy that equals the given data exactly, without a recalc; no inputs have been typed |
| Table.TreeTable.FindNode | src/components/TreeTable.tsx:23-32 | the loop with its recursive call and early returns returns exactly FindRef's record |
| Table.TreeTable.HandleInput | src/components/TreeTable.tsx:41-45 | records the parsed input for the id and leaves the rows alone |
| Table.TreeTable.EditRows | src/components/TreeTable.tsx:51-69 | the closure finds the target in the copy and distributes into it the value computed from its current value, or does nothing |
| Table.TreeTable.UpdateTree | src/components/TreeTable.tsx:34-39 | the new rows are fresh records equal to Edit of the old rows; the old rows are not modified, since only `this` is |
| Table.TreeTable.ApplyValue | src/components/TreeTable.tsx:62-70 | with a NaN input nothing changes; otherwise the rows become the edit that sets the node to the typed number |
| Table.TreeTable.ApplyPercent | src/components/TreeTable.tsx:47-60 | with a NaN input nothing changes; otherwise the rows become the edit that scales the node by the typed percentage |
| Percentages.Change | src/utils/treeUtils.ts:30 | the percentage change `p` is the one for which raising the original by `p` percent gives the value |
| Percentages.Variance | src/utils/treeUtils.ts:28-31 | "0%" exactly when the original is 0; otherwise the percentage change with two decimals, within 0.005 and ties away from 0 (which by RoundToUnique is `toFixed(2)`'s number) |
| Percentages.UnchangedShowsZero | src/utils/treeUtils.ts:28-31 | a value still at its non-zero original shows 0.00% |
| Percentages.VarianceSign | src/utils/treeUtils.ts:28-31 | a positive variance means the value moved past the original in the original's direction; a negative one means the opposite; an unchanged value shows 0 |
| Percentages.TinyIncreaseShowsZero | src/utils/treeUtils.ts:30 | 300.00001 against 300 shows 0.00%: a strict increase need not show as positive |
| Percentages.TenPercent | src/utils/treeUtils.ts:30 | 330 against 300 shows 10.00% |
| Seed.SeedAtOriginals | src/data/TreeData.ts:3-44 | the seed has six nodes, each at its non-zero original value, so every row first shows 0.00% |
| Seed.SeedUnbalanced | src/data/TreeData.ts:4-23 | Electronics is stored as 1400 while its children add up to 1500, so the seed is unbalanced and even an edit of an unknown id changes it |
| Seed.TablesUpTenPercent | src/components/TreeTable.tsx:54-57 | Tables at +10% becomes 330 and Furniture becomes 1030; Electronics is corrected to 1500 |
| Seed.PhonesSetTo1000 | src/components/TreeTable.tsx:66-69 | Phones set to 1000 makes Electronics 1700 |
| Seed.FurnitureSetTo500 | src/utils/treeUtils.ts:21-24 | distributing 500 over Tables 300 and Chairs 700 gives 150 and 350 |
| Seed.ZeroTotalSplitsEvenly | src/utils/treeUtils.ts:22-23 | distributing 100 over two children that total 0 gives 50 each |

## Left out

- Rendering is not modelled: `renderRow`, `render`, the grand-total row and its division.
  Neither is src/App.tsx. These are display only.
- `Number(...)` parsing of the typed text is not modelled. An input is stored already
  parsed, with `None` standing for NaN. Note that in the code `Number("")` is 0, not NaN.
- IEEE-754 doubles are not modelled. Values are exact reals, so binary representation
  error, `Infinity` and overflow do not arise.
- `toFixed` is modelled by the number it denotes. The strings are not modelled, such as
  "-0.00" or the exponent form for large numbers. `Percentages.VarianceText` keeps only
  the number.
- `deepClone`'s JSON round trip is modelled as an exact copy of records. JSON's special
  cases (`NaN` becoming `null`, dropped `undefined` keys) are outside the model.
- React's `setState` is modelled as an immediate assignment of the field. Batching and
  asynchronous scheduling are not modelled.
- `applyValue(node)` and `applyPercent(node)` take the rendered node in the code. The
  model passes its `id`, the only part they use.
- `updateTree(fn)` accepts any closure in the code. The model gives `UpdateTree` the two
  closures the component actually passes, as the `Change` datatype: `SetValue` for
  applyValue, `AddPercent` for applyPercent.
- TreeModel.DistributeRecalcError: this bound and the lemmas built on it assume that no
  children array in the subtree is empty. With an empty array the node recalculates to 0,
  which TreeModel.DistributeEmpty and TreeModel.RecalcInternal show.
- Table.TreeTable.UpdateTree: "the previous rows are untouched" follows from
  `modifies this` and from the new rows being fresh. It is not restated as an `unchanged`
  clause over the old records.
