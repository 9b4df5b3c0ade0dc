/** fix_shared_mesh_refinements: components that share one mesh must split
    an element the same way, so the decisions for one element are merged by
    precedence and mirrored onto every component sharing the mesh. */
module Reconcile {
  import opened Wrappers
  import opened Refinement
  import opened SpacesModel
  import opened Selection

  predicate DecisionsOk(meshOf: seq<nat>, ds: seq<ElementToRefine>) {
    forall k :: 0 <= k < |ds| ==> 0 <= ds[k].comp < |meshOf|
  }

  /** The entries of the list `ds0` the pass started from are still where
      they were, for the same element and component. */
  predicate SameHandles(ds0: seq<ElementToRefine>, ds: seq<ElementToRefine>) {
    |ds0| <= |ds| &&
    forall k :: 0 <= k < |ds0| ==> ds[k].id == ds0[k].id && ds[k].comp == ds0[k].comp
  }

  /** The split selected for decision e, merging from component j on the
      pending decisions that idx (the last index in ds0) finds for the
      components sharing e's mesh; the scan stops at H. */
  function SelectedFrom(meshOf: seq<nat>, ds0: seq<ElementToRefine>, ds: seq<ElementToRefine>,
                        e: ElementToRefine, sel: Split, j: nat): Split
    requires j <= |meshOf| && 0 <= e.comp < |meshOf| && |ds0| <= |ds|
    decreases |meshOf| - j
  {
    if j == |meshOf| || sel == H then sel
    else
      var ii := LastIndex(ds0, e.id, j);
      LastIndexSound(ds0, e.id, j);
      if Shares(meshOf, j, e.comp) && ii >= 0 then
        SelectedFrom(meshOf, ds0, ds, e, MergeSplit(sel, ds[ii].split), j + 1)
      else SelectedFrom(meshOf, ds0, ds, e, sel, j + 1)
  }

  lemma LeTransitive(a: Split, b: Split, c: Split)
    requires Le(a, b) && Le(b, c)
    ensures Le(a, c)
  {
  }

  /** The selected split is at least the decision's own split and at least
      every pending split of a component sharing the mesh: the more
      aggressive split wins. */
  lemma {:induction false} SelectedIsUpperBound(meshOf: seq<nat>, ds0: seq<ElementToRefine>, ds: seq<ElementToRefine>,
                                                e: ElementToRefine, sel: Split, j: nat)
    requires j <= |meshOf| && 0 <= e.comp < |meshOf| && |ds0| <= |ds|
    ensures Le(sel, SelectedFrom(meshOf, ds0, ds, e, sel, j))
    ensures forall j' :: j <= j' < |meshOf| && Shares(meshOf, j', e.comp) && LastIndex(ds0, e.id, j') >= 0 ==>
      0 <= LastIndex(ds0, e.id, j') < |ds| &&
      Le(ds[LastIndex(ds0, e.id, j')].split, SelectedFrom(meshOf, ds0, ds, e, sel, j))
    decreases |meshOf| - j
  {
    var r := SelectedFrom(meshOf, ds0, ds, e, sel, j);
    forall j' | j <= j' < |meshOf| { LastIndexSound(ds0, e.id, j'); }
    if j < |meshOf| && sel != H {
      var ii := LastIndex(ds0, e.id, j);
      if Shares(meshOf, j, e.comp) && ii >= 0 {
        var m := MergeSplit(sel, ds[ii].split);
        MergeSplitIsJoin(sel, ds[ii].split);
        SelectedIsUpperBound(meshOf, ds0, ds, e, m, j + 1);
        LeTransitive(sel, m, r);
        LeTransitive(ds[ii].split, m, r);
      } else {
        SelectedIsUpperBound(meshOf, ds0, ds, e, sel, j + 1);
      }
    }
  }

  /** The selected split is the least such bound: any split c at least
      the decision's own split and every pending split of a component
      sharing the mesh is at least the selected split, so the scan computes
      exactly their join. */
  lemma {:induction false} SelectedIsLeast(meshOf: seq<nat>, ds0: seq<ElementToRefine>, ds: seq<ElementToRefine>,
                                           e: ElementToRefine, sel: Split, j: nat, c: Split)
    requires j <= |meshOf| && 0 <= e.comp < |meshOf| && |ds0| <= |ds|
    requires Le(sel, c)
    requires forall j' :: j <= j' < |meshOf| && Shares(meshOf, j', e.comp) && 0 <= LastIndex(ds0, e.id, j') < |ds| ==>
      Le(ds[LastIndex(ds0, e.id, j')].split, c)
    ensures Le(SelectedFrom(meshOf, ds0, ds, e, sel, j), c)
    decreases |meshOf| - j
  {
    if j < |meshOf| && sel != H {
      var ii := LastIndex(ds0, e.id, j);
      LastIndexSound(ds0, e.id, j);
      if Shares(meshOf, j, e.comp) && ii >= 0 {
        MergeSplitIsJoin(sel, ds[ii].split);
        SelectedIsLeast(meshOf, ds0, ds, e, MergeSplit(sel, ds[ii].split), j + 1, c);
      } else {
        SelectedIsLeast(meshOf, ds0, ds, e, sel, j + 1, c);
      }
    }
  }

  /** Without a pending decision of a sharing component, the decision keeps
      its own split. */
  lemma {:induction false} SelectedWithoutPending(meshOf: seq<nat>, ds0: seq<ElementToRefine>, ds: seq<ElementToRefine>,
                                                  e: ElementToRefine, sel: Split, j: nat)
    requires j <= |meshOf| && 0 <= e.comp < |meshOf| && |ds0| <= |ds|
    requires forall j' :: j <= j' < |meshOf| && Shares(meshOf, j', e.comp) ==> LastIndex(ds0, e.id, j') < 0
    ensures SelectedFrom(meshOf, ds0, ds, e, sel, j) == sel
    decreases |meshOf| - j
  {
    if j < |meshOf| && sel != H {
      SelectedWithoutPending(meshOf, ds0, ds, e, sel, j + 1);
    }
  }

  /** The decision generate_shared_mesh_orders of component j's selector
      produces for a retargeted entry. */
  function Retarget(selectors: seq<Selector>, j: int, d: ElementToRefine, cur: nat, sel: Split,
                    suggested: Option<Orders4>): (r: ElementToRefine)
    requires 0 <= j < |selectors|
    ensures r.id == d.id && r.comp == d.comp && r.split == sel
  {
    d.(split := sel, p := selectors[j].sharedOrders(d.id, cur, sel, suggested))
  }

  /** One component j of the update loop, for a component sharing the
      mesh: the decision at inx takes the selected split (its orders
      regenerated by j's selector) if it has not got it yet, then j's pending
      decision does the same, or a new decision for j is appended. */
  function UpdateStep(meshOf: seq<nat>, selectors: seq<Selector>, ds0: seq<ElementToRefine>, ds: seq<ElementToRefine>,
                      inx: nat, sel: Split, cur: nat, suggested: Option<Orders4>, j: nat): (r: seq<ElementToRefine>)
    requires |selectors| == |meshOf| && j < |meshOf| && inx < |ds0| <= |ds|
    ensures |ds| <= |r| <= |ds| + 1
    ensures |r| == |ds| <==> LastIndex(ds0, ds[inx].id, j) >= 0
  {
    var id := ds[inx].id;
    var ds1 := if ds[inx].split != sel then ds[inx := Retarget(selectors, j, ds[inx], cur, sel, suggested)] else ds;
    var ii := LastIndex(ds0, id, j);
    if ii >= 0 then
      if ds1[ii].split != sel then ds1[ii := Retarget(selectors, j, ds1[ii], cur, sel, suggested)] else ds1
    else ds1 + [ElementToRefine(id, j, sel, selectors[j].sharedOrders(id, cur, sel, suggested), ZeroOrders)]
  }

  /** What one step changes: the decision at inx and component j's pending
      decision for the element take the selected split, or one decision for
      the element on component j is appended with it; nothing else changes
      and every entry keeps its element and component. */
  lemma UpdateStepFacts(meshOf: seq<nat>, selectors: seq<Selector>, ds0: seq<ElementToRefine>, ds: seq<ElementToRefine>,
                        inx: nat, sel: Split, cur: nat, suggested: Option<Orders4>, j: nat)
    requires |selectors| == |meshOf| && j < |meshOf| && inx < |ds0|
    requires SameHandles(ds0, ds) && Shares(meshOf, j, ds[inx].comp)
    ensures var r := UpdateStep(meshOf, selectors, ds0, ds, inx, sel, cur, suggested, j);
      var ii := LastIndex(ds0, ds[inx].id, j);
      SameHandles(ds0, r) &&
      (forall k :: 0 <= k < |ds| ==> r[k].id == ds[k].id && r[k].comp == ds[k].comp) &&
      (forall k :: 0 <= k < |ds| && k != inx && (ds[k].comp != j || ds[k].id != ds[inx].id) ==> r[k] == ds[k]) &&
      r[inx].split == sel &&
      (ii >= 0 ==> ii != inx && r[ii].split == sel) &&
      (ii < 0 ==> r[|ds|].id == ds[inx].id && r[|ds|].comp == j && r[|ds|].split == sel) &&
      (DecisionsOk(meshOf, ds) ==> DecisionsOk(meshOf, r))
  {
    UpdateStepHandles(meshOf, selectors, ds0, ds, inx, sel, cur, suggested, j);
    UpdateStepSplits(meshOf, selectors, ds0, ds, inx, sel, cur, suggested, j);
  }

  /** The handles part of UpdateStepFacts. */
  lemma UpdateStepHandles(meshOf: seq<nat>, selectors: seq<Selector>, ds0: seq<ElementToRefine>, ds: seq<ElementToRefine>,
                          inx: nat, sel: Split, cur: nat, suggested: Option<Orders4>, j: nat)
    requires |selectors| == |meshOf| && j < |meshOf| && inx < |ds0|
    requires SameHandles(ds0, ds) && Shares(meshOf, j, ds[inx].comp)
    ensures var r := UpdateStep(meshOf, selectors, ds0, ds, inx, sel, cur, suggested, j);
      SameHandles(ds0, r) &&
      (forall k :: 0 <= k < |ds| ==> r[k].id == ds[k].id && r[k].comp == ds[k].comp) &&
      (forall k :: 0 <= k < |ds| && k != inx && (ds[k].comp != j || ds[k].id != ds[inx].id) ==> r[k] == ds[k]) &&
      (DecisionsOk(meshOf, ds) ==> DecisionsOk(meshOf, r))
  {
    var id := ds[inx].id;
    LastIndexSound(ds0, id, j);
  }

  /** The splits part of UpdateStepFacts. */
  lemma UpdateStepSplits(meshOf: seq<nat>, selectors: seq<Selector>, ds0: seq<ElementToRefine>, ds: seq<ElementToRefine>,
                         inx: nat, sel: Split, cur: nat, suggested: Option<Orders4>, j: nat)
    requires |selectors| == |meshOf| && j < |meshOf| && inx < |ds0|
    requires SameHandles(ds0, ds) && Shares(meshOf, j, ds[inx].comp)
    ensures var r := UpdateStep(meshOf, selectors, ds0, ds, inx, sel, cur, suggested, j);
      var ii := LastIndex(ds0, ds[inx].id, j);
      |ds| <= |r| &&
      r[inx].split == sel &&
      (ii >= 0 ==> ii != inx && r[ii].split == sel) &&
      (ii < 0 ==> r[|ds|].id == ds[inx].id && r[|ds|].comp == j && r[|ds|].split == sel)
  {
    var id := ds[inx].id;
    LastIndexSound(ds0, id, j);
    var ii := LastIndex(ds0, id, j);
    assert ii >= 0 ==> ds[ii].comp == j && ds[ii].id == id && ii != inx;
  }

  /** The update loop over components j.. for the decision at inx with the
      selected split `sel`. */
  function UpdateFrom(meshOf: seq<nat>, selectors: seq<Selector>, ds0: seq<ElementToRefine>, ds: seq<ElementToRefine>,
                      inx: nat, sel: Split, cur: nat, suggested: Option<Orders4>, j: nat): (r: seq<ElementToRefine>)
    requires |selectors| == |meshOf| && j <= |meshOf| && inx < |ds0| <= |ds|
    ensures |ds| <= |r| <= |ds| + |meshOf| - j
    decreases |meshOf| - j
  {
    if j == |meshOf| then ds
    else if !Shares(meshOf, j, ds[inx].comp) then
      UpdateFrom(meshOf, selectors, ds0, ds, inx, sel, cur, suggested, j + 1)
    else
      UpdateFrom(meshOf, selectors, ds0, UpdateStep(meshOf, selectors, ds0, ds, inx, sel, cur, suggested, j),
                 inx, sel, cur, suggested, j + 1)
  }

  /** The update loop keeps every entry's element and component. */
  lemma {:induction false} UpdateFromKeepsHandles(meshOf: seq<nat>, selectors: seq<Selector>, ds0: seq<ElementToRefine>, ds: seq<ElementToRefine>,
      inx: nat, sel: Split, cur: nat, suggested: Option<Orders4>, j: nat)
    requires |selectors| == |meshOf| && j <= |meshOf| && inx < |ds0|
    requires SameHandles(ds0, ds)
    ensures var r := UpdateFrom(meshOf, selectors, ds0, ds, inx, sel, cur, suggested, j);
      forall k :: 0 <= k < |ds| ==> r[k].id == ds[k].id && r[k].comp == ds[k].comp
    decreases |meshOf| - j
  {
    if j < |meshOf| {
      if !Shares(meshOf, j, ds[inx].comp) {
        UpdateFromKeepsHandles(meshOf, selectors, ds0, ds, inx, sel, cur, suggested, j + 1);
      } else {
        var ds2 := UpdateStep(meshOf, selectors, ds0, ds, inx, sel, cur, suggested, j);
        UpdateStepFacts(meshOf, selectors, ds0, ds, inx, sel, cur, suggested, j);
        UpdateFromKeepsHandles(meshOf, selectors, ds0, ds2, inx, sel, cur, suggested, j + 1);
      }
    }
  }

  /** The update loop changes only the decision at inx and the decisions for
      the element of components from j on. */
  lemma {:induction false} UpdateFromFrame(meshOf: seq<nat>, selectors: seq<Selector>, ds0: seq<ElementToRefine>, ds: seq<ElementToRefine>,
      inx: nat, sel: Split, cur: nat, suggested: Option<Orders4>, j: nat)
    requires |selectors| == |meshOf| && j <= |meshOf| && inx < |ds0|
    requires SameHandles(ds0, ds)
    ensures var r := UpdateFrom(meshOf, selectors, ds0, ds, inx, sel, cur, suggested, j);
      forall k :: 0 <= k < |ds| && k != inx && (ds[k].comp < j || ds[k].id != ds[inx].id) ==> r[k] == ds[k]
    decreases |meshOf| - j
  {
    if j < |meshOf| {
      if !Shares(meshOf, j, ds[inx].comp) {
        UpdateFromFrame(meshOf, selectors, ds0, ds, inx, sel, cur, suggested, j + 1);
      } else {
        var ds2 := UpdateStep(meshOf, selectors, ds0, ds, inx, sel, cur, suggested, j);
        UpdateStepFacts(meshOf, selectors, ds0, ds, inx, sel, cur, suggested, j);
        UpdateFromFrame(meshOf, selectors, ds0, ds2, inx, sel, cur, suggested, j + 1);
      }
    }
  }

  /** The update loop appends only decisions for the element on a component
      sharing the mesh, with the selected split. */
  lemma {:induction false} UpdateFromAppends(meshOf: seq<nat>, selectors: seq<Selector>, ds0: seq<ElementToRefine>, ds: seq<ElementToRefine>,
      inx: nat, sel: Split, cur: nat, suggested: Option<Orders4>, j: nat)
    requires |selectors| == |meshOf| && j <= |meshOf| && inx < |ds0|
    requires SameHandles(ds0, ds)
    ensures var r := UpdateFrom(meshOf, selectors, ds0, ds, inx, sel, cur, suggested, j);
      forall k :: |ds| <= k < |r| ==>
        r[k].id == ds[inx].id && j <= r[k].comp && Shares(meshOf, r[k].comp, ds[inx].comp) && r[k].split == sel
    decreases |meshOf| - j
  {
    if j < |meshOf| {
      if !Shares(meshOf, j, ds[inx].comp) {
        UpdateFromAppends(meshOf, selectors, ds0, ds, inx, sel, cur, suggested, j + 1);
        var r := UpdateFrom(meshOf, selectors, ds0, ds, inx, sel, cur, suggested, j);
        assert r == UpdateFrom(meshOf, selectors, ds0, ds, inx, sel, cur, suggested, j + 1);
        forall k | |ds| <= k < |r| ensures j <= r[k].comp {}
      } else {
        var ds2 := UpdateStep(meshOf, selectors, ds0, ds, inx, sel, cur, suggested, j);
        UpdateStepFacts(meshOf, selectors, ds0, ds, inx, sel, cur, suggested, j);
        UpdateFromAppends(meshOf, selectors, ds0, ds2, inx, sel, cur, suggested, j + 1);
        UpdateFromFrame(meshOf, selectors, ds0, ds2, inx, sel, cur, suggested, j + 1);
      }
    }
  }

  /** Hence the update loop keeps the handles of the original list and the
      components in range. */
  lemma UpdateFromFacts(meshOf: seq<nat>, selectors: seq<Selector>, ds0: seq<ElementToRefine>, ds: seq<ElementToRefine>,
      inx: nat, sel: Split, cur: nat, suggested: Option<Orders4>, j: nat)
    requires |selectors| == |meshOf| && j <= |meshOf| && inx < |ds0|
    requires SameHandles(ds0, ds)
    ensures var r := UpdateFrom(meshOf, selectors, ds0, ds, inx, sel, cur, suggested, j);
      SameHandles(ds0, r) &&
      (forall k :: 0 <= k < |ds| ==> r[k].id == ds[k].id && r[k].comp == ds[k].comp) &&
      (forall k :: 0 <= k < |ds| && k != inx && (ds[k].comp < j || ds[k].id != ds[inx].id) ==> r[k] == ds[k]) &&
      (forall k :: |ds| <= k < |r| ==>
        r[k].id == ds[inx].id && j <= r[k].comp && Shares(meshOf, r[k].comp, ds[inx].comp) && r[k].split == sel) &&
      (DecisionsOk(meshOf, ds) ==> DecisionsOk(meshOf, r))
  {
    UpdateFromKeepsHandles(meshOf, selectors, ds0, ds, inx, sel, cur, suggested, j);
    UpdateFromFrame(meshOf, selectors, ds0, ds, inx, sel, cur, suggested, j);
    UpdateFromAppends(meshOf, selectors, ds0, ds, inx, sel, cur, suggested, j);
  }

  /** One iteration of the outer loop of fix_shared_mesh_refinements, for the
      decision at position inx. */
  function FixOne(meshOf: seq<nat>, orders: seq<map<int, nat>>, selectors: seq<Selector>,
                  ds0: seq<ElementToRefine>, ds: seq<ElementToRefine>, inx: nat): (r: seq<ElementToRefine>)
    requires |selectors| == |meshOf| == |orders| && inx < |ds0|
    requires DecisionsOk(meshOf, ds) && SameHandles(ds0, ds)
    ensures DecisionsOk(meshOf, r) && SameHandles(ds0, r) && |r| >= |ds|
  {
    var e := ds[inx];
    var cur := OrderAt(orders[e.comp], e.id);
    var sel := SelectedFrom(meshOf, ds0, ds, e, e.split, 0);
    if sel == P then ds
    else
      var sugg := if sel == H then Some(e.q) else None;
      UpdateFromFacts(meshOf, selectors, ds0, ds, inx, sel, cur, sugg, 0);
      UpdateFrom(meshOf, selectors, ds0, ds, inx, sel, cur, sugg, 0)
  }

  /** The outer loop from position inx up to |ds0|, the length of the list
      when the pass began: appended decisions are not revisited. */
  function FixFrom(meshOf: seq<nat>, orders: seq<map<int, nat>>, selectors: seq<Selector>,
                   ds0: seq<ElementToRefine>, ds: seq<ElementToRefine>, inx: nat): (r: seq<ElementToRefine>)
    requires |selectors| == |meshOf| == |orders| && inx <= |ds0|
    requires DecisionsOk(meshOf, ds) && SameHandles(ds0, ds)
    ensures DecisionsOk(meshOf, r) && SameHandles(ds0, r) && |r| >= |ds|
    decreases |ds0| - inx
  {
    if inx == |ds0| then ds
    else FixFrom(meshOf, orders, selectors, ds0, FixOne(meshOf, orders, selectors, ds0, ds, inx), inx + 1)
  }
}

module ReconcileProperties {
  import opened Wrappers
  import opened Refinement
  import opened SpacesModel
  import opened Selection
  import opened Reconcile

  /** Component j's decision for element id has the split `sel`: the pending
      one idx finds, or, when there was none, an appended one. */
  ghost predicate Covered(ds0: seq<ElementToRefine>, r: seq<ElementToRefine>, id: int, j: int, sel: Split) {
    (LastIndex(ds0, id, j) >= 0 ==> LastIndex(ds0, id, j) < |r| && r[LastIndex(ds0, id, j)].split == sel) &&
    (LastIndex(ds0, id, j) < 0 ==> exists k :: |ds0| <= k < |r| && r[k].id == id && r[k].comp == j && r[k].split == sel)
  }

  /** After the update loop from j, the decision at inx has the selected
      split if it had it already or some component from j on shares its
      mesh. */
  lemma {:induction false} UpdateSetsOwnSplit(meshOf: seq<nat>, selectors: seq<Selector>, ds0: seq<ElementToRefine>, ds: seq<ElementToRefine>,
                                              inx: nat, sel: Split, cur: nat, suggested: Option<Orders4>, j: nat)
    requires |selectors| == |meshOf| && j <= |meshOf| && inx < |ds0|
    requires DecisionsOk(meshOf, ds) && SameHandles(ds0, ds)
    requires ds[inx].split == sel || exists j' :: j <= j' < |meshOf| && Shares(meshOf, j', ds[inx].comp)
    ensures UpdateFrom(meshOf, selectors, ds0, ds, inx, sel, cur, suggested, j)[inx].split == sel
    decreases |meshOf| - j
  {
    if j < |meshOf| {
      if !Shares(meshOf, j, ds[inx].comp) {
        UpdateSetsOwnSplit(meshOf, selectors, ds0, ds, inx, sel, cur, suggested, j + 1);
      } else {
        var ds2 := UpdateStep(meshOf, selectors, ds0, ds, inx, sel, cur, suggested, j);
        UpdateStepFacts(meshOf, selectors, ds0, ds, inx, sel, cur, suggested, j);
        UpdateSetsOwnSplit(meshOf, selectors, ds0, ds2, inx, sel, cur, suggested, j + 1);
      }
    }
  }

  /** Coverage survives changes that leave component j's entries for the
      element alone. */
  lemma CoveredKept(ds0: seq<ElementToRefine>, a: seq<ElementToRefine>, r: seq<ElementToRefine>, id: int, j: int, sel: Split)
    requires Covered(ds0, a, id, j, sel) && SameHandles(ds0, a) && |r| >= |a|
    requires forall k :: 0 <= k < |a| && a[k].comp == j && a[k].id == id ==> r[k] == a[k]
    ensures Covered(ds0, r, id, j, sel)
  {
    var ii := LastIndex(ds0, id, j);
    if ii < 0 {
      var k :| |ds0| <= k < |a| && a[k].id == id && a[k].comp == j && a[k].split == sel;
      assert r[k] == a[k];
    } else {
      assert ds0[ii].comp == j && ds0[ii].id == id;
    }
  }

  /** After the update loop from j, every component from j on that shares
      the mesh has a decision for the element with the selected split. */
  lemma {:induction false} UpdateCovers(meshOf: seq<nat>, selectors: seq<Selector>, ds0: seq<ElementToRefine>, ds: seq<ElementToRefine>,
                                        inx: nat, sel: Split, cur: nat, suggested: Option<Orders4>, j: nat)
    requires |selectors| == |meshOf| && j <= |meshOf| && inx < |ds0|
    requires DecisionsOk(meshOf, ds) && SameHandles(ds0, ds)
    ensures forall j' :: j <= j' < |meshOf| && Shares(meshOf, j', ds[inx].comp) ==>
      Covered(ds0, UpdateFrom(meshOf, selectors, ds0, ds, inx, sel, cur, suggested, j), ds[inx].id, j', sel)
    decreases |meshOf| - j
  {
    if j < |meshOf| {
      if !Shares(meshOf, j, ds[inx].comp) {
        UpdateCovers(meshOf, selectors, ds0, ds, inx, sel, cur, suggested, j + 1);
      } else {
        var id := ds[inx].id;
        var ds2 := UpdateStep(meshOf, selectors, ds0, ds, inx, sel, cur, suggested, j);
        var r := UpdateFrom(meshOf, selectors, ds0, ds2, inx, sel, cur, suggested, j + 1);
        UpdateStepFacts(meshOf, selectors, ds0, ds, inx, sel, cur, suggested, j);
        UpdateFromFacts(meshOf, selectors, ds0, ds2, inx, sel, cur, suggested, j + 1);
        UpdateCovers(meshOf, selectors, ds0, ds2, inx, sel, cur, suggested, j + 1);
        forall j' | j <= j' < |meshOf| && Shares(meshOf, j', ds[inx].comp)
          ensures Covered(ds0, r, id, j', sel)
        {
          if j' == j {
            assert Covered(ds0, ds2, id, j, sel);
            CoveredKept(ds0, ds2, r, id, j, sel);
          }
        }
      }
    }
  }

  /** fix_shared_mesh_refinements at one decision: when the selected split
      is not P, the decision and every component sharing its mesh end with
      that split, a pending decision being retargeted and a missing one
      appended; when it is P, nothing changes. */
  lemma FixOneMirrors(meshOf: seq<nat>, orders: seq<map<int, nat>>, selectors: seq<Selector>,
                      ds0: seq<ElementToRefine>, ds: seq<ElementToRefine>, inx: nat)
    requires |selectors| == |meshOf| == |orders| && inx < |ds0|
    requires DecisionsOk(meshOf, ds) && SameHandles(ds0, ds)
    ensures var sel := SelectedFrom(meshOf, ds0, ds, ds[inx], ds[inx].split, 0);
      var r := FixOne(meshOf, orders, selectors, ds0, ds, inx);
      (sel == P ==> r == ds) &&
      (sel != P ==>
        r[inx].split == sel &&
        forall j :: 0 <= j < |meshOf| && Shares(meshOf, j, ds[inx].comp) ==> Covered(ds0, r, ds[inx].id, j, sel))
  {
    var e := ds[inx];
    var sel := SelectedFrom(meshOf, ds0, ds, e, e.split, 0);
    if sel != P {
      var sugg := if sel == H then Some(e.q) else None;
      var cur := OrderAt(orders[e.comp], e.id);
      UpdateCovers(meshOf, selectors, ds0, ds, inx, sel, cur, sugg, 0);
      if !exists j' :: 0 <= j' < |meshOf| && Shares(meshOf, j', e.comp) {
        SelectedWithoutPending(meshOf, ds0, ds, e, e.split, 0);
      }
      UpdateSetsOwnSplit(meshOf, selectors, ds0, ds, inx, sel, cur, sugg, 0);
    }
  }
}
