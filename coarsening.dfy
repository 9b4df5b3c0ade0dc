/** unrefine: merging groups of sons whose summed error is small back into
    their parent, then lowering the order of active elements whose error is
    small, on the meshes of two components. */
module Coarsening {
  import opened Refinement
  import opened QuadOrder
  import opened MeshModel
  import opened SpacesModel
  import opened ElementQueue

  /** The spaces together with the element error table errors[comp][id]. */
  datatype Store = Store(spaces: Spaces, errors: seq<seq<real>>)

  /** Every component has one error entry per element id of its mesh. */
  predicate StoreOk(st: Store) {
    SpacesOk(st.spaces) && |st.errors| == |st.spaces.meshOf| &&
    forall c :: 0 <= c < |st.errors| ==> |st.errors[c]| == |MeshOf(st.spaces, c).elems|
  }

  /** A pass works on mesh object mi for the components comps, all on it. */
  predicate PassOk(st: Store, comps: seq<nat>, mi: nat) {
    mi < |st.spaces.meshes| &&
    forall i :: 0 <= i < |comps| ==> comps[i] < |st.spaces.meshOf| && st.spaces.meshOf[comps[i]] == mi
  }

  /** The errors of the sons of element id in slots k.. summed. */
  function SonErrorSum(err: seq<real>, mesh: Mesh, id: int, k: nat): real
    requires WellFormed(mesh) && 0 <= id < |mesh.elems| && |err| == |mesh.elems| && k <= MaxElementSons
    decreases MaxElementSons - k
  {
    if k == MaxElementSons then 0.0
    else (if Son(mesh, id, k) == NoSon then 0.0 else err[Son(mesh, id, k)]) + SonErrorSum(err, mesh, id, k + 1)
  }

  /** The largest order among the sons of element id in slots k.., 0 when
      there is none. */
  function SonMaxOrder(orders: map<int, nat>, mesh: Mesh, id: int, k: nat): nat
    requires WellFormed(mesh) && 0 <= id < |mesh.elems| && k <= MaxElementSons
    decreases MaxElementSons - k
  {
    if k == MaxElementSons then 0
    else if Son(mesh, id, k) == NoSon then SonMaxOrder(orders, mesh, id, k + 1)
    else Max(OrderAt(orders, Son(mesh, id, k)), SonMaxOrder(orders, mesh, id, k + 1))
  }

  /** SonMaxOrder is the largest order among the sons in slots k.., and it
      is the order of one of them unless it is 0. */
  lemma {:induction false} SonMaxOrderIsMax(orders: map<int, nat>, mesh: Mesh, id: int, k: nat)
    requires WellFormed(mesh) && 0 <= id < |mesh.elems| && k <= MaxElementSons
    ensures var r := SonMaxOrder(orders, mesh, id, k);
      (forall l :: k <= l < MaxElementSons && Son(mesh, id, l) != NoSon ==> OrderAt(orders, Son(mesh, id, l)) <= r) &&
      (r == 0 || exists l :: k <= l < MaxElementSons && Son(mesh, id, l) != NoSon && OrderAt(orders, Son(mesh, id, l)) == r)
    decreases MaxElementSons - k
  {
    if k < MaxElementSons {
      SonMaxOrderIsMax(orders, mesh, id, k + 1);
    }
  }

  /** Every son of element id is an active, straight-edged element. */
  predicate SonsMergeable(mesh: Mesh, id: int)
    requires WellFormed(mesh) && 0 <= id < |mesh.elems|
  {
    forall k :: 0 <= k < MaxElementSons && Son(mesh, id, k) != NoSon ==>
      mesh.elems[Son(mesh, id, k)].active && !mesh.elems[Son(mesh, id, k)].curved
  }

  /** The limit the merge test compares with: thr times the error of the
      first entry of the regular queue, read from the current table. */
  function MergeLimit(st: Store, thr: real, first: ElementReference): real {
    thr * ErrorOf(st.errors, first)
  }

  /** The limit the demotion test compares with: a quarter of the merge
      limit. */
  function DemoteLimit(st: Store, thr: real, first: ElementReference): real {
    thr / 4.0 * ErrorOf(st.errors, first)
  }

  /** The error table after a merge of element id: each component of cs,
      in turn, takes its sons' summed error for the element. */
  function MergedErrors(errors: seq<seq<real>>, cs: seq<nat>, mesh: Mesh, id: int): (r: seq<seq<real>>)
    requires WellFormed(mesh) && 0 <= id < |mesh.elems|
    ensures |r| == |errors| && forall c :: 0 <= c < |errors| ==> |r[c]| == |errors[c]|
    decreases |cs|
  {
    if cs == [] then errors
    else
      var e := MergedErrors(errors, cs[..|cs| - 1], mesh, id);
      var c := cs[|cs| - 1];
      if c < |errors| && |errors[c]| == |mesh.elems| then e[c := errors[c][id := SonErrorSum(errors[c], mesh, id, 0)]]
      else e
  }

  /** One component's orders after a merge of element id: the element gets
      its sons' largest order. */
  function MergedRow(row: map<int, nat>, mesh: Mesh, id: int): map<int, nat>
    requires WellFormed(mesh) && 0 <= id < |mesh.elems|
  {
    row[id := SonMaxOrder(row, mesh, id, 0)]
  }

  /** One component's orders after the demotion of element id. */
  function DemotedRow(row: map<int, nat>, id: int): map<int, nat> {
    row[id := Demoted(OrderAt(row, id))]
  }

  /** The orders after a merge of element id: each component of cs, in
      turn, gives the element its sons' largest order. */
  function MergedOrders(orders: seq<map<int, nat>>, cs: seq<nat>, mesh: Mesh, id: int): (r: seq<map<int, nat>>)
    requires WellFormed(mesh) && 0 <= id < |mesh.elems|
    ensures |r| == |orders|
    decreases |cs|
  {
    if cs == [] then orders
    else
      var o := MergedOrders(orders, cs[..|cs| - 1], mesh, id);
      var c := cs[|cs| - 1];
      if c < |orders| then o[c := MergedRow(orders[c], mesh, id)] else o
  }

  /** The orders after the demotion of element id: each component of cs,
      in turn, whose error for the element is below the limit gets the
      demoted order. */
  function DemotedOrders(orders: seq<map<int, nat>>, errors: seq<seq<real>>, cs: seq<nat>, id: int, limit: real)
    : (r: seq<map<int, nat>>)
    ensures |r| == |orders|
    decreases |cs|
  {
    if cs == [] then orders
    else
      var o := DemotedOrders(orders, errors, cs[..|cs| - 1], id, limit);
      var c := cs[|cs| - 1];
      if c < |orders| && c < |errors| && 0 <= id < |errors[c]| && errors[c][id] < limit then o[c := DemotedRow(orders[c], id)]
      else o
  }

  /** After a merge, a component of cs has its sons' summed error for the
      element and every other component keeps its row. */
  lemma {:induction false} MergedErrorsAt(errors: seq<seq<real>>, cs: seq<nat>, mesh: Mesh, id: int, c: int)
    requires WellFormed(mesh) && 0 <= id < |mesh.elems| && 0 <= c < |errors|
    ensures MergedErrors(errors, cs, mesh, id)[c] ==
      if c in cs && |errors[c]| == |mesh.elems| then errors[c][id := SonErrorSum(errors[c], mesh, id, 0)] else errors[c]
    decreases |cs|
  {
    if cs != [] {
      MergedErrorsAt(errors, cs[..|cs| - 1], mesh, id, c);
      assert c in cs <==> c in cs[..|cs| - 1] || c == cs[|cs| - 1] by {
        assert cs == cs[..|cs| - 1] + [cs[|cs| - 1]];
      }
    }
  }

  /** After a merge, a component of cs gives the element its sons' largest
      order and every other component keeps its orders. */
  lemma {:induction false} MergedOrdersAt(orders: seq<map<int, nat>>, cs: seq<nat>, mesh: Mesh, id: int, c: int)
    requires WellFormed(mesh) && 0 <= id < |mesh.elems| && 0 <= c < |orders|
    ensures MergedOrders(orders, cs, mesh, id)[c] == if c in cs then MergedRow(orders[c], mesh, id) else orders[c]
    decreases |cs|
  {
    if cs != [] {
      MergedOrdersAt(orders, cs[..|cs| - 1], mesh, id, c);
      assert c in cs <==> c in cs[..|cs| - 1] || c == cs[|cs| - 1] by {
        assert cs == cs[..|cs| - 1] + [cs[|cs| - 1]];
      }
    }
  }

  /** After the demotion, a component of cs whose error is below the limit
      has the demoted order and every other component keeps its orders. */
  lemma {:induction false} DemotedOrdersAt(orders: seq<map<int, nat>>, errors: seq<seq<real>>, cs: seq<nat>, id: int, limit: real, c: int)
    requires 0 <= c < |orders|
    ensures DemotedOrders(orders, errors, cs, id, limit)[c] ==
      if c in cs && c < |errors| && 0 <= id < |errors[c]| && errors[c][id] < limit then DemotedRow(orders[c], id) else orders[c]
    decreases |cs|
  {
    if cs != [] {
      DemotedOrdersAt(orders, errors, cs[..|cs| - 1], id, limit, c);
      assert c in cs <==> c in cs[..|cs| - 1] || c == cs[|cs| - 1] by {
        assert cs == cs[..|cs| - 1] + [cs[|cs| - 1]];
      }
    }
  }

  /** The merge test for an element of the pass's mesh: it is inactive, its
      sons are mergeable and, for every component of the pass, its sons'
      summed error is below the limit. */
  predicate Mergeable(st: Store, comps: seq<nat>, mi: nat, thr: real, first: ElementReference, id: int)
    requires StoreOk(st) && PassOk(st, comps, mi) && comps != []
  {
    var mesh := st.spaces.meshes[mi];
    IsInactive(mesh, id) && SonsMergeable(mesh, id) &&
    forall i :: 0 <= i < |comps| ==>
      SonErrorSum(st.errors[comps[i]], mesh, id, 0) < MergeLimit(st, thr, first)
  }

  /** One visit of the merge loop: a mergeable element is unrefined, and for
      each component of the pass it takes its sons' summed error and their
      largest order. */
  function MergeAt(st: Store, comps: seq<nat>, mi: nat, thr: real, first: ElementReference, id: int): (r: Store)
    requires StoreOk(st) && PassOk(st, comps, mi) && comps != []
    ensures StoreOk(r) && PassOk(r, comps, mi) && r.spaces.meshOf == st.spaces.meshOf
    ensures |r.spaces.meshes[mi].elems| == |st.spaces.meshes[mi].elems|
  {
    var mesh := st.spaces.meshes[mi];
    if !Mergeable(st, comps, mi, thr, first, id) then st
    else
      var errors := MergedErrors(st.errors, comps, mesh, id);
      var orders := MergedOrders(st.spaces.orders, comps, mesh, id);
      var r := Store(st.spaces.(meshes := st.spaces.meshes[mi := UnrefineElement(mesh, id)], orders := orders), errors);
      assert forall c :: 0 <= c < |r.errors| ==> |r.errors[c]| == |MeshOf(r.spaces, c).elems| by {
        forall c | 0 <= c < |r.errors| ensures |r.errors[c]| == |MeshOf(r.spaces, c).elems| {
          assert |st.errors[c]| == |MeshOf(st.spaces, c).elems|;
        }
      }
      r
  }

  /** A merge happens exactly when the merge test holds; the parent then
      becomes an active leaf, its sons are retired, and for each component
      of the pass its error is its sons' summed error and its order is the
      largest order among its sons. Everything else keeps its error. */
  lemma MergeAtEffect(st: Store, comps: seq<nat>, mi: nat, thr: real, first: ElementReference, id: int, i: nat)
    requires StoreOk(st) && PassOk(st, comps, mi) && comps != [] && i < |comps|
    ensures var r := MergeAt(st, comps, mi, thr, first, id);
      var mesh := st.spaces.meshes[mi];
      var c := comps[i];
      (IsInactive(mesh, id) && IsActive(r.spaces.meshes[mi], id) <==> Mergeable(st, comps, mi, thr, first, id)) &&
      (Mergeable(st, comps, mi, thr, first, id) ==>
        r.spaces.meshes[mi].elems[id].sons == NoSons &&
        (forall k :: 0 <= k < MaxElementSons && Son(mesh, id, k) != NoSon ==> !r.spaces.meshes[mi].elems[Son(mesh, id, k)].used) &&
        r.errors[c][id] == SonErrorSum(st.errors[c], mesh, id, 0) &&
        (forall k :: 0 <= k < MaxElementSons && Son(mesh, id, k) != NoSon ==>
          Order(st.spaces, c, Son(mesh, id, k)) <= Order(r.spaces, c, id))) &&
      (forall c', x :: 0 <= c' < |st.errors| && 0 <= x < |st.errors[c']| && x != id ==> r.errors[c'][x] == st.errors[c'][x])
  {
    var r := MergeAt(st, comps, mi, thr, first, id);
    var mesh := st.spaces.meshes[mi];
    if Mergeable(st, comps, mi, thr, first, id) {
      var c := comps[i];
      assert |st.errors[c]| == |MeshOf(st.spaces, c).elems|;
      MergedErrorsAt(st.errors, comps, mesh, id, c);
      MergedOrdersAt(st.spaces.orders, comps, mesh, id, c);
      SonMaxOrderIsMax(st.spaces.orders[c], mesh, id, 0);
      forall c', x | 0 <= c' < |st.errors| && 0 <= x < |st.errors[c']| && x != id
        ensures r.errors[c'][x] == st.errors[c'][x]
      {
        MergedErrorsAt(st.errors, comps, mesh, id, c');
      }
    }
  }

  /** The order an element keeps after the demotion: its horizontal order
      less one, but at least 1. */
  function Demoted(o: nat): (r: nat)
    ensures 1 <= r && r <= Max(GetHOrder(o), 1)
    ensures GetHOrder(o) >= 2 ==> r == GetHOrder(o) - 1
  {
    if GetHOrder(o) - 1 >= 1 then GetHOrder(o) - 1 else 1
  }

  /** One visit of the demotion loop: for an active element of the pass's
      mesh, each component of the pass whose error is below a quarter of
      the limit gets the demoted order. */
  function DemoteAt(st: Store, comps: seq<nat>, mi: nat, thr: real, first: ElementReference, id: int): (r: Store)
    requires StoreOk(st) && PassOk(st, comps, mi)
    ensures StoreOk(r) && PassOk(r, comps, mi) && r.spaces.meshes == st.spaces.meshes && r.errors == st.errors
    ensures r.spaces.meshOf == st.spaces.meshOf
  {
    var mesh := st.spaces.meshes[mi];
    if !IsActive(mesh, id) then st
    else
      var orders := DemotedOrders(st.spaces.orders, st.errors, comps, id, DemoteLimit(st, thr, first));
      Store(st.spaces.(orders := orders), st.errors)
  }

  /** The demotion lowers exactly the orders of active elements whose error
      is below a quarter of the limit, and only those. */
  lemma DemoteAtEffect(st: Store, comps: seq<nat>, mi: nat, thr: real, first: ElementReference, id: int, c: int, x: int)
    requires StoreOk(st) && PassOk(st, comps, mi) && 0 <= c < |st.spaces.meshOf|
    ensures var r := DemoteAt(st, comps, mi, thr, first, id);
      Order(r.spaces, c, x) ==
        if x == id && c in comps && IsActive(st.spaces.meshes[mi], id) && st.errors[c][id] < DemoteLimit(st, thr, first)
        then Demoted(Order(st.spaces, c, id)) else Order(st.spaces, c, x)
  {
    if IsActive(st.spaces.meshes[mi], id) {
      var limit := DemoteLimit(st, thr, first);
      DemotedOrdersAt(st.spaces.orders, st.errors, comps, id, limit, c);
      if c in comps {
        var i :| 0 <= i < |comps| && comps[i] == c;
        assert |st.errors[c]| == |MeshOf(st.spaces, c).elems|;
      }
    }
  }

  /** The merge loop over the elements of mesh mi from id on, by
      increasing id (for_all_inactive_elements). */
  function MergeFrom(st: Store, comps: seq<nat>, mi: nat, thr: real, first: ElementReference, id: nat): (r: Store)
    requires StoreOk(st) && PassOk(st, comps, mi) && comps != []
    ensures StoreOk(r) && PassOk(r, comps, mi) && r.spaces.meshOf == st.spaces.meshOf
    ensures |r.spaces.meshes[mi].elems| == |st.spaces.meshes[mi].elems|
    decreases |st.spaces.meshes[mi].elems| - id
  {
    if id >= |st.spaces.meshes[mi].elems| then st
    else MergeFrom(MergeAt(st, comps, mi, thr, first, id), comps, mi, thr, first, id + 1)
  }

  /** The demotion loop over the elements of mesh mi from id on
      (for_all_active_elements). */
  function DemoteFrom(st: Store, comps: seq<nat>, mi: nat, thr: real, first: ElementReference, id: nat): (r: Store)
    requires StoreOk(st) && PassOk(st, comps, mi)
    ensures StoreOk(r) && PassOk(r, comps, mi) && r.spaces.meshes == st.spaces.meshes && r.errors == st.errors
    ensures r.spaces.meshOf == st.spaces.meshOf
    decreases |st.spaces.meshes[mi].elems| - id
  {
    if id >= |st.spaces.meshes[mi].elems| then st
    else DemoteFrom(DemoteAt(st, comps, mi, thr, first, id), comps, mi, thr, first, id + 1)
  }

  /** The merge loop then the demotion loop, for the components of a pass. */
  function Pass(st: Store, comps: seq<nat>, mi: nat, thr: real, first: ElementReference): (r: Store)
    requires StoreOk(st) && PassOk(st, comps, mi) && comps != []
    ensures StoreOk(r) && PassOk(r, comps, mi) && r.spaces.meshOf == st.spaces.meshOf
  {
    DemoteFrom(MergeFrom(st, comps, mi, thr, first, 0), comps, mi, thr, first, 0)
  }

  /** unrefine on two components: one pass over both on a shared mesh (both
      components' son errors must pass the merge test), otherwise a pass
      per component on its own mesh, component 0 first. */
  function Unrefined(st: Store, thr: real, first: ElementReference): (r: Store)
    requires StoreOk(st) && |st.spaces.meshOf| == 2
    ensures StoreOk(r) && r.spaces.meshOf == st.spaces.meshOf
  {
    var meshOf := st.spaces.meshOf;
    if meshOf[0] == meshOf[1] then Pass(st, [0, 1], meshOf[0], thr, first)
    else
      var st1 := Pass(st, [0], meshOf[0], thr, first);
      Pass(st1, [1], meshOf[1], thr, first)
  }

  /** The component-count check of unrefine as written: it refuses only
      more than two components. */
  predicate UnrefineAcceptsAsWritten(num: int) {
    !(num > 2)
  }

  /** The check as intended: exactly the two components whose spaces
      unrefine reads. */
  predicate UnrefineAccepts(num: int) {
    num == 2
  }

  /** The check as written lets a single component through, and unrefine
      then reads spaces[1] of a one-element vector. */
  lemma UnrefineCheckAdmitsOneComponent()
    ensures exists num :: UnrefineAcceptsAsWritten(num) && num >= 1 && !(1 < num)
  {
    assert UnrefineAcceptsAsWritten(1);
  }

  /** The intended check admits exactly the component counts for which
      spaces[0] and spaces[1] exist and no third space is ignored. */
  lemma UnrefineCheckSound(num: int)
    ensures UnrefineAccepts(num) <==> (1 < num && !(num > 2))
  {
  }

  /** The test of unrefine that every son of element id is active and not
      curved, leaving at the first son that fails it. */
  method CheckSons(mesh: Mesh, id: int) returns (found: bool)
    requires WellFormed(mesh) && 0 <= id < |mesh.elems|
    ensures found == SonsMergeable(mesh, id)
  {
    var k := 0;
    while k < MaxElementSons
      invariant 0 <= k <= MaxElementSons
      invariant forall l :: 0 <= l < k && Son(mesh, id, l) != NoSon ==>
        mesh.elems[Son(mesh, id, l)].active && !mesh.elems[Son(mesh, id, l)].curved
    {
      var son := Son(mesh, id, k);
      if son != NoSon && (!mesh.elems[son].active || mesh.elems[son].curved) {
        return false;
      }
      k := k + 1;
    }
    return true;
  }

  /** The summed error and the largest order of the sons of element id, for
      one component. */
  method SonTotals(err: seq<real>, orders: map<int, nat>, mesh: Mesh, id: int) returns (sum: real, max: nat)
    requires WellFormed(mesh) && 0 <= id < |mesh.elems| && |err| == |mesh.elems|
    ensures sum == SonErrorSum(err, mesh, id, 0)
    ensures max == SonMaxOrder(orders, mesh, id, 0)
  {
    sum, max := 0.0, 0;
    var k := 0;
    while k < MaxElementSons
      invariant 0 <= k <= MaxElementSons
      invariant sum + SonErrorSum(err, mesh, id, k) == SonErrorSum(err, mesh, id, 0)
      invariant Max(max, SonMaxOrder(orders, mesh, id, k)) == SonMaxOrder(orders, mesh, id, 0)
    {
      var son := Son(mesh, id, k);
      if son != NoSon {
        sum := sum + err[son];
        var oo := OrderAt(orders, son);
        if oo > max {
          max := oo;
        }
      }
      k := k + 1;
    }
  }

  /** The summed error and the largest order of the sons of element id for
      each component of the pass, and whether every sum is below the limit. */
  method PassTotals(st: Store, comps: seq<nat>, mi: nat, id: int, limit: real)
    returns (sums: seq<real>, maxes: seq<nat>, below: bool)
    requires StoreOk(st) && PassOk(st, comps, mi) && 0 <= id < |st.spaces.meshes[mi].elems|
    ensures |sums| == |comps| && |maxes| == |comps|
    ensures forall j :: 0 <= j < |comps| ==>
      |st.errors[comps[j]]| == |st.spaces.meshes[mi].elems| &&
      sums[j] == SonErrorSum(st.errors[comps[j]], st.spaces.meshes[mi], id, 0) &&
      maxes[j] == SonMaxOrder(st.spaces.orders[comps[j]], st.spaces.meshes[mi], id, 0)
    ensures below <==> forall j :: 0 <= j < |comps| ==> sums[j] < limit
  {
    var mesh := st.spaces.meshes[mi];
    sums, maxes, below := [], [], true;
    var i := 0;
    while i < |comps|
      invariant 0 <= i <= |comps| && |sums| == i && |maxes| == i
      invariant forall j :: 0 <= j < i ==> |st.errors[comps[j]]| == |mesh.elems|
      invariant forall j :: 0 <= j < i ==> sums[j] == SonErrorSum(st.errors[comps[j]], mesh, id, 0)
      invariant forall j :: 0 <= j < i ==> maxes[j] == SonMaxOrder(st.spaces.orders[comps[j]], mesh, id, 0)
      invariant below <==> forall j :: 0 <= j < i ==> sums[j] < limit
    {
      var c := comps[i];
      assert |st.errors[c]| == |MeshOf(st.spaces, c).elems|;
      var sum, max := SonTotals(st.errors[c], st.spaces.orders[c], mesh, id);
      sums := sums + [sum];
      maxes := maxes + [max];
      below := below && sum < limit;
      i := i + 1;
    }
  }

  /** The writes of a merge: each component of the pass takes its sons'
      summed error and largest order for element id. */
  method WriteMerge(st: Store, comps: seq<nat>, mi: nat, id: int, sums: seq<real>, maxes: seq<nat>)
    returns (errs: seq<seq<real>>, ords: seq<map<int, nat>>)
    requires StoreOk(st) && PassOk(st, comps, mi) && 0 <= id < |st.spaces.meshes[mi].elems|
    requires forall a, b :: 0 <= a < b < |comps| ==> comps[a] != comps[b]
    requires |sums| == |comps| && |maxes| == |comps|
    requires forall j :: 0 <= j < |comps| ==>
      |st.errors[comps[j]]| == |st.spaces.meshes[mi].elems| &&
      sums[j] == SonErrorSum(st.errors[comps[j]], st.spaces.meshes[mi], id, 0) &&
      maxes[j] == SonMaxOrder(st.spaces.orders[comps[j]], st.spaces.meshes[mi], id, 0)
    ensures errs == MergedErrors(st.errors, comps, st.spaces.meshes[mi], id)
    ensures ords == MergedOrders(st.spaces.orders, comps, st.spaces.meshes[mi], id)
  {
    var mesh := st.spaces.meshes[mi];
    errs, ords := st.errors, st.spaces.orders;
    var i := 0;
    while i < |comps|
      invariant 0 <= i <= |comps|
      invariant errs == MergedErrors(st.errors, comps[..i], mesh, id)
      invariant ords == MergedOrders(st.spaces.orders, comps[..i], mesh, id)
    {
      var c := comps[i];
      assert comps[..i + 1][..i] == comps[..i];
      MergedErrorsAt(st.errors, comps[..i], mesh, id, c);
      MergedOrdersAt(st.spaces.orders, comps[..i], mesh, id, c);
      errs := errs[c := errs[c][id := sums[i]]];
      var row: map<int, nat> := ords[c][id := maxes[i]];
      ords := ords[c := row];
      i := i + 1;
    }
    assert comps[..|comps|] == comps;
  }

  /** The body of the merge loop of unrefine for element id. */
  method MergeElement(st: Store, comps: seq<nat>, mi: nat, thr: real, first: ElementReference, id: int) returns (r: Store)
    requires StoreOk(st) && PassOk(st, comps, mi) && comps != []
    requires forall a, b :: 0 <= a < b < |comps| ==> comps[a] != comps[b]
    ensures r == MergeAt(st, comps, mi, thr, first, id)
  {
    var mesh := st.spaces.meshes[mi];
    if !IsInactive(mesh, id) {
      return st;
    }
    var found := CheckSons(mesh, id);
    if !found {
      return st;
    }
    var sums, maxes, below := PassTotals(st, comps, mi, id, MergeLimit(st, thr, first));
    if !below {
      return st;
    }
    var errs, ords := WriteMerge(st, comps, mi, id, sums, maxes);
    r := Store(st.spaces.(meshes := st.spaces.meshes[mi := UnrefineElement(mesh, id)], orders := ords), errs);
  }

  /** The body of the demotion loop of unrefine for element id. */
  method DemoteElement(st: Store, comps: seq<nat>, mi: nat, thr: real, first: ElementReference, id: int) returns (r: Store)
    requires StoreOk(st) && PassOk(st, comps, mi)
    requires forall a, b :: 0 <= a < b < |comps| ==> comps[a] != comps[b]
    ensures r == DemoteAt(st, comps, mi, thr, first, id)
  {
    var mesh := st.spaces.meshes[mi];
    if !IsActive(mesh, id) {
      return st;
    }
    var limit := DemoteLimit(st, thr, first);
    var ords := st.spaces.orders;
    var i := 0;
    while i < |comps|
      invariant 0 <= i <= |comps|
      invariant ords == DemotedOrders(st.spaces.orders, st.errors, comps[..i], id, limit)
    {
      var c := comps[i];
      assert comps[..i + 1][..i] == comps[..i];
      assert |st.errors[c]| == |MeshOf(st.spaces, c).elems|;
      DemotedOrdersAt(st.spaces.orders, st.errors, comps[..i], id, limit, c);
      if st.errors[c][id] < limit {
        ords := ords[c := DemotedRow(ords[c], id)];
      }
      i := i + 1;
    }
    assert comps[..|comps|] == comps;
    r := Store(st.spaces.(orders := ords), st.errors);
    assert r.spaces.orders == DemotedOrders(st.spaces.orders, st.errors, comps, id, limit);
  }

  /** The merge loop over every element id of mesh mi. */
  method MergePass(st: Store, comps: seq<nat>, mi: nat, thr: real, first: ElementReference) returns (r: Store)
    requires StoreOk(st) && PassOk(st, comps, mi) && comps != []
    requires forall a, b :: 0 <= a < b < |comps| ==> comps[a] != comps[b]
    ensures r == MergeFrom(st, comps, mi, thr, first, 0)
  {
    r := st;
    var id := 0;
    while id < |st.spaces.meshes[mi].elems|
      invariant StoreOk(r) && PassOk(r, comps, mi)
      invariant |r.spaces.meshes[mi].elems| == |st.spaces.meshes[mi].elems|
      invariant 0 <= id <= |st.spaces.meshes[mi].elems|
      invariant MergeFrom(r, comps, mi, thr, first, id) == MergeFrom(st, comps, mi, thr, first, 0)
    {
      r := MergeElement(r, comps, mi, thr, first, id);
      id := id + 1;
    }
  }

  /** The demotion loop over every element id of mesh mi. */
  method DemotePass(st: Store, comps: seq<nat>, mi: nat, thr: real, first: ElementReference) returns (r: Store)
    requires StoreOk(st) && PassOk(st, comps, mi)
    requires forall a, b :: 0 <= a < b < |comps| ==> comps[a] != comps[b]
    ensures r == DemoteFrom(st, comps, mi, thr, first, 0)
  {
    r := st;
    var id := 0;
    while id < |st.spaces.meshes[mi].elems|
      invariant StoreOk(r) && PassOk(r, comps, mi) && r.spaces.meshes == st.spaces.meshes
      invariant 0 <= id <= |st.spaces.meshes[mi].elems|
      invariant DemoteFrom(r, comps, mi, thr, first, id) == DemoteFrom(st, comps, mi, thr, first, 0)
    {
      r := DemoteElement(r, comps, mi, thr, first, id);
      id := id + 1;
    }
  }

  /** unrefine on the spaces and the error table: one pass on a shared mesh,
      otherwise a pass per component. */
  method UnrefineStore(st: Store, thr: real, first: ElementReference) returns (r: Store)
    requires StoreOk(st) && |st.spaces.meshOf| == 2
    ensures r == Unrefined(st, thr, first)
  {
    var meshOf := st.spaces.meshOf;
    if meshOf[0] == meshOf[1] {
      r := MergePass(st, [0, 1], meshOf[0], thr, first);
      r := DemotePass(r, [0, 1], meshOf[0], thr, first);
    } else {
      r := MergePass(st, [0], meshOf[0], thr, first);
      r := DemotePass(r, [0], meshOf[0], thr, first);
      r := MergePass(r, [1], meshOf[1], thr, first);
      r := DemotePass(r, [1], meshOf[1], thr, first);
    }
  }
}
