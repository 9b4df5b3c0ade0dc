/** apply_refinement / apply_refinements: carrying out a decision on the
    mesh and the orders of its component. */
module Application {
  import opened Refinement
  import opened MeshModel
  import opened SpacesModel

  /** The decision names a component and an existing (used) element of that
      component's mesh, so get_element returns a live element. */
  predicate Targets(s: Spaces, d: ElementToRefine) {
    0 <= d.comp < |s.meshOf| && s.meshOf[d.comp] < |s.meshes| &&
    0 <= d.id < |s.meshes[s.meshOf[d.comp]].elems| && s.meshes[s.meshOf[d.comp]].elems[d.id].used
  }

  /** The son slots whose orders a split sets, in the order of p: all four
      for H, the first two for the split of value 1, the last two for the
      other anisotropic split. */
  function OrderSlots(split: Split): (slots: seq<nat>)
    ensures forall i :: 0 <= i < |slots| ==> slots[i] < MaxElementSons
    ensures |slots| == SplitSonCount(split) <= 4
    ensures forall a, b :: 0 <= a < b < |slots| ==> slots[a] < slots[b]
  {
    match split
    case H => [0, 1, 2, 3]
    case AnisoH => [0, 1]
    case AnisoV => [2, 3]
    case P => []
  }

  /** The sons named in slots[i..]. */
  function WrittenSons(sons: seq<int>, slots: seq<nat>, i: nat): set<int>
    requires |sons| == MaxElementSons && forall k :: 0 <= k < |slots| ==> slots[k] < MaxElementSons
    requires i <= |slots|
    decreases |slots| - i
  {
    if i == |slots| then {}
    else (if sons[slots[i]] == NoSon then {} else {sons[slots[i]]}) + WrittenSons(sons, slots, i + 1)
  }

  /** set_element_order_internal(son in slots[k], p[k]) for k = i, i+1, ..;
      an empty slot is skipped. */
  function SetSonOrders(orders: map<int, nat>, sons: seq<int>, slots: seq<nat>, p: Orders4, i: nat): map<int, nat>
    requires |sons| == MaxElementSons && |slots| <= 4 && forall k :: 0 <= k < |slots| ==> slots[k] < MaxElementSons
    requires i <= |slots|
    decreases |slots| - i
  {
    if i == |slots| then orders
    else
      var son := sons[slots[i]];
      SetSonOrders(if son == NoSon then orders else orders[son := p[i]], sons, slots, p, i + 1)
  }

  /** Setting the son orders leaves every other element's entry as it was. */
  lemma {:induction false} SetSonOrdersFrame(orders: map<int, nat>, sons: seq<int>, slots: seq<nat>, p: Orders4, i: nat, x: int)
    requires |sons| == MaxElementSons && |slots| <= 4 && forall k :: 0 <= k < |slots| ==> slots[k] < MaxElementSons
    requires i <= |slots| && x !in WrittenSons(sons, slots, i)
    ensures x in SetSonOrders(orders, sons, slots, p, i) <==> x in orders
    ensures x in orders ==> SetSonOrders(orders, sons, slots, p, i)[x] == orders[x]
    decreases |slots| - i
  {
    if i < |slots| {
      var son := sons[slots[i]];
      SetSonOrdersFrame(if son == NoSon then orders else orders[son := p[i]], sons, slots, p, i + 1, x);
    }
  }

  /** The outcome depends only on the entries the writes do not touch. */
  lemma {:induction false} SetSonOrdersCongruent(a: map<int, nat>, b: map<int, nat>, sons: seq<int>, slots: seq<nat>, p: Orders4, i: nat)
    requires |sons| == MaxElementSons && |slots| <= 4 && forall k :: 0 <= k < |slots| ==> slots[k] < MaxElementSons
    requires i <= |slots|
    requires forall x :: x !in WrittenSons(sons, slots, i) ==> (x in a <==> x in b)
    requires forall x :: x !in WrittenSons(sons, slots, i) && x in a ==> a[x] == b[x]
    ensures SetSonOrders(a, sons, slots, p, i) == SetSonOrders(b, sons, slots, p, i)
    decreases |slots| - i
  {
    if i == |slots| {
      assert forall x :: x in a <==> x in b;
      assert a.Keys == b.Keys;
      assert forall x :: x in a ==> a[x] == b[x];
    } else {
      var son := sons[slots[i]];
      var a' := if son == NoSon then a else a[son := p[i]];
      var b' := if son == NoSon then b else b[son := p[i]];
      SetSonOrdersCongruent(a', b', sons, slots, p, i + 1);
    }
  }

  /** Setting the son orders twice is setting them once. */
  lemma SetSonOrdersIdempotent(orders: map<int, nat>, sons: seq<int>, slots: seq<nat>, p: Orders4)
    requires |sons| == MaxElementSons && |slots| <= 4 && forall k :: 0 <= k < |slots| ==> slots[k] < MaxElementSons
    ensures SetSonOrders(SetSonOrders(orders, sons, slots, p, 0), sons, slots, p, 0) == SetSonOrders(orders, sons, slots, p, 0)
  {
    var once := SetSonOrders(orders, sons, slots, p, 0);
    forall x | x !in WrittenSons(sons, slots, 0)
      ensures (x in once <==> x in orders) && (x in once ==> once[x] == orders[x])
    {
      SetSonOrdersFrame(orders, sons, slots, p, 0, x);
    }
    SetSonOrdersCongruent(once, orders, sons, slots, p, 0);
  }

  /** With distinct sons, the son in slots[k] ends with p[k]. */
  lemma {:induction false} SetSonOrdersValue(orders: map<int, nat>, sons: seq<int>, slots: seq<nat>, p: Orders4, i: nat, k: nat)
    requires |sons| == MaxElementSons && |slots| <= 4 && forall k :: 0 <= k < |slots| ==> slots[k] < MaxElementSons
    requires forall a, b :: 0 <= a < b < |slots| ==> slots[a] != slots[b]
    requires forall a, b :: 0 <= a < b < MaxElementSons && sons[a] != NoSon ==> sons[a] != sons[b]
    requires i <= k < |slots| && sons[slots[k]] != NoSon
    ensures OrderAt(SetSonOrders(orders, sons, slots, p, i), sons[slots[k]]) == p[k]
    decreases |slots| - i
  {
    var son := sons[slots[i]];
    var next := if son == NoSon then orders else orders[son := p[i]];
    if k == i {
      assert sons[slots[k]] !in WrittenSons(sons, slots, i + 1) by {
        WrittenSonsAfter(sons, slots, i + 1, k);
      }
      SetSonOrdersFrame(next, sons, slots, p, i + 1, sons[slots[k]]);
    } else {
      SetSonOrdersValue(next, sons, slots, p, i + 1, k);
    }
  }

  /** WrittenSons(.., i) holds only sons of slots from i on. */
  lemma {:induction false} WrittenSonsAfter(sons: seq<int>, slots: seq<nat>, i: nat, k: nat)
    requires |sons| == MaxElementSons && forall k :: 0 <= k < |slots| ==> slots[k] < MaxElementSons
    requires forall a, b :: 0 <= a < b < |slots| ==> slots[a] != slots[b]
    requires forall a, b :: 0 <= a < b < MaxElementSons && sons[a] != NoSon ==> sons[a] != sons[b]
    requires k < i <= |slots| && sons[slots[k]] != NoSon
    ensures sons[slots[k]] !in WrittenSons(sons, slots, i)
    decreases |slots| - i
  {
    if i < |slots| {
      WrittenSonsAfter(sons, slots, i + 1, k);
      assert slots[k] != slots[i];
      if slots[k] < slots[i] {
        assert sons[slots[k]] != sons[slots[i]];
      } else if sons[slots[i]] != NoSon {
        assert sons[slots[i]] != sons[slots[k]];
      }
    }
  }

  /** apply_refinement for one decision: a P split sets the element's
      order to p[0]; any other split first refines the element if it is
      still active (the split of value 1 keeping sons 0 and 1), then sets
      the orders of the sons its slots name from p. */
  function ApplyOne(s: Spaces, d: ElementToRefine): (r: Spaces)
    requires SpacesOk(s) && Targets(s, d)
    ensures SpacesOk(r) && r.meshOf == s.meshOf
    ensures forall e :: Targets(s, e) ==> Targets(r, e)
  {
    var m := s.meshOf[d.comp];
    var mesh := s.meshes[m];
    if d.split == P then
      s.(orders := s.orders[d.comp := s.orders[d.comp][d.id := d.p[0]]])
    else
      var mesh' := if IsActive(mesh, d.id) then RefineElement(mesh, d.id, d.split) else mesh;
      assert SonsOk(mesh', d.id);
      var r := s.(meshes := s.meshes[m := mesh'],
                  orders := s.orders[d.comp := SetSonOrders(s.orders[d.comp], mesh'.elems[d.id].sons, OrderSlots(d.split), d.p, 0)]);
      assert forall e :: Targets(s, e) ==> Targets(r, e) by {
        forall e | Targets(s, e) ensures Targets(r, e) {
          if s.meshOf[e.comp] == m && e.id != d.id && IsActive(mesh, d.id) {
            assert mesh'.elems[e.id] == mesh.elems[e.id];
          }
        }
      }
      r
  }

  /** A P split sets the element's order to p[0] and changes nothing else. */
  lemma ApplyPSetsOrder(s: Spaces, d: ElementToRefine, c: int, id: int)
    requires SpacesOk(s) && Targets(s, d) && d.split == P && 0 <= c < |s.orders|
    ensures ApplyOne(s, d).meshes == s.meshes
    ensures Order(ApplyOne(s, d), c, id) == if c == d.comp && id == d.id then d.p[0] else Order(s, c, id)
  {
  }

  /** Any other split leaves the element inactive, with the sons of the
      refinement (fresh ids) when it was active. */
  lemma ApplySplitRefines(s: Spaces, d: ElementToRefine)
    requires SpacesOk(s) && Targets(s, d) && d.split != P
    ensures IsInactive(MeshOf(ApplyOne(s, d), d.comp), d.id)
    ensures IsActive(MeshOf(s, d.comp), d.id) ==>
      MeshOf(ApplyOne(s, d), d.comp).elems[d.id].sons == SplitSons(d.split, |MeshOf(s, d.comp).elems|)
  {
  }

  /** ... and the son in the k-th slot of the split gets the order p[k]. */
  lemma ApplySplitSetsSons(s: Spaces, d: ElementToRefine, k: nat)
    requires SpacesOk(s) && Targets(s, d) && d.split != P && k < SplitSonCount(d.split)
    ensures var son := Son(MeshOf(ApplyOne(s, d), d.comp), d.id, OrderSlots(d.split)[k]);
      son != NoSon ==> Order(ApplyOne(s, d), d.comp, son) == d.p[k]
  {
    var m := s.meshOf[d.comp];
    var mesh := s.meshes[m];
    var mesh' := if IsActive(mesh, d.id) then RefineElement(mesh, d.id, d.split) else mesh;
    assert SonsOk(mesh', d.id);
    var slots := OrderSlots(d.split);
    var sons := mesh'.elems[d.id].sons;
    assert ApplyOne(s, d).orders[d.comp] == SetSonOrders(s.orders[d.comp], sons, slots, d.p, 0);
    assert Son(MeshOf(ApplyOne(s, d), d.comp), d.id, slots[k]) == sons[slots[k]];
    if sons[slots[k]] != NoSon {
      SetSonOrdersValue(s.orders[d.comp], sons, slots, d.p, 0, k);
    }
  }

  /** Only the decision's component and its mesh change: the orders of
      every other component and every other mesh are as they were. */
  lemma ApplyFrame(s: Spaces, d: ElementToRefine, c: int)
    requires SpacesOk(s) && Targets(s, d) && 0 <= c < |s.meshOf| && c != d.comp
    ensures ApplyOne(s, d).orders[c] == s.orders[c]
    ensures s.meshOf[c] != s.meshOf[d.comp] ==> MeshOf(ApplyOne(s, d), c) == MeshOf(s, c)
  {
  }

  /** Replaying a decision changes nothing: a refined element is no longer
      active, so only the same orders are set again. */
  lemma ApplyIdempotent(s: Spaces, d: ElementToRefine)
    requires SpacesOk(s) && Targets(s, d)
    ensures ApplyOne(ApplyOne(s, d), d) == ApplyOne(s, d)
  {
    var r := ApplyOne(s, d);
    if d.split != P {
      var m := s.meshOf[d.comp];
      var mesh := s.meshes[m];
      var mesh' := if IsActive(mesh, d.id) then RefineElement(mesh, d.id, d.split) else mesh;
      assert SonsOk(mesh', d.id);
      assert r.meshes[m] == mesh';
      assert !IsActive(mesh', d.id);
      var sons := mesh'.elems[d.id].sons;
      SetSonOrdersIdempotent(s.orders[d.comp], sons, OrderSlots(d.split), d.p);
      assert r.meshes[m := mesh'] == r.meshes;
    } else {
      assert r.orders[d.comp][d.id := d.p[0]] == r.orders[d.comp];
      assert r.orders[d.comp := r.orders[d.comp][d.id := d.p[0]]] == r.orders;
    }
  }

  /** apply_refinements: the decisions applied in list order. */
  function ApplyAll(s: Spaces, ds: seq<ElementToRefine>): (r: Spaces)
    requires SpacesOk(s) && forall k :: 0 <= k < |ds| ==> Targets(s, ds[k])
    ensures SpacesOk(r) && r.meshOf == s.meshOf
    ensures forall e :: Targets(s, e) ==> Targets(r, e)
  {
    if ds == [] then s
    else
      var prev := ApplyAll(s, ds[..|ds| - 1]);
      ApplyOne(prev, ds[|ds| - 1])
  }
}
