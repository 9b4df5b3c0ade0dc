/** homogenize_shared_mesh_orders: on a mesh shared by several components,
    every component ends with the component-wise largest horizontal and
    vertical order of each active element. */
module Homogenization {
  import opened Refinement
  import opened QuadOrder
  import opened MeshModel
  import opened SpacesModel

  /** The horizontal (H2D_GET_H_ORDER) or the vertical (H2D_GET_V_ORDER)
      part of a quad order. */
  function Part(o: nat, vertical: bool): nat {
    if vertical then GetVOrder(o) else GetHOrder(o)
  }

  /** The largest part of element id's order over the components below n
      that live on mesh object m; 0 when there is none. */
  function GroupMax(orders: seq<map<int, nat>>, meshOf: seq<nat>, m: nat, id: int, vertical: bool, n: nat): (r: nat)
    requires n <= |meshOf| && n <= |orders|
    ensures !vertical ==> IsHOrder(r)
    ensures forall j :: 0 <= j < n && meshOf[j] == m ==> Part(OrderAt(orders[j], id), vertical) <= r
  {
    if n == 0 then 0
    else
      var prev := GroupMax(orders, meshOf, m, id, vertical, n - 1);
      if meshOf[n - 1] == m then Max(prev, Part(OrderAt(orders[n - 1], id), vertical)) else prev
  }

  /** The order homogenize_shared_mesh_orders leaves for component c and
      element id: for an active element of c's mesh, the quad order made of
      the largest horizontal and the largest vertical part over the
      components on that mesh (c included); otherwise the order as it was. */
  function Homogenized(s: Spaces, c: int, id: int): nat
    requires SpacesOk(s) && 0 <= c < |s.meshOf|
  {
    if IsActive(MeshOf(s, c), id) then
      MakeQuadOrder(GroupMax(s.orders, s.meshOf, s.meshOf[c], id, false, |s.meshOf|),
                    GroupMax(s.orders, s.meshOf, s.meshOf[c], id, true, |s.meshOf|))
    else Order(s, c, id)
  }

  /** The largest part is the part of some component on the mesh, when
      there is one. */
  lemma {:induction false} GroupMaxAttained(orders: seq<map<int, nat>>, meshOf: seq<nat>, m: nat, id: int, vertical: bool, n: nat)
    requires n <= |meshOf| && n <= |orders|
    requires exists j :: 0 <= j < n && meshOf[j] == m
    ensures exists j :: (0 <= j < n && meshOf[j] == m &&
      GroupMax(orders, meshOf, m, id, vertical, n) == Part(OrderAt(orders[j], id), vertical))
  {
    var last := Part(OrderAt(orders[n - 1], id), vertical);
    if exists j :: 0 <= j < n - 1 && meshOf[j] == m {
      GroupMaxAttained(orders, meshOf, m, id, vertical, n - 1);
      var j :| 0 <= j < n - 1 && meshOf[j] == m &&
        GroupMax(orders, meshOf, m, id, vertical, n - 1) == Part(OrderAt(orders[j], id), vertical);
      if meshOf[n - 1] == m && last > GroupMax(orders, meshOf, m, id, vertical, n - 1) {
        assert GroupMax(orders, meshOf, m, id, vertical, n) == last;
      } else {
        assert GroupMax(orders, meshOf, m, id, vertical, n) == Part(OrderAt(orders[j], id), vertical);
      }
    } else {
      assert meshOf[n - 1] == m;
      assert GroupMax(orders, meshOf, m, id, vertical, n - 1) == 0 by {
        GroupMaxEmpty(orders, meshOf, m, id, vertical, n - 1);
      }
      assert GroupMax(orders, meshOf, m, id, vertical, n) == last;
    }
  }

  /** With no component on the mesh below n, the largest part is 0. */
  lemma {:induction false} GroupMaxEmpty(orders: seq<map<int, nat>>, meshOf: seq<nat>, m: nat, id: int, vertical: bool, n: nat)
    requires n <= |meshOf| && n <= |orders|
    requires forall j :: 0 <= j < n ==> meshOf[j] != m
    ensures GroupMax(orders, meshOf, m, id, vertical, n) == 0
  {
    if n > 0 {
      GroupMaxEmpty(orders, meshOf, m, id, vertical, n - 1);
    }
  }

  /** Sharing components end with the same order for every element. */
  lemma HomogenizedAgree(s: Spaces, i: int, j: int, id: int)
    requires SpacesOk(s) && 0 <= i < |s.meshOf| && 0 <= j < |s.meshOf| && Shares(s.meshOf, j, i)
    ensures IsActive(MeshOf(s, i), id) ==> Homogenized(s, i, id) == Homogenized(s, j, id)
  {
  }

  /** For an active element, each component's horizontal and vertical
      orders are at least those every component sharing the mesh had, and
      each part is the part some component on the mesh had. */
  lemma HomogenizedDominates(s: Spaces, c: int, j: int, id: int)
    requires SpacesOk(s) && 0 <= c < |s.meshOf| && 0 <= j < |s.meshOf| && s.meshOf[j] == s.meshOf[c]
    requires IsActive(MeshOf(s, c), id)
    ensures GetHOrder(Homogenized(s, c, id)) >= GetHOrder(Order(s, j, id))
    ensures GetVOrder(Homogenized(s, c, id)) >= GetVOrder(Order(s, j, id))
    ensures exists k :: (0 <= k < |s.meshOf| && s.meshOf[k] == s.meshOf[c] &&
      GetHOrder(Homogenized(s, c, id)) == GetHOrder(Order(s, k, id)))
  {
    var gh := GroupMax(s.orders, s.meshOf, s.meshOf[c], id, false, |s.meshOf|);
    var gv := GroupMax(s.orders, s.meshOf, s.meshOf[c], id, true, |s.meshOf|);
    GetMakeRoundTrip(gh, gv);
    assert Part(OrderAt(s.orders[j], id), false) <= gh;
    assert Part(OrderAt(s.orders[j], id), true) <= gv;
    GroupMaxAttained(s.orders, s.meshOf, s.meshOf[c], id, false, |s.meshOf|);
  }

  /** A component that shares its mesh with no other keeps its orders. */
  lemma HomogenizedLoneUnchanged(s: Spaces, c: int, id: int)
    requires SpacesOk(s) && 0 <= c < |s.meshOf|
    requires forall j :: 0 <= j < |s.meshOf| ==> !Shares(s.meshOf, j, c)
    ensures Homogenized(s, c, id) == Order(s, c, id)
  {
    if IsActive(MeshOf(s, c), id) {
      var o := Order(s, c, id);
      GroupMaxOnly(s.orders, s.meshOf, c, id, false, |s.meshOf|);
      GroupMaxOnly(s.orders, s.meshOf, c, id, true, |s.meshOf|);
      MakeGetRoundTrip(o);
    }
  }

  /** With c alone on its mesh, the largest part is c's own. */
  lemma {:induction false} GroupMaxOnly(orders: seq<map<int, nat>>, meshOf: seq<nat>, c: int, id: int, vertical: bool, n: nat)
    requires n <= |meshOf| && n <= |orders| && 0 <= c < |meshOf|
    requires forall j :: 0 <= j < |meshOf| ==> !Shares(meshOf, j, c)
    ensures GroupMax(orders, meshOf, meshOf[c], id, vertical, n) == if c < n then Part(OrderAt(orders[c], id), vertical) else 0
  {
    if n > 0 {
      GroupMaxOnly(orders, meshOf, c, id, vertical, n - 1);
      assert meshOf[n - 1] == meshOf[c] ==> n - 1 == c by {
        assert !Shares(meshOf, n - 1, c);
      }
    }
  }

  /** While the pass is under way, each component on the mesh holds either
      its old order for the element or the homogenised one; the largest
      part over them is still the old largest part. */
  lemma {:induction false} GroupMaxStable(before: seq<map<int, nat>>, cur: seq<map<int, nat>>, meshOf: seq<nat>, m: nat, id: int,
                                          vertical: bool, n: nat)
    requires |before| == |cur| == |meshOf| && n <= |meshOf|
    requires forall j :: 0 <= j < |meshOf| && meshOf[j] == m ==>
      OrderAt(cur[j], id) == OrderAt(before[j], id) ||
      OrderAt(cur[j], id) == MakeQuadOrder(GroupMax(before, meshOf, m, id, false, |meshOf|), GroupMax(before, meshOf, m, id, true, |meshOf|))
    ensures GroupMax(before, meshOf, m, id, vertical, n) <= GroupMax(cur, meshOf, m, id, vertical, n) <=
      GroupMax(before, meshOf, m, id, vertical, |meshOf|)
  {
    var gh := GroupMax(before, meshOf, m, id, false, |meshOf|);
    var gv := GroupMax(before, meshOf, m, id, true, |meshOf|);
    var g := if vertical then gv else gh;
    GetMakeRoundTrip(gh, gv);
    forall j | 0 <= j < |meshOf| && meshOf[j] == m
      ensures Part(OrderAt(cur[j], id), vertical) == Part(OrderAt(before[j], id), vertical) ||
              Part(OrderAt(cur[j], id), vertical) == g
    {
    }
    GroupMaxBetween(before, cur, meshOf, m, id, vertical, n, g);
  }

  /** When each component on the mesh holds either its old part or the old
      largest part g, the largest part up to n lies between the old one and
      g. */
  lemma {:induction false} GroupMaxBetween(before: seq<map<int, nat>>, cur: seq<map<int, nat>>, meshOf: seq<nat>, m: nat, id: int,
                                           vertical: bool, n: nat, g: nat)
    requires |before| == |cur| == |meshOf| && n <= |meshOf|
    requires g == GroupMax(before, meshOf, m, id, vertical, |meshOf|)
    requires forall j :: 0 <= j < |meshOf| && meshOf[j] == m ==>
      Part(OrderAt(cur[j], id), vertical) == Part(OrderAt(before[j], id), vertical) ||
      Part(OrderAt(cur[j], id), vertical) == g
    ensures GroupMax(before, meshOf, m, id, vertical, n) <= GroupMax(cur, meshOf, m, id, vertical, n) <= g
  {
    if n > 0 {
      GroupMaxBetween(before, cur, meshOf, m, id, vertical, n - 1, g);
      if meshOf[n - 1] == m {
        assert Part(OrderAt(before[n - 1], id), vertical) <= g;
      }
    }
  }

  /** The pass has finished the components below i and, of component i, the
      element ids below k: those hold their homogenised orders, the rest
      their orders from before the pass. */
  ghost predicate MidPass(s: Spaces, cur: seq<map<int, nat>>, i: nat, k: int)
    requires SpacesOk(s)
  {
    |cur| == |s.orders| &&
    forall c, id :: 0 <= c < |cur| ==>
      OrderAt(cur[c], id) == if c < i || (c == i && 0 <= id < k) then Homogenized(s, c, id) else Order(s, c, id)
  }

  /** Midway through the pass, the largest parts for the next element of
      component i are those from before the pass: the components already
      done hold exactly those largest parts. */
  lemma MidPassReads(s: Spaces, cur: seq<map<int, nat>>, i: nat, k: int, vertical: bool)
    requires SpacesOk(s) && i < |s.meshOf| && MidPass(s, cur, i, k) && IsActive(MeshOf(s, i), k)
    ensures GroupMax(cur, s.meshOf, s.meshOf[i], k, vertical, |s.meshOf|) ==
      GroupMax(s.orders, s.meshOf, s.meshOf[i], k, vertical, |s.meshOf|)
  {
    var m := s.meshOf[i];
    forall j | 0 <= j < |s.meshOf| && s.meshOf[j] == m
      ensures OrderAt(cur[j], k) == OrderAt(s.orders[j], k) ||
        OrderAt(cur[j], k) == MakeQuadOrder(GroupMax(s.orders, s.meshOf, m, k, false, |s.meshOf|),
                                            GroupMax(s.orders, s.meshOf, m, k, true, |s.meshOf|))
    {
      assert MeshOf(s, j) == MeshOf(s, i);
    }
    GroupMaxStable(s.orders, cur, s.meshOf, m, k, vertical, |s.meshOf|);
  }

  /** The largest horizontal and vertical parts of element id over the
      components on component i's mesh, starting from i's own order as the
      inner loop of homogenize_shared_mesh_orders does. */
  method SharedMax(orders: seq<map<int, nat>>, meshOf: seq<nat>, i: nat, id: int) returns (h: nat, v: nat)
    requires |orders| == |meshOf| && i < |meshOf|
    ensures h == GroupMax(orders, meshOf, meshOf[i], id, false, |meshOf|)
    ensures v == GroupMax(orders, meshOf, meshOf[i], id, true, |meshOf|)
  {
    var own := OrderAt(orders[i], id);
    h, v := GetHOrder(own), GetVOrder(own);
    var j := 0;
    while j < |meshOf|
      invariant 0 <= j <= |meshOf|
      invariant h == Max(Part(own, false), GroupMax(orders, meshOf, meshOf[i], id, false, j))
      invariant v == Max(Part(own, true), GroupMax(orders, meshOf, meshOf[i], id, true, j))
    {
      if j != i && meshOf[j] == meshOf[i] {
        var o := OrderAt(orders[j], id);
        h := Max(h, GetHOrder(o));
        v := Max(v, GetVOrder(o));
      }
      j := j + 1;
    }
  }

  /** homogenize_shared_mesh_orders: component by component, every active
      element of the component's mesh, by increasing id, takes the largest
      horizontal and vertical orders over the components sharing the mesh,
      read from the orders as the pass has left them so far. */
  method HomogenizeSharedMeshOrders(s: Spaces) returns (r: Spaces)
    requires SpacesOk(s)
    ensures SpacesOk(r) && r.meshes == s.meshes && r.meshOf == s.meshOf
    ensures forall c, id :: 0 <= c < |s.meshOf| ==> Order(r, c, id) == Homogenized(s, c, id)
  {
    var cur := s.orders;
    var i := 0;
    while i < |s.meshOf|
      invariant 0 <= i <= |s.meshOf|
      invariant MidPass(s, cur, i, 0)
    {
      cur := HomogenizeComponent(s, cur, i);
      i := i + 1;
    }
    r := s.(orders := cur);
    assert forall c, id :: 0 <= c < |s.meshOf| ==> OrderAt(cur[c], id) == Homogenized(s, c, id);
  }

  /** The pass over the active elements of component i. */
  method HomogenizeComponent(s: Spaces, cur: seq<map<int, nat>>, i: nat) returns (r: seq<map<int, nat>>)
    requires SpacesOk(s) && i < |s.meshOf| && MidPass(s, cur, i, 0)
    ensures MidPass(s, r, i + 1, 0)
  {
    r := cur;
    var mesh := MeshOf(s, i);
    var k := 0;
    while k < |mesh.elems|
      invariant 0 <= k <= |mesh.elems|
      invariant MidPass(s, r, i, k)
    {
      if IsActive(mesh, k) {
        MidPassReads(s, r, i, k, false);
        MidPassReads(s, r, i, k, true);
        var h, v := SharedMax(r, s.meshOf, i, k);
        var o: nat := MakeQuadOrder(h, v);
        var row: map<int, nat> := r[i][k := o];
        r := r[i := row];
      }
      k := k + 1;
    }
  }
}
