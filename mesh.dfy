/** The mesh the adaptivity engine refines and coarsens, reduced to what the
    engine observes: elements indexed by id, each used or retired, active
    (a leaf) or inactive (split into sons), with four son slots and a
    curved-boundary flag. Mesh internals (geometry, neighbours,
    regularisation) are not part of this model. */
module MeshModel {
  import opened Refinement

  /** An empty son slot (a NULL son pointer). */
  const NoSon: int := -1

  const NoSons: seq<int> := [NoSon, NoSon, NoSon, NoSon]

  datatype Element = Element(used: bool, active: bool, sons: seq<int>, curved: bool)

  datatype Mesh = Mesh(elems: seq<Element>)

  /** Every element has four son slots, empty for an active element; a
      filled slot names a younger element of the same mesh, and no two
      slots name the same son. */
  predicate WellFormed(m: Mesh) {
    forall id :: 0 <= id < |m.elems| ==> SonsOk(m, id)
  }

  predicate SonsOk(m: Mesh, id: int)
    requires 0 <= id < |m.elems|
  {
    |m.elems[id].sons| == MaxElementSons &&
    (m.elems[id].used && m.elems[id].active ==> m.elems[id].sons == NoSons) &&
    (forall k :: 0 <= k < MaxElementSons ==>
      m.elems[id].sons[k] == NoSon || id < m.elems[id].sons[k] < |m.elems|) &&
    forall k, l :: 0 <= k < l < MaxElementSons && m.elems[id].sons[k] != NoSon ==>
      m.elems[id].sons[k] != m.elems[id].sons[l]
  }

  /** get_max_element_id: every element id lies below it. */
  function MaxElementId(m: Mesh): nat {
    |m.elems|
  }

  predicate IsActive(m: Mesh, id: int) {
    0 <= id < |m.elems| && m.elems[id].used && m.elems[id].active
  }

  predicate IsInactive(m: Mesh, id: int) {
    0 <= id < |m.elems| && m.elems[id].used && !m.elems[id].active
  }

  /** The son in slot k of element id, or NoSon. */
  function Son(m: Mesh, id: int, k: int): (s: int)
    requires WellFormed(m) && 0 <= id < |m.elems| && 0 <= k < MaxElementSons
    ensures s == NoSon || id < s < |m.elems|
  {
    assert SonsOk(m, id);
    m.elems[id].sons[k]
  }

  /** Number of active elements with id below n. */
  function CountActive(m: Mesh, n: nat): (c: nat)
    requires n <= |m.elems|
    ensures c <= n
  {
    if n == 0 then 0 else CountActive(m, n - 1) + (if IsActive(m, n - 1) then 1 else 0)
  }

  /** The son slots a split fills with new ids starting at `first`. */
  function SplitSons(split: Split, first: int): seq<int>
  {
    match split
    case H => [first, first + 1, first + 2, first + 3]
    case AnisoH => [first, first + 1, NoSon, NoSon]
    case AnisoV => [NoSon, NoSon, first, first + 1]
    case P => NoSons
  }

  /** Number of sons a split creates. */
  function SplitSonCount(split: Split): nat
  {
    match split
    case H => 4
    case AnisoH => 2
    case AnisoV => 2
    case P => 0
  }

  /** refine_element_id: an active element becomes inactive and its new
      sons, fresh ids appended to the mesh, are active leaves. */
  function RefineElement(m: Mesh, id: int, split: Split): (r: Mesh)
    requires WellFormed(m) && IsActive(m, id) && split != P
    ensures WellFormed(r)
    ensures |r.elems| == |m.elems| + SplitSonCount(split)
    ensures IsInactive(r, id) && r.elems[id].sons == SplitSons(split, |m.elems|)
    ensures forall k :: 0 <= k < MaxElementSons && r.elems[id].sons[k] != NoSon ==>
      IsActive(r, r.elems[id].sons[k]) && r.elems[id].sons[k] >= |m.elems|
    ensures forall e :: 0 <= e < |m.elems| && e != id ==> r.elems[e] == m.elems[e]
  {
    var n := |m.elems|;
    var parent := m.elems[id].(active := false, sons := SplitSons(split, n));
    var leaf := Element(true, true, NoSons, m.elems[id].curved);
    var born := seq(SplitSonCount(split), _ => leaf);
    var r := Mesh(m.elems[id := parent] + born);
    assert forall e :: 0 <= e < |r.elems| ==> SonsOk(r, e) by {
      forall e | 0 <= e < |r.elems| ensures SonsOk(r, e) {
        if e < n && e != id {
          assert r.elems[e] == m.elems[e];
          assert SonsOk(m, e);
        } else if e == id {
          SplitSonsFresh(split, n);
        } else {
          assert r.elems[e] == leaf;
        }
      }
    }
    r
  }

  /** The slots a split fills hold distinct ids from first on, below
      first plus the number of sons. */
  lemma SplitSonsFresh(split: Split, first: int)
    requires split != P
    ensures |SplitSons(split, first)| == MaxElementSons
    ensures forall k :: 0 <= k < MaxElementSons && SplitSons(split, first)[k] != NoSon ==>
      first <= SplitSons(split, first)[k] < first + SplitSonCount(split)
    ensures forall k, l :: 0 <= k < l < MaxElementSons && SplitSons(split, first)[k] != NoSon ==>
      SplitSons(split, first)[k] != SplitSons(split, first)[l]
  {
  }

  /** unrefine_element_id: an inactive element becomes active again and its
      sons are retired. An element that is already active is left alone. */
  function UnrefineElement(m: Mesh, id: int): (r: Mesh)
    requires WellFormed(m) && 0 <= id < |m.elems|
    ensures WellFormed(r) && |r.elems| == |m.elems|
    ensures m.elems[id].used ==> IsActive(r, id) && r.elems[id].sons == NoSons
    ensures forall k :: IsInactive(m, id) && 0 <= k < MaxElementSons && Son(m, id, k) != NoSon ==>
      !r.elems[Son(m, id, k)].used
    ensures forall e :: 0 <= e < |m.elems| && e != id && e !in m.elems[id].sons ==> r.elems[e] == m.elems[e]
  {
    if !IsInactive(m, id) then
      assert SonsOk(m, id);
      m
    else
      var sons := m.elems[id].sons;
      var r := Mesh(seq(|m.elems|, e requires 0 <= e < |m.elems| =>
        if e == id then m.elems[e].(active := true, sons := NoSons)
        else if e in sons then m.elems[e].(used := false)
        else m.elems[e]));
      assert forall e :: 0 <= e < |r.elems| ==> SonsOk(r, e) by {
        forall e | 0 <= e < |r.elems| ensures SonsOk(r, e) {
          assert SonsOk(m, e);
        }
      }
      assert SonsOk(m, id);
      assert forall k :: 0 <= k < MaxElementSons ==> Son(m, id, k) == sons[k];
      r
  }
}
