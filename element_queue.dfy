/** The regular queue of the adaptivity engine: every active (element,
    component) pair, ordered by decreasing element error. */
module ElementQueue {
  import opened Refinement
  import opened MeshModel

  /** errors[comp][id]; zero outside the table. */
  function ErrorOf(errors: seq<seq<real>>, r: ElementReference): real {
    if 0 <= r.comp < |errors| && 0 <= r.id < |errors[r.comp]| then errors[r.comp][r.id] else 0.0
  }

  /** The queue order: a larger error comes first (CompareElements). */
  ghost predicate SortedByError(errors: seq<seq<real>>, q: seq<ElementReference>) {
    forall i, j :: 0 <= i < j < |q| ==> ErrorOf(errors, q[i]) >= ErrorOf(errors, q[j])
  }

  /** References (id, comp) of the active elements of `m` with id below n,
      by increasing id (the order of for_all_active_elements). */
  function ActiveRefs(m: Mesh, comp: int, n: nat): seq<ElementReference>
    requires n <= |m.elems|
  {
    if n == 0 then []
    else ActiveRefs(m, comp, n - 1) + (if IsActive(m, n - 1) then [ElementReference(n - 1, comp)] else [])
  }

  /** num_act_elems: the number of active elements summed over the meshes
      of components 0 .. c-1 (a shared mesh counts once per component). */
  function TotalActive(meshes: seq<Mesh>, meshOf: seq<nat>, c: nat): nat
    requires c <= |meshOf| && forall i :: 0 <= i < |meshOf| ==> meshOf[i] < |meshes|
  {
    if c == 0 then 0
    else
      var m := meshes[meshOf[c - 1]];
      TotalActive(meshes, meshOf, c - 1) + CountActive(m, |m.elems|)
  }

  /** The fill of the regular queue before sorting: components 0 .. c-1 in
      order, each with its active elements by increasing id. */
  function AllActiveRefs(meshes: seq<Mesh>, meshOf: seq<nat>, c: nat): seq<ElementReference>
    requires c <= |meshOf| && forall i :: 0 <= i < |meshOf| ==> meshOf[i] < |meshes|
  {
    if c == 0 then []
    else
      var m := meshes[meshOf[c - 1]];
      AllActiveRefs(meshes, meshOf, c - 1) + ActiveRefs(m, c - 1, |m.elems|)
  }

  /** One entry per active element. */
  lemma {:induction false} ActiveRefsCount(m: Mesh, comp: int, n: nat)
    requires n <= |m.elems|
    ensures |ActiveRefs(m, comp, n)| == CountActive(m, n)
  {
    if n > 0 {
      ActiveRefsCount(m, comp, n - 1);
    }
  }

  /** The fill has num_act_elems entries. */
  lemma {:induction false} AllActiveRefsCount(meshes: seq<Mesh>, meshOf: seq<nat>, c: nat)
    requires c <= |meshOf| && forall i :: 0 <= i < |meshOf| ==> meshOf[i] < |meshes|
    ensures |AllActiveRefs(meshes, meshOf, c)| == TotalActive(meshes, meshOf, c)
  {
    if c > 0 {
      var m := meshes[meshOf[c - 1]];
      AllActiveRefsCount(meshes, meshOf, c - 1);
      ActiveRefsCount(m, c - 1, |m.elems|);
    }
  }

  /** The number of occurrences of x in q. */
  function Occurrences(q: seq<ElementReference>, x: ElementReference): nat {
    if q == [] then 0
    else Occurrences(q[..|q| - 1], x) + (if q[|q| - 1] == x then 1 else 0)
  }

  lemma {:induction false} OccurrencesConcat(a: seq<ElementReference>, b: seq<ElementReference>, x: ElementReference)
    ensures Occurrences(a + b, x) == Occurrences(a, x) + Occurrences(b, x)
  {
    if b != [] {
      assert (a + b)[..|a + b| - 1] == a + b[..|b| - 1];
      OccurrencesConcat(a, b[..|b| - 1], x);
    } else {
      assert a + b == a;
    }
  }

  lemma {:induction false} OccurrencesMultiset(q: seq<ElementReference>, x: ElementReference)
    ensures Occurrences(q, x) == multiset(q)[x]
  {
    if q != [] {
      OccurrencesMultiset(q[..|q| - 1], x);
      assert q == q[..|q| - 1] + [q[|q| - 1]];
      assert multiset(q) == multiset(q[..|q| - 1]) + multiset{q[|q| - 1]};
    }
  }

  lemma {:induction false} ActiveRefsOccurrences(m: Mesh, comp: int, n: nat, r: ElementReference)
    requires n <= |m.elems|
    ensures Occurrences(ActiveRefs(m, comp, n), r) ==
      if r.comp == comp && 0 <= r.id < n && IsActive(m, r.id) then 1 else 0
  {
    if n > 0 {
      ActiveRefsOccurrences(m, comp, n - 1, r);
      var a := ActiveRefs(m, comp, n - 1);
      var b := if IsActive(m, n - 1) then [ElementReference(n - 1, comp)] else [];
      OccurrencesConcat(a, b, r);
      if b != [] {
        assert b[..0] == [];
      }
    }
  }

  lemma {:induction false} AllActiveRefsOccurrences(meshes: seq<Mesh>, meshOf: seq<nat>, c: nat, r: ElementReference)
    requires c <= |meshOf| && forall i :: 0 <= i < |meshOf| ==> meshOf[i] < |meshes|
    ensures Occurrences(AllActiveRefs(meshes, meshOf, c), r) ==
      if 0 <= r.comp < c && IsActive(meshes[meshOf[r.comp]], r.id) then 1 else 0
  {
    if c > 0 {
      var m := meshes[meshOf[c - 1]];
      AllActiveRefsOccurrences(meshes, meshOf, c - 1, r);
      ActiveRefsOccurrences(m, c - 1, |m.elems|, r);
      OccurrencesConcat(AllActiveRefs(meshes, meshOf, c - 1), ActiveRefs(m, c - 1, |m.elems|), r);
    }
  }

  /** The fill holds every active (element, component) pair exactly once and
      nothing else. */
  lemma AllActiveRefsExact(meshes: seq<Mesh>, meshOf: seq<nat>, c: nat, r: ElementReference)
    requires c <= |meshOf| && forall i :: 0 <= i < |meshOf| ==> meshOf[i] < |meshes|
    ensures multiset(AllActiveRefs(meshes, meshOf, c))[r] ==
      if 0 <= r.comp < c && IsActive(meshes[meshOf[r.comp]], r.id) then 1 else 0
  {
    AllActiveRefsOccurrences(meshes, meshOf, c, r);
    OccurrencesMultiset(AllActiveRefs(meshes, meshOf, c), r);
  }

  /** Insert r into a queue sorted by decreasing error, after the entries
      whose error is at least r's. */
  function InsertByError(errors: seq<seq<real>>, r: ElementReference, s: seq<ElementReference>): (t: seq<ElementReference>)
    ensures multiset(t) == multiset(s) + multiset{r}
    ensures |t| > 0 && (t[0] == r || (|s| > 0 && t[0] == s[0]))
  {
    if s == [] then [r]
    else if ErrorOf(errors, s[0]) < ErrorOf(errors, r) then [r] + s
    else
      assert s == [s[0]] + s[1..];
      [s[0]] + InsertByError(errors, r, s[1..])
  }

  /** Inserting into a sorted queue keeps it sorted. */
  lemma {:induction false} InsertKeepsSorted(errors: seq<seq<real>>, r: ElementReference, s: seq<ElementReference>)
    requires SortedByError(errors, s)
    ensures SortedByError(errors, InsertByError(errors, r, s))
  {
    if s != [] && ErrorOf(errors, s[0]) >= ErrorOf(errors, r) {
      SortedSplit(errors, s[0], s[1..]);
      InsertKeepsSorted(errors, r, s[1..]);
      InsertBounded(errors, r, s[1..], ErrorOf(errors, s[0]));
      SortedSplit(errors, s[0], InsertByError(errors, r, s[1..]));
    }
  }

  /** A queue led by x is sorted exactly when its tail is and no entry of
      the tail has a larger error than x. */
  lemma SortedSplit(errors: seq<seq<real>>, x: ElementReference, rest: seq<ElementReference>)
    ensures SortedByError(errors, [x] + rest) <==>
      SortedByError(errors, rest) && forall k :: 0 <= k < |rest| ==> ErrorOf(errors, rest[k]) <= ErrorOf(errors, x)
  {
    var t := [x] + rest;
    if SortedByError(errors, t) {
      forall i, j | 0 <= i < j < |rest| ensures ErrorOf(errors, rest[i]) >= ErrorOf(errors, rest[j]) {
        assert rest[i] == t[i + 1] && rest[j] == t[j + 1];
      }
      forall k | 0 <= k < |rest| ensures ErrorOf(errors, rest[k]) <= ErrorOf(errors, x) {
        assert t[0] == x && rest[k] == t[k + 1];
        assert ErrorOf(errors, t[0]) >= ErrorOf(errors, t[k + 1]);
      }
    }
    if SortedByError(errors, rest) && forall k :: 0 <= k < |rest| ==> ErrorOf(errors, rest[k]) <= ErrorOf(errors, x) {
      forall i, j | 0 <= i < j < |t| ensures ErrorOf(errors, t[i]) >= ErrorOf(errors, t[j]) {
        assert t[j] == rest[j - 1];
        if i > 0 {
          assert t[i] == rest[i - 1];
        }
      }
    }
  }

  /** Inserting below a bound e into a queue below e stays below e. */
  lemma {:induction false} InsertBounded(errors: seq<seq<real>>, r: ElementReference, s: seq<ElementReference>, e: real)
    requires ErrorOf(errors, r) <= e
    requires forall k :: 0 <= k < |s| ==> ErrorOf(errors, s[k]) <= e
    ensures forall k :: 0 <= k < |InsertByError(errors, r, s)| ==> ErrorOf(errors, InsertByError(errors, r, s)[k]) <= e
  {
    var t := InsertByError(errors, r, s);
    if s == [] {
    } else if ErrorOf(errors, s[0]) < ErrorOf(errors, r) {
      forall k | 0 < k < |t| ensures ErrorOf(errors, t[k]) <= e {
        assert t[k] == s[k - 1];
      }
    } else {
      var rest := InsertByError(errors, r, s[1..]);
      InsertBounded(errors, r, s[1..], e);
      assert t == [s[0]] + rest;
      forall k | 0 < k < |t| ensures ErrorOf(errors, t[k]) <= e {
        assert t[k] == rest[k - 1];
      }
    }
  }

  /** The sort of fill_regular_queue: a stable insertion sort by decreasing
      error. std::sort leaves the order of equal errors unspecified; this
      model keeps them in fill order. */
  function SortByError(errors: seq<seq<real>>, q: seq<ElementReference>): (t: seq<ElementReference>)
    ensures multiset(t) == multiset(q)
    ensures SortedByError(errors, t)
  {
    if q == [] then []
    else
      assert q == q[..|q| - 1] + [q[|q| - 1]];
      var sorted := SortByError(errors, q[..|q| - 1]);
      InsertKeepsSorted(errors, q[|q| - 1], sorted);
      InsertByError(errors, q[|q| - 1], sorted)
  }
}
