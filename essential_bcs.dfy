/** The registry of essential (Dirichlet) boundary conditions: an ordered
    list of conditions and a cache from boundary marker to the condition
    that declares it, rebuilt from the whole list on every addition. A
    marker declared twice is fatal. */
module BoundaryConditions {
  import opened Wrappers

  /** Which class a condition was built as: the base class, the constant
      default, or the non-constant default holding an exact solution,
      given here as its values. */
  datatype ConditionKind = Plain | Constant | NonConstant(exactSolution: (real, real) -> real)

  /** The copy loop of the marker-vector constructor of
      DefaultEssentialBCNonConst as written: it runs while i is below the
      size of the member being filled (`dst`), not below the size of the
      argument, and appends src[i] each time; it is cut off at the end of
      src. */
  function CopyWhileBelowTarget(dst: seq<string>, src: seq<string>, i: nat): seq<string>
    decreases |src| - i
  {
    if i < |dst| && i < |src| then CopyWhileBelowTarget(dst + [src[i]], src, i + 1) else dst
  }

  /** Starting from an empty member, the loop as written copies nothing:
      every non-empty marker list is lost. */
  lemma CopyIntoEmptyLosesMarkers(src: seq<string>)
    ensures CopyWhileBelowTarget([], src, 0) == []
    ensures src != [] ==> CopyWhileBelowTarget([], src, 0) != src
  {
  }

  class EssentialBoundaryCondition {
    var markers: seq<string>
    var currentTime: real
    var valueConst: real
    var kind: ConditionKind

    /** EssentialBoundaryCondition(markers). */
    constructor FromMarkers(ms: seq<string>)
      ensures markers == ms && currentTime == 0.0 && valueConst == 0.0 && kind == Plain
    {
      markers := ms;
      currentTime := 0.0;
      valueConst := 0.0;
      kind := Plain;
    }

    /** EssentialBoundaryCondition(marker). */
    constructor FromMarker(m: string)
      ensures markers == [m] && currentTime == 0.0 && valueConst == 0.0 && kind == Plain
    {
      markers := [m];
      currentTime := 0.0;
      valueConst := 0.0;
      kind := Plain;
    }

    /** DefaultEssentialBCConst(markers, value_const). */
    constructor ConstFromMarkers(ms: seq<string>, value: real)
      ensures markers == ms && currentTime == 0.0 && valueConst == value && kind == Constant
    {
      markers := ms;
      currentTime := 0.0;
      valueConst := value;
      kind := Constant;
    }

    /** DefaultEssentialBCConst(marker, value_const): the base is built
        with no marker, then the value is stored and the marker pushed. */
    constructor ConstFromMarker(m: string, value: real)
      ensures markers == [m] && currentTime == 0.0 && valueConst == value && kind == Constant
    {
      markers := [];
      currentTime := 0.0;
      valueConst := value;
      kind := Constant;
      new;
      markers := markers + [m];
    }

    /** DefaultEssentialBCNonConst(markers, exact_solution) as written: the
        base is built with no marker and the copy loop is bounded by the
        member's own size, so the condition ends with no marker at all. */
    constructor NonConstFromMarkersAsWritten(ms: seq<string>, exact: (real, real) -> real)
      ensures markers == [] && currentTime == 0.0 && valueConst == 0.0 && kind == NonConstant(exact)
    {
      markers := [];
      currentTime := 0.0;
      valueConst := 0.0;
      kind := NonConstant(exact);
      new;
      markers := CopyWhileBelowTarget(markers, ms, 0);
      CopyIntoEmptyLosesMarkers(ms);
    }

    /** DefaultEssentialBCNonConst(markers, exact_solution) as intended:
        the loop runs over the argument and the condition declares exactly
        the given markers, in order. */
    constructor NonConstFromMarkers(ms: seq<string>, exact: (real, real) -> real)
      ensures markers == ms && currentTime == 0.0 && valueConst == 0.0 && kind == NonConstant(exact)
    {
      markers := [];
      currentTime := 0.0;
      valueConst := 0.0;
      kind := NonConstant(exact);
      new;
      var i := 0;
      while i < |ms|
        invariant 0 <= i <= |ms| && markers == ms[..i]
        invariant currentTime == 0.0 && valueConst == 0.0 && kind == NonConstant(exact)
      {
        markers := markers + [ms[i]];
        i := i + 1;
      }
    }

    /** DefaultEssentialBCNonConst(marker, exact_solution). */
    constructor NonConstFromMarker(m: string, exact: (real, real) -> real)
      ensures markers == [m] && currentTime == 0.0 && valueConst == 0.0 && kind == NonConstant(exact)
    {
      markers := [];
      currentTime := 0.0;
      valueConst := 0.0;
      kind := NonConstant(exact);
      new;
      markers := markers + [m];
    }

    function GetCurrentTime(): real
      reads this
    {
      currentTime
    }

    /** set_current_time: get_current_time returns the new time; the
        markers, the constant value and the kind are untouched. */
    method SetCurrentTime(time: real)
      modifies this
      ensures GetCurrentTime() == time
      ensures markers == old(markers) && valueConst == old(valueConst) && kind == old(kind)
    {
      currentTime := time;
    }
  }

  /** The cache as far as it has been built, and whether no marker has
      been met twice. */
  datatype CacheBuild = CacheBuild(cache: map<string, EssentialBoundaryCondition>, ok: bool)

  /** The inner loop of create_marker_cache: the markers of condition b, in
      order, each entered into the cache; the first marker already present
      stops the build with the cache as it is. */
  function AddMarkers(start: CacheBuild, b: EssentialBoundaryCondition, ms: seq<string>): CacheBuild
  {
    if ms == [] then start
    else
      var p := AddMarkers(start, b, ms[..|ms| - 1]);
      var m := ms[|ms| - 1];
      if !p.ok then p
      else if m in p.cache then CacheBuild(p.cache, false)
      else CacheBuild(p.cache[m := b], true)
  }

  /** create_marker_cache on a cleared cache: the conditions in list order,
      owners[k] declaring the markers lists[k]. */
  function BuildCache(owners: seq<EssentialBoundaryCondition>, lists: seq<seq<string>>): CacheBuild
    requires |owners| == |lists|
  {
    if owners == [] then CacheBuild(map[], true)
    else
      var p := BuildCache(owners[..|owners| - 1], lists[..|lists| - 1]);
      if !p.ok then p else AddMarkers(p, owners[|owners| - 1], lists[|lists| - 1])
  }

  /** All markers, condition after condition. */
  function Flatten(lists: seq<seq<string>>): seq<string> {
    if lists == [] then [] else Flatten(lists[..|lists| - 1]) + lists[|lists| - 1]
  }

  predicate Distinct(ms: seq<string>) {
    forall i, j :: 0 <= i < j < |ms| ==> ms[i] != ms[j]
  }

  /** Adding a list of markers to a cache succeeds exactly when the list
      has no repeat and meets no key of the cache; the keys then grow by
      the list, each new key naming b, and the old entries stay. */
  lemma {:induction false} AddMarkersSpec(c: map<string, EssentialBoundaryCondition>, b: EssentialBoundaryCondition, ms: seq<string>)
    ensures var r := AddMarkers(CacheBuild(c, true), b, ms);
      (r.ok <==> Distinct(ms) && forall k :: 0 <= k < |ms| ==> ms[k] !in c) &&
      (r.ok ==> (forall m :: m in r.cache <==> m in c || m in ms) &&
                (forall m :: m in c ==> r.cache[m] == c[m]) &&
                (forall m :: m in ms ==> r.cache[m] == b))
  {
    if ms != [] {
      var init := ms[..|ms| - 1];
      var m := ms[|ms| - 1];
      AddMarkersSpec(c, b, init);
      var p := AddMarkers(CacheBuild(c, true), b, init);
      assert Distinct(ms) <==> Distinct(init) && m !in init by {
        if Distinct(ms) {
          assert forall k :: 0 <= k < |init| ==> init[k] == ms[k];
        }
        if Distinct(init) && m !in init {
          forall i, j | 0 <= i < j < |ms| ensures ms[i] != ms[j] {
            if j < |ms| - 1 {
              assert ms[i] == init[i] && ms[j] == init[j];
            } else {
              assert ms[i] == init[i];
            }
          }
        }
      }
      assert forall x :: x in ms <==> x in init || x == m by {
        assert ms == init + [m];
      }
      if p.ok && m in p.cache {
        assert m in c || m in init;
        if m in init {
          var k :| 0 <= k < |init| && init[k] == m;
          assert ms[k] == ms[|ms| - 1];
        }
      }
    }
  }

  /** Once a build has failed, more markers change nothing. */
  lemma {:induction false} AddMarkersFailed(start: CacheBuild, b: EssentialBoundaryCondition, ms: seq<string>)
    requires !start.ok
    ensures AddMarkers(start, b, ms) == start
  {
    if ms != [] {
      AddMarkersFailed(start, b, ms[..|ms| - 1]);
    }
  }

  /** Markers of one condition entered one at a time. */
  lemma AddMarkersStep(start: CacheBuild, b: EssentialBoundaryCondition, ms: seq<string>, j: nat)
    requires j < |ms|
    ensures var p := AddMarkers(start, b, ms[..j]);
      AddMarkers(start, b, ms[..j + 1]) ==
        if !p.ok then p
        else if ms[j] in p.cache then CacheBuild(p.cache, false)
        else CacheBuild(p.cache[ms[j] := b], true)
  {
    assert ms[..j + 1][..j] == ms[..j];
  }

  /** Conditions entered one at a time. */
  lemma BuildCacheStep(owners: seq<EssentialBoundaryCondition>, lists: seq<seq<string>>, i: nat)
    requires |owners| == |lists| && i < |owners|
    ensures var p := BuildCache(owners[..i], lists[..i]);
      BuildCache(owners[..i + 1], lists[..i + 1]) == if !p.ok then p else AddMarkers(p, owners[i], lists[i])
  {
    assert owners[..i + 1][..i] == owners[..i];
    assert lists[..i + 1][..i] == lists[..i];
  }

  /** Once a build has failed, more conditions change nothing. */
  lemma {:induction false} BuildCacheFailed(owners: seq<EssentialBoundaryCondition>, lists: seq<seq<string>>, n: nat)
    requires |owners| == |lists| && n <= |owners|
    requires !BuildCache(owners[..n], lists[..n]).ok
    ensures BuildCache(owners, lists) == BuildCache(owners[..n], lists[..n])
    decreases |owners| - n
  {
    if n < |owners| {
      BuildCacheStep(owners, lists, n);
      if n + 1 == |owners| {
        assert owners[..n + 1] == owners && lists[..n + 1] == lists;
      } else {
        BuildCacheFailed(owners, lists, n + 1);
      }
    } else {
      assert owners[..n] == owners && lists[..n] == lists;
    }
  }

  /** The cache build succeeds exactly when no marker occurs twice across
      the conditions; then every marker of every condition, and nothing
      else, is a key, and it names the condition that declares it. */
  lemma {:induction false} BuildCacheSpec(owners: seq<EssentialBoundaryCondition>, lists: seq<seq<string>>)
    requires |owners| == |lists|
    ensures var r := BuildCache(owners, lists);
      (r.ok <==> Distinct(Flatten(lists))) &&
      (r.ok ==> (forall m :: m in r.cache <==> m in Flatten(lists)) &&
                (forall k, m :: 0 <= k < |lists| && m in lists[k] ==> m in r.cache && r.cache[m] == owners[k]))
  {
    if owners != [] {
      var n := |owners| - 1;
      var os, ls := owners[..n], lists[..n];
      BuildCacheSpec(os, ls);
      var p := BuildCache(os, ls);
      var f := Flatten(ls);
      var ms := lists[n];
      assert Flatten(lists) == f + ms;
      DistinctConcat(f, ms);
      if p.ok {
        AddMarkersSpec(p.cache, owners[n], ms);
        var r := BuildCache(owners, lists);
        if r.ok {
          forall k, m | 0 <= k < |lists| && m in lists[k] ensures m in r.cache && r.cache[m] == owners[k] {
            if k < n {
              assert lists[k] == ls[k] && owners[k] == os[k];
            }
          }
        }
      } else {
        assert !Distinct(f + ms) by {
          var i, j :| 0 <= i < j < |f| && f[i] == f[j];
          assert (f + ms)[i] == (f + ms)[j];
        }
      }
    }
  }

  /** A concatenation has no repeat exactly when neither part has one and
      they share nothing. */
  lemma DistinctConcat(a: seq<string>, b: seq<string>)
    ensures Distinct(a + b) <==> Distinct(a) && Distinct(b) && forall k :: 0 <= k < |b| ==> b[k] !in a
  {
    var c := a + b;
    if Distinct(c) {
      forall i, j | 0 <= i < j < |a| ensures a[i] != a[j] {
        assert a[i] == c[i] && a[j] == c[j];
      }
      forall i, j | 0 <= i < j < |b| ensures b[i] != b[j] {
        assert b[i] == c[|a| + i] && b[j] == c[|a| + j];
      }
      forall k, i | 0 <= k < |b| && 0 <= i < |a| ensures a[i] != b[k] {
        assert c[i] == a[i] && c[|a| + k] == b[k];
      }
    }
    if Distinct(a) && Distinct(b) && forall k :: 0 <= k < |b| ==> b[k] !in a {
      forall i, j | 0 <= i < j < |c| ensures c[i] != c[j] {
        if j < |a| {
          assert c[i] == a[i] && c[j] == a[j];
        } else if i < |a| {
          assert c[i] == a[i] && c[j] == b[j - |a|];
        } else {
          assert c[i] == b[i - |a|] && c[j] == b[j - |a|];
        }
      }
    }
  }

  /** Registering a condition that is already registered, or any other
      condition repeating one of its markers, is fatal. */
  lemma RepeatedMarkerIsFatal(owners: seq<EssentialBoundaryCondition>, lists: seq<seq<string>>, k: nat, l: nat, m: string)
    requires |owners| == |lists| && k < l < |lists| && m in lists[k] && m in lists[l]
    ensures !BuildCache(owners, lists).ok
  {
    BuildCacheSpec(owners, lists);
    var i :| 0 <= i < |lists[k]| && lists[k][i] == m;
    var j :| 0 <= j < |lists[l]| && lists[l][j] == m;
    FlattenIndex(lists, k, i);
    FlattenIndex(lists, l, j);
    FlattenOffsetLess(lists, k, l);
  }

  /** Where marker i of condition k sits in the flattened list. */
  function Offset(lists: seq<seq<string>>, k: nat): nat
    requires k <= |lists|
  {
    if k == 0 then 0 else Offset(lists, k - 1) + |lists[k - 1]|
  }

  lemma {:induction false} FlattenIndex(lists: seq<seq<string>>, k: nat, i: nat)
    requires k < |lists| && i < |lists[k]|
    ensures Offset(lists, k) + i < |Flatten(lists)| && Flatten(lists)[Offset(lists, k) + i] == lists[k][i]
  {
    var n := |lists| - 1;
    var init := lists[..n];
    assert Flatten(lists) == Flatten(init) + lists[n];
    FlattenLength(init);
    OffsetPrefix(lists, k, n);
    if k < n {
      FlattenIndex(init, k, i);
    }
  }

  lemma {:induction false} FlattenLength(lists: seq<seq<string>>)
    ensures |Flatten(lists)| == Offset(lists, |lists|)
  {
    if lists != [] {
      var n := |lists| - 1;
      FlattenLength(lists[..n]);
      OffsetPrefix(lists, n, n);
    }
  }

  /** Offsets depend only on the conditions before. */
  lemma {:induction false} OffsetPrefix(lists: seq<seq<string>>, k: nat, n: nat)
    requires k <= n <= |lists|
    ensures Offset(lists[..n], k) == Offset(lists, k)
  {
    if k > 0 {
      OffsetPrefix(lists, k - 1, n);
    }
  }

  lemma {:induction false} FlattenOffsetLess(lists: seq<seq<string>>, k: nat, l: nat)
    requires k < l <= |lists|
    ensures Offset(lists, k) + |lists[k]| <= Offset(lists, l)
  {
    if k + 1 < l {
      FlattenOffsetLess(lists, k, l - 1);
    }
  }

  /** The marker lists of the conditions, as the heap holds them now. */
  function MarkerLists(bcs: seq<EssentialBoundaryCondition>): (ls: seq<seq<string>>)
    reads set b | b in bcs
    ensures |ls| == |bcs| && forall k :: 0 <= k < |bcs| ==> ls[k] == bcs[k].markers
  {
    if bcs == [] then [] else MarkerLists(bcs[..|bcs| - 1]) + [bcs[|bcs| - 1].markers]
  }

  class EssentialBCs {
    var all: seq<EssentialBoundaryCondition>
    var markers: map<string, EssentialBoundaryCondition>

    /** The cache create_marker_cache builds from the current list. */
    function Rebuilt(): CacheBuild
      reads this, set b | b in all
    {
      BuildCache(all, MarkerLists(all))
    }

    /** The state after additions none of which was fatal: the cache is
        the one built from the whole list. */
    ghost predicate Valid()
      reads this, set b | b in all
    {
      Rebuilt().ok && markers == Rebuilt().cache
    }

    /** EssentialBCs(). */
    constructor Empty()
      ensures all == [] && markers == map[] && Valid()
    {
      all := [];
      markers := map[];
    }

    /** EssentialBCs(essential_bcs): add_boundary_conditions on an empty
        registry. */
    constructor FromList(bcs: seq<EssentialBoundaryCondition>)
      ensures all == bcs && markers == BuildCache(bcs, MarkerLists(bcs)).cache
    {
      all := [];
      markers := map[];
      new;
      var ok := AddBoundaryConditions(bcs);
    }

    /** EssentialBCs(boundary_condition). */
    constructor FromCondition(bc: EssentialBoundaryCondition)
      ensures all == [bc] && markers == BuildCache([bc], [bc.markers]).cache
    {
      all := [];
      markers := map[];
      new;
      var ok := AddBoundaryConditions([bc]);
    }

    /** add_boundary_conditions: the conditions are appended in order,
        then the cache is cleared and rebuilt from the whole list. `ok` is
        false when a marker is declared twice, the fatal error. */
    method AddBoundaryConditions(bcs: seq<EssentialBoundaryCondition>) returns (ok: bool)
      modifies this
      ensures all == old(all) + bcs
      ensures markers == Rebuilt().cache && ok == Rebuilt().ok
      ensures ok <==> Valid()
    {
      var i := 0;
      while i < |bcs|
        invariant 0 <= i <= |bcs| && all == old(all) + bcs[..i]
      {
        all := all + [bcs[i]];
        i := i + 1;
      }
      assert bcs[..i] == bcs;
      markers := map[];
      ok := CreateMarkerCache();
    }

    /** add_boundary_condition: the one-condition case. */
    method AddBoundaryCondition(bc: EssentialBoundaryCondition) returns (ok: bool)
      modifies this
      ensures all == old(all) + [bc]
      ensures markers == Rebuilt().cache && ok == Rebuilt().ok
      ensures ok <==> Valid()
    {
      ok := AddBoundaryConditions([bc]);
    }

    /** create_marker_cache, from a cleared cache: every marker of every
        condition, in list order, is entered with its condition; a marker
        already present is the fatal error and ends the build. */
    method CreateMarkerCache() returns (ok: bool)
      requires markers == map[]
      modifies this
      ensures all == old(all)
      ensures markers == Rebuilt().cache && ok == Rebuilt().ok
    {
      ghost var lists := MarkerLists(all);
      var i := 0;
      while i < |all|
        invariant 0 <= i <= |all| && all == old(all) && lists == MarkerLists(all)
        invariant BuildCache(all[..i], lists[..i]) == CacheBuild(markers, true)
      {
        var bc := all[i];
        var ms := bc.markers;
        var j := 0;
        while j < |ms|
          invariant 0 <= j <= |ms| && all == old(all) && lists == MarkerLists(all) && ms == lists[i]
          invariant AddMarkers(BuildCache(all[..i], lists[..i]), bc, ms[..j]) == CacheBuild(markers, true)
        {
          AddMarkersStep(BuildCache(all[..i], lists[..i]), bc, ms, j);
          if ms[j] in markers {
            AddMarkersFailed(CacheBuild(markers, false), bc, ms[j + 1..]);
            CacheEndsAt(i, ms, j);
            return false;
          }
          markers := markers[ms[j] := bc];
          j := j + 1;
        }
        BuildCacheStep(all, lists, i);
        assert ms[..j] == ms;
        i := i + 1;
      }
      assert all[..i] == all && lists[..i] == lists;
      ok := true;
    }

    /** The build failing at marker j of condition i leaves the cache it
        had then. */
    lemma CacheEndsAt(i: nat, ms: seq<string>, j: nat)
      requires i < |all| && ms == all[i].markers && j < |ms|
      requires var p := BuildCache(all[..i], MarkerLists(all)[..i]);
        AddMarkers(p, all[i], ms[..j + 1]) == CacheBuild(markers, false)
      ensures Rebuilt() == CacheBuild(markers, false)
    {
      var lists := MarkerLists(all);
      var p := BuildCache(all[..i], lists[..i]);
      assert AddMarkers(p, all[i], ms) == CacheBuild(markers, false) by {
        AddMarkersSplit(p, all[i], ms, j + 1);
        AddMarkersFailed(CacheBuild(markers, false), all[i], ms[j + 1..]);
      }
      assert lists[i] == ms;
      if !p.ok {
        AddMarkersFailed(p, all[i], ms);
      }
      BuildCacheStep(all, lists, i);
      BuildCacheFailed(all, lists, i + 1);
    }

    /** get_boundary_condition: the condition registered for the marker, or
        none (NULL) when the cache has no entry for it. */
    function GetBoundaryCondition(marker: string): (r: Option<EssentialBoundaryCondition>)
      reads this
      ensures r == None <==> marker !in markers
      ensures r != None ==> r.value == markers[marker]
    {
      if marker !in markers then None else Some(markers[marker])
    }

    /** After additions that were not fatal, a marker finds the condition
        that declares it, and a marker no condition declares finds none. */
    lemma LookupFindsDeclarer(marker: string)
      requires Valid()
      ensures forall k :: 0 <= k < |all| && marker in all[k].markers ==> GetBoundaryCondition(marker) == Some(all[k])
      ensures (forall k :: 0 <= k < |all| ==> marker !in all[k].markers) ==> GetBoundaryCondition(marker) == None
    {
      var lists := MarkerLists(all);
      BuildCacheSpec(all, lists);
      if marker in markers {
        FlattenMember(lists, marker);
      }
    }

    /** set_current_time: every registered condition reports the new time;
        nothing else changes, so the cache still matches the list. */
    method SetCurrentTime(time: real)
      modifies set b | b in all
      ensures forall k :: 0 <= k < |all| ==> all[k].GetCurrentTime() == time
      ensures forall b :: b in all ==> b.markers == old(b.markers) && b.valueConst == old(b.valueConst) && b.kind == old(b.kind)
      ensures MarkerLists(all) == old(MarkerLists(all))
      ensures Valid() <==> old(Valid())
    {
      var i := 0;
      while i < |all|
        invariant 0 <= i <= |all|
        invariant forall k :: 0 <= k < i ==> all[k].currentTime == time
        invariant forall b :: b in all ==> b.markers == old(b.markers) && b.valueConst == old(b.valueConst) && b.kind == old(b.kind)
      {
        all[i].SetCurrentTime(time);
        i := i + 1;
      }
      MarkerListsSame(all);
    }

    /** Marker lists read the same in two states where every condition
        kept its markers. */
    twostate lemma MarkerListsSame(bcs: seq<EssentialBoundaryCondition>)
      requires forall b :: b in bcs ==> b.markers == old(b.markers)
      ensures MarkerLists(bcs) == old(MarkerLists(bcs))
    {
    }
  }

  /** Entering the markers of one condition in two stretches. */
  lemma {:induction false} AddMarkersSplit(start: CacheBuild, b: EssentialBoundaryCondition, ms: seq<string>, j: nat)
    requires j <= |ms|
    ensures AddMarkers(start, b, ms) == AddMarkers(AddMarkers(start, b, ms[..j]), b, ms[j..])
    decreases |ms|
  {
    if j == |ms| {
      assert ms[..j] == ms && ms[j..] == [];
    } else {
      var init := ms[..|ms| - 1];
      AddMarkersSplit(start, b, init, j);
      var rest := ms[j..];
      assert init[..j] == ms[..j];
      assert rest[..|rest| - 1] == init[j..];
      assert rest[|rest| - 1] == ms[|ms| - 1];
    }
  }

  /** A key of the flattened list comes from some condition. */
  lemma {:induction false} FlattenMember(lists: seq<seq<string>>, m: string)
    requires m in Flatten(lists)
    ensures exists k :: 0 <= k < |lists| && m in lists[k]
  {
    var n := |lists| - 1;
    assert Flatten(lists) == Flatten(lists[..n]) + lists[n];
    if m !in lists[n] {
      FlattenMember(lists[..n], m);
      var k :| 0 <= k < n && m in lists[..n][k];
      assert lists[..n][k] == lists[k];
    }
  }
}
