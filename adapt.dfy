/** The adaptivity engine (class Adapt of adapt.cpp): it holds the spaces
    of the components, the element errors of the last error pass and the
    queues built from them, and performs one adaptivity step (adapt) or one
    coarsening step (unrefine). A call to error() aborts the program; the
    model returns Fatal, or false, where the source aborts. */
module AdaptEngine {
  import opened Wrappers
  import opened Refinement
  import opened QuadOrder
  import opened MeshModel
  import opened SpacesModel
  import opened ElementQueue
  import opened Selection
  import opened Reconcile
  import opened Application
  import opened Homogenization
  import opened Coarsening

  /** H2D_MAX_COMPONENTS */
  const MaxComponents: nat := 10

  datatype Result<T> = Ok(value: T) | Fatal(message: string)

  /** Space::get_type(); Unknown stands for any other value, which the
      default branch of the constructors' switch rejects. */
  datatype SpaceType = H1Space | HcurlSpace | HdivSpace | L2Space | Unknown

  /** ProjNormType */
  datatype ProjNorm = UnsetNorm | H1Norm | HcurlNorm | HdivNorm | L2Norm

  /** A MatrixFormVolError: the one built for a projection norm, or one the
      user supplies through set_error_form. */
  datatype ErrorForm = NormForm(norm: ProjNorm) | UserForm(tag: int)

  /** The norm a space of the given type is measured in by default. */
  function DefaultNorm(t: SpaceType): (r: Result<ProjNorm>)
    ensures r.Ok? <==> t != Unknown
  {
    match t
    case H1Space => Ok(H1Norm)
    case HcurlSpace => Ok(HcurlNorm)
    case HdivSpace => Ok(HdivNorm)
    case L2Space => Ok(L2Norm)
    case Unknown => Fatal("Unknown space type in Adapt::Adapt().")
  }

  /** The default norm of every space, in component order. */
  function DefaultNorms(types: seq<SpaceType>): Result<seq<ProjNorm>> {
    if types == [] then Ok([])
    else
      match DefaultNorms(types[..|types| - 1])
      case Fatal(msg) => Fatal(msg)
      case Ok(norms) =>
        match DefaultNorm(types[|types| - 1])
        case Fatal(msg) => Fatal(msg)
        case Ok(n) => Ok(norms + [n])
  }

  /** The checks and defaults of the multi-space constructor: the norm of
      each component, or the first fatal error in source order. */
  function Configure(types: seq<SpaceType>, norms: seq<ProjNorm>): Result<seq<ProjNorm>> {
    if |norms| > 0 && |types| != |norms| then Fatal("Mismatched numbers of spaces and projection types in Adapt::Adapt().")
    else if |types| <= 0 then Fatal("Too few components")
    else if |types| > MaxComponents then Fatal("Too many components")
    else if |norms| == 0 then DefaultNorms(types)
    else Ok(norms)
  }

  /** The single-space constructor: the given norm, or the default one of
      the space when it is unset. There is no component-count check. */
  function ConfigureSingle(t: SpaceType, norm: ProjNorm): (r: Result<ProjNorm>)
    ensures r.Ok? <==> norm != UnsetNorm || t != Unknown
    ensures r.Ok? && norm != UnsetNorm ==> r.value == norm
  {
    if norm == UnsetNorm then DefaultNorm(t) else Ok(norm)
  }

  /** error_form after construction: the norm form of component i on the
      diagonal, NULL elsewhere. */
  function ErrorFormTable(norms: seq<ProjNorm>): (t: seq<seq<Option<ErrorForm>>>)
    ensures |t| == |norms|
    ensures forall i :: 0 <= i < |t| ==> |t[i]| == |norms|
  {
    seq(|norms|, i requires 0 <= i < |norms| =>
      seq(|norms|, j requires 0 <= j < |norms| => if i == j then Some(NormForm(norms[i])) else None))
  }

  /** The default norms exist exactly when every space has a known type,
      and then each is the default norm of its space. */
  lemma {:induction false} DefaultNormsSound(types: seq<SpaceType>)
    ensures DefaultNorms(types).Ok? <==> forall i :: 0 <= i < |types| ==> types[i] != Unknown
    ensures DefaultNorms(types).Ok? ==>
      |DefaultNorms(types).value| == |types| &&
      forall i :: 0 <= i < |types| ==> DefaultNorm(types[i]) == Ok(DefaultNorms(types).value[i])
  {
    if types != [] {
      var init := types[..|types| - 1];
      DefaultNormsSound(init);
      assert forall i :: 0 <= i < |init| ==> init[i] == types[i];
    }
  }

  /** The constructor accepts exactly a component count from 1 to
      H2D_MAX_COMPONENTS with either no norms, every space then having a
      known type, or one norm per space; each component gets the norm given
      for it or its space's default. */
  lemma ConfigureSound(types: seq<SpaceType>, norms: seq<ProjNorm>)
    ensures Configure(types, norms).Ok? <==>
      1 <= |types| <= MaxComponents &&
      (|norms| == 0 ==> forall i :: 0 <= i < |types| ==> types[i] != Unknown) &&
      (|norms| > 0 ==> |norms| == |types|)
    ensures Configure(types, norms).Ok? ==>
      |Configure(types, norms).value| == |types| &&
      forall i :: 0 <= i < |types| ==>
        Ok(Configure(types, norms).value[i]) == if |norms| == 0 then DefaultNorm(types[i]) else Ok(norms[i])
  {
    DefaultNormsSound(types);
  }

  /** A queue entry names a live element of its component's mesh. */
  predicate Names(s: Spaces, r: ElementReference) {
    Targets(s, ElementToRefine(r.id, r.comp, P, ZeroOrders, ZeroOrders))
  }

  /** Every element ever queued for refinement is one of a live mesh: a
      decision is as good as the reference it came from. */
  lemma NamesTargets(s: Spaces, r: ElementReference, d: ElementToRefine)
    requires Names(s, r) && d.id == r.id && d.comp == r.comp
    ensures Targets(s, d)
  {
  }

  /** The error table and the regular queue of the last error pass fit the
      meshes: one error per element id of each component's mesh, and
      num_act_elems entries, all naming live elements. */
  ghost predicate ErrorsFit(s: Spaces, errors: seq<seq<real>>, numActElems: int, rq: seq<ElementReference>)
    requires SpacesOk(s)
  {
    |errors| == |s.meshOf| &&
    (forall i :: 0 <= i < |s.meshOf| ==> |errors[i]| == |MeshOf(s, i).elems|) &&
    numActElems == |rq| > 0 &&
    forall k :: 0 <= k < |rq| ==> Names(s, rq[k])
  }

  /** The engine's state between calls: well-formed spaces for 1 to
      H2D_MAX_COMPONENTS components, a num x num error-form table, an empty
      priority queue (adapt.cpp only ever pops it, and adapt drains it) and,
      while have_errors holds, errors and a regular queue that fit the
      meshes. */
  ghost predicate StateOk(s: Spaces, num: nat, errorForm: seq<seq<Option<ErrorForm>>>, pq: seq<ElementReference>,
                          haveErrors: bool, errors: seq<seq<real>>, numActElems: int, rq: seq<ElementReference>)
  {
    SpacesOk(s) && num == |s.meshOf| && 1 <= num <= MaxComponents &&
    |errorForm| == num && (forall i :: 0 <= i < num ==> |errorForm[i]| == num) &&
    pq == [] &&
    (haveErrors ==> ErrorsFit(s, errors, numActElems, rq))
  }

  /** The largest get_max_element_id over the meshes of the first n
      components, -1 when n is 0. */
  function MaxIdUpTo(s: Spaces, n: nat): (r: int)
    requires SpacesOk(s) && n <= |s.meshOf|
    ensures forall j :: 0 <= j < n ==> MaxElementId(MeshOf(s, j)) <= r
    ensures n > 0 ==> r >= 0
    ensures n == 0 ==> r == -1
  {
    if n == 0 then -1
    else
      var prev := MaxIdUpTo(s, n - 1);
      var m := MaxElementId(MeshOf(s, n - 1));
      if m > prev then m else prev
  }

  /** Queue entries naming live elements are candidates the selectors and
      the order tables can answer for. */
  lemma NamesQueuesOk(s: Spaces, selectors: seq<Selector>, pq: seq<ElementReference>, rq: seq<ElementReference>)
    requires SpacesOk(s) && |selectors| == |s.meshOf|
    requires forall k :: 0 <= k < |pq| ==> Names(s, pq[k])
    requires forall k :: 0 <= k < |rq| ==> Names(s, rq[k])
    ensures QueuesOk(selectors, s.orders, pq, rq)
  {
  }

  /** Where the adaptivity loop stops in the regular queue: the first
      entry whose stopping tests fire, or the end of the queue. */
  function Cut(hooks: Hooks, selectors: seq<Selector>, orders: seq<map<int, nat>>, rule: StopRule,
               errors: seq<seq<real>>, pq: seq<ElementReference>, rq: seq<ElementReference>): nat
    requires QueuesOk(selectors, orders, pq, rq)
  {
    CutFrom(hooks, selectors, orders, rule, errors, pq, rq, 0)
  }

  /** num_exam_elem: every priority entry, the regular entries before the
      cut and the entry that stopped the loop, if one did. */
  function ExaminedCount(pq: seq<ElementReference>, rq: seq<ElementReference>, cut: nat): nat {
    |pq| + cut + if cut < |rq| then 1 else 0
  }

  /** The adaptivity loop of adapt (the idx table, the decision list and the
      examined count it leaves): priority entries first, then regular
      entries in queue order until a stopping test fires; an entry that is
      not ignored is offered to its component's selector and recorded when
      can_refine_element approves. The stopping tests apply to regular
      entries only. */
  method SelectRefinements(s: Spaces, pq0: seq<ElementReference>, rq: seq<ElementReference>, errors: seq<seq<real>>,
                           selectors: seq<Selector>, hooks: Hooks, rule: StopRule)
    returns (ds: seq<ElementToRefine>, idx: array2<int>, numExam: nat)
    requires SpacesOk(s) && |selectors| == |s.meshOf| && 0 < |s.meshOf|
    requires forall k :: 0 <= k < |pq0| ==> Names(s, pq0[k])
    requires forall k :: 0 <= k < |rq| ==> Names(s, rq[k])
    ensures QueuesOk(selectors, s.orders, pq0, rq)
    ensures var cut := Cut(hooks, selectors, s.orders, rule, errors, pq0, rq);
      ds == Accepted(hooks, selectors, s.orders, Examined(pq0, rq, cut)) &&
      numExam == ExaminedCount(pq0, rq, cut)
    ensures fresh(idx) && idx.Length0 == MaxIdUpTo(s, |s.meshOf|) && idx.Length1 == |s.meshOf|
    ensures forall a, b :: 0 <= a < idx.Length0 && 0 <= b < idx.Length1 ==> idx[a, b] == LastIndex(ds, a, b)
  {
    NamesQueuesOk(s, selectors, pq0, rq);
    var maxId := MaxMeshId(s);
    idx := new int[maxId, |s.meshOf|]((a, b) => -1);
    ds, numExam := Examine(s, pq0, rq, errors, selectors, hooks, rule, idx);
  }

  /** The loop of SelectRefinements over the queues, filling idx as
      decisions are recorded. */
  method Examine(s: Spaces, pq0: seq<ElementReference>, rq: seq<ElementReference>, errors: seq<seq<real>>,
                 selectors: seq<Selector>, hooks: Hooks, rule: StopRule, idx: array2<int>)
    returns (ds: seq<ElementToRefine>, numExam: nat)
    requires SpacesOk(s) && |selectors| == |s.meshOf|
    requires forall k :: 0 <= k < |pq0| ==> Names(s, pq0[k])
    requires forall k :: 0 <= k < |rq| ==> Names(s, rq[k])
    requires QueuesOk(selectors, s.orders, pq0, rq)
    requires idx.Length0 == MaxIdUpTo(s, |s.meshOf|) && idx.Length1 == |s.meshOf|
    requires forall a, b :: 0 <= a < idx.Length0 && 0 <= b < idx.Length1 ==> idx[a, b] == -1
    modifies idx
    ensures var cut := Cut(hooks, selectors, s.orders, rule, errors, pq0, rq);
      ds == Accepted(hooks, selectors, s.orders, Examined(pq0, rq, cut)) &&
      numExam == ExaminedCount(pq0, rq, cut)
    ensures forall a, b :: 0 <= a < idx.Length0 && 0 <= b < idx.Length1 ==> idx[a, b] == LastIndex(ds, a, b)
  {
    var err0 := InitialLastError;
    var processed := 0.0;
    ds := [];
    var threshold := -1.0;
    numExam := 0;
    var first := true;
    var inx: nat := 0;
    var np: nat := 0;
    ProgressStart(hooks, selectors, s.orders, rule, errors, pq0, rq);
    while inx < |rq| || np < |pq0|
      invariant Progress(hooks, selectors, s.orders, rule, errors, pq0, rq, np, inx, ds, processed, err0, threshold, first)
      invariant numExam == np + inx
      invariant forall a, b :: 0 <= a < idx.Length0 && 0 <= b < idx.Length1 ==> idx[a, b] == LastIndex(ds, a, b)
      decreases |pq0| - np + |rq| - inx
    {
      var c, stop, np', inx', threshold', first' :=
        NextCandidate(hooks, selectors, s.orders, rule, errors, pq0, rq, np, inx, ds, processed, err0, threshold, first);
      numExam := numExam + 1;
      if stop {
        break;
      }
      var ds', processed', err0' := Offer(hooks, selectors, s.orders, errors, c, ds, processed, err0);
      if |ds'| > |ds| {
        NamesTargets(s, c.ref, ds'[|ds|]);
        Remember(s, idx, ds, ds'[|ds|]);
      }
      ds, processed, err0 := ds', processed', err0';
      np, inx, threshold, first := np', inx', threshold', first';
    }
    if np == |pq0| && inx == |rq| {
      ProgressDone(hooks, selectors, s.orders, rule, errors, pq0, rq, ds, processed, err0, threshold, first);
    }
  }

  /** Fetching the next entry: the priority queue first, then the regular
      queue at inx. For a regular entry that should_ignore_element keeps,
      the first one sets the threshold of strategies 1 and 3 and the four
      stopping tests run; `stop` reports that one fired. */
  method NextCandidate(hooks: Hooks, selectors: seq<Selector>, orders: seq<map<int, nat>>, rule: StopRule,
                       errors: seq<seq<real>>, pq0: seq<ElementReference>, rq: seq<ElementReference>,
                       np: nat, inx: nat, ds: seq<ElementToRefine>, processed: real, err0: real, threshold: real, first: bool)
    returns (c: Candidate, stop: bool, np': nat, inx': nat, threshold': real, first': bool)
    requires QueuesOk(selectors, orders, pq0, rq) && (inx < |rq| || np < |pq0|)
    requires Progress(hooks, selectors, orders, rule, errors, pq0, rq, np, inx, ds, processed, err0, threshold, first)
    ensures (np < |pq0| && c == Candidate(-1, pq0[np])) || (np == |pq0| && inx < |rq| && c == Candidate(inx, rq[inx]))
    ensures 0 <= c.ref.comp < |selectors| && c.ref.comp < |orders|
    ensures stop ==> (np == |pq0| && inx < |rq| &&
                      CutFrom(hooks, selectors, orders, rule, errors, pq0, rq, 0) == inx &&
                      ds == Accepted(hooks, selectors, orders, Examined(pq0, rq, inx)))
    ensures !stop ==> (np' + inx' == np + inx + 1 &&
                       var r := Record(hooks, selectors, orders, errors, c, ds, processed, err0);
                       Progress(hooks, selectors, orders, rule, errors, pq0, rq, np', inx', r.0, r.1, r.2, threshold', first'))
  {
    stop, np', inx', threshold', first' := false, np, inx, threshold, first;
    if np < |pq0| {
      c := Candidate(-1, pq0[np]);
      ProgressPriority(hooks, selectors, orders, rule, errors, pq0, rq, np, ds, processed, err0, threshold, first);
      np' := np + 1;
      return;
    }
    c := Candidate(inx, rq[inx]);
    inx' := inx + 1;
    RegularThreshold(hooks, rule, errors, rq, inx, threshold, first);
    if Kept(hooks, c) {
      var err := ErrorOf(errors, c.ref);
      if first {
        threshold' := rule.thr * err;
        first' := false;
      }
      stop := StopFires(rule, err, threshold', processed, err0);
    }
    RegularStops(hooks, selectors, orders, rule, errors, pq0, rq, inx, ds, processed, err0, threshold, first, threshold');
    if stop {
      RegularStopCut(hooks, selectors, orders, rule, errors, pq0, rq, inx, ds, processed, err0, threshold, first);
      assert pq0[..|pq0|] == pq0;
    } else {
      RegularContinues(hooks, selectors, orders, rule, errors, pq0, rq, inx, ds, processed, err0, threshold, first,
                       threshold', first');
    }
  }

  /** max_id: the largest get_max_element_id over the components' meshes. */
  method MaxMeshId(s: Spaces) returns (maxId: int)
    requires SpacesOk(s)
    ensures maxId == MaxIdUpTo(s, |s.meshOf|)
  {
    maxId := -1;
    var j := 0;
    while j < |s.meshOf|
      invariant 0 <= j <= |s.meshOf|
      invariant maxId == MaxIdUpTo(s, j)
    {
      if MaxElementId(MeshOf(s, j)) > maxId {
        maxId := MaxElementId(MeshOf(s, j));
      }
      j := j + 1;
    }
  }

  /** One entry that passed the stopping tests: unless should_ignore_element
      drops it, its component's selector proposes a refinement, and when
      can_refine_element approves, the refinement is appended and the
      processed and last accepted errors move on. */
  method Offer(hooks: Hooks, selectors: seq<Selector>, orders: seq<map<int, nat>>, errors: seq<seq<real>>, c: Candidate,
               ds: seq<ElementToRefine>, processed: real, err0: real)
    returns (ds': seq<ElementToRefine>, processed': real, err0': real)
    requires 0 <= c.ref.comp < |selectors| && c.ref.comp < |orders|
    ensures (ds', processed', err0') == Record(hooks, selectors, orders, errors, c, ds, processed, err0)
    ensures |ds'| > |ds| ==> ds' == ds + [ds'[|ds|]] && ds'[|ds|].id == c.ref.id && ds'[|ds|].comp == c.ref.comp
  {
    ds', processed', err0' := ds, processed, err0;
    if !hooks.shouldIgnore(c.inx, c.ref.comp, c.ref.id) {
      var current := OrderAt(orders[c.ref.comp], c.ref.id);
      var sel := selectors[c.ref.comp].select(c.ref.id, current);
      var d := ElementToRefine(c.ref.id, c.ref.comp, sel.split, sel.p, sel.q);
      if hooks.canRefine(c.ref.comp, c.ref.id, sel.refined, d) {
        var err := ErrorOf(errors, c.ref);
        ds' := ds + [d];
        processed' := processed + err;
        err0' := err;
      }
    }
  }

  /** idx[id][comp] = the position of the decision about to be appended. */
  method Remember(s: Spaces, idx: array2<int>, ds: seq<ElementToRefine>, d: ElementToRefine)
    requires SpacesOk(s) && idx.Length0 == MaxIdUpTo(s, |s.meshOf|) && idx.Length1 == |s.meshOf|
    requires Targets(s, d)
    requires forall a, b :: 0 <= a < idx.Length0 && 0 <= b < idx.Length1 ==> idx[a, b] == LastIndex(ds, a, b)
    modifies idx
    ensures forall a, b :: 0 <= a < idx.Length0 && 0 <= b < idx.Length1 ==> idx[a, b] == LastIndex(ds + [d], a, b)
  {
    assert MaxElementId(MeshOf(s, d.comp)) <= idx.Length0;
    idx[d.id, d.comp] := |ds|;
    LastIndexSnocAll(ds, d);
  }

  class Adapt {
    var spaces: Spaces
    /** this->num */
    var num: nat
    var errorForm: seq<seq<Option<ErrorForm>>>
    /** errors[comp][id] of the last error pass. */
    var errors: seq<seq<real>>
    var errorsSquaredSum: real
    var numActElems: int
    var regularQueue: seq<ElementReference>
    var priorityQueue: seq<ElementReference>
    var haveErrors: bool
    var lastRefinements: seq<ElementToRefine>

    /** The engine's state between calls (see StateOk); while have_errors
        holds, the element errors and their total are not negative. */
    ghost predicate Valid()
      reads this
    {
      StateOk(spaces, num, errorForm, priorityQueue, haveErrors, errors, numActElems, regularQueue) &&
      (haveErrors ==> NonNegativeErrors(errors) && errorsSquaredSum >= 0.0)
    }

    /** Adapt(spaces, proj_norms) */
    constructor (types: seq<SpaceType>, norms: seq<ProjNorm>, s: Spaces)
      requires SpacesOk(s) && |s.meshOf| == |types|
      requires Configure(types, norms).Ok?
      ensures Valid()
      ensures spaces == s && num == |types| && numActElems == -1 && !haveErrors
      ensures errorForm == ErrorFormTable(Configure(types, norms).value)
      ensures errors == [] && regularQueue == [] && priorityQueue == [] && lastRefinements == []
    {
      ConfigureSound(types, norms);
      spaces := s;
      num := |types|;
      numActElems := -1;
      haveErrors := false;
      errors := [];
      errorsSquaredSum := 0.0;
      regularQueue := [];
      priorityQueue := [];
      lastRefinements := [];
      errorForm := ErrorFormTable(Configure(types, norms).value);
    }

    /** Adapt(space, proj_norm) */
    constructor Single(t: SpaceType, norm: ProjNorm, s: Spaces)
      requires SpacesOk(s) && |s.meshOf| == 1
      requires ConfigureSingle(t, norm).Ok?
      ensures Valid()
      ensures spaces == s && num == 1 && numActElems == -1 && !haveErrors
      ensures errorForm == [[Some(NormForm(ConfigureSingle(t, norm).value))]]
      ensures errors == [] && regularQueue == [] && priorityQueue == [] && lastRefinements == []
    {
      spaces := s;
      num := 1;
      numActElems := -1;
      haveErrors := false;
      errors := [];
      errorsSquaredSum := 0.0;
      regularQueue := [];
      priorityQueue := [];
      lastRefinements := [];
      errorForm := [[Some(NormForm(ConfigureSingle(t, norm).value))]];
    }

    /** set_error_form(i, j, form): replaces one entry of the error-form
        table; an index outside the components is fatal. */
    method SetErrorForm(i: int, j: int, form: Option<ErrorForm>) returns (ok: bool)
      requires Valid()
      modifies this
      ensures Valid()
      ensures spaces == old(spaces) && num == old(num) && errors == old(errors) && errorsSquaredSum == old(errorsSquaredSum)
      ensures numActElems == old(numActElems) && regularQueue == old(regularQueue) && priorityQueue == old(priorityQueue)
      ensures haveErrors == old(haveErrors) && lastRefinements == old(lastRefinements)
      ensures ok <==> 0 <= i < num && 0 <= j < num
      ensures ok ==> errorForm == old(errorForm)[i := old(errorForm)[i][j := form]]
      ensures !ok ==> errorForm == old(errorForm)
    {
      if i < 0 || i >= num || j < 0 || j >= num {
        return false;
      }
      errorForm := errorForm[i := errorForm[i][j := form]];
      return true;
    }

    /** set_error_form(form): the (0, 0) entry. */
    method SetDiagonalErrorForm(form: Option<ErrorForm>)
      requires Valid()
      modifies this
      ensures Valid()
      ensures errorForm == old(errorForm)[0 := old(errorForm)[0][0 := form]]
      ensures spaces == old(spaces) && num == old(num) && errors == old(errors) && errorsSquaredSum == old(errorsSquaredSum)
      ensures numActElems == old(numActElems) && regularQueue == old(regularQueue) && priorityQueue == old(priorityQueue)
      ensures haveErrors == old(haveErrors) && lastRefinements == old(lastRefinements)
    {
      var ok := SetErrorForm(0, 0, form);
    }

    /** fill_regular_queue: every active element of every component, by
        component and then by increasing id, sorted by decreasing error. A
        non-positive num_act_elems is fatal. */
    method FillRegularQueue() returns (ok: bool)
      requires SpacesOk(spaces) && num == |spaces.meshOf|
      modifies this
      ensures spaces == old(spaces) && num == old(num) && errors == old(errors) && errorsSquaredSum == old(errorsSquaredSum)
      ensures numActElems == old(numActElems) && priorityQueue == old(priorityQueue) && errorForm == old(errorForm)
      ensures haveErrors == old(haveErrors) && lastRefinements == old(lastRefinements)
      ensures ok <==> old(numActElems) > 0
      ensures ok ==> regularQueue == SortByError(errors, AllActiveRefs(spaces.meshes, spaces.meshOf, num))
      ensures !ok ==> regularQueue == old(regularQueue)
    {
      if numActElems <= 0 {
        return false;
      }
      var fill := CollectActive(spaces, num);
      regularQueue := SortByError(errors, fill);
      return true;
    }

    /** The bookkeeping that ends an error pass for adaptivity
        (calc_err_internal with solutions_for_adapt): num_act_elems is the
        number of active elements summed over the components, the element
        errors and their total are stored, the regular queue is filled and
        the errors are marked as available. The errors themselves are
        computed outside this model and given as errs and total. */
    method TakeElementErrors(errs: seq<seq<real>>, total: real) returns (ok: bool)
      requires Valid()
      requires |errs| == num && forall i :: 0 <= i < num ==> |errs[i]| == |MeshOf(spaces, i).elems|
      requires NonNegativeErrors(errs) && total >= 0.0
      modifies this
      ensures spaces == old(spaces) && num == old(num) && priorityQueue == old(priorityQueue) && errorForm == old(errorForm)
      ensures lastRefinements == old(lastRefinements)
      ensures numActElems == TotalActive(spaces.meshes, spaces.meshOf, num)
      ensures ok <==> numActElems > 0
      ensures errors == errs && errorsSquaredSum == total
      ensures ok ==> Valid() && haveErrors
      ensures ok ==> regularQueue == SortByError(errs, AllActiveRefs(spaces.meshes, spaces.meshOf, num))
      ensures !ok ==> regularQueue == old(regularQueue) && haveErrors == old(haveErrors)
    {
      ghost var s, n, ef, pq := spaces, num, errorForm, priorityQueue;
      var count := CountActiveElements(spaces, num);
      numActElems := count;
      errors := errs;
      errorsSquaredSum := total;
      ok := FillRegularQueue();
      if ok {
        TakeKeepsState(s, n, ef, pq, errs);
        MarkErrorsAvailable();
      }
    }

    /** have_errors is set once a state that fits the errors is in place. */
    method MarkErrorsAvailable()
      requires StateOk(spaces, num, errorForm, priorityQueue, true, errors, numActElems, regularQueue)
      requires NonNegativeErrors(errors) && errorsSquaredSum >= 0.0
      modifies this
      ensures Valid() && haveErrors
      ensures spaces == old(spaces) && num == old(num) && priorityQueue == old(priorityQueue) && errorForm == old(errorForm)
      ensures lastRefinements == old(lastRefinements) && numActElems == old(numActElems)
      ensures errors == old(errors) && errorsSquaredSum == old(errorsSquaredSum) && regularQueue == old(regularQueue)
    {
      haveErrors := true;
    }

    /** adapt: without element errors, without a selector or with a
        selector count other than num, the call is fatal and changes
        nothing. Otherwise the adaptivity loop picks the refinements, which
        are mirrored across shared meshes, applied and followed by the
        homogenisation of shared orders; they are kept as the last
        refinements, the priority queue is spent, and the errors stay
        available only for strategy 2 when nothing changed. The result is
        `done`, with the level of the mesh regularisation requested. The
        errors the loop reads are not negative, so strategy 0's square-free
        test is the source's test against sqrt(thr) (see
        Selection.StrategyZeroIsRootShare). */
    method Adapt(selectors: seq<Selector>, hooks: Hooks, thr: real, strat: int, regularize: int, toBeProcessed: real)
      returns (ok: bool, done: bool, level: Option<nat>)
      requires Valid()
      modifies this
      ensures Valid()
      ensures num == old(num) && errorForm == old(errorForm) && errors == old(errors)
      ensures errorsSquaredSum == old(errorsSquaredSum) && numActElems == old(numActElems) && regularQueue == old(regularQueue)
      ensures ok <==> old(haveErrors) && selectors != [] && |selectors| == num
      ensures !ok ==> spaces == old(spaces) && priorityQueue == old(priorityQueue) && haveErrors == old(haveErrors) &&
                      lastRefinements == old(lastRefinements)
      ensures ok ==> AdaptStep(old(spaces), old(priorityQueue), old(regularQueue), old(errors),
                               StopRule(strat, thr, toBeProcessed, old(errorsSquaredSum)), selectors, hooks,
                               spaces, lastRefinements, done)
      ensures ok ==> priorityQueue == [] && haveErrors == (strat == 2 && done) && level == RegularizeLevel(regularize)
      ensures ok ==> NonNegativeErrors(old(errors)) && old(errorsSquaredSum) >= 0.0
    {
      if !haveErrors || selectors == [] || |selectors| != num {
        return false, false, None;
      }
      done := Refine(selectors, hooks, StopRule(strat, thr, toBeProcessed, errorsSquaredSum), strat == 2);
      level := RegularizeLevel(regularize);
      ok := true;
    }

    /** The body of adapt once its checks have passed: the refinements are
        picked, reconciled and applied, the priority queue is spent, and
        the errors stay available only when keepErrors is set and nothing
        changed. */
    method Refine(selectors: seq<Selector>, hooks: Hooks, rule: StopRule, keepErrors: bool) returns (done: bool)
      requires Valid() && haveErrors && selectors != [] && |selectors| == num
      modifies this
      ensures Valid()
      ensures num == old(num) && errorForm == old(errorForm) && errors == old(errors)
      ensures errorsSquaredSum == old(errorsSquaredSum) && numActElems == old(numActElems) && regularQueue == old(regularQueue)
      ensures AdaptStep(old(spaces), old(priorityQueue), old(regularQueue), old(errors), rule, selectors, hooks,
                        spaces, lastRefinements, done)
      ensures priorityQueue == [] && haveErrors == (keepErrors && done)
    {
      var r, fixed;
      r, fixed, done := AdaptSpaces(spaces, priorityQueue, regularQueue, errors, rule, selectors, hooks);
      var keep := keepErrors && done;
      AdaptKeepsState(spaces, r, num, errorForm, keep, errors, numActElems, regularQueue);
      Commit(r, fixed, keep);
    }

    /** The new spaces and last refinements of adapt take effect, the
        priority queue is spent and the errors stay available when keep is
        set. */
    method Commit(r: Spaces, fixed: seq<ElementToRefine>, keep: bool)
      requires StateOk(r, num, errorForm, [], keep, errors, numActElems, regularQueue)
      requires keep ==> NonNegativeErrors(errors) && errorsSquaredSum >= 0.0
      modifies this
      ensures Valid()
      ensures num == old(num) && errorForm == old(errorForm) && errors == old(errors)
      ensures errorsSquaredSum == old(errorsSquaredSum) && numActElems == old(numActElems) && regularQueue == old(regularQueue)
      ensures spaces == r && lastRefinements == fixed && priorityQueue == [] && haveErrors == keep
    {
      spaces, lastRefinements, priorityQueue, haveErrors := r, fixed, [], keep;
    }

    /** adapt with a single selector. */
    method AdaptSingle(selector: Selector, hooks: Hooks, thr: real, strat: int, regularize: int, toBeProcessed: real)
      returns (ok: bool, done: bool, level: Option<nat>)
      requires Valid()
      modifies this
      ensures Valid()
      ensures num == old(num) && errorForm == old(errorForm) && errors == old(errors)
      ensures errorsSquaredSum == old(errorsSquaredSum) && numActElems == old(numActElems) && regularQueue == old(regularQueue)
      ensures ok <==> old(haveErrors) && num == 1
      ensures !ok ==> spaces == old(spaces) && priorityQueue == old(priorityQueue) && haveErrors == old(haveErrors) &&
                      lastRefinements == old(lastRefinements)
      ensures ok ==> AdaptStep(old(spaces), old(priorityQueue), old(regularQueue), old(errors),
                               StopRule(strat, thr, toBeProcessed, old(errorsSquaredSum)), [selector], hooks,
                               spaces, lastRefinements, done)
      ensures ok ==> priorityQueue == [] && haveErrors == (strat == 2 && done) && level == RegularizeLevel(regularize)
    {
      ok, done, level := Adapt([selector], hooks, thr, strat, regularize, toBeProcessed);
    }

    /** unrefine(thr): without element errors, or for a component count
        other than two, the call is fatal and changes nothing. Otherwise the
        meshes and orders of the two components are coarsened (see
        Coarsening.Unrefined) against the error of the first entry of the
        regular queue, and the errors are no longer available. */
    method Unrefine(thr: real) returns (ok: bool)
      requires Valid()
      modifies this
      ensures Valid()
      ensures num == old(num) && errorForm == old(errorForm) && errorsSquaredSum == old(errorsSquaredSum)
      ensures numActElems == old(numActElems) && regularQueue == old(regularQueue) && priorityQueue == old(priorityQueue)
      ensures lastRefinements == old(lastRefinements)
      ensures ok <==> old(haveErrors) && UnrefineAccepts(old(num))
      ensures !ok ==> spaces == old(spaces) && errors == old(errors) && haveErrors == old(haveErrors)
      ensures ok ==> !haveErrors && |old(spaces).meshOf| == 2 && spaces.meshOf == old(spaces).meshOf
      ensures ok ==> Store(spaces, errors) == Unrefined(Store(old(spaces), old(errors)), thr, old(regularQueue)[0])
    {
      if !haveErrors || !UnrefineAccepts(num) {
        return false;
      }
      var r := UnrefineStore(Store(spaces, errors), thr, regularQueue[0]);
      TakeUnrefined(r);
      ok := true;
    }

    /** The coarsened spaces and errors take effect; the errors no longer
        describe the meshes, so they are marked as unavailable. */
    method TakeUnrefined(r: Store)
      requires StateOk(r.spaces, num, errorForm, priorityQueue, false, r.errors, numActElems, regularQueue)
      modifies this
      ensures Valid() && !haveErrors
      ensures spaces == r.spaces && errors == r.errors
      ensures num == old(num) && errorForm == old(errorForm) && errorsSquaredSum == old(errorsSquaredSum)
      ensures numActElems == old(numActElems) && regularQueue == old(regularQueue) && priorityQueue == old(priorityQueue)
      ensures lastRefinements == old(lastRefinements)
    {
      spaces, errors, haveErrors := r.spaces, r.errors, false;
    }
  }

  /** The active elements of the first n components, component by
      component, as the loop of fill_regular_queue visits them. */
  method CollectActive(s: Spaces, n: nat) returns (refs: seq<ElementReference>)
    requires SpacesOk(s) && n <= |s.meshOf|
    ensures refs == AllActiveRefs(s.meshes, s.meshOf, n)
  {
    refs := [];
    var i := 0;
    while i < n
      invariant 0 <= i <= n
      invariant refs == AllActiveRefs(s.meshes, s.meshOf, i)
    {
      var more := ActiveElements(s.meshes[s.meshOf[i]], i);
      refs := refs + more;
      i := i + 1;
    }
  }

  /** num_act_elems: get_num_active_elements summed over the meshes of the
      first n components. */
  method CountActiveElements(s: Spaces, n: nat) returns (count: nat)
    requires SpacesOk(s) && n <= |s.meshOf|
    ensures count == TotalActive(s.meshes, s.meshOf, n)
  {
    count := 0;
    var i := 0;
    while i < n
      invariant 0 <= i <= n
      invariant count == TotalActive(s.meshes, s.meshOf, i)
    {
      var mesh := s.meshes[s.meshOf[i]];
      count := count + CountActive(mesh, |mesh.elems|);
      i := i + 1;
    }
  }

  /** for_all_active_elements(e, mesh): the references of the active
      elements of the mesh, for component comp, by increasing id. */
  method ActiveElements(mesh: Mesh, comp: int) returns (refs: seq<ElementReference>)
    ensures refs == ActiveRefs(mesh, comp, |mesh.elems|)
  {
    refs := [];
    var id := 0;
    while id < |mesh.elems|
      invariant 0 <= id <= |mesh.elems|
      invariant refs == ActiveRefs(mesh, comp, id)
    {
      if IsActive(mesh, id) {
        refs := refs + [ElementReference(id, comp)];
      }
      id := id + 1;
    }
  }

  /** A fresh error pass fits the meshes: the sorted fill has
      num_act_elems entries, each naming an active, hence live, element of
      its component. */
  lemma FillFits(s: Spaces, errs: seq<seq<real>>)
    requires SpacesOk(s) && |errs| == |s.meshOf| && forall i :: 0 <= i < |s.meshOf| ==> |errs[i]| == |MeshOf(s, i).elems|
    requires TotalActive(s.meshes, s.meshOf, |s.meshOf|) > 0
    ensures ErrorsFit(s, errs, TotalActive(s.meshes, s.meshOf, |s.meshOf|), SortByError(errs, AllActiveRefs(s.meshes, s.meshOf, |s.meshOf|)))
  {
    var fill := AllActiveRefs(s.meshes, s.meshOf, |s.meshOf|);
    var q := SortByError(errs, fill);
    AllActiveRefsCount(s.meshes, s.meshOf, |s.meshOf|);
    assert |q| == |multiset(q)| == |multiset(fill)| == |fill|;
    forall k | 0 <= k < |q| ensures Names(s, q[k]) {
      assert q[k] in multiset(fill);
      AllActiveRefsExact(s.meshes, s.meshOf, |s.meshOf|, q[k]);
    }
  }

  /** Storing errors that fit the meshes, with their sorted fill, keeps the
      engine's state well formed. */
  lemma TakeKeepsState(s: Spaces, num: nat, errorForm: seq<seq<Option<ErrorForm>>>, pq: seq<ElementReference>,
                       errs: seq<seq<real>>)
    requires SpacesOk(s) && num == |s.meshOf| && 1 <= num <= MaxComponents
    requires |errorForm| == num && forall i :: 0 <= i < num ==> |errorForm[i]| == num
    requires pq == []
    requires |errs| == num && forall i :: 0 <= i < num ==> |errs[i]| == |MeshOf(s, i).elems|
    requires TotalActive(s.meshes, s.meshOf, num) > 0
    ensures StateOk(s, num, errorForm, pq, true, errs, TotalActive(s.meshes, s.meshOf, num),
                    SortByError(errs, AllActiveRefs(s.meshes, s.meshOf, num)))
  {
    FillFits(s, errs);
  }

  /** Every decision of the list names a live element of its component. */
  predicate AllTarget(s: Spaces, ds: seq<ElementToRefine>) {
    forall k :: 0 <= k < |ds| ==> Targets(s, ds[k])
  }

  /** idx as adapt builds it: one row per element id up to max_id, one column
      per component, holding the last position of a decision for the pair in
      ds or -1. */
  predicate IndexTable(s: Spaces, idx: array2<int>, ds: seq<ElementToRefine>)
    requires SpacesOk(s)
    reads idx
  {
    idx.Length0 == MaxIdUpTo(s, |s.meshOf|) && idx.Length1 == |s.meshOf| &&
    forall a, b :: 0 <= a < idx.Length0 && 0 <= b < idx.Length1 ==> idx[a, b] == LastIndex(ds, a, b)
  }

  /** A decision for a live element can be looked up in idx. */
  lemma TargetInTable(s: Spaces, idx: array2<int>, ds: seq<ElementToRefine>, d: ElementToRefine)
    requires SpacesOk(s) && IndexTable(s, idx, ds) && Targets(s, d)
    ensures 0 <= d.id < idx.Length0 && 0 <= d.comp < idx.Length1
  {
    assert MaxElementId(MeshOf(s, d.comp)) <= idx.Length0;
  }

  /** The first loop of fix_shared_mesh_refinements for the decision at inx:
      the split merged over the pending decisions idx finds for the
      components sharing its mesh, stopping at H. */
  method SelectSplit(s: Spaces, idx: array2<int>, ds0: seq<ElementToRefine>, ds: seq<ElementToRefine>, inx: nat)
    returns (sel: Split)
    requires SpacesOk(s) && IndexTable(s, idx, ds0) && inx < |ds0|
    requires SameHandles(ds0, ds) && Targets(s, ds[inx])
    ensures sel == SelectedFrom(s.meshOf, ds0, ds, ds[inx], ds[inx].split, 0)
  {
    var e := ds[inx];
    TargetInTable(s, idx, ds0, e);
    sel := e.split;
    var j := 0;
    while j < |s.meshOf|
      invariant 0 <= j <= |s.meshOf|
      invariant SelectedFrom(s.meshOf, ds0, ds, e, sel, j) == SelectedFrom(s.meshOf, ds0, ds, e, e.split, 0)
    {
      if sel == H {
        break;
      }
      if j != e.comp && s.meshOf[j] == s.meshOf[e.comp] {
        var ii := idx[e.id, j];
        LastIndexSound(ds0, e.id, j);
        if ii >= 0 {
          var other := ds[ii].split;
          if other != sel && other != P {
            if (other == AnisoH || other == AnisoV) && sel == P {
              sel := other;
            } else {
              sel := H;
            }
          }
        }
      }
      j := j + 1;
    }
  }

  /** The second loop of fix_shared_mesh_refinements for the decision at inx
      and the selected split: for every component sharing the mesh, the
      decision takes the split (its orders regenerated by that component's
      selector), the component's pending decision is retargeted, or a new
      decision for the component is appended. */
  method UpdateShared(s: Spaces, selectors: seq<Selector>, idx: array2<int>, ds0: seq<ElementToRefine>,
                      ds: seq<ElementToRefine>, inx: nat, sel: Split, cur: nat, suggested: Option<Orders4>)
    returns (r: seq<ElementToRefine>)
    requires SpacesOk(s) && |selectors| == |s.meshOf| && IndexTable(s, idx, ds0) && inx < |ds0|
    requires SameHandles(ds0, ds) && Targets(s, ds[inx])
    ensures r == UpdateFrom(s.meshOf, selectors, ds0, ds, inx, sel, cur, suggested, 0)
  {
    var id := ds[inx].id;
    var comp := ds[inx].comp;
    TargetInTable(s, idx, ds0, ds[inx]);
    r := ds;
    var j := 0;
    while j < |s.meshOf|
      invariant 0 <= j <= |s.meshOf|
      invariant SameHandles(ds0, r) && r[inx].id == id && r[inx].comp == comp
      invariant UpdateFrom(s.meshOf, selectors, ds0, r, inx, sel, cur, suggested, j) ==
        UpdateFrom(s.meshOf, selectors, ds0, ds, inx, sel, cur, suggested, 0)
    {
      if j != comp && s.meshOf[j] == s.meshOf[comp] {
        ghost var before := r;
        UpdateStepFacts(s.meshOf, selectors, ds0, r, inx, sel, cur, suggested, j);
        if r[inx].split != sel {
          r := r[inx := Retarget(selectors, j, r[inx], cur, sel, suggested)];
        }
        var ii := idx[id, j];
        LastIndexSound(ds0, id, j);
        if ii >= 0 {
          if r[ii].split != sel {
            r := r[ii := Retarget(selectors, j, r[ii], cur, sel, suggested)];
          }
        } else {
          r := r + [ElementToRefine(id, j, sel, selectors[j].sharedOrders(id, cur, sel, suggested), ZeroOrders)];
        }
        assert r == UpdateStep(s.meshOf, selectors, ds0, before, inx, sel, cur, suggested, j);
      }
      j := j + 1;
    }
  }

  /** fix_shared_mesh_refinements: the decisions present when it starts are
      visited in order; decisions it appends are not revisited. */
  method FixSharedMeshRefinements(s: Spaces, selectors: seq<Selector>, idx: array2<int>, ds0: seq<ElementToRefine>)
    returns (ds: seq<ElementToRefine>)
    requires SpacesOk(s) && |selectors| == |s.meshOf| && IndexTable(s, idx, ds0) && AllTarget(s, ds0)
    ensures DecisionsOk(s.meshOf, ds0)
    ensures ds == FixFrom(s.meshOf, s.orders, selectors, ds0, ds0, 0)
    ensures AllTarget(s, ds)
  {
    AllTargetDecisionsOk(s, ds0);
    ds := ds0;
    var inx := 0;
    while inx < |ds0|
      invariant 0 <= inx <= |ds0|
      invariant DecisionsOk(s.meshOf, ds) && SameHandles(ds0, ds) && AllTarget(s, ds)
      invariant FixFrom(s.meshOf, s.orders, selectors, ds0, ds, inx) == FixFrom(s.meshOf, s.orders, selectors, ds0, ds0, 0)
    {
      ds := FixStep(s, selectors, idx, ds0, ds, inx);
      inx := inx + 1;
    }
  }

  /** One iteration of the outer loop of fix_shared_mesh_refinements: the
      split selected for the decision at inx is mirrored on the components
      sharing its mesh. */
  method FixStep(s: Spaces, selectors: seq<Selector>, idx: array2<int>, ds0: seq<ElementToRefine>,
                 ds: seq<ElementToRefine>, inx: nat) returns (r: seq<ElementToRefine>)
    requires SpacesOk(s) && |selectors| == |s.meshOf| && IndexTable(s, idx, ds0) && inx < |ds0|
    requires DecisionsOk(s.meshOf, ds) && SameHandles(ds0, ds) && AllTarget(s, ds)
    ensures r == FixOne(s.meshOf, s.orders, selectors, ds0, ds, inx)
    ensures AllTarget(s, r)
  {
    var e := ds[inx];
    assert Targets(s, e);
    var current := OrderAt(s.orders[e.comp], e.id);
    var sel := SelectSplit(s, idx, ds0, ds, inx);
    if sel == P {
      return ds;
    }
    var suggested := if sel == H then Some(e.q) else None;
    UpdateFromFacts(s.meshOf, selectors, ds0, ds, inx, sel, current, suggested, 0);
    r := UpdateShared(s, selectors, idx, ds0, ds, inx, sel, current, suggested);
    MirroredTargets(s, ds, r, e);
  }

  /** Every decision names a component. */
  lemma AllTargetDecisionsOk(s: Spaces, ds: seq<ElementToRefine>)
    requires AllTarget(s, ds)
    ensures DecisionsOk(s.meshOf, ds)
  {
    forall k | 0 <= k < |ds| ensures 0 <= ds[k].comp < |s.meshOf| {
      assert Targets(s, ds[k]);
    }
  }

  /** Decisions that keep the element and component of the ones before
      them, followed by decisions for the element of e on components
      sharing its mesh, name live elements when those before them did. */
  lemma MirroredTargets(s: Spaces, ds: seq<ElementToRefine>, r: seq<ElementToRefine>, e: ElementToRefine)
    requires SpacesOk(s) && AllTarget(s, ds) && Targets(s, e) && |ds| <= |r|
    requires forall k :: 0 <= k < |ds| ==> r[k].id == ds[k].id && r[k].comp == ds[k].comp
    requires forall k :: |ds| <= k < |r| ==> r[k].id == e.id && Shares(s.meshOf, r[k].comp, e.comp)
    ensures AllTarget(s, r)
  {
    forall k | 0 <= k < |r| ensures Targets(s, r[k]) {
      if k < |ds| {
        assert Targets(s, ds[k]);
      }
    }
  }

  /** set_element_order_internal for the sons in the split's slots, in slot
      order, skipping an empty slot. */
  method SetSonOrdersLoop(orders: map<int, nat>, sons: seq<int>, slots: seq<nat>, p: Orders4) returns (r: map<int, nat>)
    requires |sons| == MaxElementSons && |slots| <= 4 && forall k :: 0 <= k < |slots| ==> slots[k] < MaxElementSons
    ensures r == SetSonOrders(orders, sons, slots, p, 0)
  {
    r := orders;
    var j := 0;
    while j < |slots|
      invariant 0 <= j <= |slots|
      invariant SetSonOrders(r, sons, slots, p, j) == SetSonOrders(orders, sons, slots, p, 0)
    {
      var son := sons[slots[j]];
      if son != NoSon {
        r := r[son := p[j]];
      }
      j := j + 1;
    }
  }

  /** apply_refinement: a P split sets the element's order; any other split
      refines the element when it is still active and then sets its sons'
      orders. */
  method ApplyRefinement(s: Spaces, d: ElementToRefine) returns (r: Spaces)
    requires SpacesOk(s) && Targets(s, d)
    ensures r == ApplyOne(s, d)
  {
    var m := s.meshOf[d.comp];
    var mesh := s.meshes[m];
    if d.split == P {
      r := s.(orders := s.orders[d.comp := s.orders[d.comp][d.id := d.p[0]]]);
    } else {
      if IsActive(mesh, d.id) {
        mesh := RefineElement(mesh, d.id, d.split);
      }
      assert SonsOk(mesh, d.id);
      var ord := SetSonOrdersLoop(s.orders[d.comp], mesh.elems[d.id].sons, OrderSlots(d.split), d.p);
      r := s.(meshes := s.meshes[m := mesh], orders := s.orders[d.comp := ord]);
    }
  }

  /** apply_refinements: every decision, in list order. */
  method ApplyRefinements(s: Spaces, ds: seq<ElementToRefine>) returns (r: Spaces)
    requires SpacesOk(s) && AllTarget(s, ds)
    ensures r == ApplyAll(s, ds)
  {
    r := s;
    var k := 0;
    while k < |ds|
      invariant 0 <= k <= |ds|
      invariant r == ApplyAll(s, ds[..k])
    {
      assert ds[..k + 1][..k] == ds[..k];
      r := ApplyRefinement(r, ds[k]);
      k := k + 1;
    }
    assert ds[..|ds|] == ds;
  }

  /** The regularisation level adapt asks the meshes for: none for a
      negative argument; 0 (total regularisation) is not supported and
      becomes 1-irregularity. */
  function RegularizeLevel(regularize: int): (r: Option<nat>)
    ensures r.None? <==> regularize < 0
    ensures r.Some? ==> r.value >= 1 && (regularize > 0 ==> r.value == regularize)
  {
    if regularize < 0 then None
    else if regularize == 0 then Some(1)
    else Some(regularize)
  }

  /** Every decision the adaptivity loop records is about an entry of the
      queues, so it names a live element. */
  lemma AcceptedTargets(s: Spaces, hooks: Hooks, selectors: seq<Selector>, pq: seq<ElementReference>,
                        rq: seq<ElementReference>, n: nat)
    requires SpacesOk(s) && |selectors| == |s.meshOf| && n <= |rq|
    requires forall k :: 0 <= k < |pq| ==> Names(s, pq[k])
    requires forall k :: 0 <= k < |rq| ==> Names(s, rq[k])
    ensures CandidatesOk(selectors, s.orders, Examined(pq, rq, n))
    ensures AllTarget(s, Accepted(hooks, selectors, s.orders, Examined(pq, rq, n)))
  {
    var cs := Examined(pq, rq, n);
    assert forall c :: c in cs ==> Names(s, c.ref) by {
      forall c | c in cs ensures Names(s, c.ref) {
        var i :| 0 <= i < |cs| && cs[i] == c;
        if i < |pq| {
          assert c.ref == pq[i];
        } else {
          assert c.ref == rq[i - |pq|];
        }
      }
    }
    var ds := Accepted(hooks, selectors, s.orders, cs);
    forall k | 0 <= k < |ds| ensures Targets(s, ds[k]) {
      AcceptedComeFromCandidates(hooks, selectors, s.orders, cs, k);
      var c :| c in cs && Decide(hooks, selectors, s.orders, c) == Some(ds[k]);
      NamesTargets(s, c.ref, ds[k]);
    }
  }

  /** A loop that examined nothing recorded nothing. */
  lemma NothingExamined(hooks: Hooks, selectors: seq<Selector>, orders: seq<map<int, nat>>, rule: StopRule,
                        errors: seq<seq<real>>, pq: seq<ElementReference>, rq: seq<ElementReference>)
    requires QueuesOk(selectors, orders, pq, rq)
    ensures var cut := Cut(hooks, selectors, orders, rule, errors, pq, rq);
      ExaminedCount(pq, rq, cut) == 0 ==> Accepted(hooks, selectors, orders, Examined(pq, rq, cut)) == []
  {
    var cut := Cut(hooks, selectors, orders, rule, errors, pq, rq);
    if ExaminedCount(pq, rq, cut) == 0 {
      assert |Examined(pq, rq, cut)| == 0;
    }
  }

  /** What one call of adapt leaves, given the spaces, the queues, the
      element errors and the stopping rule it starts from: the decisions of
      the adaptivity loop, mirrored across shared meshes, applied in order,
      and the orders then homogenised over shared meshes; `done` when
      nothing was examined or nothing was recorded. */
  ghost predicate AdaptStep(s: Spaces, pq: seq<ElementReference>, rq: seq<ElementReference>, errors: seq<seq<real>>,
                            rule: StopRule, selectors: seq<Selector>, hooks: Hooks,
                            r: Spaces, last: seq<ElementToRefine>, done: bool)
    requires SpacesOk(s) && |selectors| == |s.meshOf|
    requires forall k :: 0 <= k < |pq| ==> Names(s, pq[k])
    requires forall k :: 0 <= k < |rq| ==> Names(s, rq[k])
  {
    NamesQueuesOk(s, selectors, pq, rq);
    var cut := Cut(hooks, selectors, s.orders, rule, errors, pq, rq);
    AcceptedTargets(s, hooks, selectors, pq, rq, cut);
    var ds := Accepted(hooks, selectors, s.orders, Examined(pq, rq, cut));
    AllTargetDecisionsOk(s, ds);
    var fixed := FixFrom(s.meshOf, s.orders, selectors, ds, ds, 0);
    done == (ExaminedCount(pq, rq, cut) == 0 || ds == []) &&
    last == fixed && AllTarget(s, fixed) &&
    var applied := ApplyAll(s, fixed);
    SpacesOk(r) && r.meshes == applied.meshes && r.meshOf == s.meshOf &&
    forall c, id :: 0 <= c < |s.meshOf| ==> Order(r, c, id) == Homogenized(applied, c, id)
  }

  /** adapt reports done exactly when it leaves no refinements, and then
      the meshes are as they were; otherwise every refinement it leaves
      names a live element of the meshes it started from. */
  lemma AdaptDone(s: Spaces, pq: seq<ElementReference>, rq: seq<ElementReference>, errors: seq<seq<real>>,
                  rule: StopRule, selectors: seq<Selector>, hooks: Hooks, r: Spaces, last: seq<ElementToRefine>, done: bool)
    requires SpacesOk(s) && |selectors| == |s.meshOf|
    requires forall k :: 0 <= k < |pq| ==> Names(s, pq[k])
    requires forall k :: 0 <= k < |rq| ==> Names(s, rq[k])
    requires AdaptStep(s, pq, rq, errors, rule, selectors, hooks, r, last, done)
    ensures done <==> last == []
    ensures done ==> r.meshes == s.meshes
    ensures AllTarget(s, last)
  {
    NamesQueuesOk(s, selectors, pq, rq);
    var cut := Cut(hooks, selectors, s.orders, rule, errors, pq, rq);
    AcceptedTargets(s, hooks, selectors, pq, rq, cut);
    var ds := Accepted(hooks, selectors, s.orders, Examined(pq, rq, cut));
    NothingExamined(hooks, selectors, s.orders, rule, errors, pq, rq);
    AllTargetDecisionsOk(s, ds);
    if ds == [] {
      assert last == [];
      assert ApplyAll(s, last) == s;
    }
  }

  /** Error data that fits the meshes depends on the meshes only: new orders
      keep it fitting. */
  lemma ErrorsFitMeshesOnly(s: Spaces, r: Spaces, errors: seq<seq<real>>, numActElems: int, rq: seq<ElementReference>)
    requires SpacesOk(s) && SpacesOk(r) && r.meshes == s.meshes && r.meshOf == s.meshOf
    requires ErrorsFit(s, errors, numActElems, rq)
    ensures ErrorsFit(r, errors, numActElems, rq)
  {
    forall k | 0 <= k < |rq| ensures Names(r, rq[k]) {
      assert Names(s, rq[k]);
    }
  }

  /** The body of adapt on the spaces: the adaptivity loop, then
      fix_shared_mesh_refinements, apply_refinements and
      homogenize_shared_mesh_orders. */
  method AdaptSpaces(s: Spaces, pq: seq<ElementReference>, rq: seq<ElementReference>, errors: seq<seq<real>>,
                     rule: StopRule, selectors: seq<Selector>, hooks: Hooks)
    returns (r: Spaces, fixed: seq<ElementToRefine>, done: bool)
    requires SpacesOk(s) && |selectors| == |s.meshOf| && 0 < |s.meshOf|
    requires forall k :: 0 <= k < |pq| ==> Names(s, pq[k])
    requires forall k :: 0 <= k < |rq| ==> Names(s, rq[k])
    ensures AdaptStep(s, pq, rq, errors, rule, selectors, hooks, r, fixed, done)
    ensures SpacesOk(r) && r.meshOf == s.meshOf && (done ==> r.meshes == s.meshes)
  {
    var ds, idx, numExam := SelectRefinements(s, pq, rq, errors, selectors, hooks, rule);
    done := numExam == 0 || ds == [];
    AcceptedTargets(s, hooks, selectors, pq, rq, Cut(hooks, selectors, s.orders, rule, errors, pq, rq));
    fixed := FixSharedMeshRefinements(s, selectors, idx, ds);
    var applied := ApplyRefinements(s, fixed);
    r := HomogenizeSharedMeshOrders(applied);
    assert AdaptStep(s, pq, rq, errors, rule, selectors, hooks, r, fixed, done);
    AdaptDone(s, pq, rq, errors, rule, selectors, hooks, r, fixed, done);
  }

  /** adapt keeps the engine's state well formed: the meshes it leaves are
      those the errors were computed on whenever it keeps the errors. */
  lemma AdaptKeepsState(s: Spaces, r: Spaces, num: nat, errorForm: seq<seq<Option<ErrorForm>>>, keep: bool,
                        errors: seq<seq<real>>, numActElems: int, rq: seq<ElementReference>)
    requires StateOk(s, num, errorForm, [], true, errors, numActElems, rq)
    requires SpacesOk(r) && r.meshOf == s.meshOf && (keep ==> r.meshes == s.meshes)
    ensures StateOk(r, num, errorForm, [], keep, errors, numActElems, rq)
  {
    if keep {
      ErrorsFitMeshesOnly(s, r, errors, numActElems, rq);
    }
  }
}
