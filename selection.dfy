/** What the main loop of Adapt::adapt decides: which examined entries are
    accepted, where each accepted decision sits in the decision list, and
    when one of the four stopping strategies ends the loop. */
module Selection {
  import opened Wrappers
  import opened Refinement
  import opened ElementQueue

  /** An examined queue entry with its inx_element: -1 for an entry of the
      priority queue, its position for an entry of the regular queue. */
  datatype Candidate = Candidate(inx: int, ref: ElementReference)

  /** The arguments of one adaptivity step that the stopping tests use,
      with the error budget of the last error pass. */
  datatype StopRule = StopRule(strat: int, thr: real, toBeProcessed: real, errorsSquaredSum: real)

  /** err0_squared before any decision has been accepted. */
  const InitialLastError: real := 1000.0

  /** Relative change below which strategy 0 keeps elements of nearly equal
      error together. */
  const SymmetryTolerance: real := 0.001

  function Abs(x: real): real {
    if x < 0.0 then -x else x
  }

  /** `x > sqrt(thr) * total` for non-negative x and total, without sqrt; the
      square root of a negative thr is NaN, against which nothing compares
      greater. */
  predicate ExceedsRootShare(x: real, thr: real, total: real) {
    thr >= 0.0 && x > 0.0 && x * x > thr * total * total
  }

  lemma ProductSign(u: real, v: real)
    requires u >= 0.0 && v >= 0.0
    ensures u * v >= 0.0
    ensures u > 0.0 && v > 0.0 ==> u * v > 0.0
  {
  }

  /** Squaring is strictly monotone on the non-negative reals. */
  lemma SquareLess(a: real, b: real)
    requires 0.0 <= a && 0.0 <= b
    ensures a < b <==> a * a < b * b
  {
    if a < b {
      assert b * b - a * a == (b - a) * (b + a);
      ProductSign(b - a, b + a);
    } else {
      assert a * a - b * b == (a - b) * (a + b);
      ProductSign(a - b, a + b);
    }
  }

  /** The square-free form agrees with the comparison against the root. */
  lemma RootShareSound(x: real, thr: real, total: real, root: real)
    requires x >= 0.0 && total >= 0.0 && root >= 0.0 && root * root == thr
    ensures ExceedsRootShare(x, thr, total) <==> x > root * total
  {
    var b := root * total;
    assert thr * total * total == b * b by {
      assert thr * total * total == (root * root) * (total * total);
    }
    assert b >= 0.0;
    SquareLess(b, x);
  }

  /** `fabs((err - err0) / err0) > 1e-3` in IEEE arithmetic: a zero err0
      gives an infinite ratio for a non-zero err and NaN for a zero one. */
  predicate SignificantChange(err: real, err0: real) {
    if err0 == 0.0 then err != 0.0
    else Abs(err - err0) > SymmetryTolerance * Abs(err0)
  }

  /** The stopping tests of adapt.cpp, for one regular entry of error `err`,
      with the threshold of strategies 1 and 3, the error processed so far
      and the error of the last accepted entry. */
  predicate StopFires(rule: StopRule, err: real, threshold: real, processed: real, err0: real) {
    (rule.strat == 0 && ExceedsRootShare(processed, rule.thr, rule.errorsSquaredSum) && SignificantChange(err, err0)) ||
    (rule.strat == 1 && err < threshold) ||
    (rule.strat == 2 && err < rule.thr) ||
    (rule.strat == 3 && (err < threshold || processed > 1.5 * rule.toBeProcessed))
  }

  /** On non-negative element errors and a non-negative total, strategy 0
      stops exactly when the processed error exceeds sqrt(thr) times the
      total and the error changed significantly. */
  lemma StrategyZeroIsRootShare(rule: StopRule, errors: seq<seq<real>>, ds: seq<ElementToRefine>,
                                err: real, threshold: real, err0: real, root: real)
    requires rule.strat == 0 && NonNegativeErrors(errors) && rule.errorsSquaredSum >= 0.0
    requires root >= 0.0 && root * root == rule.thr
    ensures StopFires(rule, err, threshold, SumErr(errors, ds), err0) <==>
            SumErr(errors, ds) > root * rule.errorsSquaredSum && SignificantChange(err, err0)
  {
    SumErrNonNegative(errors, ds);
    RootShareSound(SumErr(errors, ds), rule.thr, rule.errorsSquaredSum, root);
  }

  /** The entry is not ignored by should_ignore_element. */
  predicate Kept(hooks: Hooks, c: Candidate) {
    !hooks.shouldIgnore(c.inx, c.ref.comp, c.ref.id)
  }

  /** The decision the selector of the entry's component proposes. */
  function Proposal(selectors: seq<Selector>, orders: seq<map<int, nat>>, c: Candidate): (d: ElementToRefine)
    requires 0 <= c.ref.comp < |selectors| && c.ref.comp < |orders|
    ensures d.id == c.ref.id && d.comp == c.ref.comp
  {
    var s := selectors[c.ref.comp].select(c.ref.id, OrderAt(orders[c.ref.comp], c.ref.id));
    ElementToRefine(c.ref.id, c.ref.comp, s.split, s.p, s.q)
  }

  /** The decision recorded for an entry that passed the stopping tests:
      none when it is ignored or can_refine_element refuses it. */
  function Decide(hooks: Hooks, selectors: seq<Selector>, orders: seq<map<int, nat>>, c: Candidate): Option<ElementToRefine>
    requires 0 <= c.ref.comp < |selectors| && c.ref.comp < |orders|
  {
    if !Kept(hooks, c) then None
    else
      var d := Proposal(selectors, orders, c);
      var refined := selectors[c.ref.comp].select(c.ref.id, OrderAt(orders[c.ref.comp], c.ref.id)).refined;
      if hooks.canRefine(c.ref.comp, c.ref.id, refined, d) then Some(d) else None
  }

  predicate CandidatesOk(selectors: seq<Selector>, orders: seq<map<int, nat>>, cs: seq<Candidate>) {
    forall k :: 0 <= k < |cs| ==> 0 <= cs[k].ref.comp < |selectors| && cs[k].ref.comp < |orders|
  }

  /** The decision list built from the entries that passed the stopping
      tests, in examination order. */
  function Accepted(hooks: Hooks, selectors: seq<Selector>, orders: seq<map<int, nat>>, cs: seq<Candidate>): seq<ElementToRefine>
    requires CandidatesOk(selectors, orders, cs)
  {
    if cs == [] then []
    else
      var last := cs[|cs| - 1];
      Accepted(hooks, selectors, orders, cs[..|cs| - 1]) +
        match Decide(hooks, selectors, orders, last) {
          case Some(d) => [d]
          case None => []
        }
  }

  /** Examining more entries only appends to the decision list. */
  lemma {:induction false} AcceptedConcat(hooks: Hooks, selectors: seq<Selector>, orders: seq<map<int, nat>>, a: seq<Candidate>, b: seq<Candidate>)
    requires CandidatesOk(selectors, orders, a) && CandidatesOk(selectors, orders, b)
    ensures CandidatesOk(selectors, orders, a + b)
    ensures Accepted(hooks, selectors, orders, a + b) == Accepted(hooks, selectors, orders, a) + Accepted(hooks, selectors, orders, b)
  {
    assert CandidatesOk(selectors, orders, a + b) by {
      forall k | 0 <= k < |a + b| ensures 0 <= (a + b)[k].ref.comp < |selectors| && (a + b)[k].ref.comp < |orders| {
        if k >= |a| { assert (a + b)[k] == b[k - |a|]; }
      }
    }
    if b != [] {
      var b' := b[..|b| - 1];
      assert (a + b)[..|a + b| - 1] == a + b';
      AcceptedConcat(hooks, selectors, orders, a, b');
    } else {
      assert a + b == a;
    }
  }

  /** Every accepted decision is the proposal for a kept examined entry that
      can_refine_element approved; a rejected entry contributes nothing. */
  lemma {:induction false} AcceptedComeFromCandidates(hooks: Hooks, selectors: seq<Selector>, orders: seq<map<int, nat>>, cs: seq<Candidate>, k: nat)
    requires CandidatesOk(selectors, orders, cs)
    requires k < |Accepted(hooks, selectors, orders, cs)|
    ensures exists c :: c in cs && Decide(hooks, selectors, orders, c) == Some(Accepted(hooks, selectors, orders, cs)[k])
  {
    var init := cs[..|cs| - 1];
    var prev := Accepted(hooks, selectors, orders, init);
    if k < |prev| {
      AcceptedComeFromCandidates(hooks, selectors, orders, init, k);
      var c :| c in init && Decide(hooks, selectors, orders, c) == Some(prev[k]);
      assert c in cs;
    } else {
      assert cs[|cs| - 1] in cs;
    }
  }

  function ErrorOfDecision(errors: seq<seq<real>>, d: ElementToRefine): real {
    ErrorOf(errors, ElementReference(d.id, d.comp))
  }

  /** processed_error_squared: the summed error of the accepted decisions. */
  function SumErr(errors: seq<seq<real>>, ds: seq<ElementToRefine>): real {
    if ds == [] then 0.0 else SumErr(errors, ds[..|ds| - 1]) + ErrorOfDecision(errors, ds[|ds| - 1])
  }

  /** Element errors are sums of squared error norms, never negative. */
  predicate NonNegativeErrors(errors: seq<seq<real>>) {
    forall i, k :: 0 <= i < |errors| && 0 <= k < |errors[i]| ==> errors[i][k] >= 0.0
  }

  /** The processed error is never negative when the element errors are not. */
  lemma {:induction false} SumErrNonNegative(errors: seq<seq<real>>, ds: seq<ElementToRefine>)
    requires NonNegativeErrors(errors)
    ensures SumErr(errors, ds) >= 0.0
  {
    if ds != [] {
      SumErrNonNegative(errors, ds[..|ds| - 1]);
      var d := ds[|ds| - 1];
      assert ErrorOfDecision(errors, d) >= 0.0 by {
        if 0 <= d.comp < |errors| && 0 <= d.id < |errors[d.comp]| {
          assert errors[d.comp][d.id] >= 0.0;
        }
      }
    }
  }

  /** err0_squared: the error of the last accepted decision. */
  function LastErr(errors: seq<seq<real>>, ds: seq<ElementToRefine>): real {
    if ds == [] then InitialLastError else ErrorOfDecision(errors, ds[|ds| - 1])
  }

  /** idx[id][comp]: the position of the last decision for (id, comp) in the
      decision list, -1 when there is none. */
  function LastIndex(ds: seq<ElementToRefine>, id: int, comp: int): (i: int)
    ensures -1 <= i < |ds|
    ensures i >= 0 ==> ds[i].id == id && ds[i].comp == comp
  {
    if ds == [] then -1
    else if ds[|ds| - 1].id == id && ds[|ds| - 1].comp == comp then |ds| - 1
    else LastIndex(ds[..|ds| - 1], id, comp)
  }

  /** LastIndex finds the last decision for (id, comp), and -1 means there
      is none. */
  lemma {:induction false} LastIndexSound(ds: seq<ElementToRefine>, id: int, comp: int)
    ensures -1 <= LastIndex(ds, id, comp) < |ds|
    ensures LastIndex(ds, id, comp) >= 0 ==>
      ds[LastIndex(ds, id, comp)].id == id && ds[LastIndex(ds, id, comp)].comp == comp
    ensures forall k :: LastIndex(ds, id, comp) < k < |ds| ==> !(ds[k].id == id && ds[k].comp == comp)
  {
    if ds != [] && !(ds[|ds| - 1].id == id && ds[|ds| - 1].comp == comp) {
      LastIndexSound(ds[..|ds| - 1], id, comp);
    }
  }

  /** The candidates taken from a priority queue, in FIFO order. */
  function PriorityCandidates(pq: seq<ElementReference>): (cs: seq<Candidate>)
    ensures |cs| == |pq|
  {
    seq(|pq|, i requires 0 <= i < |pq| => Candidate(-1, pq[i]))
  }

  /** The first n entries of the regular queue as candidates. */
  function RegularCandidates(rq: seq<ElementReference>, n: nat): (cs: seq<Candidate>)
    requires n <= |rq|
    ensures |cs| == n
  {
    seq(n, k requires 0 <= k < n => Candidate(k, rq[k]))
  }

  /** Position of the first kept entry among rq[k..n], -1 when there is none. */
  function FirstKeptFrom(hooks: Hooks, rq: seq<ElementReference>, k: nat, n: nat): int
    requires n <= |rq|
    decreases n - k
  {
    if k >= n then -1
    else if Kept(hooks, Candidate(k, rq[k])) then k
    else FirstKeptFrom(hooks, rq, k + 1, n)
  }

  /** The first kept regular entry stays the first one as more entries are
      examined, and the first examined kept entry becomes it. */
  lemma {:induction false} FirstKeptStep(hooks: Hooks, rq: seq<ElementReference>, k: nat, n: nat)
    requires k <= n < |rq|
    ensures FirstKeptFrom(hooks, rq, k, n + 1) ==
      if FirstKeptFrom(hooks, rq, k, n) != -1 then FirstKeptFrom(hooks, rq, k, n)
      else if Kept(hooks, Candidate(n, rq[n])) then n else -1
    ensures -1 <= FirstKeptFrom(hooks, rq, k, n + 1) <= n
    ensures FirstKeptFrom(hooks, rq, k, n + 1) != -1 ==> k <= FirstKeptFrom(hooks, rq, k, n + 1)
    decreases n - k
  {
    if k < n && !Kept(hooks, Candidate(k, rq[k])) {
      FirstKeptStep(hooks, rq, k + 1, n);
    }
  }

  /** error_squared_threshod after the first n regular entries: thr times
      the error of the first kept regular entry, -1 before there is one. */
  function Threshold(hooks: Hooks, rule: StopRule, errors: seq<seq<real>>, rq: seq<ElementReference>, n: nat): real
    requires n <= |rq|
  {
    var f := FirstKeptFrom(hooks, rq, 0, n);
    if 0 <= f < |rq| then rule.thr * ErrorOf(errors, rq[f]) else -1.0
  }

  /** The entries the loop has examined after draining the priority entries
      pq and taking the first n regular entries. */
  function Examined(pq: seq<ElementReference>, rq: seq<ElementReference>, n: nat): seq<Candidate>
    requires n <= |rq|
  {
    PriorityCandidates(pq) + RegularCandidates(rq, n)
  }

  /** Examining one more entry appends one candidate. */
  lemma ExaminedSnoc(pq: seq<ElementReference>, rq: seq<ElementReference>, n: nat)
    requires n < |rq|
    ensures Examined(pq, rq, n + 1) == Examined(pq, rq, n) + [Candidate(n, rq[n])]
  {
    assert RegularCandidates(rq, n + 1) == RegularCandidates(rq, n) + [Candidate(n, rq[n])];
  }

  /** Taking one more priority entry, before any regular one, appends one
      candidate. */
  lemma ExaminedSnocPriority(pq: seq<ElementReference>, rq: seq<ElementReference>, np: nat)
    requires np < |pq|
    ensures Examined(pq[..np + 1], rq, 0) == Examined(pq[..np], rq, 0) + [Candidate(-1, pq[np])]
  {
    assert pq[..np + 1][..np] == pq[..np];
    assert PriorityCandidates(pq[..np + 1]) == PriorityCandidates(pq[..np]) + [Candidate(-1, pq[np])];
  }

  /** Accepting is decided one candidate at a time. */
  lemma AcceptedSnoc(hooks: Hooks, selectors: seq<Selector>, orders: seq<map<int, nat>>, cs: seq<Candidate>, c: Candidate)
    requires CandidatesOk(selectors, orders, cs) && 0 <= c.ref.comp < |selectors| && c.ref.comp < |orders|
    ensures CandidatesOk(selectors, orders, cs + [c])
    ensures Accepted(hooks, selectors, orders, cs + [c]) ==
      Accepted(hooks, selectors, orders, cs) + match Decide(hooks, selectors, orders, c) { case Some(d) => [d] case None => [] }
  {
    assert (cs + [c])[..|cs|] == cs;
  }

  /** Appending a decision adds its error to the processed error and makes it
      the last accepted one. */
  lemma SumErrSnoc(errors: seq<seq<real>>, ds: seq<ElementToRefine>, d: ElementToRefine)
    ensures SumErr(errors, ds + [d]) == SumErr(errors, ds) + ErrorOfDecision(errors, d)
    ensures LastErr(errors, ds + [d]) == ErrorOfDecision(errors, d)
  {
    assert (ds + [d])[..|ds|] == ds;
  }

  /** Appending a decision makes it the last one for its element and
      component and leaves the others' positions. */
  lemma LastIndexSnoc(ds: seq<ElementToRefine>, d: ElementToRefine, id: int, comp: int)
    ensures LastIndex(ds + [d], id, comp) == if d.id == id && d.comp == comp then |ds| else LastIndex(ds, id, comp)
  {
    assert (ds + [d])[..|ds|] == ds;
  }

  /** The positions of every element and component after one append. */
  lemma LastIndexSnocAll(ds: seq<ElementToRefine>, d: ElementToRefine)
    ensures forall id, comp :: LastIndex(ds + [d], id, comp) == if d.id == id && d.comp == comp then |ds| else LastIndex(ds, id, comp)
  {
    forall id, comp ensures LastIndex(ds + [d], id, comp) == if d.id == id && d.comp == comp then |ds| else LastIndex(ds, id, comp) {
      LastIndexSnoc(ds, d, id, comp);
    }
  }

  /** The stopping tests fire at regular entry k: it is not ignored, and with
      the threshold, processed error and last accepted error the loop holds
      once it has examined every priority entry and the regular entries
      before k, one of the four strategies breaks the loop. */
  predicate StopsAt(hooks: Hooks, selectors: seq<Selector>, orders: seq<map<int, nat>>, rule: StopRule,
                    errors: seq<seq<real>>, pq: seq<ElementReference>, rq: seq<ElementReference>, k: nat)
    requires QueuesOk(selectors, orders, pq, rq) && k < |rq|
  {
    ExaminedOk(selectors, orders, pq, rq, k);
    var ds := Accepted(hooks, selectors, orders, Examined(pq, rq, k));
    Kept(hooks, Candidate(k, rq[k])) &&
    StopFires(rule, ErrorOf(errors, rq[k]), Threshold(hooks, rule, errors, rq, k + 1), SumErr(errors, ds), LastErr(errors, ds))
  }

  /** Every entry of both queues names a component with a selector and an
      order table. */
  predicate QueuesOk(selectors: seq<Selector>, orders: seq<map<int, nat>>, pq: seq<ElementReference>, rq: seq<ElementReference>) {
    (forall k :: 0 <= k < |pq| ==> 0 <= pq[k].comp < |selectors| && pq[k].comp < |orders|) &&
    (forall k :: 0 <= k < |rq| ==> 0 <= rq[k].comp < |selectors| && rq[k].comp < |orders|)
  }

  lemma ExaminedOk(selectors: seq<Selector>, orders: seq<map<int, nat>>, pq: seq<ElementReference>, rq: seq<ElementReference>, n: nat)
    requires QueuesOk(selectors, orders, pq, rq) && n <= |rq|
    ensures CandidatesOk(selectors, orders, Examined(pq, rq, n))
  {
    var cs := Examined(pq, rq, n);
    forall k | 0 <= k < |cs| ensures 0 <= cs[k].ref.comp < |selectors| && cs[k].ref.comp < |orders| {
      if k < |pq| {
        assert cs[k].ref == pq[k];
      } else {
        assert cs[k].ref == rq[k - |pq|];
      }
    }
  }

  /** The number of regular entries examined without a stop, from k on: the
      first entry where the stopping tests fire, or the end of the queue. */
  function CutFrom(hooks: Hooks, selectors: seq<Selector>, orders: seq<map<int, nat>>, rule: StopRule,
                   errors: seq<seq<real>>, pq: seq<ElementReference>, rq: seq<ElementReference>, k: nat): (cut: nat)
    requires QueuesOk(selectors, orders, pq, rq) && k <= |rq|
    ensures k <= cut <= |rq|
    decreases |rq| - k
  {
    if k == |rq| then k
    else if StopsAt(hooks, selectors, orders, rule, errors, pq, rq, k) then k
    else CutFrom(hooks, selectors, orders, rule, errors, pq, rq, k + 1)
  }

  /** The cut is the first regular entry where a stop fires: no earlier entry
      stops the loop, and unless every entry was taken, the cut does. */
  lemma {:induction false} CutIsFirstStop(hooks: Hooks, selectors: seq<Selector>, orders: seq<map<int, nat>>, rule: StopRule,
                                          errors: seq<seq<real>>, pq: seq<ElementReference>, rq: seq<ElementReference>, k: nat, j: nat)
    requires QueuesOk(selectors, orders, pq, rq) && k <= j <= |rq|
    ensures var cut := CutFrom(hooks, selectors, orders, rule, errors, pq, rq, k);
      (j < cut ==> !StopsAt(hooks, selectors, orders, rule, errors, pq, rq, j)) &&
      (j == cut < |rq| ==> StopsAt(hooks, selectors, orders, rule, errors, pq, rq, j))
    decreases |rq| - k
  {
    if k < |rq| && !StopsAt(hooks, selectors, orders, rule, errors, pq, rq, k) && k < j {
      CutIsFirstStop(hooks, selectors, orders, rule, errors, pq, rq, k + 1, j);
    }
  }

  /** The state of the adaptivity loop after np priority entries and inx
      regular entries, none of which stopped it: the decision list, the
      processed error, the last accepted error, the threshold and the
      first_regular_element flag are those of the examined prefix, and the
      cut still lies ahead. */
  ghost predicate Progress(hooks: Hooks, selectors: seq<Selector>, orders: seq<map<int, nat>>, rule: StopRule,
                           errors: seq<seq<real>>, pq: seq<ElementReference>, rq: seq<ElementReference>,
                           np: nat, inx: nat, ds: seq<ElementToRefine>, processed: real, err0: real, threshold: real, first: bool)
    requires QueuesOk(selectors, orders, pq, rq)
  {
    np <= |pq| && inx <= |rq| && (inx > 0 ==> np == |pq|) &&
    CandidatesOk(selectors, orders, Examined(pq[..np], rq, inx)) &&
    ds == Accepted(hooks, selectors, orders, Examined(pq[..np], rq, inx)) &&
    processed == SumErr(errors, ds) && err0 == LastErr(errors, ds) &&
    threshold == Threshold(hooks, rule, errors, rq, inx) &&
    (first <==> FirstKeptFrom(hooks, rq, 0, inx) == -1) &&
    CutFrom(hooks, selectors, orders, rule, errors, pq, rq, 0) == CutFrom(hooks, selectors, orders, rule, errors, pq, rq, inx)
  }

  /** The loop starts with nothing examined. */
  lemma ProgressStart(hooks: Hooks, selectors: seq<Selector>, orders: seq<map<int, nat>>, rule: StopRule,
                      errors: seq<seq<real>>, pq: seq<ElementReference>, rq: seq<ElementReference>)
    requires QueuesOk(selectors, orders, pq, rq)
    ensures Progress(hooks, selectors, orders, rule, errors, pq, rq, 0, 0, [], 0.0, InitialLastError, -1.0, true)
  {
    assert Examined(pq[..0], rq, 0) == [];
  }

  /** The decision list, processed error and last accepted error after
      one more examined candidate. */
  function Record(hooks: Hooks, selectors: seq<Selector>, orders: seq<map<int, nat>>, errors: seq<seq<real>>, c: Candidate,
                  ds: seq<ElementToRefine>, processed: real, err0: real): (seq<ElementToRefine>, real, real)
    requires 0 <= c.ref.comp < |selectors| && c.ref.comp < |orders|
  {
    match Decide(hooks, selectors, orders, c)
    case Some(d) => (ds + [d], processed + ErrorOf(errors, c.ref), ErrorOf(errors, c.ref))
    case None => (ds, processed, err0)
  }

  /** A priority entry is never subject to the stopping tests: the loop
      records its decision and goes on. */
  lemma ProgressPriority(hooks: Hooks, selectors: seq<Selector>, orders: seq<map<int, nat>>, rule: StopRule,
                         errors: seq<seq<real>>, pq: seq<ElementReference>, rq: seq<ElementReference>,
                         np: nat, ds: seq<ElementToRefine>, processed: real, err0: real, threshold: real, first: bool)
    requires QueuesOk(selectors, orders, pq, rq) && np < |pq|
    requires Progress(hooks, selectors, orders, rule, errors, pq, rq, np, 0, ds, processed, err0, threshold, first)
    ensures var r := Record(hooks, selectors, orders, errors, Candidate(-1, pq[np]), ds, processed, err0);
      Progress(hooks, selectors, orders, rule, errors, pq, rq, np + 1, 0, r.0, r.1, r.2, threshold, first)
  {
    var c := Candidate(-1, pq[np]);
    ExaminedSnocPriority(pq, rq, np);
    AcceptedSnoc(hooks, selectors, orders, Examined(pq[..np], rq, 0), c);
    match Decide(hooks, selectors, orders, c) {
      case Some(d) => SumErrSnoc(errors, ds, d);
      case None =>
    }
  }

  /** At regular entry k the threshold is set by the first kept entry. */
  lemma RegularThreshold(hooks: Hooks, rule: StopRule, errors: seq<seq<real>>, rq: seq<ElementReference>,
                         k: nat, threshold: real, first: bool)
    requires k < |rq|
    requires threshold == Threshold(hooks, rule, errors, rq, k) && (first <==> FirstKeptFrom(hooks, rq, 0, k) == -1)
    ensures var c := Candidate(k, rq[k]);
      var threshold' := if Kept(hooks, c) && first then rule.thr * ErrorOf(errors, rq[k]) else threshold;
      threshold' == Threshold(hooks, rule, errors, rq, k + 1) &&
      (first && !Kept(hooks, c) <==> FirstKeptFrom(hooks, rq, 0, k + 1) == -1)
  {
    FirstKeptStep(hooks, rq, 0, k);
  }

  /** The loop stops at regular entry k exactly when StopsAt holds. */
  lemma RegularStops(hooks: Hooks, selectors: seq<Selector>, orders: seq<map<int, nat>>, rule: StopRule,
                     errors: seq<seq<real>>, pq: seq<ElementReference>, rq: seq<ElementReference>,
                     k: nat, ds: seq<ElementToRefine>, processed: real, err0: real, threshold: real, first: bool,
                     threshold': real)
    requires QueuesOk(selectors, orders, pq, rq) && k < |rq|
    requires Progress(hooks, selectors, orders, rule, errors, pq, rq, |pq|, k, ds, processed, err0, threshold, first)
    requires threshold' == Threshold(hooks, rule, errors, rq, k + 1)
    ensures StopsAt(hooks, selectors, orders, rule, errors, pq, rq, k) <==>
      Kept(hooks, Candidate(k, rq[k])) && StopFires(rule, ErrorOf(errors, rq[k]), threshold', processed, err0)
  {
    assert pq[..|pq|] == pq;
  }

  /** When the loop stops at regular entry k, the cut is k and the decision
      list is that of the entries before it. */
  lemma RegularStopCut(hooks: Hooks, selectors: seq<Selector>, orders: seq<map<int, nat>>, rule: StopRule,
                       errors: seq<seq<real>>, pq: seq<ElementReference>, rq: seq<ElementReference>,
                       k: nat, ds: seq<ElementToRefine>, processed: real, err0: real, threshold: real, first: bool)
    requires QueuesOk(selectors, orders, pq, rq) && k < |rq|
    requires Progress(hooks, selectors, orders, rule, errors, pq, rq, |pq|, k, ds, processed, err0, threshold, first)
    requires StopsAt(hooks, selectors, orders, rule, errors, pq, rq, k)
    ensures CutFrom(hooks, selectors, orders, rule, errors, pq, rq, 0) == k
    ensures ds == Accepted(hooks, selectors, orders, Examined(pq, rq, k))
  {
    assert pq[..|pq|] == pq;
  }

  /** Otherwise the loop records the entry's decision and goes on. */
  lemma RegularContinues(hooks: Hooks, selectors: seq<Selector>, orders: seq<map<int, nat>>, rule: StopRule,
                         errors: seq<seq<real>>, pq: seq<ElementReference>, rq: seq<ElementReference>,
                         k: nat, ds: seq<ElementToRefine>, processed: real, err0: real, threshold: real, first: bool,
                         threshold': real, first': bool)
    requires QueuesOk(selectors, orders, pq, rq) && k < |rq|
    requires Progress(hooks, selectors, orders, rule, errors, pq, rq, |pq|, k, ds, processed, err0, threshold, first)
    requires !StopsAt(hooks, selectors, orders, rule, errors, pq, rq, k)
    requires threshold' == Threshold(hooks, rule, errors, rq, k + 1)
    requires first' <==> FirstKeptFrom(hooks, rq, 0, k + 1) == -1
    ensures var r := Record(hooks, selectors, orders, errors, Candidate(k, rq[k]), ds, processed, err0);
      Progress(hooks, selectors, orders, rule, errors, pq, rq, |pq|, k + 1, r.0, r.1, r.2, threshold', first')
  {
    var c := Candidate(k, rq[k]);
    assert pq[..|pq|] == pq;
    ExaminedSnoc(pq, rq, k);
    ExaminedOk(selectors, orders, pq, rq, k);
    AcceptedSnoc(hooks, selectors, orders, Examined(pq, rq, k), c);
    match Decide(hooks, selectors, orders, c) {
      case Some(d) => SumErrSnoc(errors, ds, d);
      case None =>
    }
  }

  /** A loop that runs out of entries has examined them all: the cut is the
      end of the regular queue. */
  lemma ProgressDone(hooks: Hooks, selectors: seq<Selector>, orders: seq<map<int, nat>>, rule: StopRule,
                     errors: seq<seq<real>>, pq: seq<ElementReference>, rq: seq<ElementReference>,
                     ds: seq<ElementToRefine>, processed: real, err0: real, threshold: real, first: bool)
    requires QueuesOk(selectors, orders, pq, rq)
    requires Progress(hooks, selectors, orders, rule, errors, pq, rq, |pq|, |rq|, ds, processed, err0, threshold, first)
    ensures CutFrom(hooks, selectors, orders, rule, errors, pq, rq, 0) == |rq|
    ensures ds == Accepted(hooks, selectors, orders, Examined(pq, rq, |rq|))
  {
    assert pq[..|pq|] == pq;
  }
}
