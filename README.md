# hermes2d adaptivity engine and essential boundary conditions, in Dafny

This project models two parts of Hermes2D, an hp-FEM library.

**The hp-adaptivity engine (class `Adapt`).** After element errors have been computed, the engine holds:
- a *regular queue* of every active (element, component) pair, sorted by decreasing error. `std::sort` leaves the order of equal errors unspecified. The model fixes one: equal errors keep the fill order, by component and then by increasing id;
- a *priority queue* that is drained first.

One call of `adapt` runs the adaptivity loop over the two queues. For each entry it examines, it:
1. asks the component's selector for a refinement proposal;
2. stops when one of four strategies says enough error has been processed;
3. records every accepted decision and its position in an `idx` table indexed by element id and component.

`adapt` then continues as follows:
1. `fix_shared_mesh_refinements` reconciles the decisions of components that share one mesh object. The split with the highest precedence wins: P < ANISO_H, ANISO_V < H. Two different anisotropic splits give H. The winning split is mirrored onto, or appended for, every sharing component.
2. `apply_refinements` carries out the decisions on the meshes and the order tables.
3. `homogenize_shared_mesh_orders` gives every component on a shared mesh the largest horizontal and the largest vertical order among them.
4. `adapt` reports `done` when nothing was examined or nothing was recorded. It clears `have_errors`, except under strategy 2 when it is done.

The model also covers:
- `unrefine`, which coarsens the meshes of two components (merging sons whose summed error is small, then lowering orders);
- `fill_regular_queue`;
- the two constructors, with their checks and default projection norms;
- `set_error_form`.

**The essential (Dirichlet) boundary-condition registry (`EssentialBCs`).**
- Conditions are appended in order. The marker-to-condition cache is then cleared and rebuilt from the whole list.
- A marker declared twice is fatal.
- `get_boundary_condition` finds the condition that declares a marker, or none.
- `set_current_time` sets the time of every condition.
- The constructors of the three condition classes are modelled too.

How the source is represented:
- **Value datatypes:** meshes, spaces (mesh sharing, element orders) and error tables. A shared mesh is the same index in `meshOf`, which stands for the C++ pointer comparison.
- **Classes:** the `Adapt` engine, the conditions and the registry. Their methods update fields in place.
- **Loops** of the source are `while` loops proved against recursive specification functions. For example, `SelectRefinements` is proved against `Accepted(Examined(..., Cut(...)))`, `FixSharedMeshRefinements` against `FixFrom`, and `CreateMarkerCache` against `BuildCache`.
- **Parameters:** selectors and hooks (`select_refinement`, `generate_shared_mesh_orders`, `should_ignore_element`, `can_refine_element`) are function-valued parameters.
- **Fatal errors:** each `error(...)` is a `Fatal` result or a `false` status. Most leave the state unchanged. Two leave partial state, as the source does before it exits:
  - `AdaptEngine.Adapt.TakeElementErrors` has already stored `num_act_elems`, the errors and their total when `fill_regular_queue` refuses a non-positive count. The regular queue and `have_errors` are unchanged.
  - `BoundaryConditions.EssentialBCs.AddBoundaryConditions` has already appended the conditions and cleared the cache when `create_marker_cache` meets a duplicate marker.

Files:
- `wrappers.dfy`: `Option`.
- `quad_order.dfy`: packed quad orders.
- `refinement.dfy`: splits, decisions and their precedence.
- `mesh.dfy`: elements, sons, refine and unrefine.
- `spaces.dfy`: components, meshes and orders.
- `element_queue.dfy`: the regular queue.
- `selection.dfy`: the adaptivity loop and its stopping strategies.
- `reconcile.dfy`: fix_shared_mesh_refinements.
- `application.dfy`: apply_refinement(s).
- `homogenize.dfy`: homogenize_shared_mesh_orders.
- `coarsening.dfy`: unrefine.
- `adapt.dfy`: the `Adapt` class and its loops.
- `essential_bcs.dfy`: the boundary conditions.

## Model

| member | source | states |
|---|---|---|
| QuadOrder.MakeQuadOrder | hermes2d/src/adapt/adapt.cpp:398 | packing puts the horizontal order in the low digits and the vertical order above them |
| QuadOrder.GetHOrder | hermes2d/src/adapt/adapt.cpp:388 | the horizontal part is a valid horizontal order no larger than the packed value |
| QuadOrder.GetVOrder | hermes2d/src/adapt/adapt.cpp:388 | the vertical part times the base does not exceed the packed value |
| QuadOrder.GetMakeRoundTrip | hermes2d/src/adapt/adapt.cpp:388-398 | unpacking a packed order gives back both parts |
| QuadOrder.MakeGetRoundTrip | hermes2d/src/adapt/adapt.cpp:388-398 | packing the two parts of an order gives back the order |
| Refinement.MergeSplitIsJoin | hermes2d/src/adapt/adapt.cpp:335-340 | one reconciliation step yields the least upper bound of the two splits in P < ANISO_H, ANISO_V < H; it is symmetric, and two different anisotropic splits give H |
| Refinement.MergeSplitHAbsorbs | hermes2d/src/adapt/adapt.cpp:330 | once H is selected no other split changes it |
| SpacesModel.MeshOf | hermes2d/src/adapt/adapt.cpp:138 | the mesh of a component is well formed |
| MeshModel.Son | hermes2d/src/adapt/adapt.cpp:428 | a son slot is empty or holds an element with a larger id |
| MeshModel.CountActive | hermes2d/src/adapt/adapt.cpp:728 | the number of active elements below n is at most n |
| MeshModel.RefineElement | hermes2d/src/adapt/adapt.cpp:425-432 | refining an active element leaves it inactive with fresh, active sons appended to the mesh; every other element is unchanged |
| MeshModel.SplitSonsFresh | hermes2d/src/adapt/adapt.cpp:427-434 | the sons a split creates have distinct ids in the fresh range |
| MeshModel.UnrefineElement | hermes2d/src/adapt/adapt.cpp:479-480 | unrefining makes the element an active leaf and retires its sons; other elements are unchanged |
| ElementQueue.ActiveRefsCount | hermes2d/src/adapt/adapt.cpp:862-863 | one reference per active element of a mesh |
| ElementQueue.AllActiveRefsCount | hermes2d/src/adapt/adapt.cpp:721-728 | the fill of the regular queue has num_act_elems entries |
| ElementQueue.ActiveRefsOccurrences | hermes2d/src/adapt/adapt.cpp:862-863 | each active element of the mesh occurs once for its component, and nothing else occurs |
| ElementQueue.AllActiveRefsOccurrences | hermes2d/src/adapt/adapt.cpp:861-863 | over all components, each active (element, component) pair occurs exactly once |
| ElementQueue.AllActiveRefsExact | hermes2d/src/adapt/adapt.cpp:859-863 | the fill, as a multiset, holds every active pair once and nothing else |
| ElementQueue.InsertByError | hermes2d/src/adapt/adapt.cpp:866 | insertion adds exactly the new entry (a multiset equality) and puts it first or keeps the old head |
| ElementQueue.InsertKeepsSorted | hermes2d/src/adapt/adapt.cpp:866 | inserting into a queue sorted by decreasing error keeps it sorted |
| ElementQueue.SortedSplit | hermes2d/src/adapt/adapt.cpp:866 | a queue with head x is sorted iff its tail is sorted and no entry of the tail has a larger error than x |
| ElementQueue.InsertBounded | hermes2d/src/adapt/adapt.cpp:866 | inserting entries whose errors are below a bound keeps the whole queue below it |
| ElementQueue.SortByError | hermes2d/src/adapt/adapt.cpp:866 | the sort (CompareElements) is a permutation of the fill, sorted by decreasing error; equal errors keep the fill order, one of the orders `std::sort` allows |
| Selection.RootShareSound | hermes2d/src/adapt/adapt.cpp:208 | the square-free test used for strategy 0 agrees with `processed > sqrt(thr) * errors_squared_sum` |
| Selection.SumErrNonNegative | hermes2d/src/adapt/adapt.cpp:233 | on non-negative element errors, the processed error is never negative |
| Selection.StrategyZeroIsRootShare | hermes2d/src/adapt/adapt.cpp:208 | on non-negative element errors and total, strategy 0 stops exactly when `processed > sqrt(thr) * errors_squared_sum` and the error changed significantly |
| Selection.SquareLess | hermes2d/src/adapt/adapt.cpp:208 | squaring is strictly monotone on non-negative reals, which is what the square-free test relies on |
| Selection.Proposal | hermes2d/src/adapt/adapt.cpp:222-226 | the selector's decision is about the examined element and component |
| Selection.AcceptedConcat | hermes2d/src/adapt/adapt.cpp:228-234 | examining more entries only appends to the decision list |
| Selection.AcceptedComeFromCandidates | hermes2d/src/adapt/adapt.cpp:222-234 | every recorded decision is the proposal for an examined entry that was not ignored and that can_refine_element approved |
| Selection.AcceptedSnoc | hermes2d/src/adapt/adapt.cpp:228-238 | one more entry appends its decision when it is accepted, and nothing otherwise |
| Selection.SumErrSnoc | hermes2d/src/adapt/adapt.cpp:232-233 | recording a decision adds its error to processed_error_squared and makes it err0_squared |
| Selection.LastIndex | hermes2d/src/adapt/adapt.cpp:230 | idx[id][comp] is -1 or the position of a decision for that element and component |
| Selection.LastIndexSound | hermes2d/src/adapt/adapt.cpp:230 | idx[id][comp] is the position of the last decision for (id, comp); no later decision is for that pair |
| Selection.LastIndexSnoc | hermes2d/src/adapt/adapt.cpp:230 | appending a decision updates only the idx entry of its own pair |
| Selection.LastIndexSnocAll | hermes2d/src/adapt/adapt.cpp:230 | the same for every pair at once |
| Selection.ExaminedSnoc | hermes2d/src/adapt/adapt.cpp:176-181 | taking a regular entry appends it, with its position, to the examined entries |
| Selection.ExaminedSnocPriority | hermes2d/src/adapt/adapt.cpp:182-188 | taking a priority entry appends it with position -1 |
| Selection.FirstKeptStep | hermes2d/src/adapt/adapt.cpp:196-203 | the first regular entry that is not ignored is fixed once it is found |
| Selection.CutFrom | hermes2d/src/adapt/adapt.cpp:171-220 | the stopping point lies within the regular queue |
| Selection.CutIsFirstStop | hermes2d/src/adapt/adapt.cpp:198-219 | the cut is the first regular entry where a stopping strategy fires: none fires before it, and it fires at the cut unless the queue ran out |
| Selection.ProgressStart | hermes2d/src/adapt/adapt.cpp:156-170 | the loop state starts with nothing examined, err0 = 1000, threshold -1 and first_regular_element set |
| Selection.ProgressPriority | hermes2d/src/adapt/adapt.cpp:182-188 | a priority entry is never subject to the stopping tests; its decision is recorded |
| Selection.RegularThreshold | hermes2d/src/adapt/adapt.cpp:199-203 | error_squared_threshod is thr times the error of the first regular entry that is not ignored |
| Selection.RegularStops | hermes2d/src/adapt/adapt.cpp:196-220 | the loop breaks at a regular entry iff the entry is not ignored and the test of the chosen strategy (0–3) fires |
| Selection.RegularStopCut | hermes2d/src/adapt/adapt.cpp:198-219 | when the loop breaks at entry k, the decision list is that of the entries examined before k |
| Selection.RegularContinues | hermes2d/src/adapt/adapt.cpp:222-238 | otherwise the loop records the entry's decision and goes on |
| Selection.ProgressDone | hermes2d/src/adapt/adapt.cpp:171 | a loop that runs out of entries has examined the whole queue |
| Application.OrderSlots | hermes2d/src/adapt/adapt.cpp:427-434 | H writes sons 0–3, ANISO_H sons 0 and 1, ANISO_V sons 2 and 3, in increasing slot order |
| Application.SetSonOrdersFrame | hermes2d/src/adapt/adapt.cpp:427-434 | writing the son orders leaves every other element's order unchanged |
| Application.SetSonOrdersIdempotent | hermes2d/src/adapt/adapt.cpp:427-434 | writing the son orders twice is the same as writing them once |
| Application.SetSonOrdersValue | hermes2d/src/adapt/adapt.cpp:427-434 | the son in the k-th written slot ends with p[k] |
| Application.ApplyOne | hermes2d/src/adapt/adapt.cpp:415-436 | applying a decision keeps the spaces well formed and every live element live |
| Application.ApplyPSetsOrder | hermes2d/src/adapt/adapt.cpp:422-423 | a P decision sets the element's order to p[0] and changes nothing else |
| Application.ApplySplitRefines | hermes2d/src/adapt/adapt.cpp:424-432 | any other split leaves the element inactive and refines it only if it was active |
| Application.ApplySplitSetsSons | hermes2d/src/adapt/adapt.cpp:427-434 | the son in the k-th slot of the split gets order p[k] |
| Application.ApplyFrame | hermes2d/src/adapt/adapt.cpp:415-417 | other components' orders, and meshes other than the decision's, are untouched |
| Application.ApplyIdempotent | hermes2d/src/adapt/adapt.cpp:424-434 | replaying a decision changes nothing |
| Application.ApplyAll | hermes2d/src/adapt/adapt.cpp:407-413 | applying the whole list keeps the spaces well formed and all targets live |
| Reconcile.SelectedIsUpperBound | hermes2d/src/adapt/adapt.cpp:327-343 | the selected split is at least the element's own split and at least every split pending for a sharing component |
| Reconcile.SelectedIsLeast | hermes2d/src/adapt/adapt.cpp:327-343 | every split that bounds the element's own split and every pending split of a sharing component bounds the selected split, so the scan computes exactly their join |
| Reconcile.SelectedWithoutPending | hermes2d/src/adapt/adapt.cpp:327-343 | with no pending decision of a sharing component, the decision keeps its own split |
| Reconcile.Retarget | hermes2d/src/adapt/adapt.cpp:357-369 | a retargeted decision keeps its element and component and takes the selected split |
| Reconcile.UpdateStep | hermes2d/src/adapt/adapt.cpp:354-377 | one sharing component adds exactly one decision iff it had none pending for the element |
| Reconcile.UpdateStepFacts | hermes2d/src/adapt/adapt.cpp:354-377 | after one component's update: the original handles are kept; only the current decision and the other component's decision for the element change; both carry the selected split, or a decision with it is appended |
| Reconcile.UpdateStepHandles | hermes2d/src/adapt/adapt.cpp:363-376 | one update step changes no entry's element or component and leaves unrelated entries as they were |
| Reconcile.UpdateStepSplits | hermes2d/src/adapt/adapt.cpp:357-376 | one update step sets the selected split on the current decision and on the other component's pending decision, or appends a decision carrying it |
| Reconcile.UpdateFrom | hermes2d/src/adapt/adapt.cpp:354-378 | the update loop appends at most one decision per component |
| Reconcile.UpdateFromKeepsHandles | hermes2d/src/adapt/adapt.cpp:354-378 | the update loop keeps every entry's element and component |
| Reconcile.UpdateFromFrame | hermes2d/src/adapt/adapt.cpp:354-378 | the update loop changes only the current decision and decisions for the same element |
| Reconcile.UpdateFromAppends | hermes2d/src/adapt/adapt.cpp:371-376 | appended decisions are for the element, on a sharing component, with the selected split |
| Reconcile.UpdateFromFacts | hermes2d/src/adapt/adapt.cpp:354-378 | the conjunction of the three update-loop facts |
| Reconcile.FixOne | hermes2d/src/adapt/adapt.cpp:322-379 | one outer iteration keeps the list well formed and the original handles in place, and never shrinks it |
| Reconcile.FixFrom | hermes2d/src/adapt/adapt.cpp:320-321 | the pass over the original decisions keeps the list well formed and the handles in place |
| ReconcileProperties.UpdateSetsOwnSplit | hermes2d/src/adapt/adapt.cpp:355-360 | when some component shares the mesh, the current decision ends with the selected split |
| ReconcileProperties.UpdateCovers | hermes2d/src/adapt/adapt.cpp:354-378 | every sharing component ends with a decision for the element carrying the selected split, either its pending one or an appended one |
| ReconcileProperties.FixOneMirrors | hermes2d/src/adapt/adapt.cpp:345-379 | when the selected split is P nothing changes; otherwise the decision and every sharing component carry the selected split |
| Homogenization.GroupMax | hermes2d/src/adapt/adapt.cpp:390-396 | the maximum bounds the horizontal (resp. vertical) part of every component on the mesh |
| Homogenization.GroupMaxAttained | hermes2d/src/adapt/adapt.cpp:390-396 | the maximum is attained by some component on the mesh |
| Homogenization.GroupMaxEmpty | hermes2d/src/adapt/adapt.cpp:390-396 | with no component on the mesh the maximum is 0 |
| Homogenization.HomogenizedAgree | hermes2d/src/adapt/adapt.cpp:383-401 | components sharing a mesh end with the same order on every active element |
| Homogenization.HomogenizedDominates | hermes2d/src/adapt/adapt.cpp:383-401 | the new order is, part by part, at least each sharing component's old order, and each part was some component's old part |
| Homogenization.HomogenizedLoneUnchanged | hermes2d/src/adapt/adapt.cpp:390-398 | a component that shares its mesh with no other keeps its orders |
| Homogenization.GroupMaxStable | hermes2d/src/adapt/adapt.cpp:385-399 | orders already rewritten to the group maximum do not change the maximum that later components read |
| Homogenization.MidPassReads | hermes2d/src/adapt/adapt.cpp:385-399 | in the middle of the pass, the maximum read from the current orders is the maximum of the orders before the pass |
| Homogenization.SharedMax | hermes2d/src/adapt/adapt.cpp:388-396 | the inner loop computes the largest horizontal and vertical parts over the sharing components |
| Homogenization.HomogenizeSharedMeshOrders | hermes2d/src/adapt/adapt.cpp:383-401 | the pass leaves every order equal to the homogenised order computed from the orders before the pass; the meshes are unchanged |
| Homogenization.HomogenizeComponent | hermes2d/src/adapt/adapt.cpp:386-399 | the pass over one component extends the pass invariant to that component |
| Coarsening.SonMaxOrderIsMax | hermes2d/src/adapt/adapt.cpp:471-474 | the largest son order bounds every son's order and, unless it is 0, is one of them |
| Coarsening.MergedErrorsAt | hermes2d/src/adapt/adapt.cpp:481-482 | after a merge, each component of the pass has its sons' summed error for the element; other rows are unchanged |
| Coarsening.MergedOrdersAt | hermes2d/src/adapt/adapt.cpp:483-484 | after a merge, each component of the pass gives the element its sons' largest order; other components are unchanged |
| Coarsening.DemotedOrdersAt | hermes2d/src/adapt/adapt.cpp:491-497 | a component whose error is below the limit gets the demoted order; other components are unchanged |
| Coarsening.MergeAt | hermes2d/src/adapt/adapt.cpp:455-487 | one merge visit keeps the store well formed and the mesh size unchanged |
| Coarsening.MergeAtEffect | hermes2d/src/adapt/adapt.cpp:455-487 | an inactive element becomes active iff it is mergeable; then its sons are retired and it takes their summed error and at least each son's order; other errors are unchanged |
| Coarsening.Demoted | hermes2d/src/adapt/adapt.cpp:494-495 | the demoted order is max(h − 1, 1) |
| Coarsening.DemoteAt | hermes2d/src/adapt/adapt.cpp:489-498 | demotion changes orders only, never meshes or errors |
| Coarsening.DemoteAtEffect | hermes2d/src/adapt/adapt.cpp:489-498 | exactly the orders of active elements with error below thr/4 times the reference error are demoted |
| Coarsening.MergeFrom | hermes2d/src/adapt/adapt.cpp:455-488 | the merge loop keeps the store well formed and the mesh size unchanged |
| Coarsening.DemoteFrom | hermes2d/src/adapt/adapt.cpp:489-498 | the demotion loop changes neither meshes nor errors |
| Coarsening.Pass | hermes2d/src/adapt/adapt.cpp:452-498 | a merge pass followed by a demotion pass keeps the store well formed |
| Coarsening.Unrefined | hermes2d/src/adapt/adapt.cpp:446-543 | one pass on a shared mesh, or one per component, keeps the store well formed |
| Coarsening.UnrefineCheckAdmitsOneComponent | hermes2d/src/adapt/adapt.cpp:444-448 | the check as written accepts one component, for which spaces[1] does not exist |
| Coarsening.UnrefineCheckSound | hermes2d/src/adapt/adapt.cpp:444-448 | the corrected check accepts exactly the counts for which spaces[0] and spaces[1] exist and none is ignored |
| Coarsening.CheckSons | hermes2d/src/adapt/adapt.cpp:457-460 | the loop reports found iff every son is active and straight-edged |
| Coarsening.SonTotals | hermes2d/src/adapt/adapt.cpp:464-475 | the loop computes the sons' summed error and largest order |
| Coarsening.PassTotals | hermes2d/src/adapt/adapt.cpp:464-477 | for each component of the pass: its sums and maxima, and whether every sum is below the limit |
| Coarsening.WriteMerge | hermes2d/src/adapt/adapt.cpp:479-484 | each component of the pass takes its sum and maximum for the element |
| Coarsening.MergeElement | hermes2d/src/adapt/adapt.cpp:457-487 | the loop body equals the merge visit |
| Coarsening.DemoteElement | hermes2d/src/adapt/adapt.cpp:491-497 | the loop body equals the demotion visit |
| Coarsening.MergePass | hermes2d/src/adapt/adapt.cpp:455-488 | the merge loop equals MergeFrom |
| Coarsening.DemotePass | hermes2d/src/adapt/adapt.cpp:489-498 | the demotion loop equals DemoteFrom |
| Coarsening.UnrefineStore | hermes2d/src/adapt/adapt.cpp:446-543 | unrefine on spaces and errors equals Unrefined |
| AdaptEngine.DefaultNorm | hermes2d/src/adapt/adapt.cpp:61-66 | a default norm exists iff the space type is known |
| AdaptEngine.DefaultNormsSound | hermes2d/src/adapt/adapt.cpp:59-69 | default norms exist iff every space type is known; each is its space's default |
| AdaptEngine.ConfigureSound | hermes2d/src/adapt/adapt.cpp:42-69 | the multi-space constructor succeeds iff the counts match, 1 <= num <= H2D_MAX_COMPONENTS, and every default needed exists; the norms are the given or default ones |
| AdaptEngine.ConfigureSingle | hermes2d/src/adapt/adapt.cpp:96-106 | the single-space constructor fails only for an unset norm on an unknown space type; a given norm is kept |
| AdaptEngine.ErrorFormTable | hermes2d/src/adapt/adapt.cpp:71-77 | the error-form table is num by num |
| AdaptEngine.MaxIdUpTo | hermes2d/src/adapt/adapt.cpp:135-145 | max_id bounds every mesh's get_max_element_id and is -1 for no component |
| AdaptEngine.MaxMeshId | hermes2d/src/adapt/adapt.cpp:135-145 | the loop computes max_id |
| AdaptEngine.SelectRefinements | hermes2d/src/adapt/adapt.cpp:134-243 | the adaptivity loop records exactly the accepted decisions of the entries before the cut and counts num_exam_elem; idx[id][comp] holds the last decision's position, or -1 |
| AdaptEngine.Examine | hermes2d/src/adapt/adapt.cpp:171-243 | the while loop over the two queues establishes that result |
| AdaptEngine.NextCandidate | hermes2d/src/adapt/adapt.cpp:173-220 | the next entry comes from the priority queue first; a stop occurs only on a regular entry, exactly at the cut |
| AdaptEngine.Offer | hermes2d/src/adapt/adapt.cpp:222-238 | asking the selector and can_refine_element appends at most the entry's decision and updates the processed and last errors |
| AdaptEngine.Remember | hermes2d/src/adapt/adapt.cpp:230 | the idx write keeps idx equal to the last-position table of the extended list |
| AdaptEngine.Adapt.constructor | hermes2d/src/adapt/adapt.cpp:34-78 | the engine starts with num_act_elems = -1, no errors, empty queues and the norm forms on the diagonal |
| AdaptEngine.Adapt.Single | hermes2d/src/adapt/adapt.cpp:80-110 | the same for one space with its norm |
| AdaptEngine.Adapt.SetErrorForm | hermes2d/src/adapt/adapt.cpp:550-557 | an in-range (i, j) entry is replaced; an out-of-range index is fatal and changes nothing |
| AdaptEngine.Adapt.SetDiagonalErrorForm | hermes2d/src/adapt/adapt.cpp:559-564 | the (0, 0) entry is replaced |
| AdaptEngine.Adapt.FillRegularQueue | hermes2d/src/adapt/adapt.cpp:847-867 | fails iff num_act_elems <= 0; otherwise the regular queue is the sorted fill of every active pair |
| AdaptEngine.Adapt.TakeElementErrors | hermes2d/src/adapt/adapt.cpp:721-809 | given non-negative errors and total (sums of squared error norms), num_act_elems is the active count, and the errors and total are stored; when positive, the queue is filled and sorted and have_errors is set; otherwise the queue and have_errors are unchanged |
| AdaptEngine.Adapt.MarkErrorsAvailable | hermes2d/src/adapt/adapt.cpp:809 | setting have_errors keeps the engine state valid |
| AdaptEngine.Adapt.Adapt | hermes2d/src/adapt/adapt.cpp:126-308 | fatal iff errors are missing or the selectors are empty or wrong in number; otherwise the errors it read are non-negative, the spaces and last_refinements are those of AdaptStep, have_errors is (strat == 2 && done), and the regularisation level is returned |
| AdaptEngine.Adapt.Refine | hermes2d/src/adapt/adapt.cpp:134-297 | the refinement part of adapt on the engine's state |
| AdaptEngine.Adapt.Commit | hermes2d/src/adapt/adapt.cpp:293-297 | last_refinements, the spaces and have_errors take their new values |
| AdaptEngine.Adapt.AdaptSingle | hermes2d/src/adapt/adapt.cpp:310-316 | adapt with a one-selector list |
| AdaptEngine.Adapt.Unrefine | hermes2d/src/adapt/adapt.cpp:440-546 | fatal without errors or unless there are exactly two components; otherwise there are two components, so spaces[1] exists, and spaces and errors become Unrefined, with the reference error from regular_queue[0], and have_errors is cleared |
| AdaptEngine.Adapt.TakeUnrefined | hermes2d/src/adapt/adapt.cpp:545 | the coarsened store takes effect with have_errors cleared |
| AdaptEngine.CollectActive | hermes2d/src/adapt/adapt.cpp:859-863 | the fill loop of fill_regular_queue |
| AdaptEngine.CountActiveElements | hermes2d/src/adapt/adapt.cpp:721-728 | the num_act_elems loop |
| AdaptEngine.ActiveElements | hermes2d/src/adapt/adapt.cpp:862-863 | for_all_active_elements in increasing id order |
| AdaptEngine.FillFits | hermes2d/src/adapt/adapt.cpp:847-867 | the sorted fill has num_act_elems entries, all naming live elements |
| AdaptEngine.TakeKeepsState | hermes2d/src/adapt/adapt.cpp:807-809 | new errors that fit the meshes, with their sorted queue, give a valid state with have_errors set |
| AdaptEngine.TargetInTable | hermes2d/src/adapt/adapt.cpp:332 | a decision for a live element indexes idx within bounds |
| AdaptEngine.SelectSplit | hermes2d/src/adapt/adapt.cpp:327-343 | the loop computes the selected split |
| AdaptEngine.UpdateShared | hermes2d/src/adapt/adapt.cpp:354-378 | the update loop equals UpdateFrom |
| AdaptEngine.FixSharedMeshRefinements | hermes2d/src/adapt/adapt.cpp:318-381 | the pass equals FixFrom over the decisions present at the start, and every decision still names a live element |
| AdaptEngine.FixStep | hermes2d/src/adapt/adapt.cpp:322-379 | one outer iteration equals FixOne |
| AdaptEngine.MirroredTargets | hermes2d/src/adapt/adapt.cpp:371-376 | appended decisions for sharing components name live elements |
| AdaptEngine.SetSonOrdersLoop | hermes2d/src/adapt/adapt.cpp:427-434 | the son-order loop equals SetSonOrders |
| AdaptEngine.ApplyRefinement | hermes2d/src/adapt/adapt.cpp:415-436 | equals ApplyOne |
| AdaptEngine.ApplyRefinements | hermes2d/src/adapt/adapt.cpp:407-413 | equals ApplyAll |
| AdaptEngine.RegularizeLevel | hermes2d/src/adapt/adapt.cpp:269-275 | no regularisation for a negative level; 0 becomes 1; a positive level is kept |
| AdaptEngine.AcceptedTargets | hermes2d/src/adapt/adapt.cpp:222-234 | every recorded decision names a live element |
| AdaptEngine.NothingExamined | hermes2d/src/adapt/adapt.cpp:250-252 | when nothing was examined, nothing was recorded |
| AdaptEngine.AdaptDone | hermes2d/src/adapt/adapt.cpp:250-257 | done iff last_refinements is empty; then the meshes are unchanged |
| AdaptEngine.ErrorsFitMeshesOnly | hermes2d/src/adapt/adapt.cpp:296-297 | errors still fit when only orders change, so have_errors may stay set |
| AdaptEngine.AdaptSpaces | hermes2d/src/adapt/adapt.cpp:259-266 | select, fix, apply and homogenise give AdaptStep |
| AdaptEngine.AdaptKeepsState | hermes2d/src/adapt/adapt.cpp:293-297 | the state after adapt is valid, and it keeps errors only on unchanged meshes |
| BoundaryConditions.CopyIntoEmptyLosesMarkers | hermes2d/src/boundaryconditions/essential_bcs.cpp:62-67 | the copy loop as written copies nothing, so a non-empty marker list is lost |
| BoundaryConditions.EssentialBoundaryCondition.FromMarkers | hermes2d/src/boundaryconditions/essential_bcs.cpp:25-28 | the markers are as given; time and value are 0 |
| BoundaryConditions.EssentialBoundaryCondition.FromMarker | hermes2d/src/boundaryconditions/essential_bcs.cpp:30-34 | one marker; time and value are 0 |
| BoundaryConditions.EssentialBoundaryCondition.ConstFromMarkers | hermes2d/src/boundaryconditions/essential_bcs.cpp:52-54 | the markers and the constant value |
| BoundaryConditions.EssentialBoundaryCondition.ConstFromMarker | hermes2d/src/boundaryconditions/essential_bcs.cpp:56-59 | one marker and the constant value |
| BoundaryConditions.EssentialBoundaryCondition.NonConstFromMarkersAsWritten | hermes2d/src/boundaryconditions/essential_bcs.cpp:62-67 | as written, the condition ends with no marker |
| BoundaryConditions.EssentialBoundaryCondition.NonConstFromMarkers | hermes2d/src/boundaryconditions/essential_bcs.cpp:62-67 | corrected: the condition declares exactly the given markers, in order |
| BoundaryConditions.EssentialBoundaryCondition.NonConstFromMarker | hermes2d/src/boundaryconditions/essential_bcs.cpp:69-73 | one marker and the exact solution |
| BoundaryConditions.EssentialBoundaryCondition.SetCurrentTime | hermes2d/src/boundaryconditions/essential_bcs.cpp:43-49 | get_current_time returns the time that was set; nothing else changes |
| BoundaryConditions.AddMarkersSpec | hermes2d/src/boundaryconditions/essential_bcs.cpp:121-125 | entering a condition's markers succeeds iff they are distinct and new; then the keys grow by exactly them, each mapping to the condition |
| BoundaryConditions.AddMarkersFailed | hermes2d/src/boundaryconditions/essential_bcs.cpp:122-123 | after the fatal error nothing more is entered |
| BoundaryConditions.BuildCacheFailed | hermes2d/src/boundaryconditions/essential_bcs.cpp:119-126 | a failed build stays failed over the remaining conditions |
| BoundaryConditions.BuildCacheSpec | hermes2d/src/boundaryconditions/essential_bcs.cpp:119-126 | the cache build succeeds iff no marker occurs twice across the list; then the keys are exactly the markers, each naming the condition that declares it |
| BoundaryConditions.RepeatedMarkerIsFatal | hermes2d/src/boundaryconditions/essential_bcs.cpp:94-99 | two conditions that share a marker (for instance the same condition added twice) make the build fatal |
| BoundaryConditions.EssentialBCs.Empty | hermes2d/src/boundaryconditions/essential_bcs.cpp:81-82 | the registry starts empty and valid |
| BoundaryConditions.EssentialBCs.FromList | hermes2d/src/boundaryconditions/essential_bcs.cpp:84-86 | the registry holds the list, with the cache built from it |
| BoundaryConditions.EssentialBCs.FromCondition | hermes2d/src/boundaryconditions/essential_bcs.cpp:88-92 | the registry holds the one condition, with its cache |
| BoundaryConditions.EssentialBCs.AddBoundaryConditions | hermes2d/src/boundaryconditions/essential_bcs.cpp:94-100 | the conditions are appended in order and the cache is rebuilt from the whole list; ok iff no marker is declared twice, and then the registry is valid |
| BoundaryConditions.EssentialBCs.AddBoundaryCondition | hermes2d/src/boundaryconditions/essential_bcs.cpp:102-106 | the one-condition case of the above |
| BoundaryConditions.EssentialBCs.CreateMarkerCache | hermes2d/src/boundaryconditions/essential_bcs.cpp:119-126 | the nested loops build exactly BuildCache, stopping at the first repeated marker |
| BoundaryConditions.EssentialBCs.CacheEndsAt | hermes2d/src/boundaryconditions/essential_bcs.cpp:122-123 | a failure at one marker is the result of the whole build |
| BoundaryConditions.EssentialBCs.GetBoundaryCondition | hermes2d/src/boundaryconditions/essential_bcs.cpp:129-134 | NULL iff the marker has no entry; otherwise the cached condition |
| BoundaryConditions.EssentialBCs.LookupFindsDeclarer | hermes2d/src/boundaryconditions/essential_bcs.cpp:119-134 | in a valid registry, a marker finds the condition that declares it, and an undeclared marker finds none |
| BoundaryConditions.EssentialBCs.SetCurrentTime | hermes2d/src/boundaryconditions/essential_bcs.cpp:136-139 | every registered condition reports the new time; the markers, the cache and validity are unchanged |

## Left out

- Error estimation (calc_err_est, eval_error, eval_norm and the norm forms): floating-point integration. The errors, their total and `errors_squared_sum` are inputs of `AdaptEngine.Adapt.TakeElementErrors`. They are sums of squared norms, so they are required to be non-negative.
- AdaptEngine.Adapt.TakeElementErrors: calc_err_internal counts and fills the active elements over the meshes of the coarse solutions (`sln[i]->get_mesh()`, adapt.cpp:723-728 and 808). The model takes those meshes to be the spaces' meshes.
- AdaptEngine.Adapt.TakeElementErrors: the relative element errors (division by a component's norm) and the relative total are not modelled separately. They are part of the given errors and total.
- Selectors and the engine's hooks (select_refinement, generate_shared_mesh_orders, should_ignore_element, can_refine_element): these are calls into code that is not part of this model. They are function-valued parameters, so the orders they produce are arbitrary.
- Mesh regularisation (Mesh::regularize, Space::distribute_orders): `AdaptEngine.Adapt.Adapt` returns the requested level but does not change the meshes for it.
- Space::assign_dofs, the set_quad_2d / enable_transform calls on the reference solutions, and the time measurement: none of them affects the decisions.
- verbose, warn, debug_log and report_time output: I/O.
- The destructor and memory management. The double `delete` of error_form[0][0] in set_error_form(form) (adapt.cpp:562-563) is not modelled; the entry is simply replaced.
- Floating point: errors and thresholds are reals.
  - The `sqrt(thr)` test of strategy 0 is compared in squares. A negative `thr`, which gives NaN in C++, never stops the loop.
  - Division by a zero err0 follows IEEE: infinity when err is non-zero, NaN when it is zero.
- AdaptEngine.Adapt.Adapt: the priority queue is modelled and drained, but nothing in this source pushes to it, so it is empty between calls. The engine invariant states this.
- AdaptEngine.FixSharedMeshRefinements: `elem_ref` is a reference into the vector that the pass appends to, so after a reallocation it dangles (undefined behaviour). The model reads the entry by its position.
- AdaptEngine.ApplyRefinement: the source dereferences `e->sons[j]` without a NULL check. That can only crash when an already-refined element was split differently. The model skips an empty slot.
- AdaptEngine.Adapt.Unrefine: on a shared mesh the source unrefines the same element twice, once through each of mesh[0] and mesh[1], which are the same object. The second call acts on an already active element, and the model, like unrefine_element_id, leaves an active element alone.
- Coarsening.MergeLimit: the reference error `errors[regular_queue[0].comp][regular_queue[0].id]` is read from the table as the pass has changed it so far, as in the source.
- Curved elements: only a per-element flag is modelled, not the curved geometry.
- H2D_MAX_COMPONENTS is taken as 10, and the quad-order packing as v·32 + h. The headers that define them are not part of this model.
- EssentialBoundaryCondition::value and DefaultEssentialBCNonConst::value: the first only warns and returns 0, and the second calls the user's exact solution. The non-constant condition keeps that exact solution as a function-valued field.
- BoundaryConditions.EssentialBCs.CreateMarkerCache: after the fatal duplicate the program exits. The model returns false and keeps the partial cache, and the registry is then not `Valid()`.
- The `iterator` member of EssentialBCs is a local loop index, and begin()/end() are the `all` field.

## Findings

| source | as written | input that shows it | evidently intended | confidence | as-written member | corrected member |
|---|---|---|---|---|---|---|
| hermes2d/src/adapt/adapt.cpp:444-448 | unrefine rejects only `num > 2`, then reads `spaces[1]` | an engine built with one space whose errors were computed, then `unrefine(thr)` | accept exactly two components | not executed | Coarsening.UnrefineCheckAdmitsOneComponent | AdaptEngine.Adapt.Unrefine |
| hermes2d/src/boundaryconditions/essential_bcs.cpp:62-67 | the copy loop runs while `i < markers.size()`, the member being filled, which is empty at that point | `DefaultEssentialBCNonConst({"Bottom"}, exact)` | copy every marker of `markers_` | not executed | BoundaryConditions.CopyIntoEmptyLosesMarkers | BoundaryConditions.EssentialBoundaryCondition.NonConstFromMarkers |
