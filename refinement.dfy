/** Refinement decisions: split types, the handles the adaptivity engine
    passes around, and the selector and hook oracles it consults. */
module Refinement {
  import opened Wrappers

  /** A geometric refinement pattern. AnisoH is split value 1: it keeps the
      first two son slots; AnisoV keeps the last two. P changes only the
      polynomial order. */
  datatype Split = P | H | AnisoH | AnisoV {
    predicate IsAniso() { this == AnisoH || this == AnisoV }
  }

  /** Number of son slots of an element. */
  const MaxElementSons: nat := 4

  /** Per-son polynomial orders carried by a decision (fixed arrays of four). */
  type Orders4 = s: seq<nat> | |s| == 4 witness [0, 0, 0, 0]

  const ZeroOrders: Orders4 := [0, 0, 0, 0]

  /** (element id, component) */
  datatype ElementReference = ElementReference(id: int, comp: int)

  /** A decision: split the element `id` of component `comp` with `split`
      and give the sons (or the element itself, for P) the orders `p`;
      `q` are the orders the selector suggests for the other components. */
  datatype ElementToRefine = ElementToRefine(id: int, comp: int, split: Split, p: Orders4, q: Orders4)

  /** What a selector answers for one element. */
  datatype Selection = Selection(refined: bool, split: Split, p: Orders4, q: Orders4)

  /** A refinement selector of one component: `select(id, currentOrder)` and
      `sharedOrders(id, currentOrder, split, suggested)` stand for
      select_refinement and generate_shared_mesh_orders. */
  datatype Selector = Selector(
    select: (int, nat) -> Selection,
    sharedOrders: (int, nat, Split, Option<Orders4>) -> Orders4)

  /** The engine's overridable hooks: should_ignore_element(inx, comp, id)
      and can_refine_element(comp, id, refined, decision). */
  datatype Hooks = Hooks(
    shouldIgnore: (int, int, int) -> bool,
    canRefine: (int, int, bool, ElementToRefine) -> bool)

  /** get_element_order of a space: the stored order of element id, 0 for
      an element the space has no order for. */
  function OrderAt(orders: map<int, nat>, id: int): nat {
    if id in orders then orders[id] else 0
  }

  /** Precedence P < AnisoH, AnisoV < H; the two anisotropic splits are
      incomparable. */
  predicate Le(a: Split, b: Split) {
    a == b || a == P || b == H
  }

  /** One step of the reconciliation of a component's selected split with
      the split another component sharing the mesh has pending. */
  function MergeSplit(selected: Split, other: Split): Split {
    if other != selected && other != P then
      if other.IsAniso() && selected == P then other else H
    else selected
  }

  /** Merging is the least upper bound in the precedence order: the more
      aggressive split wins, and two different anisotropic splits give H. */
  lemma MergeSplitIsJoin(a: Split, b: Split)
    ensures Le(a, MergeSplit(a, b)) && Le(b, MergeSplit(a, b))
    ensures forall c: Split :: Le(a, c) && Le(b, c) ==> Le(MergeSplit(a, b), c)
    ensures MergeSplit(a, b) == MergeSplit(b, a)
    ensures a.IsAniso() && b.IsAniso() && a != b ==> MergeSplit(a, b) == H
  {
  }

  /** H absorbs everything: once H is selected nothing changes it. */
  lemma MergeSplitHAbsorbs(b: Split)
    ensures MergeSplit(H, b) == H
  {
  }
}
