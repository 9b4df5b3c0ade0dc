/** Packing of the horizontal and vertical polynomial orders of a
    quadrilateral element into the single integer a space stores per
    element (the H2D_MAKE_QUAD_ORDER / H2D_GET_H_ORDER / H2D_GET_V_ORDER
    encoding). The horizontal order occupies the low digits. */
module QuadOrder {

  /** Base of the packing: every horizontal order is below it. */
  const OrderBase: nat := 32

  predicate IsHOrder(h: int) {
    0 <= h < OrderBase
  }

  function MakeQuadOrder(h: nat, v: nat): (o: nat)
    requires IsHOrder(h)
    ensures o % OrderBase == h && o / OrderBase == v
  {
    v * OrderBase + h
  }

  function GetHOrder(o: nat): (h: nat)
    ensures IsHOrder(h) && h <= o
  {
    o % OrderBase
  }

  function GetVOrder(o: nat): (v: nat)
    ensures v * OrderBase <= o
  {
    o / OrderBase
  }

  /** std::max on orders. */
  function Max(a: nat, b: nat): nat {
    if a >= b then a else b
  }

  /** Packing then unpacking gives back both orders. */
  lemma GetMakeRoundTrip(h: nat, v: nat)
    requires IsHOrder(h)
    ensures GetHOrder(MakeQuadOrder(h, v)) == h
    ensures GetVOrder(MakeQuadOrder(h, v)) == v
  {
  }

  /** Unpacking then packing gives back the stored order. */
  lemma MakeGetRoundTrip(o: nat)
    ensures MakeQuadOrder(GetHOrder(o), GetVOrder(o)) == o
  {
  }
}
