/** The spaces the adaptivity engine works on, reduced to what it observes:
    the mesh each component lives on and the polynomial order of each
    element. Components whose meshOf entries are equal share one mesh object
    (the pointer comparison `meshes[j] == meshes[i]` of adapt.cpp). */
module SpacesModel {
  import opened Refinement
  import opened MeshModel

  /** Component c lives on meshes[meshOf[c]]; orders[c] holds
      get_element_order / set_element_order_internal of its space. */
  datatype Spaces = Spaces(meshOf: seq<nat>, meshes: seq<Mesh>, orders: seq<map<int, nat>>)

  /** Every component has an order table and a mesh, and every mesh is well
      formed. */
  predicate SpacesOk(s: Spaces) {
    |s.orders| == |s.meshOf| &&
    (forall c :: 0 <= c < |s.meshOf| ==> s.meshOf[c] < |s.meshes|) &&
    (forall m :: 0 <= m < |s.meshes| ==> WellFormed(s.meshes[m]))
  }

  /** spaces[c]->get_mesh(). */
  function MeshOf(s: Spaces, c: int): (m: Mesh)
    requires SpacesOk(s) && 0 <= c < |s.meshOf|
    ensures WellFormed(m)
  {
    s.meshes[s.meshOf[c]]
  }

  /** spaces[c]->get_element_order(id). */
  function Order(s: Spaces, c: int, id: int): nat
    requires 0 <= c < |s.orders|
  {
    OrderAt(s.orders[c], id)
  }

  /** Component j is another component on the same mesh object as
      component c. */
  predicate Shares(meshOf: seq<nat>, j: int, c: int) {
    0 <= j < |meshOf| && 0 <= c < |meshOf| && j != c && meshOf[j] == meshOf[c]
  }
}
