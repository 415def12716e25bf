// A point inside a mesh element, given by the element's index and its local (barycentric)
// coordinates, one per element node.
module IndexedCoordinates {
  datatype IndexedLocalCoordinate = IndexedLocalCoordinate(index: nat, coordinate: seq<real>)
}
