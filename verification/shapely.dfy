/** The geometry library the merge scripts call. Its algorithms are not part
    of this model: each operation is a field of `Shapely`, passed to the
    functions that use it. `None` stands for an exception. */
module ShapelyLib {
  import opened Wrappers
  import opened GeoJson

  datatype Shapely = Shapely(
    /** `shape(feature['geometry'])`: a geometry object from GeoJSON; fails
        on `null` and on malformed input */
    shape: Option<Geometry> -> Option<Geometry>,
    /** `mapping(unary_union(geometries))`: the union, back as GeoJSON */
    unaryUnion: seq<Geometry> -> Option<Geometry>
  )
}
