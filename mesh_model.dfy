/**
 * The in-memory mesh that the format drivers populate: vertices, edges and
 * faces, plus the error kinds a load can report and the `size_t` arithmetic
 * the drivers rely on.
 */
module MeshModel {

  /** Largest value of the 64-bit `size_t` the drivers index with. */
  const SIZE_MAX: nat := 0xFFFF_FFFF_FFFF_FFFF

  /** `x - 1` evaluated in `size_t`: zero wraps around to SIZE_MAX. */
  function SizeDec(x: nat): nat
  {
    if x == 0 then SIZE_MAX else x - 1
  }

  /**
   * A coordinate, kept opaque: the token or decoded value it came from.
   * `Unset` is the value of a default-constructed vertex coordinate.
   */
  datatype Coord = Coord(token: string) | Unset

  datatype Vertex = Vertex(x: Coord, y: Coord, z: Coord)

  const DEFAULT_VERTEX := Vertex(Unset, Unset, Unset)

  datatype Edge = Edge(startVertex: nat, endVertex: nat)

  /** A face: its vertex indices in winding order. */
  type Face = seq<nat>

  /** The generic mesh both drivers produce and the serialiser reads. */
  datatype Mesh = Mesh(vertices: seq<Vertex>, edges: seq<Edge>, faces: seq<Face>)

  /** Coarse error kinds a load reports (the `MDAL_Status` codes used by the drivers). */
  datatype Status = UnknownFormat | UnsupportedElement | InvalidData
}
