/**
 * The 2DM text driver's writer (`Driver2dm::save`): a header line, one
 * `ND` line per vertex, one `E3T`/`E4Q` line per face and one `E2L` line
 * per edge, and the fact that reading the written lines back gives the
 * mesh again. Node and face lines carry their 1-based position as ID,
 * vertex references are written 1-based, and edge IDs carry on after
 * the face IDs (`facesCount + i + 1`).
 */
module Mdal2dmSave {
  import opened Wrappers
  import opened MeshModel
  import opened Mdal2dm

  // ---------------------------------------------------------------------
  // Writing values
  // ---------------------------------------------------------------------

  function DigitChar(d: nat): char
    requires d < 10
  {
    (48 + d) as char
  }

  /** `std::to_string` of an unsigned value: its decimal digits, most significant first. */
  function Decimal(n: nat): (r: string)
    ensures |r| > 0
    decreases n
  {
    if n < 10 then [DigitChar(n)] else Decimal(n / 10) + [DigitChar(n % 10)]
  }

  /** A number written into a line; read back, its value is the number. */
  function Num(n: nat): Token
  {
    Token(Decimal(n), n)
  }

  /** A word that is never read as a number (a card, a coordinate). */
  function Word(text: string): Token
  {
    Token(text, 0)
  }

  /**
   * The text a coordinate is written as. Formatting of doubles is not
   * modelled: a coordinate prints as its own token, an unset one as `0`.
   */
  function CoordText(c: Coord): string
  {
    match c
    case Coord(t) => t
    case Unset => "0"
  }

  /** The chunks joined by single spaces, as `line.append(" ")` builds them. */
  function Join(ts: seq<Token>): string
  {
    if |ts| == 0 then []
    else if |ts| == 1 then ts[0].text
    else ts[0].text + [' '] + Join(ts[1..])
  }

  /** A joined line begins with its first chunk. */
  lemma JoinStartsWithFirst(ts: seq<Token>)
    requires |ts| > 0
    ensures StartsWith(Join(ts), ts[0].text)
  {
    if |ts| > 1 {
      assert Join(ts)[..|ts[0].text|] == ts[0].text;
    }
  }

  function MakeLine(ts: seq<Token>): Line
  {
    Line(Join(ts), ts)
  }

  // ---------------------------------------------------------------------
  // The lines written
  // ---------------------------------------------------------------------

  function SavedHeader(): Line
  {
    MakeLine([Word("MESH2D")])
  }

  /** `ND <i+1> <x> <y> <z>`. */
  function SavedNode(i: nat, v: Vertex): Line
  {
    MakeLine([Word("ND"), Num(i + 1), Word(CoordText(v.x)), Word(CoordText(v.y)), Word(CoordText(v.z))])
  }

  function FaceCard(n: nat): string
  {
    if n == 3 then "E3T" else "E4Q"
  }

  /** The indices of a face, 1-based. */
  function FaceIds(f: Face): seq<Token>
  {
    seq(|f|, j requires 0 <= j < |f| => Num(f[j] + 1))
  }

  /** `E3T <i+1> <v1+1> <v2+1> <v3+1>` or its `E4Q` counterpart; no material ID is written. */
  function SavedFace(i: nat, f: Face): Line
  {
    MakeLine([Word(FaceCard(|f|)), Num(i + 1)] + FaceIds(f))
  }

  /** `E2L <id> <start+1> <end+1> 1`, numbered on from the faces. */
  function SavedEdge(id: nat, e: Edge): Line
  {
    MakeLine([Word("E2L"), Num(id), Num(e.startVertex + 1), Num(e.endVertex + 1), Num(1)])
  }

  /** The faces the writer accepts: triangles and quadrilaterals. */
  predicate Writable(f: Face)
  {
    2 < |f| < 5
  }

  /**
   * The writer's `line` after the first n faces: a writable face replaces
   * it, any other face leaves the previous line in place to be written again.
   */
  function LineAfterFaces(faces: seq<Face>, n: nat, start: Line): Line
    requires n <= |faces|
  {
    if n == 0 then start
    else if Writable(faces[n - 1]) then SavedFace(n - 1, faces[n - 1])
    else LineAfterFaces(faces, n - 1, start)
  }

  /** The node lines of the first n vertices. */
  function SavedNodes(vs: seq<Vertex>, n: nat): seq<Line>
    requires n <= |vs|
  {
    seq(n, i requires 0 <= i < n => SavedNode(i, vs[i]))
  }

  /** The lines written for the first n faces. */
  function SavedFaces(faces: seq<Face>, n: nat, start: Line): seq<Line>
    requires n <= |faces|
  {
    seq(n, k requires 0 <= k < n => LineAfterFaces(faces, k + 1, start))
  }

  /** The edge lines of the first n edges, their IDs numbered on from `facesCount`. */
  function SavedEdges(edges: seq<Edge>, n: nat, facesCount: nat): seq<Line>
    requires n <= |edges|
  {
    seq(n, i requires 0 <= i < n => SavedEdge(facesCount + i + 1, edges[i]))
  }

  /** The writer's `line` once the vertices are written. */
  function LastNodeLine(vs: seq<Vertex>): Line
  {
    if |vs| == 0 then SavedHeader() else SavedNode(|vs| - 1, vs[|vs| - 1])
  }

  /** The file `Driver2dm::save` writes for a mesh, line by line. */
  function SaveSpec(mesh: Mesh): seq<Line>
  {
    [SavedHeader()] + SavedNodes(mesh.vertices, |mesh.vertices|)
    + SavedFaces(mesh.faces, |mesh.faces|, LastNodeLine(mesh.vertices))
    + SavedEdges(mesh.edges, |mesh.edges|, |mesh.faces|)
  }

  // ---------------------------------------------------------------------
  // The writer
  // ---------------------------------------------------------------------

  /** Appends the 1-based vertex indices of a face to its line. */
  method AppendFaceIds(prefix: seq<Token>, f: Face) returns (ts: seq<Token>)
    ensures ts == prefix + FaceIds(f)
  {
    ts := prefix;
    var j := 0;
    while j < |f|
      invariant 0 <= j <= |f|
      invariant ts == prefix + FaceIds(f[..j])
    {
      assert FaceIds(f[..j + 1]) == FaceIds(f[..j]) + [Num(f[j] + 1)];
      ts := ts + [Num(f[j] + 1)];
      j := j + 1;
    }
    assert f[..|f|] == f;
  }

  /** The vertex loop: one `ND` line per vertex; `line` ends as the last of them. */
  method SaveNodes(vs: seq<Vertex>, head: seq<Line>) returns (out: seq<Line>, line: Line)
    ensures out == head + SavedNodes(vs, |vs|)
    ensures line == LastNodeLine(vs)
  {
    out, line := head, SavedHeader();
    var i := 0;
    while i < |vs|
      invariant 0 <= i <= |vs|
      invariant out == head + SavedNodes(vs, i)
      invariant line == if i == 0 then SavedHeader() else SavedNode(i - 1, vs[i - 1])
    {
      var v := vs[i];
      line := MakeLine([Word("ND"), Num(i + 1), Word(CoordText(v.x)), Word(CoordText(v.y)), Word(CoordText(v.z))]);
      assert SavedNodes(vs, i + 1) == SavedNodes(vs, i) + [line];
      out := out + [line];
      i := i + 1;
    }
  }

  /**
   * The face loop: a triangle or quadrilateral gets its own line; for any
   * other face the line still held is written again.
   */
  method SaveFaces(faces: seq<Face>, head: seq<Line>, start: Line) returns (out: seq<Line>, line: Line)
    ensures out == head + SavedFaces(faces, |faces|, start)
    ensures line == LineAfterFaces(faces, |faces|, start)
  {
    out, line := head, start;
    var i := 0;
    while i < |faces|
      invariant 0 <= i <= |faces|
      invariant out == head + SavedFaces(faces, i, start)
      invariant line == LineAfterFaces(faces, i, start)
    {
      var f := faces[i];
      if 2 < |f| && |f| < 5 {
        var card := if |f| == 3 then "E3T" else "E4Q";
        var ts := AppendFaceIds([Word(card), Num(i + 1)], f);
        line := MakeLine(ts);
      }
      assert SavedFaces(faces, i + 1, start) == SavedFaces(faces, i, start) + [line];
      out := out + [line];
      i := i + 1;
    }
  }

  /** The edge loop: one `E2L` line per edge, with material 1. */
  method SaveEdges(edges: seq<Edge>, facesCount: nat, head: seq<Line>) returns (out: seq<Line>)
    ensures out == head + SavedEdges(edges, |edges|, facesCount)
  {
    out := head;
    var i := 0;
    while i < |edges|
      invariant 0 <= i <= |edges|
      invariant out == head + SavedEdges(edges, i, facesCount)
    {
      var e := edges[i];
      var line := MakeLine([Word("E2L"), Num(facesCount + i + 1), Num(e.startVertex + 1), Num(e.endVertex + 1), Num(1)]);
      assert SavedEdges(edges, i + 1, facesCount) == SavedEdges(edges, i, facesCount) + [line];
      out := out + [line];
      i := i + 1;
    }
  }

  /** `Driver2dm::save`, with the file replaced by the sequence of lines written. */
  method Save(mesh: Mesh) returns (out: seq<Line>)
    ensures out == SaveSpec(mesh)
    ensures |out| == 1 + |mesh.vertices| + |mesh.faces| + |mesh.edges|
  {
    var line := SavedHeader();
    out := [line];
    out, line := SaveNodes(mesh.vertices, out);
    out, line := SaveFaces(mesh.faces, out, line);
    out := SaveEdges(mesh.edges, |mesh.faces|, out);
  }

  // ---------------------------------------------------------------------
  // Reading the written lines back
  // ---------------------------------------------------------------------

  /** What the reader makes of a written vertex: each coordinate is the token written. */
  function ReadBack(v: Vertex): (r: Vertex)
    ensures v.x.Coord? && v.y.Coord? && v.z.Coord? ==> r == v
  {
    Vertex(Coord(CoordText(v.x)), Coord(CoordText(v.y)), Coord(CoordText(v.z)))
  }

  function ReadBackAll(vs: seq<Vertex>): seq<Vertex>
  {
    seq(|vs|, i requires 0 <= i < |vs| => ReadBack(vs[i]))
  }

  /** The header passes the header check and is of no kind. */
  lemma HeaderRead()
    ensures StartsWith(SavedHeader().text, "MESH2D")
    ensures KindOf(SavedHeader()) == OtherLine && NodeKey(SavedHeader()) == 0
  {
    assert SavedHeader().text == "MESH2D";
    HeaderIsOther(SavedHeader());
  }

  /** A written node line is read as a node with ID i+1 and the vertex's coordinates. */
  lemma NodeRead(i: nat, v: Vertex)
    ensures IsNode(SavedNode(i, v)) && WellFormedLine(SavedNode(i, v))
    ensures NodeKey(SavedNode(i, v)) == i + 1 && NodeId(SavedNode(i, v)) == i
    ensures NodeVertex(SavedNode(i, v)) == ReadBack(v)
  {
    var l := SavedNode(i, v);
    JoinStartsWithFirst(l.tokens);
    assert l.text[0] == 'N' && l.text[1] == 'D';
  }

  /** A written face line is read as a face of the same size and indices, without elevation. */
  lemma FaceRead(i: nat, f: Face)
    requires Writable(f)
    ensures KindOf(SavedFace(i, f)) == FaceLine(|f|) && WellFormedLine(SavedFace(i, f))
    ensures NodeKey(SavedFace(i, f)) == 0
    ensures RawFace(SavedFace(i, f)) == f
    ensures FaceElevation(SavedFace(i, f)) == None
  {
    var l := SavedFace(i, f);
    JoinStartsWithFirst(l.tokens);
    assert l.tokens[0].text == FaceCard(|f|);
    assert l.text[..3] == FaceCard(|f|);
    assert l.text[0] == 'E' && l.text[1] == FaceCard(|f|)[1] && l.text[2] == FaceCard(|f|)[2];
    assert KindOf(l).vertexCount == |f|;
    forall j | 0 <= j < |f|
      ensures RawFace(l)[j] == f[j]
    {
      assert l.tokens[j + 2] == Num(f[j] + 1);
      assert RawFace(l)[j] == SizeDec(l.tokens[j + 2].size);
    }
  }

  /** A written edge line is read as an edge with the same endpoints. */
  lemma EdgeRead(id: nat, e: Edge)
    ensures IsEdge(SavedEdge(id, e)) && WellFormedLine(SavedEdge(id, e))
    ensures NodeKey(SavedEdge(id, e)) == 0
    ensures LineEdge(SavedEdge(id, e)) == e
  {
    var l := SavedEdge(id, e);
    JoinStartsWithFirst(l.tokens);
    assert l.text[..3] == "E2L";
    assert l.text[0] == 'E' && l.text[1] == '2' && l.text[2] == 'L';
  }

  /** With every face writable, each face gets its own line. */
  lemma WritableFacesSaved(faces: seq<Face>, start: Line)
    requires forall j :: 0 <= j < |faces| ==> Writable(faces[j])
    ensures SavedFaces(faces, |faces|, start) == seq(|faces|, k requires 0 <= k < |faces| => SavedFace(k, faces[k]))
  {
    forall k | 0 <= k < |faces|
      ensures LineAfterFaces(faces, k + 1, start) == SavedFace(k, faces[k])
    {
      assert Writable(faces[k]);
    }
  }

  /**
   * Line by line, the written file is well formed, holds no unsupported
   * element, and the IDs the reader sees are 1..n on the node lines and
   * 0 everywhere else.
   */
  lemma SavedLines(mesh: Mesh)
    requires forall j :: 0 <= j < |mesh.faces| ==> Writable(mesh.faces[j])
    ensures var lines := SaveSpec(mesh);
      forall k :: 0 <= k < |lines| ==>
        && WellFormedLine(lines[k]) && !IsUnsupported(lines[k])
        && NodeKey(lines[k]) == (if 1 <= k <= |mesh.vertices| then k else 0)
  {
    HeaderRead();
    assert PlainLines([SavedHeader()]);
    NodeBlockPlain(mesh.vertices);
    FaceBlockPlain(mesh.faces, LastNodeLine(mesh.vertices));
    EdgeBlockPlain(mesh.edges, |mesh.faces|);
    BlocksJoin([SavedHeader()], SavedNodes(mesh.vertices, |mesh.vertices|),
      SavedFaces(mesh.faces, |mesh.faces|, LastNodeLine(mesh.vertices)), SavedEdges(mesh.edges, |mesh.edges|, |mesh.faces|));
  }

  lemma NodeBlockPlain(vs: seq<Vertex>)
    ensures var ns := SavedNodes(vs, |vs|);
      forall k :: 0 <= k < |ns| ==> Plain(ns[k]) && NodeKey(ns[k]) == k + 1 && IsNode(ns[k])
  {
    forall k | 0 <= k < |vs|
      ensures Plain(SavedNodes(vs, |vs|)[k]) && NodeKey(SavedNodes(vs, |vs|)[k]) == k + 1 && IsNode(SavedNodes(vs, |vs|)[k])
    {
      NodeRead(k, vs[k]);
    }
  }

  lemma FaceBlockPlain(faces: seq<Face>, start: Line)
    requires forall j :: 0 <= j < |faces| ==> Writable(faces[j])
    ensures PlainLines(SavedFaces(faces, |faces|, start))
    ensures forall k :: 0 <= k < |faces| ==> IsFace(SavedFaces(faces, |faces|, start)[k])
  {
    WritableFacesSaved(faces, start);
    forall k | 0 <= k < |faces|
      ensures Plain(SavedFaces(faces, |faces|, start)[k]) && NodeKey(SavedFaces(faces, |faces|, start)[k]) == 0
      ensures IsFace(SavedFaces(faces, |faces|, start)[k])
    {
      FaceRead(k, faces[k]);
    }
  }

  lemma EdgeBlockPlain(edges: seq<Edge>, facesCount: nat)
    ensures PlainLines(SavedEdges(edges, |edges|, facesCount))
    ensures forall k :: 0 <= k < |edges| ==> IsEdge(SavedEdges(edges, |edges|, facesCount)[k])
  {
    forall k | 0 <= k < |edges|
      ensures Plain(SavedEdges(edges, |edges|, facesCount)[k]) && NodeKey(SavedEdges(edges, |edges|, facesCount)[k]) == 0
      ensures IsEdge(SavedEdges(edges, |edges|, facesCount)[k])
    {
      EdgeRead(facesCount + k + 1, edges[k]);
    }
  }

  /** A line the reader accepts and that does not abort the load. */
  predicate Plain(l: Line)
  {
    WellFormedLine(l) && !IsUnsupported(l)
  }

  /** Plain lines that the reader sees as having node ID 0. */
  predicate PlainLines(s: seq<Line>)
  {
    forall k :: 0 <= k < |s| ==> Plain(s[k]) && NodeKey(s[k]) == 0
  }

  /** A header, then node lines with IDs 1..n, then two blocks of plain lines with ID 0. */
  lemma BlocksJoin(h: seq<Line>, ns: seq<Line>, fs: seq<Line>, es: seq<Line>)
    requires |h| == 1 && PlainLines(h) && PlainLines(fs) && PlainLines(es)
    requires forall k :: 0 <= k < |ns| ==> Plain(ns[k]) && NodeKey(ns[k]) == k + 1
    ensures var lines := h + ns + fs + es;
      forall k :: 0 <= k < |lines| ==>
        && WellFormedLine(lines[k]) && !IsUnsupported(lines[k])
        && NodeKey(lines[k]) == (if 1 <= k <= |ns| then k else 0)
  {
    var lines := h + ns + fs + es;
    forall k | 0 <= k < |lines|
      ensures Plain(lines[k]) && NodeKey(lines[k]) == (if 1 <= k <= |ns| then k else 0)
    {
      if k == 0 {
        assert lines[k] == h[0];
      } else if k <= |ns| {
        assert lines[k] == ns[k - 1];
      } else if k <= |ns| + |fs| {
        assert lines[k] == fs[k - 1 - |ns|];
      } else {
        assert lines[k] == es[k - 1 - |ns| - |fs|];
      }
    }
  }

  /** The written file lists the node, face and edge lines in that order, each kind in one block. */
  lemma SavedSelections(mesh: Mesh)
    requires forall j :: 0 <= j < |mesh.faces| ==> Writable(mesh.faces[j])
    ensures Select(SaveSpec(mesh), NodeEntity) == SavedNodes(mesh.vertices, |mesh.vertices|)
    ensures Select(SaveSpec(mesh), FaceEntity) == SavedFaces(mesh.faces, |mesh.faces|, LastNodeLine(mesh.vertices))
    ensures Select(SaveSpec(mesh), EdgeEntity) == SavedEdges(mesh.edges, |mesh.edges|, |mesh.faces|)
  {
    var h := [SavedHeader()];
    var ns := SavedNodes(mesh.vertices, |mesh.vertices|);
    var fs := SavedFaces(mesh.faces, |mesh.faces|, LastNodeLine(mesh.vertices));
    var es := SavedEdges(mesh.edges, |mesh.edges|, |mesh.faces|);
    HeaderRead();
    NodeBlockPlain(mesh.vertices);
    FaceBlockPlain(mesh.faces, LastNodeLine(mesh.vertices));
    EdgeBlockPlain(mesh.edges, |mesh.faces|);
    SelectsOfBlocks(h, ns, fs, es);
  }

  /** Selecting from four blocks each of one kind (the first of none the reader stores). */
  lemma SelectsOfBlocks(h: seq<Line>, ns: seq<Line>, fs: seq<Line>, es: seq<Line>)
    requires forall k :: 0 <= k < |h| ==> KindOf(h[k]) == OtherLine
    requires forall k :: 0 <= k < |ns| ==> IsNode(ns[k])
    requires forall k :: 0 <= k < |fs| ==> IsFace(fs[k])
    requires forall k :: 0 <= k < |es| ==> IsEdge(es[k])
    ensures Select(h + ns + fs + es, NodeEntity) == ns
    ensures Select(h + ns + fs + es, FaceEntity) == fs
    ensures Select(h + ns + fs + es, EdgeEntity) == es
  {
    assert Select(h + ns + fs + es, NodeEntity) == ns by {
      SelectOfFour(h, ns, fs, es, NodeEntity);
      SelectOfNone(h, |h|, NodeEntity);
      SelectOfAll(ns, |ns|, NodeEntity);
      SelectOfNone(fs, |fs|, NodeEntity);
      SelectOfNone(es, |es|, NodeEntity);
      assert ns[..|ns|] == ns;
    }
    assert Select(h + ns + fs + es, FaceEntity) == fs by {
      SelectOfFour(h, ns, fs, es, FaceEntity);
      SelectOfNone(h, |h|, FaceEntity);
      SelectOfNone(ns, |ns|, FaceEntity);
      SelectOfAll(fs, |fs|, FaceEntity);
      SelectOfNone(es, |es|, FaceEntity);
      assert fs[..|fs|] == fs;
    }
    assert Select(h + ns + fs + es, EdgeEntity) == es by {
      SelectOfFour(h, ns, fs, es, EdgeEntity);
      SelectOfNone(h, |h|, EdgeEntity);
      SelectOfNone(ns, |ns|, EdgeEntity);
      SelectOfNone(fs, |fs|, EdgeEntity);
      SelectOfAll(es, |es|, EdgeEntity);
      assert es[..|es|] == es;
    }
  }

  lemma SelectOfFour(h: seq<Line>, ns: seq<Line>, fs: seq<Line>, es: seq<Line>, p: Entity)
    ensures Select(h + ns + fs + es, p) == Select(h, p) + Select(ns, p) + Select(fs, p) + Select(es, p)
  {
    SelectOfConcat(h + ns + fs, es, p);
    SelectOfConcat(h + ns, fs, p);
    SelectOfConcat(h, ns, p);
  }

  /** The node lines read back: the vertices as written, IDs 1..n, so no map entry and no warning. */
  lemma NodesReadBack(vs: seq<Vertex>)
    ensures AllOf(SavedNodes(vs, |vs|), NodeEntity)
    ensures Vertices(SavedNodes(vs, |vs|)) == ReadBackAll(vs)
    ensures IdMapState(NodeIds(SavedNodes(vs, |vs|))) == (map[], false)
  {
    var ns := SavedNodes(vs, |vs|);
    forall k | 0 <= k < |vs|
      ensures IsNode(ns[k]) && WellFormedLine(ns[k])
      ensures NodeId(ns[k]) == k && NodeVertex(ns[k]) == ReadBack(vs[k])
    {
      NodeRead(k, vs[k]);
    }
    IdMapOfSequentialIds(NodeIds(ns));
  }

  /** The face lines read back: the faces themselves, none with an elevation. */
  lemma FacesReadBack(faces: seq<Face>, start: Line)
    requires forall j :: 0 <= j < |faces| ==> Writable(faces[j])
    ensures AllOf(SavedFaces(faces, |faces|, start), FaceEntity)
    ensures RawFaces(SavedFaces(faces, |faces|, start)) == faces
    ensures ElevationTable(Elevations(SavedFaces(faces, |faces|, start)), |faces|) == []
  {
    WritableFacesSaved(faces, start);
    var fs := SavedFaces(faces, |faces|, start);
    forall k | 0 <= k < |faces|
      ensures IsFace(fs[k]) && WellFormedLine(fs[k])
      ensures RawFace(fs[k]) == faces[k] && FaceElevation(fs[k]) == None
    {
      FaceRead(k, faces[k]);
    }
    assert forall j :: 0 <= j < |fs| ==> Elevations(fs)[j].None?;
  }

  /** The edge lines read back: the edges themselves. */
  lemma EdgesReadBack(edges: seq<Edge>, facesCount: nat)
    ensures AllOf(SavedEdges(edges, |edges|, facesCount), EdgeEntity)
    ensures Edges(SavedEdges(edges, |edges|, facesCount)) == edges
  {
    var es := SavedEdges(edges, |edges|, facesCount);
    forall k | 0 <= k < |edges|
      ensures IsEdge(es[k]) && WellFormedLine(es[k]) && LineEdge(es[k]) == edges[k]
    {
      EdgeRead(facesCount + k + 1, edges[k]);
    }
  }

  /** Through the empty map every face resolves to itself. */
  lemma ResolveThroughEmptyMap(faces: seq<Face>)
    ensures ResolveFaces(map[], faces) == faces
  {
    forall j | 0 <= j < |faces|
      ensures ResolveFace(map[], faces[j]) == faces[j]
    {
    }
  }

  /** The written file passes every check the load makes. */
  lemma SavedChecks(mesh: Mesh)
    requires forall j :: 0 <= j < |mesh.faces| ==> Writable(mesh.faces[j])
    ensures WellFormed(SaveSpec(mesh)) && HeaderOk(SaveSpec(mesh))
    ensures !HasUnsupported(SaveSpec(mesh)) && NodesOrdered(SaveSpec(mesh))
  {
    SavedLines(mesh);
    HeaderRead();
  }

  /**
   * Round trip: loading what `save` writes succeeds and gives back the
   * mesh's vertices (as the tokens written), its faces and its edges, with
   * an empty ID map, no cell elevations and no duplicate warning; the
   * invalid-node warning and the dangling-corner flag are those of the
   * faces themselves.
   * It needs every face to be a triangle or a quadrilateral, the only
   * faces the writer gives a line of their own.
   */
  lemma LoadOfSave(mesh: Mesh)
    requires forall j :: 0 <= j < |mesh.faces| ==> Writable(mesh.faces[j])
    ensures WellFormed(SaveSpec(mesh)) && LoadReadable(SaveSpec(mesh))
    ensures LoadSpec(SaveSpec(mesh)) == Success(Loaded(
      Mesh2dm(Mesh(ReadBackAll(mesh.vertices), mesh.edges, mesh.faces), map[], []),
      false,
      HasInvalidNodeAsWritten(map[], |mesh.vertices|, mesh.faces),
      HasInvalidNode(map[], |mesh.vertices|, mesh.faces)))
  {
    SavedChecks(mesh);
    WellFormedIsReadable(SaveSpec(mesh));
    SavedSelections(mesh);
    NodesReadBack(mesh.vertices);
    FacesReadBack(mesh.faces, LastNodeLine(mesh.vertices));
    EdgesReadBack(mesh.edges, |mesh.faces|);
    ResolveThroughEmptyMap(mesh.faces);
  }

  /** A face the writer cannot write repeats the line before it. */
  lemma UnwritableFaceRepeats(mesh: Mesh, j: nat)
    requires j < |mesh.faces| && !Writable(mesh.faces[j])
    ensures SaveSpec(mesh)[1 + |mesh.vertices| + j] == SaveSpec(mesh)[|mesh.vertices| + j]
  {
    var n := |mesh.vertices|;
    var start := LastNodeLine(mesh.vertices);
    var lines := SaveSpec(mesh);
    assert lines[1 + n + j] == LineAfterFaces(mesh.faces, j + 1, start) == LineAfterFaces(mesh.faces, j, start);
    if j == 0 {
      if n == 0 {
        assert lines[0] == SavedHeader();
      } else {
        assert lines[n] == SavedNode(n - 1, mesh.vertices[n - 1]);
      }
    } else {
      assert lines[n + j] == LineAfterFaces(mesh.faces, j, start);
    }
  }
}
