/**
 * The 2DM text driver's reader (`Driver2dm::load`) and the mesh it builds
 * (`Mesh2dm`), over a file given as a sequence of already tokenised lines.
 *
 * The load runs the source's four steps: the header check, a counting pass
 * that classifies every line by its leading characters, a parsing pass that
 * fills pre-sized vertex, edge and face containers and builds the sparse
 * node ID -> vertex index map, and a resolution pass that rewrites face
 * entries through that map.
 */
module Mdal2dm {
  import opened Wrappers
  import opened MeshModel

  /**
   * One space-separated chunk of a line: its text and the unsigned value
   * that reading it as a `size_t` gives (numeric parsing is not modelled).
   */
  datatype Token = Token(text: string, size: nat)

  /** A line of a .2dm file: its raw text, classified by prefix, and its chunks. */
  datatype Line = Line(text: string, tokens: seq<Token>)

  /** `startsWith`: the first |prefix| characters of `s` are `prefix`. */
  predicate StartsWith(s: string, prefix: string)
  {
    |prefix| <= |s| && s[..|prefix|] == prefix
  }

  /** `startsWith(line, card)` for an element card of two characters. */
  predicate HasCard2(t: string, c0: char, c1: char)
  {
    2 <= |t| && t[0] == c0 && t[1] == c1
  }

  /** `startsWith(line, card)` for an element card of three characters. */
  predicate HasCard3(t: string, c0: char, c1: char, c2: char)
  {
    3 <= |t| && t[0] == c0 && t[1] == c1 && t[2] == c2
  }

  /** The character tests are the prefix test on the card. */
  lemma CardsArePrefixes(t: string, c0: char, c1: char, c2: char)
    ensures HasCard2(t, c0, c1) <==> StartsWith(t, [c0, c1])
    ensures HasCard3(t, c0, c1, c2) <==> StartsWith(t, [c0, c1, c2])
  {
    if HasCard2(t, c0, c1) {
      assert t[..2] == [c0, c1];
    }
    if HasCard3(t, c0, c1, c2) {
      assert t[..3] == [c0, c1, c2];
    }
  }

  /** What both passes make of a line, decided by its leading characters. */
  datatype Kind = FaceLine(vertexCount: nat) | NodeLine | EdgeLine | UnsupportedLine | OtherLine

  /**
   * The classification of both passes, testing the cards in the order they
   * do. A face's vertex count is the digit in the second character of its
   * card: 4 for E4Q, 3 for E3T.
   */
  function KindOf(l: Line): Kind
  {
    var t := l.text;
    if HasCard3(t, 'E', '4', 'Q') then FaceLine(4)
    else if HasCard3(t, 'E', '3', 'T') then FaceLine(3)
    else if HasCard2(t, 'N', 'D') then NodeLine
    else if HasCard3(t, 'E', '2', 'L') then EdgeLine
    else if HasCard3(t, 'E', '3', 'L') || HasCard3(t, 'E', '6', 'T')
         || HasCard3(t, 'E', '8', 'Q') || HasCard3(t, 'E', '9', 'Q') then UnsupportedLine
    else OtherLine
  }

  predicate IsFace(l: Line) { KindOf(l).FaceLine? }
  predicate IsNode(l: Line) { KindOf(l).NodeLine? }
  predicate IsEdge(l: Line) { KindOf(l).EdgeLine? }
  predicate IsUnsupported(l: Line) { KindOf(l).UnsupportedLine? }

  /**
   * The chunk counts the parser relies on: a node line is read up to its
   * z token, a face line must hold its vertex IDs and a material ID, an
   * edge line its two node IDs and a material ID.
   */
  predicate WellFormedLine(l: Line)
  {
    match KindOf(l)
    case FaceLine(n) => |l.tokens| > n + 1
    case NodeLine => |l.tokens| >= 5
    case EdgeLine => |l.tokens| > 4
    case _ => true
  }

  predicate WellFormed(lines: seq<Line>)
  {
    forall i :: 0 <= i < |lines| ==> WellFormedLine(lines[i])
  }

  /** The first n lines have the chunks the parser reads. */
  predicate WellFormedFirst(lines: seq<Line>, n: nat)
    requires n <= |lines|
  {
    forall k :: 0 <= k < n ==> WellFormedLine(lines[k])
  }

  /**
   * What the parsing pass demands: every line it reads past the ordering
   * check has its chunks. A misordered node needs only its ID, and the
   * lines after it are never read.
   */
  predicate ReadLinesWellFormed(lines: seq<Line>)
  {
    forall i :: 0 <= i < |lines| && CheckedFirst(lines, i + 1) ==> WellFormedLine(lines[i])
  }

  /** The load reads chunks only once the header and the counting pass have passed. */
  predicate LoadReadable(lines: seq<Line>)
  {
    HeaderOk(lines) && !HasUnsupported(lines) ==> ReadLinesWellFormed(lines)
  }

  predicate HeaderOk(lines: seq<Line>)
  {
    |lines| > 0 && StartsWith(lines[0].text, "MESH2D")
  }

  predicate HasUnsupported(lines: seq<Line>)
  {
    exists i :: 0 <= i < |lines| && IsUnsupported(lines[i])
  }

  /** The three kinds of line the parser stores. */
  datatype Entity = FaceEntity | NodeEntity | EdgeEntity

  predicate Holds(l: Line, e: Entity)
  {
    match e
    case FaceEntity => IsFace(l)
    case NodeEntity => IsNode(l)
    case EdgeEntity => IsEdge(l)
  }

  /** Every line of `ls` is of kind `e` and has the chunks the parser reads. */
  predicate AllOf(ls: seq<Line>, e: Entity)
  {
    forall k :: 0 <= k < |ls| ==> Holds(ls[k], e) && WellFormedLine(ls[k])
  }

  /** The lines of kind `p` among the first `n`, in file order. */
  function SelectFirst(lines: seq<Line>, n: nat, p: Entity): (r: seq<Line>)
    requires n <= |lines|
    ensures |r| <= n
    ensures WellFormed(lines) ==> AllOf(r, p)
    ensures WellFormedFirst(lines, n) ==> AllOf(r, p)
  {
    if n == 0 then []
    else SelectFirst(lines, n - 1, p) + (if Holds(lines[n - 1], p) then [lines[n - 1]] else [])
  }

  /** The lines of kind `p` in the whole file. */
  function Select(lines: seq<Line>, p: Entity): seq<Line>
  {
    SelectFirst(lines, |lines|, p)
  }

  /** A line of another kind leaves a selection as it was. */
  lemma SelectFirstSkips(lines: seq<Line>, i: nat, p: Entity)
    requires i < |lines| && !Holds(lines[i], p)
    ensures SelectFirst(lines, i + 1, p) == SelectFirst(lines, i, p)
  {
    assert SelectFirst(lines, i + 1, p) == SelectFirst(lines, i, p) + [];
  }

  /** Reading on never shrinks a selection. */
  lemma {:induction false} SelectFirstGrows(lines: seq<Line>, i: nat, j: nat, p: Entity)
    requires i <= j <= |lines|
    ensures |SelectFirst(lines, i, p)| <= |SelectFirst(lines, j, p)|
    decreases j - i
  {
    if i < j {
      SelectFirstGrows(lines, i, j - 1, p);
    }
  }

  /** A selection depends only on the lines it ranges over. */
  lemma {:induction false} SelectFirstOfPrefix(lines: seq<Line>, more: seq<Line>, n: nat)
    requires n <= |lines|
    ensures SelectFirst(lines + more, n, NodeEntity) == SelectFirst(lines, n, NodeEntity)
    ensures SelectFirst(lines + more, n, FaceEntity) == SelectFirst(lines, n, FaceEntity)
    ensures SelectFirst(lines + more, n, EdgeEntity) == SelectFirst(lines, n, EdgeEntity)
  {
    if n > 0 {
      SelectFirstOfPrefix(lines, more, n - 1);
      assert (lines + more)[n - 1] == lines[n - 1];
    }
  }

  /** Selecting from two files read one after the other selects from each in turn. */
  lemma {:induction false} SelectFirstOfConcat(a: seq<Line>, b: seq<Line>, k: nat, p: Entity)
    requires k <= |b|
    ensures SelectFirst(a + b, |a| + k, p) == Select(a, p) + SelectFirst(b, k, p)
  {
    if k == 0 {
      SelectFirstOfPrefix(a, b, |a|);
    } else {
      SelectFirstOfConcat(a, b, k - 1, p);
      var tail := if Holds(b[k - 1], p) then [b[k - 1]] else [];
      assert (a + b)[|a| + k - 1] == b[k - 1];
      var before := SelectFirst(a + b, |a| + (k - 1), p);
      assert before == Select(a, p) + SelectFirst(b, k - 1, p);
      calc {
        SelectFirst(a + b, |a| + k, p);
        before + tail;
        Select(a, p) + (SelectFirst(b, k - 1, p) + tail);
        Select(a, p) + SelectFirst(b, k, p);
      }
    }
  }

  lemma SelectOfConcat(a: seq<Line>, b: seq<Line>, p: Entity)
    ensures Select(a + b, p) == Select(a, p) + Select(b, p)
  {
    SelectFirstOfConcat(a, b, |b|, p);
  }

  /** Lines all of kind `p` are selected whole. */
  lemma {:induction false} SelectOfAll(lines: seq<Line>, n: nat, p: Entity)
    requires n <= |lines| && forall k :: 0 <= k < |lines| ==> Holds(lines[k], p)
    ensures SelectFirst(lines, n, p) == lines[..n]
  {
    if n > 0 {
      SelectOfAll(lines, n - 1, p);
      assert lines[..n] == lines[..n - 1] + [lines[n - 1]];
    }
  }

  /** Lines none of kind `p` select nothing. */
  lemma {:induction false} SelectOfNone(lines: seq<Line>, n: nat, p: Entity)
    requires n <= |lines| && forall k :: 0 <= k < |lines| ==> !Holds(lines[k], p)
    ensures SelectFirst(lines, n, p) == []
  {
    if n > 0 {
      SelectOfNone(lines, n - 1, p);
    }
  }

  /** The header line is of no kind, so neither pass does anything with it. */
  lemma HeaderIsOther(l: Line)
    requires StartsWith(l.text, "MESH2D")
    ensures KindOf(l) == OtherLine
  {
    assert l.text[0] == "MESH2D"[0];
  }

  /** `toDouble` of a chunk: the coordinate stays the opaque token. */
  function ToCoord(t: Token): Coord
  {
    Coord(t.text)
  }

  function NodeVertex(l: Line): Vertex
    requires IsNode(l) && WellFormedLine(l)
  {
    Vertex(ToCoord(l.tokens[2]), ToCoord(l.tokens[3]), ToCoord(l.tokens[4]))
  }

  /** The node's file ID (1-based, 0 tolerated); 0 for every other line. */
  function NodeKey(l: Line): nat
  {
    if IsNode(l) && |l.tokens| > 1 then l.tokens[1].size else 0
  }

  /** The node's ID made 0-based in `size_t` arithmetic. */
  function NodeId(l: Line): nat
    requires IsNode(l) && WellFormedLine(l)
  {
    SizeDec(l.tokens[1].size)
  }

  /** The face's vertex IDs made 0-based, not yet resolved to indices. */
  function RawFace(l: Line): (f: Face)
    requires IsFace(l) && WellFormedLine(l)
    ensures |f| == KindOf(l).vertexCount
  {
    var n := KindOf(l).vertexCount;
    seq(n, i requires 0 <= i < n => SizeDec(l.tokens[i + 2].size))
  }

  /** The optional cell elevation that follows the material ID. */
  function FaceElevation(l: Line): Option<Coord>
    requires IsFace(l)
  {
    var n := KindOf(l).vertexCount;
    if |l.tokens| == n + 4 then Some(ToCoord(l.tokens[n + 3])) else None
  }

  /** An edge's two node IDs made 0-based; they are never resolved. */
  function LineEdge(l: Line): Edge
    requires IsEdge(l) && WellFormedLine(l)
  {
    Edge(SizeDec(l.tokens[2].size), SizeDec(l.tokens[3].size))
  }

  function Vertices(nodes: seq<Line>): seq<Vertex>
    requires AllOf(nodes, NodeEntity)
  {
    seq(|nodes|, i requires 0 <= i < |nodes| => NodeVertex(nodes[i]))
  }

  function NodeIds(nodes: seq<Line>): seq<nat>
    requires AllOf(nodes, NodeEntity)
  {
    seq(|nodes|, i requires 0 <= i < |nodes| => NodeId(nodes[i]))
  }

  function RawFaces(faceLines: seq<Line>): seq<Face>
    requires AllOf(faceLines, FaceEntity)
  {
    seq(|faceLines|, i requires 0 <= i < |faceLines| => RawFace(faceLines[i]))
  }

  function Elevations(faceLines: seq<Line>): seq<Option<Coord>>
    requires AllOf(faceLines, FaceEntity)
  {
    seq(|faceLines|, i requires 0 <= i < |faceLines| => FaceElevation(faceLines[i]))
  }

  function Edges(edgeLines: seq<Line>): seq<Edge>
    requires AllOf(edgeLines, EdgeEntity)
  {
    seq(|edgeLines|, i requires 0 <= i < |edgeLines| => LineEdge(edgeLines[i]))
  }

  /**
   * Non-zero node IDs must strictly increase through the file; zero IDs are
   * exempt and are not compared with.
   */
  predicate NodesOrdered(lines: seq<Line>)
  {
    OrderedFirst(lines, |lines|)
  }

  /** The ordering restricted to the first `n` lines. */
  predicate OrderedFirst(lines: seq<Line>, n: nat)
    requires n <= |lines|
  {
    forall a, b :: 0 <= a < b < n && NodeKey(lines[a]) != 0 && NodeKey(lines[b]) != 0
      ==> NodeKey(lines[a]) < NodeKey(lines[b])
  }

  /** The last non-zero node ID among the first `n` lines (`lastVertexId`), 0 when there is none. */
  function LastKey(lines: seq<Line>, n: nat): nat
    requires n <= |lines|
  {
    if n == 0 then 0
    else if NodeKey(lines[n - 1]) != 0 then NodeKey(lines[n - 1])
    else LastKey(lines, n - 1)
  }

  /**
   * The parsing pass's own check, line by line: every non-zero ID exceeds
   * the last non-zero ID before it.
   */
  predicate CheckedFirst(lines: seq<Line>, n: nat)
    requires n <= |lines|
  {
    n == 0 ||
    (CheckedFirst(lines, n - 1) &&
     (NodeKey(lines[n - 1]) == 0 || LastKey(lines, n - 1) == 0 || LastKey(lines, n - 1) < NodeKey(lines[n - 1])))
  }

  /** In an ordered prefix the last non-zero ID is the greatest one, and it was met. */
  lemma {:induction false} LastKeyIsMaximum(lines: seq<Line>, n: nat)
    requires n <= |lines| && OrderedFirst(lines, n)
    ensures forall a :: 0 <= a < n && NodeKey(lines[a]) != 0 ==> NodeKey(lines[a]) <= LastKey(lines, n)
    ensures LastKey(lines, n) != 0 ==> exists a :: 0 <= a < n && NodeKey(lines[a]) == LastKey(lines, n)
  {
    if n != 0 {
      LastKeyIsMaximum(lines, n - 1);
    }
  }

  /**
   * Comparing each ID with the last non-zero one is the same as comparing
   * every pair: the check accepts exactly the ordered prefixes.
   */
  lemma {:induction false} CheckedIsOrdered(lines: seq<Line>, n: nat)
    requires n <= |lines|
    ensures CheckedFirst(lines, n) <==> OrderedFirst(lines, n)
  {
    if n != 0 {
      CheckedIsOrdered(lines, n - 1);
      var i := n - 1;
      if OrderedFirst(lines, i) {
        LastKeyIsMaximum(lines, i);
        if NodeKey(lines[i]) != 0 && LastKey(lines, i) != 0 && NodeKey(lines[i]) <= LastKey(lines, i) {
          var a :| 0 <= a < i && NodeKey(lines[a]) == LastKey(lines, i);
          assert !OrderedFirst(lines, n);
        }
      } else {
        assert !OrderedFirst(lines, n);
      }
    }
  }

  /** A prefix of a checked prefix is checked. */
  lemma {:induction false} CheckedPrefix(lines: seq<Line>, k: nat, n: nat)
    requires k <= n <= |lines| && CheckedFirst(lines, n)
    ensures CheckedFirst(lines, k)
  {
    if k < n {
      CheckedPrefix(lines, k, n - 1);
    }
  }

  /** In an ordered file every line is read past the check, so every line has its chunks. */
  lemma OrderedIsWellFormed(lines: seq<Line>)
    requires ReadLinesWellFormed(lines) && NodesOrdered(lines)
    ensures WellFormed(lines)
  {
    CheckedIsOrdered(lines, |lines|);
    forall i | 0 <= i < |lines|
      ensures WellFormedLine(lines[i])
    {
      CheckedPrefix(lines, i + 1, |lines|);
    }
  }

  /** A node line that reaches the check has its ID: without one its key is 0 and it passes. */
  lemma CheckedNodeHasId(lines: seq<Line>, i: nat)
    requires ReadLinesWellFormed(lines) && i < |lines| && CheckedFirst(lines, i) && IsNode(lines[i])
    ensures |lines[i].tokens| > 1
  {
    assert NodeKey(lines[i]) == 0 ==> CheckedFirst(lines, i + 1);
  }

  /** A line that passes the check is read, so it has its chunks. */
  lemma CheckedLineHasChunks(lines: seq<Line>, i: nat)
    requires ReadLinesWellFormed(lines) && i < |lines| && WellFormedFirst(lines, i) && CheckedFirst(lines, i + 1)
    ensures WellFormedFirst(lines, i + 1)
  {
    assert WellFormedLine(lines[i]);
  }

  /** A file whose every line has its chunks meets what the load demands. */
  lemma WellFormedIsReadable(lines: seq<Line>)
    requires WellFormed(lines)
    ensures LoadReadable(lines)
  {
  }

  /** A prefix that fails the check leaves the whole file unordered. */
  lemma UncheckedPrefix(lines: seq<Line>, n: nat)
    requires n <= |lines| && !CheckedFirst(lines, n)
    ensures !NodesOrdered(lines)
  {
    CheckedIsOrdered(lines, n);
  }

  // ---------------------------------------------------------------------
  // The node ID -> vertex index map
  // ---------------------------------------------------------------------

  /**
   * `_parse_vertex_id_gaps`: records `vertexId -> vertexIndex` when the ID
   * is not the slot being filled. An ID that is already a key keeps its
   * first entry and is reported as a duplicate (the second component).
   */
  function ParseVertexIdGaps(m: map<nat, nat>, vertexIndex: nat, vertexId: nat): (r: (map<nat, nat>, bool))
    ensures forall k :: k in m ==> k in r.0 && r.0[k] == m[k]
    ensures r.0.Keys == if vertexIndex == vertexId then m.Keys else m.Keys + {vertexId}
    ensures vertexIndex != vertexId && vertexId !in m ==> r.0[vertexId] == vertexIndex
    ensures r.1 <==> vertexIndex != vertexId && vertexId in m
  {
    if vertexIndex == vertexId then (m, false)
    else if vertexId in m then (m, true)
    else (m[vertexId := vertexIndex], false)
  }

  /**
   * The map and the duplicate warning after the parsing pass has met the
   * 0-based node IDs `ids`, the i-th being read into vertex slot i.
   */
  function IdMapState(ids: seq<nat>): (map<nat, nat>, bool)
  {
    if ids == [] then (map[], false)
    else
      var prev := IdMapState(ids[..|ids| - 1]);
      var step := ParseVertexIdGaps(prev.0, |ids| - 1, ids[|ids| - 1]);
      (step.0, prev.1 || step.1)
  }

  /** Slot i is the first slot whose ID is k without k being i itself. */
  predicate FirstWriter(ids: seq<nat>, k: nat, i: nat)
  {
    && i < |ids| && ids[i] == k && k != i
    && forall j :: 0 <= j < i ==> ids[j] != k || j == k
  }

  /** An ID is a key exactly when some slot carries it without being that slot. */
  lemma {:induction false} IdMapKeys(ids: seq<nat>)
    ensures forall k :: k in IdMapState(ids).0 <==> exists i :: 0 <= i < |ids| && ids[i] == k && k != i
  {
    if ids != [] {
      var n := |ids| - 1;
      var p := ids[..n];
      IdMapKeys(p);
      assert forall i :: 0 <= i < n ==> p[i] == ids[i];
      var m := IdMapState(ids).0;
      var mp := IdMapState(p).0;
      assert m.Keys == if n == ids[n] then mp.Keys else mp.Keys + {ids[n]};
      forall k
        ensures k in m <==> exists i :: 0 <= i < |ids| && ids[i] == k && k != i
      {
        if k in mp {
          var i :| 0 <= i < n && p[i] == k && k != i;
          assert ids[i] == k;
        } else if k in m {
          assert ids[n] == k && k != n;
        } else {
          forall i | 0 <= i < |ids| && ids[i] == k
            ensures k == i
          {
            if i < n {
              assert p[i] == k;
            }
          }
        }
      }
    }
  }

  /** First writer wins: every key maps to the first slot that carries it without being it. */
  lemma {:induction false} IdMapFirstWriter(ids: seq<nat>)
    ensures forall k :: k in IdMapState(ids).0 ==> FirstWriter(ids, k, IdMapState(ids).0[k])
  {
    if ids != [] {
      var n := |ids| - 1;
      var p := ids[..n];
      IdMapFirstWriter(p);
      IdMapKeys(p);
      assert forall i :: 0 <= i < n ==> p[i] == ids[i];
      var m := IdMapState(ids).0;
      var mp := IdMapState(p).0;
      forall k | k in m
        ensures FirstWriter(ids, k, m[k])
      {
        if k in mp {
          assert FirstWriter(p, k, mp[k]);
        } else {
          assert k == ids[n] && m[k] == n;
        }
      }
    }
  }

  /** The duplicate warning is raised exactly when two slots carry one ID, neither being it. */
  lemma {:induction false} IdMapDuplicate(ids: seq<nat>)
    ensures IdMapState(ids).1 <==>
      exists i, j :: 0 <= i < j < |ids| && ids[i] == ids[j] && ids[i] != i && ids[j] != j
  {
    if ids != [] {
      var n := |ids| - 1;
      var p := ids[..n];
      IdMapDuplicate(p);
      assert forall i :: 0 <= i < n ==> p[i] == ids[i];
      var mp := IdMapState(p).0;
      if IdMapState(ids).1 && !IdMapState(p).1 {
        IdMapFirstWriter(p);
        var i := mp[ids[n]];
        assert FirstWriter(p, ids[n], i);
        assert ids[i] == ids[n] && ids[i] != i && ids[n] != n;
      }
      if !IdMapState(ids).1 {
        IdMapKeys(p);
        forall i, j | 0 <= i < j < |ids| && ids[i] == ids[j] && ids[i] != i
          ensures ids[j] == j
        {
          if j == n {
            assert ids[n] in mp;
          } else {
            assert p[i] == p[j];
          }
        }
      }
    }
  }

  /**
   * The map is an injection into the vertex slots: every value is below
   * the number of nodes read, and the slot a key maps to carries that ID.
   */
  lemma IdMapIntoSlots(ids: seq<nat>)
    ensures forall k :: k in IdMapState(ids).0 ==>
      IdMapState(ids).0[k] < |ids| && ids[IdMapState(ids).0[k]] == k
    ensures forall k1, k2 :: k1 in IdMapState(ids).0 && k2 in IdMapState(ids).0 && k1 != k2 ==>
      IdMapState(ids).0[k1] != IdMapState(ids).0[k2]
  {
    IdMapFirstWriter(ids);
    var m := IdMapState(ids).0;
    assert forall k :: k in m ==> FirstWriter(ids, k, m[k]);
  }

  /** Files numbered exactly 1..N leave the map empty and raise no warning. */
  lemma IdMapOfSequentialIds(ids: seq<nat>)
    requires forall i :: 0 <= i < |ids| ==> ids[i] == i
    ensures IdMapState(ids) == (map[], false)
  {
    IdMapKeys(ids);
    IdMapDuplicate(ids);
    var m := IdMapState(ids).0;
    assert forall k :: k !in m;
  }

  /** The lookup shared by face resolution and `Mesh2dm::vertexIndex`. */
  function ResolveId(m: map<nat, nat>, vertexId: nat): nat
  {
    if vertexId in m then m[vertexId] else vertexId
  }

  /** Distinct IDs resolve back to the slot they were read into. */
  lemma ResolveRecoversSlot(ids: seq<nat>, i: nat)
    requires forall a, b :: 0 <= a < b < |ids| ==> ids[a] != ids[b]
    requires i < |ids|
    ensures ResolveId(IdMapState(ids).0, ids[i]) == i
  {
    IdMapFirstWriter(ids);
    var m := IdMapState(ids).0;
    if ids[i] in m {
      assert FirstWriter(ids, ids[i], m[ids[i]]);
    }
  }

  function ResolveFace(m: map<nat, nat>, f: Face): Face
  {
    seq(|f|, k requires 0 <= k < |f| => ResolveId(m, f[k]))
  }

  function ResolveFaces(m: map<nat, nat>, faces: seq<Face>): seq<Face>
  {
    seq(|faces|, j requires 0 <= j < |faces| => ResolveFace(m, faces[j]))
  }

  /**
   * The resolution pass's warning condition as line 268 writes it: an
   * unmapped ID strictly greater than the vertex count. An unmapped ID
   * equal to the count passes, although no vertex has that index.
   */
  predicate InvalidNodeAsWritten(m: map<nat, nat>, verticesCount: nat, vertexId: nat)
  {
    vertexId !in m && verticesCount < vertexId
  }

  predicate HasInvalidNodeAsWritten(m: map<nat, nat>, verticesCount: nat, faces: seq<Face>)
  {
    exists j, k :: 0 <= j < |faces| && 0 <= k < |faces[j]| && InvalidNodeAsWritten(m, verticesCount, faces[j][k])
  }

  /** The warning condition the resolution pass evidently means: an unmapped ID that is no vertex index. */
  predicate InvalidNode(m: map<nat, nat>, verticesCount: nat, vertexId: nat)
  {
    vertexId !in m && verticesCount <= vertexId
  }

  predicate HasInvalidNode(m: map<nat, nat>, verticesCount: nat, faces: seq<Face>)
  {
    exists j, k :: 0 <= j < |faces| && 0 <= k < |faces[j]| && InvalidNode(m, verticesCount, faces[j][k])
  }

  /**
   * When the map sends IDs to vertex indices, the intended warning fires
   * exactly when some resolved corner is not a vertex index.
   */
  lemma InvalidNodeIffDangling(m: map<nat, nat>, verticesCount: nat, faces: seq<Face>)
    requires forall k :: k in m ==> m[k] < verticesCount
    ensures HasInvalidNode(m, verticesCount, faces) <==>
      exists j, k :: 0 <= j < |faces| && 0 <= k < |faces[j]| && verticesCount <= ResolveFaces(m, faces)[j][k]
  {
    var resolved := ResolveFaces(m, faces);
    forall j, k | 0 <= j < |faces| && 0 <= k < |faces[j]|
      ensures InvalidNode(m, verticesCount, faces[j][k]) <==> verticesCount <= resolved[j][k]
    {
      assert resolved[j][k] == ResolveId(m, faces[j][k]);
    }
  }

  /**
   * With nodes numbered 1..n the map is empty, and a face corner naming
   * ID n + 1 stays at index n, one past the last vertex: the test as
   * written lets it through, the intended one warns.
   */
  lemma AsWrittenMissesOnePastEnd(n: nat)
    ensures ResolveFaces(map[], [[n]]) == [[n]]
    ensures !HasInvalidNodeAsWritten(map[], n, [[n]]) && HasInvalidNode(map[], n, [[n]])
  {
    assert ResolveFace(map[], [n]) == [n];
    assert InvalidNode(map[], n, [[n]][0][0]);
  }

  // ---------------------------------------------------------------------
  // The mesh
  // ---------------------------------------------------------------------

  /** `Mesh2dm`: the generic mesh plus the sparse ID map and the cell elevations. */
  datatype Mesh2dm = Mesh2dm(mesh: Mesh, vertexIdToIndex: map<nat, nat>, faceElevations: seq<Option<Coord>>)
  {
    function VerticesCount(): nat
    {
      |mesh.vertices|
    }

    /** `verticesCount() - 1` in `size_t`: an empty mesh gives SIZE_MAX. */
    function LastIndex(): (r: nat)
      ensures VerticesCount() > 0 ==> r == VerticesCount() - 1
      ensures VerticesCount() == 0 ==> r == SIZE_MAX
    {
      SizeDec(VerticesCount())
    }

    /** `vertexIndex`: the mapped index of a key, the ID itself otherwise. */
    function VertexIndex(vertexId: nat): (r: nat)
      ensures vertexId in vertexIdToIndex ==> r == vertexIdToIndex[vertexId]
      ensures vertexId !in vertexIdToIndex ==> r == vertexId
    {
      ResolveId(vertexIdToIndex, vertexId)
    }

    /**
     * `maximumVertexId`: the largest of the last vertex index and every key
     * of the map, so it is the last index when the map is empty.
     */
    ghost function MaximumVertexId(): (r: nat)
      ensures LastIndex() <= r
      ensures forall k :: k in vertexIdToIndex ==> k <= r
      ensures r == LastIndex() || r in vertexIdToIndex
    {
      var maxIndex := LastIndex();
      if vertexIdToIndex == map[] then maxIndex
      else
        var maxId := MaxKey(vertexIdToIndex.Keys);
        if maxIndex < maxId then maxId else maxIndex
    }
  }

  /** The greatest key of a non-empty key set (`rbegin()` of a `std::map`). */
  ghost function MaxKey(keys: set<nat>): (r: nat)
    requires keys != {}
    ensures r in keys && forall k :: k in keys ==> k <= r
  {
    var k :| k in keys;
    if keys == {k} then k
    else
      var rest := MaxKey(keys - {k});
      assert forall y :: y in keys ==> y == k || y in keys - {k};
      if k < rest then rest else k
  }

  /**
   * The cell elevation container: empty until some face carries an
   * elevation, then one entry per face, `None` standing for the NaN of a
   * face without one.
   */
  function ElevationTable(fe: seq<Option<Coord>>, total: nat): seq<Option<Coord>>
    requires |fe| <= total
  {
    if forall j :: 0 <= j < |fe| ==> fe[j].None? then [] else fe + seq(total - |fe|, _ => None)
  }

  lemma ElevationTableStep(fe: seq<Option<Coord>>, total: nat, e: Option<Coord>)
    requires |fe| < total
    ensures ElevationTable(fe + [e], total) ==
      if e.None? then ElevationTable(fe, total)
      else (if ElevationTable(fe, total) == [] then seq(total, _ => None) else ElevationTable(fe, total))[|fe| := e]
  {
    var fe' := fe + [e];
    var old' := ElevationTable(fe, total);
    var new' := ElevationTable(fe', total);
    if e.None? {
      if forall j :: 0 <= j < |fe| ==> fe[j].None? {
        assert forall j :: 0 <= j < |fe'| ==> fe'[j].None?;
      } else {
        var j :| 0 <= j < |fe| && fe[j].Some?;
        assert fe'[j].Some?;
        assert new' == old';
      }
    } else {
      assert fe'[|fe|].Some?;
      var base := if old' == [] then seq(total, _ => None) else old';
      if old' == [] {
        assert forall j :: 0 <= j < |fe| ==> fe[j].None?;
      }
      assert |base| == total;
      assert new' == base[|fe| := e];
    }
  }

  // ---------------------------------------------------------------------
  // Load
  // ---------------------------------------------------------------------

  /**
   * A successful load: the mesh, the two non-fatal warnings the log would
   * hold, and whether some face corner is left pointing at no vertex. The
   * invalid-node warning is line 268's test as written (`<`); the last
   * field is the corrected test (`<=`) the warning evidently means.
   */
  datatype Loaded = Loaded(mesh: Mesh2dm, duplicateNodeWarning: bool, invalidNodeWarning: bool, danglingCorner: bool)

  /** What `Driver2dm::load` yields for a file. */
  function LoadSpec(lines: seq<Line>): Result<Loaded, Status>
    requires LoadReadable(lines)
  {
    if !HeaderOk(lines) then Failure(UnknownFormat)
    else if HasUnsupported(lines) then Failure(UnsupportedElement)
    else if !NodesOrdered(lines) then Failure(InvalidData)
    else
      OrderedIsWellFormed(lines);
      var nodes := Select(lines, NodeEntity);
      var faceLines := Select(lines, FaceEntity);
      var state := IdMapState(NodeIds(nodes));
      var rawFaces := RawFaces(faceLines);
      var vertices := Vertices(nodes);
      var mesh := Mesh(vertices, Edges(Select(lines, EdgeEntity)), ResolveFaces(state.0, rawFaces));
      Success(Loaded(
        Mesh2dm(mesh, state.0, ElevationTable(Elevations(faceLines), |faceLines|)),
        state.1,
        HasInvalidNodeAsWritten(state.0, |vertices|, rawFaces),
        HasInvalidNode(state.0, |vertices|, rawFaces)))
  }

  datatype Counts = Counts(vertexCount: nat, faceCount: nat, edgesCount: nat)

  /** One more line adds one to the count of its own kind and leaves the others. */
  lemma CountStep(lines: seq<Line>, i: nat)
    requires i < |lines|
    ensures |SelectFirst(lines, i + 1, FaceEntity)| == |SelectFirst(lines, i, FaceEntity)| + if IsFace(lines[i]) then 1 else 0
    ensures |SelectFirst(lines, i + 1, NodeEntity)| == |SelectFirst(lines, i, NodeEntity)| + if IsNode(lines[i]) then 1 else 0
    ensures |SelectFirst(lines, i + 1, EdgeEntity)| == |SelectFirst(lines, i, EdgeEntity)| + if IsEdge(lines[i]) then 1 else 0
  {
  }

  /** The counting pass over the lines after the header; it aborts on an unsupported element. */
  method CountingPass(lines: seq<Line>) returns (r: Result<Counts, Status>)
    requires HeaderOk(lines)
    ensures r.Failure? <==> HasUnsupported(lines)
    ensures r.Failure? ==> r.error == UnsupportedElement
    ensures r.Success? ==>
      r.value == Counts(|Select(lines, NodeEntity)|, |Select(lines, FaceEntity)|, |Select(lines, EdgeEntity)|)
  {
    HeaderIsOther(lines[0]);
    var faceCount, vertexCount, edgesCount := 0, 0, 0;
    var i := 1;
    while i < |lines|
      invariant 1 <= i <= |lines|
      invariant faceCount == |SelectFirst(lines, i, FaceEntity)|
      invariant vertexCount == |SelectFirst(lines, i, NodeEntity)|
      invariant edgesCount == |SelectFirst(lines, i, EdgeEntity)|
      invariant forall k :: 0 <= k < i ==> !IsUnsupported(lines[k])
    {
      var line := lines[i];
      CountStep(lines, i);
      if IsFace(line) {
        faceCount := faceCount + 1;
      } else if IsNode(line) {
        vertexCount := vertexCount + 1;
      } else if IsEdge(line) {
        edgesCount := edgesCount + 1;
      } else if IsUnsupported(line) {
        return Failure(UnsupportedElement);
      }
      i := i + 1;
    }
    return Success(Counts(vertexCount, faceCount, edgesCount));
  }

  /** What the parsing pass hands on: the three containers, the ID map with its warning, the elevations. */
  datatype Parsed = Parsed(vertices: seq<Vertex>, edges: seq<Edge>, faces: seq<Face>,
                           vertexIdToIndex: map<nat, nat>, duplicateNode: bool, elevations: seq<Option<Coord>>)

  /** The vertices of the node lines `nodes` fill the leading slots of the container. */
  predicate VerticesHeld(nodes: seq<Line>, vertices: seq<Vertex>)
    requires AllOf(nodes, NodeEntity)
  {
    |nodes| <= |vertices| && forall k :: 0 <= k < |nodes| ==> vertices[k] == NodeVertex(nodes[k])
  }

  /** The raw faces of the face lines `faceLines` fill the leading slots of the container. */
  predicate FacesHeld(faceLines: seq<Line>, faces: seq<Face>)
    requires AllOf(faceLines, FaceEntity)
  {
    |faceLines| <= |faces| && forall k :: 0 <= k < |faceLines| ==> faces[k] == RawFace(faceLines[k])
  }

  /** The edges of the edge lines `edgeLines` fill the leading slots of the container. */
  predicate EdgesHeld(edgeLines: seq<Line>, edges: seq<Edge>)
    requires AllOf(edgeLines, EdgeEntity)
  {
    |edgeLines| <= |edges| && forall k :: 0 <= k < |edgeLines| ==> edges[k] == LineEdge(edgeLines[k])
  }

  /**
   * The parsing pass's locals: the three containers, the next free slot
   * of each, the ID map with its duplicate warning, the last non-zero node
   * ID and the elevation container (empty until a face has an elevation).
   */
  datatype PassState = PassState(
    vertices: seq<Vertex>, edges: seq<Edge>, faces: seq<Face>,
    vertexIndex: nat, edgeIndex: nat, faceIndex: nat,
    vertexIdToIndex: map<nat, nat>, duplicateNode: bool, lastVertexId: nat,
    elevations: seq<Option<Coord>>)

  /**
   * After the first i lines the vertex container has its counted size and
   * holds the vertices of the node lines read in its leading slots, the
   * next free slot is their number, the ID map is theirs, and their
   * non-zero IDs are ordered, the last of them being `lastVertexId`.
   */
  predicate NodesRead(lines: seq<Line>, i: nat, st: PassState)
    requires i <= |lines| && WellFormedFirst(lines, i)
  {
    && |st.vertices| == |Select(lines, NodeEntity)|
    && st.vertexIndex == |SelectFirst(lines, i, NodeEntity)| && VerticesHeld(SelectFirst(lines, i, NodeEntity), st.vertices)
    && (st.vertexIdToIndex, st.duplicateNode) == IdMapState(NodeIds(SelectFirst(lines, i, NodeEntity)))
    && CheckedFirst(lines, i) && st.lastVertexId == LastKey(lines, i)
  }

  /**
   * After the first i lines the face container has its counted size and
   * holds the raw faces of the face lines read, the next free slot is their
   * number, and the elevation container is that of their elevations.
   */
  predicate FacesRead(lines: seq<Line>, i: nat, st: PassState)
    requires i <= |lines| && WellFormedFirst(lines, i)
  {
    && |st.faces| == |Select(lines, FaceEntity)|
    && st.faceIndex == |SelectFirst(lines, i, FaceEntity)| && FacesHeld(SelectFirst(lines, i, FaceEntity), st.faces)
    && st.elevations == ElevationTable(Elevations(SelectFirst(lines, i, FaceEntity)), |st.faces|)
  }

  /** After the first i lines the edge container holds the edges of the edge lines read. */
  predicate EdgesRead(lines: seq<Line>, i: nat, st: PassState)
    requires i <= |lines| && WellFormedFirst(lines, i)
  {
    && |st.edges| == |Select(lines, EdgeEntity)|
    && st.edgeIndex == |SelectFirst(lines, i, EdgeEntity)| && EdgesHeld(SelectFirst(lines, i, EdgeEntity), st.edges)
  }

  /** The parsing pass's loop invariant. */
  predicate PassInv(lines: seq<Line>, i: nat, st: PassState)
    requires i <= |lines| && WellFormedFirst(lines, i)
  {
    NodesRead(lines, i, st) && FacesRead(lines, i, st) && EdgesRead(lines, i, st)
  }

  /** A line that is not a node leaves what the pass knows of nodes as it was. */
  lemma NodesKept(lines: seq<Line>, i: nat, st: PassState, st': PassState)
    requires i < |lines| && WellFormedFirst(lines, i + 1) && !IsNode(lines[i]) && NodesRead(lines, i, st)
    requires st'.vertices == st.vertices && st'.vertexIndex == st.vertexIndex
    requires st'.vertexIdToIndex == st.vertexIdToIndex && st'.duplicateNode == st.duplicateNode
    requires st'.lastVertexId == st.lastVertexId
    ensures NodesRead(lines, i + 1, st')
  {
    SelectFirstSkips(lines, i, NodeEntity);
  }

  /** A line that is not a face leaves what the pass knows of faces as it was. */
  lemma FacesKept(lines: seq<Line>, i: nat, st: PassState, st': PassState)
    requires i < |lines| && WellFormedFirst(lines, i + 1) && !IsFace(lines[i]) && FacesRead(lines, i, st)
    requires st'.faces == st.faces && st'.faceIndex == st.faceIndex && st'.elevations == st.elevations
    ensures FacesRead(lines, i + 1, st')
  {
    SelectFirstSkips(lines, i, FaceEntity);
  }

  /** A line that is not an edge leaves what the pass knows of edges as it was. */
  lemma EdgesKept(lines: seq<Line>, i: nat, st: PassState, st': PassState)
    requires i < |lines| && WellFormedFirst(lines, i + 1) && !IsEdge(lines[i]) && EdgesRead(lines, i, st)
    requires st'.edges == st.edges && st'.edgeIndex == st.edgeIndex
    ensures EdgesRead(lines, i + 1, st')
  {
    SelectFirstSkips(lines, i, EdgeEntity);
  }

  /** A line of kind `p` is appended to the selection, which stays within the whole file's. */
  lemma SelectFirstTakes(lines: seq<Line>, i: nat, p: Entity)
    requires i < |lines| && Holds(lines[i], p)
    ensures SelectFirst(lines, i + 1, p) == SelectFirst(lines, i, p) + [lines[i]]
    ensures |SelectFirst(lines, i + 1, p)| <= |Select(lines, p)|
  {
    SelectFirstGrows(lines, i + 1, |lines|, p);
  }

  /** Writing the next vertex into the next free slot extends what the container holds. */
  lemma VerticesHeldStep(nodes: seq<Line>, vertices: seq<Vertex>, l: Line)
    requires AllOf(nodes, NodeEntity) && VerticesHeld(nodes, vertices)
    requires IsNode(l) && WellFormedLine(l) && |nodes| < |vertices|
    ensures AllOf(nodes + [l], NodeEntity)
    ensures VerticesHeld(nodes + [l], vertices[|nodes| := NodeVertex(l)])
  {
  }

  /** Writing the next face into the next free slot extends what the container holds. */
  lemma FacesHeldStep(faceLines: seq<Line>, faces: seq<Face>, l: Line)
    requires AllOf(faceLines, FaceEntity) && FacesHeld(faceLines, faces)
    requires IsFace(l) && WellFormedLine(l) && |faceLines| < |faces|
    ensures AllOf(faceLines + [l], FaceEntity)
    ensures FacesHeld(faceLines + [l], faces[|faceLines| := RawFace(l)])
    ensures Elevations(faceLines + [l]) == Elevations(faceLines) + [FaceElevation(l)]
  {
    assert Elevations(faceLines + [l]) == Elevations(faceLines) + [FaceElevation(l)];
  }

  /** Writing the next edge into the next free slot extends what the container holds. */
  lemma EdgesHeldStep(edgeLines: seq<Line>, edges: seq<Edge>, l: Line)
    requires AllOf(edgeLines, EdgeEntity) && EdgesHeld(edgeLines, edges)
    requires IsEdge(l) && WellFormedLine(l) && |edgeLines| < |edges|
    ensures AllOf(edgeLines + [l], EdgeEntity)
    ensures EdgesHeld(edgeLines + [l], edges[|edgeLines| := LineEdge(l)])
  {
  }

  /** The ID map after one more node is the previous one with that node's `_parse_vertex_id_gaps`. */
  lemma IdMapStateStep(nodes: seq<Line>, l: Line)
    requires AllOf(nodes, NodeEntity) && IsNode(l) && WellFormedLine(l)
    ensures AllOf(nodes + [l], NodeEntity)
    ensures IdMapState(NodeIds(nodes + [l])) ==
      var step := ParseVertexIdGaps(IdMapState(NodeIds(nodes)).0, |nodes|, NodeId(l));
      (step.0, IdMapState(NodeIds(nodes)).1 || step.1)
  {
    var ids := NodeIds(nodes);
    assert NodeIds(nodes + [l]) == ids + [NodeId(l)];
    assert (ids + [NodeId(l)])[..|ids|] == ids;
  }

  /** A line of no kind the pass reads changes nothing. */
  lemma OtherLineKeepsState(lines: seq<Line>, i: nat, st: PassState)
    requires i < |lines| && WellFormedFirst(lines, i + 1) && PassInv(lines, i, st)
    requires !IsFace(lines[i]) && !IsNode(lines[i]) && !IsEdge(lines[i])
    ensures PassInv(lines, i + 1, st)
  {
    NodesKept(lines, i, st, st);
    FacesKept(lines, i, st, st);
    EdgesKept(lines, i, st, st);
  }

  /** Reads the raw vertex IDs of a face line, in order. */
  method ReadFaceIds(line: Line, n: nat) returns (face: Face)
    requires 2 + n <= |line.tokens|
    ensures face == seq(n, q requires 0 <= q < n => SizeDec(line.tokens[q + 2].size))
  {
    face := seq(n, _ => 0);
    var k := 0;
    while k < n
      invariant 0 <= k <= n && |face| == n
      invariant forall q :: 0 <= q < k ==> face[q] == SizeDec(line.tokens[q + 2].size)
    {
      face := face[k := SizeDec(line.tokens[k + 2].size)];
      k := k + 1;
    }
  }

  /**
   * The face branch: reads the vertex IDs of line i into the next face
   * slot and records its elevation, allocating the elevation container on
   * the first face that has one.
   */
  method ReadFace(lines: seq<Line>, i: nat, st: PassState) returns (st': PassState)
    requires i < |lines| && WellFormedFirst(lines, i + 1) && IsFace(lines[i]) && PassInv(lines, i, st)
    ensures PassInv(lines, i + 1, st')
  {
    var line := lines[i];
    var n := KindOf(line).vertexCount;
    ghost var faceLines := SelectFirst(lines, i, FaceEntity);
    SelectFirstTakes(lines, i, FaceEntity);
    var face := ReadFaceIds(line, n);
    assert face == RawFace(line);
    FacesHeldStep(faceLines, st.faces, line);
    ElevationTableStep(Elevations(faceLines), |st.faces|, FaceElevation(line));
    var elevations := st.elevations;
    if |line.tokens| == n + 4 {
      if elevations == [] {
        elevations := seq(|st.faces|, _ => None);
      }
      elevations := elevations[st.faceIndex := Some(ToCoord(line.tokens[n + 3]))];
    }
    st' := st.(faces := st.faces[st.faceIndex := face], faceIndex := st.faceIndex + 1, elevations := elevations);
    NodesKept(lines, i, st, st');
    EdgesKept(lines, i, st, st');
  }

  /** The edge branch: reads line i's two node IDs into the next edge slot. */
  method ReadEdge(lines: seq<Line>, i: nat, st: PassState) returns (st': PassState)
    requires i < |lines| && WellFormedFirst(lines, i + 1) && IsEdge(lines[i]) && PassInv(lines, i, st)
    ensures PassInv(lines, i + 1, st')
  {
    var line := lines[i];
    SelectFirstTakes(lines, i, EdgeEntity);
    EdgesHeldStep(SelectFirst(lines, i, EdgeEntity), st.edges, line);
    var edge := Edge(SizeDec(line.tokens[2].size), SizeDec(line.tokens[3].size));
    st' := st.(edges := st.edges[st.edgeIndex := edge], edgeIndex := st.edgeIndex + 1);
    NodesKept(lines, i, st, st');
    FacesKept(lines, i, st, st');
  }

  /**
   * The node branch: fails when a non-zero ID does not exceed the last
   * non-zero one; otherwise records the ID in the ID map and reads the
   * coordinates into the next vertex slot.
   */
  method ReadNode(lines: seq<Line>, i: nat, st: PassState) returns (ok: bool, st': PassState)
    requires ReadLinesWellFormed(lines)
    requires i < |lines| && WellFormedFirst(lines, i) && IsNode(lines[i]) && PassInv(lines, i, st)
    ensures ok == CheckedFirst(lines, i + 1)
    ensures ok ==> WellFormedFirst(lines, i + 1) && PassInv(lines, i + 1, st')
  {
    var line := lines[i];
    CheckedNodeHasId(lines, i);
    var nodeId := line.tokens[1].size;
    var lastVertexId := st.lastVertexId;
    if nodeId != 0 {
      if lastVertexId != 0 && nodeId <= lastVertexId {
        return false, st;
      }
      lastVertexId := nodeId;
    }
    CheckedLineHasChunks(lines, i);
    ghost var nodes := SelectFirst(lines, i, NodeEntity);
    SelectFirstTakes(lines, i, NodeEntity);
    VerticesHeldStep(nodes, st.vertices, line);
    IdMapStateStep(nodes, line);
    var step := ParseVertexIdGaps(st.vertexIdToIndex, st.vertexIndex, SizeDec(nodeId));
    var vertex := Vertex(ToCoord(line.tokens[2]), ToCoord(line.tokens[3]), ToCoord(line.tokens[4]));
    st' := st.(vertices := st.vertices[st.vertexIndex := vertex], vertexIndex := st.vertexIndex + 1,
               vertexIdToIndex := step.0, duplicateNode := st.duplicateNode || step.1,
               lastVertexId := lastVertexId);
    FacesKept(lines, i, st, st');
    EdgesKept(lines, i, st, st');
    ok := true;
  }

  /** Once every line is read, each container holds exactly what its lines say. */
  lemma PassComplete(lines: seq<Line>, st: PassState)
    requires WellFormed(lines) && PassInv(lines, |lines|, st)
    ensures st.vertices == Vertices(Select(lines, NodeEntity))
    ensures st.edges == Edges(Select(lines, EdgeEntity))
    ensures st.faces == RawFaces(Select(lines, FaceEntity))
    ensures var state := IdMapState(NodeIds(Select(lines, NodeEntity)));
      st.vertexIdToIndex == state.0 && st.duplicateNode == state.1
    ensures st.elevations == ElevationTable(Elevations(Select(lines, FaceEntity)), |Select(lines, FaceEntity)|)
  {
  }

  /**
   * One turn of the parsing loop: the line's kind, tested in the source's
   * order (faces, edges, nodes), picks the branch; other lines are skipped.
   */
  method ParseLine(lines: seq<Line>, i: nat, st: PassState) returns (ok: bool, st': PassState)
    requires ReadLinesWellFormed(lines)
    requires i < |lines| && WellFormedFirst(lines, i) && PassInv(lines, i, st)
    ensures ok == CheckedFirst(lines, i + 1)
    ensures ok ==> WellFormedFirst(lines, i + 1) && PassInv(lines, i + 1, st')
  {
    var line := lines[i];
    if !IsNode(line) {
      CheckedLineHasChunks(lines, i);
    }
    if IsFace(line) {
      st' := ReadFace(lines, i, st);
      ok := true;
    } else if IsEdge(line) {
      st' := ReadEdge(lines, i, st);
      ok := true;
    } else if IsNode(line) {
      ok, st' := ReadNode(lines, i, st);
    } else {
      OtherLineKeepsState(lines, i, st);
      ok, st' := true, st;
    }
  }

  /**
   * The parsing pass, from the first line, into the containers the counts
   * sized: vertices by slot, raw faces, unresolved edges, the ID map with
   * its duplicate warning, and the cell elevations. It fails as soon as a
   * non-zero node ID does not exceed the previous non-zero one.
   */
  method ParsingPass(lines: seq<Line>, counts: Counts) returns (r: Result<Parsed, Status>)
    requires ReadLinesWellFormed(lines)
    requires counts == Counts(|Select(lines, NodeEntity)|, |Select(lines, FaceEntity)|, |Select(lines, EdgeEntity)|)
    ensures r.Failure? <==> !NodesOrdered(lines)
    ensures r.Failure? ==> r.error == InvalidData
    ensures r.Success? ==>
      && WellFormed(lines)
      && r.value.vertices == Vertices(Select(lines, NodeEntity))
      && r.value.edges == Edges(Select(lines, EdgeEntity))
      && r.value.faces == RawFaces(Select(lines, FaceEntity))
      && var state := IdMapState(NodeIds(Select(lines, NodeEntity)));
      && r.value.vertexIdToIndex == state.0 && r.value.duplicateNode == state.1
      && r.value.elevations == ElevationTable(Elevations(Select(lines, FaceEntity)), counts.faceCount)
  {
    var st := PassState(
      seq(counts.vertexCount, _ => DEFAULT_VERTEX), seq(counts.edgesCount, _ => Edge(0, 0)),
      seq(counts.faceCount, _ => []), 0, 0, 0, map[], false, 0, []);
    PassStarts(lines, counts);
    var ok;
    ok, st := ParseLines(lines, st);
    if !ok {
      return Failure(InvalidData);
    }
    PassComplete(lines, st);
    return Success(Parsed(st.vertices, st.edges, st.faces, st.vertexIdToIndex, st.duplicateNode, st.elevations));
  }

  /** The state the parsing pass starts from: containers of the counted sizes, nothing read. */
  lemma PassStarts(lines: seq<Line>, counts: Counts)
    requires counts == Counts(|Select(lines, NodeEntity)|, |Select(lines, FaceEntity)|, |Select(lines, EdgeEntity)|)
    ensures PassInv(lines, 0, PassState(
      seq(counts.vertexCount, _ => DEFAULT_VERTEX), seq(counts.edgesCount, _ => Edge(0, 0)),
      seq(counts.faceCount, _ => []), 0, 0, 0, map[], false, 0, []))
  {
  }

  /** The parsing loop over every line, stopping at the first misordered node. */
  method ParseLines(lines: seq<Line>, st0: PassState) returns (ok: bool, st: PassState)
    requires ReadLinesWellFormed(lines) && PassInv(lines, 0, st0)
    ensures ok <==> NodesOrdered(lines)
    ensures ok ==> WellFormed(lines) && PassInv(lines, |lines|, st)
  {
    st := st0;
    var i := 0;
    while i < |lines|
      invariant 0 <= i <= |lines| && WellFormedFirst(lines, i) && PassInv(lines, i, st)
    {
      ok, st := ParseLine(lines, i, st);
      if !ok {
        UncheckedPrefix(lines, i + 1);
        return;
      }
      i := i + 1;
    }
    CheckedIsOrdered(lines, |lines|);
    ok := true;
  }

  /**
   * The resolution pass: every face entry that is a key of the map is
   * rewritten to its mapped index, other entries stay as they are. The
   * warning is line 268's test as written, `vertices.size() < nodeID` on an
   * unmapped entry; `dangling` is the corrected test `<=`, whether some
   * unmapped entry is no vertex index (`AsWrittenMissesOnePastEnd`).
   */
  method ResolutionPass(faces: seq<Face>, m: map<nat, nat>, verticesCount: nat)
    returns (resolved: seq<Face>, invalidNode: bool, dangling: bool)
    ensures resolved == ResolveFaces(m, faces)
    ensures invalidNode <==> HasInvalidNodeAsWritten(m, verticesCount, faces)
    ensures dangling <==> HasInvalidNode(m, verticesCount, faces)
  {
    resolved := faces;
    invalidNode := false;
    dangling := false;
    var j := 0;
    while j < |resolved|
      invariant 0 <= j <= |resolved| == |faces|
      invariant forall q :: 0 <= q < j ==> resolved[q] == ResolveFace(m, faces[q])
      invariant forall q :: j <= q < |faces| ==> resolved[q] == faces[q]
      invariant invalidNode <==>
        exists q, k :: 0 <= q < j && 0 <= k < |faces[q]| && InvalidNodeAsWritten(m, verticesCount, faces[q][k])
      invariant dangling <==>
        exists q, k :: 0 <= q < j && 0 <= k < |faces[q]| && InvalidNode(m, verticesCount, faces[q][k])
    {
      var nd := 0;
      ghost var before := invalidNode;
      ghost var danglingBefore := dangling;
      while nd < |resolved[j]|
        invariant |resolved| == |faces| && 0 <= nd <= |resolved[j]| == |faces[j]|
        invariant forall k :: 0 <= k < nd ==> resolved[j][k] == ResolveId(m, faces[j][k])
        invariant forall k :: nd <= k < |faces[j]| ==> resolved[j][k] == faces[j][k]
        invariant forall q :: 0 <= q < j ==> resolved[q] == ResolveFace(m, faces[q])
        invariant forall q :: j < q < |faces| ==> resolved[q] == faces[q]
        invariant invalidNode <==> before || exists k :: 0 <= k < nd && InvalidNodeAsWritten(m, verticesCount, faces[j][k])
        invariant dangling <==> danglingBefore || exists k :: 0 <= k < nd && InvalidNode(m, verticesCount, faces[j][k])
      {
        var nodeId := resolved[j][nd];
        if nodeId in m {
          resolved := resolved[j := resolved[j][nd := m[nodeId]]];
        } else {
          if verticesCount < nodeId {
            invalidNode := true;
          }
          if verticesCount <= nodeId {
            dangling := true;
          }
        }
        nd := nd + 1;
      }
      assert resolved[j] == ResolveFace(m, faces[j]);
      j := j + 1;
    }
  }

  /** A file without the header fails before any chunk is read. */
  lemma HeaderlessRejected()
    ensures var lines := [Line("hello", []), Line("ND", [Token("ND", 0)])];
      LoadReadable(lines) && LoadSpec(lines) == Failure(UnknownFormat)
  {
  }

  /** A file with an unsupported card fails in the counting pass, before any chunk is read. */
  lemma UnsupportedRejected()
    ensures var lines := [Line("MESH2D", []), Line("E3T", [Token("E3T", 0)]), Line("E6T", [])];
      LoadReadable(lines) && LoadSpec(lines) == Failure(UnsupportedElement)
  {
    var lines := [Line("MESH2D", []), Line("E3T", [Token("E3T", 0)]), Line("E6T", [])];
    assert IsUnsupported(lines[2]);
  }

  /**
   * A node ID that goes backwards stops the parsing pass: that node line
   * needs only its ID, and the lines after it are not read.
   */
  lemma MisorderedRejected()
    ensures var lines := [Line("MESH2D", []),
                          Line("ND 2 0 0 0", [Token("ND", 0), Token("2", 2), Token("0", 0), Token("0", 0), Token("0", 0)]),
                          Line("ND 1", [Token("ND", 0), Token("1", 1)]),
                          Line("E3T", [Token("E3T", 0)])];
      LoadReadable(lines) && LoadSpec(lines) == Failure(InvalidData)
  {
    var lines := [Line("MESH2D", []),
                  Line("ND 2 0 0 0", [Token("ND", 0), Token("2", 2), Token("0", 0), Token("0", 0), Token("0", 0)]),
                  Line("ND 1", [Token("ND", 0), Token("1", 1)]),
                  Line("E3T", [Token("E3T", 0)])];
    assert NodeKey(lines[2]) == 1 && LastKey(lines, 2) == 2;
    assert !CheckedFirst(lines, 3) && !CheckedFirst(lines, 4);
    forall i | 0 <= i < |lines| && CheckedFirst(lines, i + 1)
      ensures WellFormedLine(lines[i])
    {
      assert i < 2;
    }
    UncheckedPrefix(lines, 3);
  }

  /**
   * The corrected flag of a successful load is raised exactly when some
   * face corner of the loaded mesh is not a vertex index.
   */
  lemma LoadWarnsOnDanglingCorner(lines: seq<Line>)
    requires LoadReadable(lines) && LoadSpec(lines).Success?
    ensures var loaded := LoadSpec(lines).value;
      var faces := loaded.mesh.mesh.faces;
      loaded.danglingCorner <==>
        exists j, k :: 0 <= j < |faces| && 0 <= k < |faces[j]| && |loaded.mesh.mesh.vertices| <= faces[j][k]
  {
    OrderedIsWellFormed(lines);
    var nodes := Select(lines, NodeEntity);
    IdMapIntoSlots(NodeIds(nodes));
    InvalidNodeIffDangling(IdMapState(NodeIds(nodes)).0, |Vertices(nodes)|, RawFaces(Select(lines, FaceEntity)));
  }

  /**
   * Line 268's test as written fires exactly when some resolved corner lies
   * beyond the vertex count, so an unmapped corner equal to it escapes.
   */
  lemma AsWrittenIffBeyond(m: map<nat, nat>, verticesCount: nat, faces: seq<Face>)
    requires forall k :: k in m ==> m[k] < verticesCount
    ensures HasInvalidNodeAsWritten(m, verticesCount, faces) <==>
      exists j, k :: 0 <= j < |faces| && 0 <= k < |faces[j]| && verticesCount < ResolveFaces(m, faces)[j][k]
  {
    var resolved := ResolveFaces(m, faces);
    forall j, k | 0 <= j < |faces| && 0 <= k < |faces[j]|
      ensures InvalidNodeAsWritten(m, verticesCount, faces[j][k]) <==> verticesCount < resolved[j][k]
    {
      assert resolved[j][k] == ResolveId(m, faces[j][k]);
    }
  }

  /**
   * The warning a successful load raises as written: it fires exactly when
   * some loaded corner lies beyond the vertex count; it implies the
   * corrected flag, and the two differ only by a corner equal to the
   * vertex count.
   */
  lemma LoadWarningAsWritten(lines: seq<Line>)
    requires LoadReadable(lines) && LoadSpec(lines).Success?
    ensures var loaded := LoadSpec(lines).value;
      var faces := loaded.mesh.mesh.faces;
      var n := |loaded.mesh.mesh.vertices|;
      && (loaded.invalidNodeWarning <==>
            exists j, k :: 0 <= j < |faces| && 0 <= k < |faces[j]| && n < faces[j][k])
      && (loaded.invalidNodeWarning ==> loaded.danglingCorner)
      && (loaded.danglingCorner && !loaded.invalidNodeWarning ==>
            exists j, k :: 0 <= j < |faces| && 0 <= k < |faces[j]| && faces[j][k] == n)
  {
    OrderedIsWellFormed(lines);
    var nodes := Select(lines, NodeEntity);
    IdMapIntoSlots(NodeIds(nodes));
    AsWrittenIffBeyond(IdMapState(NodeIds(nodes)).0, |Vertices(nodes)|, RawFaces(Select(lines, FaceEntity)));
    LoadWarnsOnDanglingCorner(lines);
  }

  /** A file with one node, ID 1, and a triangle naming node 2. */
  const OnePastEnd: seq<Line> := [
    Line("MESH2D", []),
    Line("ND 1 0 0 0", [Token("ND", 0), Token("1", 1), Token("0", 0), Token("0", 0), Token("0", 0)]),
    Line("E3T 1 1 1 2 1", [Token("E3T", 0), Token("1", 1), Token("1", 1), Token("1", 1), Token("2", 2), Token("1", 1)])]

  /** The file passes the three load checks and selects one node and one face. */
  lemma OnePastEndParses()
    ensures WellFormed(OnePastEnd) && HeaderOk(OnePastEnd) && !HasUnsupported(OnePastEnd) && NodesOrdered(OnePastEnd)
    ensures Select(OnePastEnd, NodeEntity) == [OnePastEnd[1]] && Select(OnePastEnd, FaceEntity) == [OnePastEnd[2]]
    ensures RawFace(OnePastEnd[2]) == [0, 0, 1] && NodeId(OnePastEnd[1]) == 0
  {
    var lines := OnePastEnd;
    assert KindOf(lines[0]) == OtherLine && KindOf(lines[1]) == NodeLine && KindOf(lines[2]) == FaceLine(3);
    assert RawFace(lines[2]) == [SizeDec(1), SizeDec(1), SizeDec(2)];
  }

  /**
   * A file of one node with ID 1 and one face `0 0 1`: the loaded face
   * points one past the only vertex. The warning as written is not raised
   * for it; the corrected flag is.
   */
  lemma OneNodeLoad(lines: seq<Line>)
    requires WellFormed(lines) && HeaderOk(lines) && !HasUnsupported(lines) && NodesOrdered(lines)
    requires |Select(lines, NodeEntity)| == 1 && NodeId(Select(lines, NodeEntity)[0]) == 0
    requires |Select(lines, FaceEntity)| == 1 && RawFace(Select(lines, FaceEntity)[0]) == [0, 0, 1]
    ensures LoadReadable(lines) && LoadSpec(lines).Success?
    ensures var loaded := LoadSpec(lines).value;
      && |loaded.mesh.mesh.vertices| == 1
      && loaded.mesh.mesh.faces == [[0, 0, 1]]
      && !loaded.invalidNodeWarning
      && loaded.danglingCorner
  {
    WellFormedIsReadable(lines);
    var nodes := Select(lines, NodeEntity);
    assert NodeIds(nodes) == [0];
    IdMapOfSequentialIds([0]);
    var faceLines := Select(lines, FaceEntity);
    assert RawFaces(faceLines) == [[0, 0, 1]];
    assert ResolveFace(map[], [0, 0, 1]) == [0, 0, 1];
    assert ResolveFaces(map[], [[0, 0, 1]]) == [[0, 0, 1]];
    LoadWarnsOnDanglingCorner(lines);
    assert LoadSpec(lines).value.mesh.mesh.faces[0][2] == 1;
  }

  /** `OnePastEnd` is such a file. */
  lemma OnePastEndFile(lines: seq<Line>)
    requires lines == OnePastEnd
    ensures LoadReadable(lines) && LoadSpec(lines).Success?
    ensures var loaded := LoadSpec(lines).value;
      && |loaded.mesh.mesh.vertices| == 1
      && loaded.mesh.mesh.faces == [[0, 0, 1]]
      && !loaded.invalidNodeWarning
      && loaded.danglingCorner
  {
    OnePastEndParses();
    OneNodeLoad(lines);
  }

  /** `Driver2dm::load`. */
  method Load(lines: seq<Line>) returns (r: Result<Loaded, Status>)
    requires LoadReadable(lines)
    ensures r.Failure? <==> !HeaderOk(lines) || HasUnsupported(lines) || !NodesOrdered(lines)
    ensures r.Failure? && !HeaderOk(lines) ==> r.error == UnknownFormat
    ensures r.Success? ==>
      && |r.value.mesh.mesh.vertices| == |Select(lines, NodeEntity)|
      && |r.value.mesh.mesh.faces| == |Select(lines, FaceEntity)|
      && |r.value.mesh.mesh.edges| == |Select(lines, EdgeEntity)|
    ensures r == LoadSpec(lines)
  {
    if |lines| == 0 || !StartsWith(lines[0].text, "MESH2D") {
      return Failure(UnknownFormat);
    }
    var counts := CountingPass(lines);
    if counts.Failure? {
      return Failure(counts.error);
    }
    var parsed := ParsingPass(lines, counts.value);
    if parsed.Failure? {
      return Failure(parsed.error);
    }
    var p := parsed.value;
    var faces, invalidNode, dangling := ResolutionPass(p.faces, p.vertexIdToIndex, |p.vertices|);
    var mesh := Mesh2dm(Mesh(p.vertices, p.edges, faces), p.vertexIdToIndex, p.elevations);
    r := Success(Loaded(mesh, p.duplicateNode, invalidNode, dangling));
  }
}
