/**
 * The ESRI TIN driver's load (`DriverEsriTin::load`) over the decoded
 * contents of the TIN's sibling files: the raw index count (tdenv.adf),
 * the 1-based face indices (tnod.adf), the mask words and bit count
 * (tmsk.adf), the x/y pairs (tnxy.adf) and the z values (tnz.adf).
 *
 * The load runs four rounds: decode the faces three indices at a time,
 * keeping those whose mask bit is 0 and marking the raw indices they use
 * as wanted; compact the wanted raw indices into dense indices in raw
 * order; read the vertex records and scatter the wanted ones to their
 * dense slots; and rewrite every kept face through the compaction.
 */
module EsriTin {
  import opened Wrappers
  import opened MeshModel

  newtype int32 = x: int | -0x8000_0000 <= x < 0x8000_0000

  const INT32_MAX: int := 0x7FFF_FFFF

  /**
   * `static_cast<size_t>(index - 1)`: the subtraction is done in 32 bits
   * and a negative result wraps modulo 2^64. On INT32_MIN the subtraction
   * overflows, which C++ leaves undefined; the model takes the
   * two's-complement result, INT32_MAX. An index below 1 gives a value no
   * 32-bit count reaches.
   */
  function RawIndex(index: int32): (r: nat)
    ensures index >= 1 ==> r == index as int - 1
    ensures index < 1 ==> r >= INT32_MAX
  {
    var d := if index as int == -0x8000_0000 then INT32_MAX else index as int - 1;
    if d >= 0 then d else SIZE_MAX + 1 + d
  }

  /**
   * The decoded files. `totalIndexesCount` is the non-negative 32-bit
   * count of tdenv.adf; `maskWords` are the 32-bit words of tmsk.adf after
   * its header, `maskBitsCount` the bit count that header gives.
   */
  datatype TinFiles = TinFiles(
    totalIndexesCount: nat,
    faceIndices: seq<int32>,
    maskBitsCount: int32,
    maskWords: seq<int32>,
    xy: seq<Coord>,
    z: seq<Coord>)

  /** The raw index count is read as a 32-bit value and is not negative. */
  predicate ValidFiles(files: TinFiles)
  {
    files.totalIndexesCount <= INT32_MAX
  }

  // ---------------------------------------------------------------------
  // Round 1: faces and mask
  // ---------------------------------------------------------------------

  /** The number of complete index triples in the face file. */
  function TripleCount(files: TinFiles): nat
  {
    |files.faceIndices| / 3
  }

  /** Candidate face c: the c-th triple of indices, made 0-based. */
  function Triple(files: TinFiles, c: nat): (f: Face)
    requires c < TripleCount(files)
    ensures |f| == 3
  {
    [RawIndex(files.faceIndices[3 * c]), RawIndex(files.faceIndices[3 * c + 1]), RawIndex(files.faceIndices[3 * c + 2])]
  }

  /** A fresh mask word is read before face c exactly when c is a multiple of 32 below the bit count. */
  predicate ReadsMaskWord(bits: int32, c: nat)
  {
    c % 32 == 0 && c < bits as int
  }

  /** How many mask words are read before face c is processed. */
  function ReadsBefore(bits: int32, c: nat): nat
  {
    if c == 0 then 0 else ReadsBefore(bits, c - 1) + (if ReadsMaskWord(bits, c - 1) then 1 else 0)
  }

  /**
   * `maskInt` while face c is processed: the fresh word when one is read
   * before it, otherwise the previous value shifted right by one
   * (arithmetically, as `>>` on a negative `int32_t` does); 0 before any
   * word. A word that the file does not hold reads as 0 here; the load
   * fails in that case.
   */
  function MaskAt(files: TinFiles, c: nat): int32
  {
    if ReadsMaskWord(files.maskBitsCount, c) then
      (if c / 32 < |files.maskWords| then files.maskWords[c / 32] else 0)
    else if c == 0 then 0
    else MaskAt(files, c - 1) / 2
  }

  /** Face c is kept when the low bit of `maskInt` is 0 (`!(maskInt & 0x01)`). */
  predicate IsKept(files: TinFiles, c: nat)
  {
    MaskAt(files, c) % 2 == 0
  }

  /** The kept faces among the first n candidates, in file order. */
  function KeptFirst(files: TinFiles, n: nat): (r: seq<Face>)
    requires n <= TripleCount(files)
    ensures |r| <= n
    ensures forall i :: 0 <= i < |r| ==> |r[i]| == 3
  {
    if n == 0 then []
    else KeptFirst(files, n - 1) + (if IsKept(files, n - 1) then [Triple(files, n - 1)] else [])
  }

  function Kept(files: TinFiles): seq<Face>
  {
    KeptFirst(files, TripleCount(files))
  }

  /** Some mask word read while the faces are decoded (the last read is before the end check) is missing. */
  predicate MaskShort(files: TinFiles)
  {
    ReadsBefore(files.maskBitsCount, TripleCount(files) + 1) > |files.maskWords|
  }

  /** The face file ends inside a triple. */
  predicate FaceIncomplete(files: TinFiles)
  {
    |files.faceIndices| % 3 != 0
  }

  /** Some kept face uses a raw index at or beyond the raw index count. */
  predicate KeptIndexOutOfRange(files: TinFiles)
  {
    exists c :: 0 <= c < TripleCount(files) && IsKept(files, c) && OutOfRange(Triple(files, c), files.totalIndexesCount)
  }

  predicate OutOfRange(f: Face, total: nat)
  {
    exists j :: 0 <= j < |f| && f[j] >= total
  }

  /** Round 1 throws `Err_UnknownFormat` exactly in these cases. */
  predicate DecodeFails(files: TinFiles)
  {
    MaskShort(files) || FaceIncomplete(files) || KeptIndexOutOfRange(files)
  }

  /** Shifting right k times (`>> 1` applied k times). */
  function ShiftRight(x: int32, k: nat): int32
  {
    if k == 0 then x else ShiftRight(x, k - 1) / 2
  }

  /** Before any multiple of 32 up to the bit count, one word per 32 faces has been read. */
  lemma {:induction false} ReadsBeforeCounts(bits: int32, c: nat)
    requires c <= bits as int
    ensures ReadsBefore(bits, c) == (c + 31) / 32
  {
    if c > 0 {
      ReadsBeforeCounts(bits, c - 1);
    }
  }

  /** The mask word read before face c is the (c / 32)-th of the file, so the words are read in order. */
  lemma ReadWordIsInOrder(bits: int32, c: nat)
    requires ReadsMaskWord(bits, c)
    ensures ReadsBefore(bits, c) == c / 32
  {
    ReadsBeforeCounts(bits, c);
  }

  /** Reading on never un-reads a word. */
  lemma {:induction false} ReadsBeforeGrows(bits: int32, c: nat, d: nat)
    requires c <= d
    ensures ReadsBefore(bits, c) <= ReadsBefore(bits, d)
    decreases d - c
  {
    if c < d {
      ReadsBeforeGrows(bits, c, d - 1);
    }
  }

  /**
   * The mask in closed form: with a positive bit count, `maskInt` for
   * face c is the last word read, (min(c / 32, (bits - 1) / 32))-th,
   * shifted right once per face since; with none it is 0, so every face
   * is kept.
   */
  lemma {:induction false} MaskIsShiftedWord(files: TinFiles, c: nat)
    ensures files.maskBitsCount <= 0 ==> MaskAt(files, c) == 0
    ensures var bits := files.maskBitsCount as int;
      var w := if c / 32 <= (bits - 1) / 32 then c / 32 else (bits - 1) / 32;
      bits > 0 && w < |files.maskWords| ==>
        32 * w <= c && MaskAt(files, c) == ShiftRight(files.maskWords[w], c - 32 * w)
  {
    var bits := files.maskBitsCount as int;
    if c > 0 && !ReadsMaskWord(files.maskBitsCount, c) {
      MaskIsShiftedWord(files, c - 1);
      if bits > 0 {
        var w := if c / 32 <= (bits - 1) / 32 then c / 32 else (bits - 1) / 32;
        var w' := if (c - 1) / 32 <= (bits - 1) / 32 then (c - 1) / 32 else (bits - 1) / 32;
        if c % 32 != 0 {
          assert (c - 1) / 32 == c / 32;
        } else {
          assert c >= bits;
          assert (bits - 1) / 32 <= (c - 1) / 32;
        }
        assert w' == w;
      }
    }
  }

  // ---------------------------------------------------------------------
  // The wanted table
  // ---------------------------------------------------------------------

  /** Raw index r is used by some face. */
  predicate Referenced(faces: seq<Face>, r: nat)
  {
    exists i, j :: 0 <= i < |faces| && 0 <= j < |faces[i]| && faces[i][j] == r
  }

  /**
   * The wanted table after round 1 as the source writes it: every entry
   * starts as the sentinel `totalIndexesCount` and each raw index of a kept
   * face is set to 1. Compaction then reads "wanted" as "below the
   * sentinel", which 1 is not when the count is 1.
   */
  function MarkedAsWritten(total: nat, faces: seq<Face>): (t: seq<nat>)
    ensures |t| == total
  {
    seq(total, r requires 0 <= r < total => if Referenced(faces, r) then 1 else total)
  }

  /**
   * The wanted table as intended: a referenced raw index holds a value
   * below the sentinel (0 here), any other the sentinel itself.
   */
  function Marked(total: nat, faces: seq<Face>): (t: seq<nat>)
    ensures |t| == total
    ensures forall r :: 0 <= r < total ==> (t[r] < total <==> Referenced(faces, r))
  {
    seq(total, r requires 0 <= r < total => if Referenced(faces, r) then 0 else total)
  }

  /** Adding a face makes its indices referenced and keeps the earlier ones. */
  lemma ReferencedStep(faces: seq<Face>, f: Face, r: nat)
    ensures Referenced(faces + [f], r) <==> Referenced(faces, r) || r in f
  {
    var fs := faces + [f];
    if Referenced(fs, r) {
      var i, j :| 0 <= i < |fs| && 0 <= j < |fs[i]| && fs[i][j] == r;
      if i < |faces| {
        assert faces[i][j] == r;
      }
    }
    if r in f {
      var j :| 0 <= j < |f| && f[j] == r;
      assert fs[|faces|][j] == r;
    }
    if Referenced(faces, r) {
      var i, j :| 0 <= i < |faces| && 0 <= j < |faces[i]| && faces[i][j] == r;
      assert fs[i][j] == r;
    }
  }

  /** A raw index below 1 in the face file never names a vertex record: a kept face using it fails the load. */
  lemma NonPositiveIndexIsOutOfRange(files: TinFiles, index: int32)
    requires ValidFiles(files) && index < 1
    ensures RawIndex(index) >= files.totalIndexesCount
  {
  }

  // ---------------------------------------------------------------------
  // Round 2: compaction
  // ---------------------------------------------------------------------

  /** The number of wanted entries (below the sentinel) among the first n. */
  function RankBefore(marks: seq<nat>, total: nat, n: nat): (k: nat)
    requires n <= |marks|
    ensures k <= n
  {
    if n == 0 then 0 else RankBefore(marks, total, n - 1) + (if marks[n - 1] < total then 1 else 0)
  }

  /** k, the number of wanted entries (`correctedIndexCount` after round 2). */
  function WantedCount(marks: seq<nat>, total: nat): nat
  {
    RankBefore(marks, total, |marks|)
  }

  /**
   * The table after round 2: each wanted entry holds the number of wanted
   * entries before it, every other entry keeps its value, which is the
   * sentinel in any table round 1 produces.
   */
  function Compacted(marks: seq<nat>, total: nat): (t: seq<nat>)
    ensures |t| == |marks|
  {
    seq(|marks|, r requires 0 <= r < |marks| => if marks[r] < total then RankBefore(marks, total, r) else marks[r])
  }

  /** The dense indices a table hands out stay below the count of wanted entries. */
  predicate Bounded(comp: seq<nat>, total: nat, k: nat)
  {
    forall r :: 0 <= r < |comp| && comp[r] < total ==> comp[r] < k
  }

  lemma {:induction false} RankGrows(marks: seq<nat>, total: nat, m: nat, n: nat)
    requires m <= n <= |marks|
    ensures RankBefore(marks, total, m) <= RankBefore(marks, total, n)
    ensures m < n && marks[m] < total ==> RankBefore(marks, total, m) < RankBefore(marks, total, n)
    decreases n - m
  {
    if m < n {
      RankGrows(marks, total, m, n - 1);
    }
  }

  /**
   * Compaction hands out 0..k-1 to the wanted entries in raw-index order
   * and leaves the others alone.
   */
  lemma CompactedShape(marks: seq<nat>, total: nat)
    requires |marks| == total
    ensures var t := Compacted(marks, total); var k := WantedCount(marks, total);
      k <= total &&
      (forall r :: 0 <= r < total && marks[r] < total ==> t[r] < k) &&
      (forall r :: 0 <= r < total && marks[r] >= total ==> t[r] == marks[r]) &&
      (forall r :: 0 <= r < total ==> (t[r] < total <==> marks[r] < total)) &&
      Bounded(t, total, k)
  {
    var t := Compacted(marks, total);
    forall r | 0 <= r < total && marks[r] < total
      ensures t[r] < WantedCount(marks, total)
    {
      RankGrows(marks, total, r, total);
    }
  }

  /** Compaction preserves raw-index order, so it is injective on the wanted entries. */
  lemma CompactedIsOrdered(marks: seq<nat>, total: nat, r1: nat, r2: nat)
    requires r1 < r2 < |marks| && marks[r1] < total && marks[r2] < total
    ensures Compacted(marks, total)[r1] < Compacted(marks, total)[r2]
  {
    RankGrows(marks, total, r1, r2);
  }

  /** Every dense index below k is handed to some wanted entry. */
  lemma {:induction false} CompactedIsOnto(marks: seq<nat>, total: nat, n: nat, d: nat)
    requires n <= |marks| && d < RankBefore(marks, total, n)
    ensures exists r :: 0 <= r < n && marks[r] < total && Compacted(marks, total)[r] == d
  {
    if d < RankBefore(marks, total, n - 1) {
      CompactedIsOnto(marks, total, n - 1, d);
      var r :| 0 <= r < n - 1 && marks[r] < total && Compacted(marks, total)[r] == d;
      assert 0 <= r < n;
    } else {
      assert Compacted(marks, total)[n - 1] == d;
    }
  }

  /** The wanted entries among the first n, as a set. */
  function WantedSet(marks: seq<nat>, total: nat, n: nat): set<nat>
    requires n <= |marks|
  {
    set r: nat | r < n && marks[r] < total
  }

  lemma {:induction false} RankIsCardinality(marks: seq<nat>, total: nat, n: nat)
    requires n <= |marks|
    ensures RankBefore(marks, total, n) == |WantedSet(marks, total, n)|
  {
    if n > 0 {
      RankIsCardinality(marks, total, n - 1);
      var s := WantedSet(marks, total, n - 1);
      if marks[n - 1] < total {
        assert WantedSet(marks, total, n) == s + {n - 1};
        assert n - 1 !in s;
      } else {
        assert WantedSet(marks, total, n) == s;
      }
    }
  }

  /** Every raw index some face uses. */
  function Indices(faces: seq<Face>): set<nat>
  {
    set i, j | 0 <= i < |faces| && 0 <= j < |faces[i]| :: faces[i][j]
  }

  /** In range: every entry of every face is below `total`. */
  predicate InRange(faces: seq<Face>, total: nat)
  {
    forall i, j :: 0 <= i < |faces| && 0 <= j < |faces[i]| ==> faces[i][j] < total
  }

  /** k is the number of distinct raw indices the kept faces use. */
  lemma WantedCountIsDistinctIndices(total: nat, faces: seq<Face>)
    requires InRange(faces, total)
    ensures WantedCount(Marked(total, faces), total) == |Indices(faces)|
  {
    var marks := Marked(total, faces);
    RankIsCardinality(marks, total, total);
    forall r | r in Indices(faces)
      ensures r in WantedSet(marks, total, total)
    {
      var i, j :| 0 <= i < |faces| && 0 <= j < |faces[i]| && faces[i][j] == r;
    }
    forall r | r in WantedSet(marks, total, total)
      ensures r in Indices(faces)
    {
      var i, j :| 0 <= i < |faces| && 0 <= j < |faces[i]| && faces[i][j] == r;
    }
    assert Indices(faces) == WantedSet(marks, total, total);
  }

  /** Compaction only looks at which entries are wanted. */
  lemma {:induction false} RankOfSamePattern(a: seq<nat>, b: seq<nat>, total: nat, n: nat)
    requires |a| == |b| && n <= |a|
    requires forall r :: 0 <= r < |a| ==> (a[r] < total <==> b[r] < total)
    ensures RankBefore(a, total, n) == RankBefore(b, total, n)
  {
    if n > 0 {
      RankOfSamePattern(a, b, total, n - 1);
    }
  }

  /** A kept face of a load that gets past round 1 only uses raw indices below the count. */
  lemma KeptInRange(files: TinFiles)
    requires !KeptIndexOutOfRange(files)
    ensures InRange(Kept(files), files.totalIndexesCount)
  {
    KeptFirstInRange(files, TripleCount(files));
  }

  lemma {:induction false} KeptFirstInRange(files: TinFiles, n: nat)
    requires n <= TripleCount(files) && !KeptIndexOutOfRange(files)
    ensures InRange(KeptFirst(files, n), files.totalIndexesCount)
  {
    if n > 0 {
      KeptFirstInRange(files, n - 1);
      if IsKept(files, n - 1) {
        assert !OutOfRange(Triple(files, n - 1), files.totalIndexesCount);
      }
    }
  }

  /** With no mask bits no word is read and every complete triple is kept. */
  lemma {:induction false} NoMaskBitsKeepsAll(files: TinFiles, n: nat)
    requires files.maskBitsCount <= 0 && n <= TripleCount(files)
    ensures KeptFirst(files, n) == seq(n, c requires 0 <= c < n => Triple(files, c))
  {
    if n > 0 {
      NoMaskBitsKeepsAll(files, n - 1);
      MaskIsShiftedWord(files, n - 1);
    }
  }

  // ---------------------------------------------------------------------
  // Round 3: vertices
  // ---------------------------------------------------------------------

  /** Record r has its y in the pairs file and its z in tnz.adf. */
  predicate RecordAvailable(files: TinFiles, r: nat)
  {
    2 * r + 1 < |files.xy| && r < |files.z|
  }

  /** Vertex record r: x and y from tnxy.adf, z from tnz.adf. */
  function Record(files: TinFiles, r: nat): Vertex
    requires RecordAvailable(files, r)
  {
    Vertex(files.xy[2 * r], files.xy[2 * r + 1], files.z[r])
  }

  /**
   * The records round 3 handles: one per raw index, ending early at the
   * first record whose x is missing.
   */
  function RecordsRead(files: TinFiles): (n: nat)
    ensures n <= files.totalIndexesCount
    ensures forall r: nat :: r < n <==> r < files.totalIndexesCount && 2 * r < |files.xy|
  {
    var available := (|files.xy| + 1) / 2;
    if files.totalIndexesCount <= available then files.totalIndexesCount else available
  }

  /** Round 3 throws `Err_UnknownFormat` when a record it handles lacks its y or its z. */
  predicate VertexReadFails(files: TinFiles)
  {
    exists r :: 0 <= r < RecordsRead(files) && !RecordAvailable(files, r)
  }

  /**
   * `vertices` after the first n records: k default vertices, then each
   * record whose table entry is below the sentinel written to the slot
   * that entry names.
   */
  function ScatterFirst(files: TinFiles, comp: seq<nat>, total: nat, k: nat, n: nat): (vs: seq<Vertex>)
    requires n <= |comp| && Bounded(comp, total, k)
    requires forall r :: 0 <= r < n ==> RecordAvailable(files, r)
    ensures |vs| == k
  {
    if n == 0 then seq(k, _ => DEFAULT_VERTEX)
    else
      var vs := ScatterFirst(files, comp, total, k, n - 1);
      if comp[n - 1] < total then vs[comp[n - 1] := Record(files, n - 1)] else vs
  }

  /** No two wanted entries share a dense index. */
  predicate Injective(comp: seq<nat>, total: nat)
  {
    forall r1, r2 :: 0 <= r1 < r2 < |comp| && comp[r1] < total && comp[r2] < total ==> comp[r1] != comp[r2]
  }

  /** Slot d receives a record among the first n. */
  predicate Hit(comp: seq<nat>, total: nat, n: nat, d: nat)
    requires n <= |comp|
  {
    exists r :: 0 <= r < n && comp[r] < total && comp[r] == d
  }

  /**
   * Every record read lands in its own slot and stays there (no later
   * record overwrites it, as the table is injective); a slot no record
   * reaches keeps the default vertex.
   */
  lemma {:induction false} ScatterPlaces(files: TinFiles, comp: seq<nat>, total: nat, k: nat, n: nat)
    requires n <= |comp| && Bounded(comp, total, k) && Injective(comp, total)
    requires forall r :: 0 <= r < n ==> RecordAvailable(files, r)
    ensures forall r :: 0 <= r < n && comp[r] < total ==> ScatterFirst(files, comp, total, k, n)[comp[r]] == Record(files, r)
    ensures forall d :: 0 <= d < k && !Hit(comp, total, n, d) ==> ScatterFirst(files, comp, total, k, n)[d] == DEFAULT_VERTEX
  {
    if n > 0 {
      ScatterPlaces(files, comp, total, k, n - 1);
    }
  }

  // ---------------------------------------------------------------------
  // Round 4: remapping
  // ---------------------------------------------------------------------

  /** A face rewritten through the table, corners in order. */
  function RemapFace(comp: seq<nat>, f: Face): (r: Face)
    requires forall j :: 0 <= j < |f| ==> f[j] < |comp|
    ensures |r| == |f|
  {
    seq(|f|, j requires 0 <= j < |f| => comp[f[j]])
  }

  /** Every face rewritten through the table, in order. */
  function RemapAll(comp: seq<nat>, faces: seq<Face>): (r: seq<Face>)
    requires InRange(faces, |comp|)
    ensures |r| == |faces|
    ensures forall i :: 0 <= i < |r| ==> |r[i]| == |faces[i]|
  {
    seq(|faces|, i requires 0 <= i < |faces| => RemapFace(comp, faces[i]))
  }

  // ---------------------------------------------------------------------
  // The load
  // ---------------------------------------------------------------------

  /** Rounds 2 to 4 on the table round 1 left behind. */
  function Assemble(files: TinFiles, marks: seq<nat>): (r: Result<Mesh, Status>)
    requires |marks| == files.totalIndexesCount && !KeptIndexOutOfRange(files)
    ensures r.Failure? <==> VertexReadFails(files)
    ensures r.Success? ==> |r.value.vertices| == WantedCount(marks, files.totalIndexesCount)
  {
    var total := files.totalIndexesCount;
    var comp := Compacted(marks, total);
    CompactedShape(marks, total);
    KeptInRange(files);
    if VertexReadFails(files) then Failure(UnknownFormat)
    else
      Success(Mesh(ScatterFirst(files, comp, total, WantedCount(marks, total), RecordsRead(files)), [], RemapAll(comp, Kept(files))))
  }

  /**
   * `DriverEsriTin::load` as intended: a kept face marks its raw indices
   * with a value below the sentinel.
   */
  function TinSpec(files: TinFiles): (r: Result<Mesh, Status>)
    ensures r.Failure? <==> DecodeFails(files) || VertexReadFails(files)
    ensures r.Failure? ==> r.error == UnknownFormat
  {
    if DecodeFails(files) then Failure(UnknownFormat)
    else Assemble(files, Marked(files.totalIndexesCount, Kept(files)))
  }

  /** `DriverEsriTin::load` as written: a kept face marks its raw indices with 1. */
  function TinSpecAsWritten(files: TinFiles): (r: Result<Mesh, Status>)
    ensures r.Failure? <==> DecodeFails(files) || VertexReadFails(files)
  {
    if DecodeFails(files) then Failure(UnknownFormat)
    else Assemble(files, MarkedAsWritten(files.totalIndexesCount, Kept(files)))
  }

  // ---------------------------------------------------------------------
  // What a successful load delivers
  // ---------------------------------------------------------------------

  /** The table of a successful load gives each wanted raw index its own dense index. */
  lemma CompactedIsInjective(marks: seq<nat>, total: nat)
    requires |marks| == total
    ensures Injective(Compacted(marks, total), total)
  {
    CompactedShape(marks, total);
    var t := Compacted(marks, total);
    forall r1, r2 | 0 <= r1 < r2 < |t| && t[r1] < total && t[r2] < total
      ensures t[r1] != t[r2]
    {
      CompactedIsOrdered(marks, total, r1, r2);
    }
  }

  /** Each raw index a kept face uses is wanted in the intended table. */
  lemma KeptIsMarked(files: TinFiles, i: nat, j: nat)
    requires i < |Kept(files)| && j < |Kept(files)[i]|
    requires Kept(files)[i][j] < files.totalIndexesCount
    ensures Marked(files.totalIndexesCount, Kept(files))[Kept(files)[i][j]] < files.totalIndexesCount
  {
    assert Referenced(Kept(files), Kept(files)[i][j]);
  }

  /**
   * A successful load has one face per kept triple, three corners each,
   * every corner a valid index into the vertices, of which there are as
   * many as distinct raw indices the kept faces use; a TIN has no edges.
   */
  lemma TinFacesAreDense(files: TinFiles)
    requires TinSpec(files).Success?
    ensures var m := TinSpec(files).value;
      |m.faces| == |Kept(files)| &&
      (forall i :: 0 <= i < |m.faces| ==> |m.faces[i]| == 3) &&
      (forall i, j :: 0 <= i < |m.faces| && 0 <= j < |m.faces[i]| ==> m.faces[i][j] < |m.vertices|) &&
      |m.vertices| == |Indices(Kept(files))| &&
      m.edges == []
  {
    var total := files.totalIndexesCount;
    var marks := Marked(total, Kept(files));
    KeptInRange(files);
    CompactedShape(marks, total);
    WantedCountIsDistinctIndices(total, Kept(files));
    var m := TinSpec(files).value;
    forall i, j | 0 <= i < |m.faces| && 0 <= j < |m.faces[i]|
      ensures m.faces[i][j] < |m.vertices|
    {
      KeptIsMarked(files, i, j);
    }
  }

  /**
   * Remapping keeps each corner's identity and the raw order: two corners
   * share a dense index exactly when they shared a raw index, and a
   * smaller raw index gets a smaller dense one.
   */
  lemma TinFacesKeepIdentity(files: TinFiles, i1: nat, j1: nat, i2: nat, j2: nat)
    requires TinSpec(files).Success?
    requires i1 < |Kept(files)| && j1 < |Kept(files)[i1]| && i2 < |Kept(files)| && j2 < |Kept(files)[i2]|
    ensures var m := TinSpec(files).value; var k := Kept(files);
      (m.faces[i1][j1] == m.faces[i2][j2] <==> k[i1][j1] == k[i2][j2]) &&
      (k[i1][j1] < k[i2][j2] ==> m.faces[i1][j1] < m.faces[i2][j2])
  {
    var total := files.totalIndexesCount;
    var marks := Marked(total, Kept(files));
    var k := Kept(files);
    KeptInRange(files);
    KeptIsMarked(files, i1, j1);
    KeptIsMarked(files, i2, j2);
    if k[i1][j1] < k[i2][j2] {
      CompactedIsOrdered(marks, total, k[i1][j1], k[i2][j2]);
    } else if k[i2][j2] < k[i1][j1] {
      CompactedIsOrdered(marks, total, k[i2][j2], k[i1][j1]);
    }
  }

  /**
   * Each corner of a loaded face points at the vertex record of the raw
   * index it had in the face file, or at a default vertex when the pairs
   * file ended before that record.
   */
  lemma TinCornersFindTheirRecords(files: TinFiles, i: nat, j: nat)
    requires TinSpec(files).Success?
    requires i < |Kept(files)| && j < |Kept(files)[i]|
    ensures var m := TinSpec(files).value; var r := Kept(files)[i][j];
      m.faces[i][j] < |m.vertices| &&
      (r < RecordsRead(files) ==> RecordAvailable(files, r) && m.vertices[m.faces[i][j]] == Record(files, r)) &&
      (r >= RecordsRead(files) ==> m.vertices[m.faces[i][j]] == DEFAULT_VERTEX)
  {
    var total := files.totalIndexesCount;
    var marks := Marked(total, Kept(files));
    var comp := Compacted(marks, total);
    var kc := WantedCount(marks, total);
    var n := RecordsRead(files);
    var r := Kept(files)[i][j];
    KeptInRange(files);
    KeptIsMarked(files, i, j);
    CompactedShape(marks, total);
    CompactedIsInjective(marks, total);
    ScatterPlaces(files, comp, total, kc, n);
    if r >= n {
      assert !Hit(comp, total, n, comp[r]);
    }
  }

  // ---------------------------------------------------------------------
  // The mark value 1
  // ---------------------------------------------------------------------

  /** Two tables with the same wanted entries compact alike. */
  lemma CompactedOfSamePattern(a: seq<nat>, b: seq<nat>, total: nat)
    requires |a| == |b| == total
    requires forall r :: 0 <= r < total ==> (a[r] < total <==> b[r] < total)
    requires forall r :: 0 <= r < total && a[r] >= total ==> a[r] == b[r]
    ensures Compacted(a, total) == Compacted(b, total)
    ensures WantedCount(a, total) == WantedCount(b, total)
  {
    forall r | 0 <= r < total
      ensures Compacted(a, total)[r] == Compacted(b, total)[r]
    {
      RankOfSamePattern(a, b, total, r);
    }
    RankOfSamePattern(a, b, total, total);
  }

  /** From two raw indices on, marking with 1 behaves as intended. */
  lemma AsWrittenAgreesFromTwo(files: TinFiles)
    requires files.totalIndexesCount >= 2
    ensures TinSpecAsWritten(files) == TinSpec(files)
  {
    var total := files.totalIndexesCount;
    CompactedOfSamePattern(MarkedAsWritten(total, Kept(files)), Marked(total, Kept(files)), total);
  }

  /**
   * With a single raw index, as written, the mark 1 equals the sentinel:
   * the one vertex is dropped and the face points at index 1 of an empty
   * vertex list. As intended the face is [0, 0, 0] over that vertex.
   */
  lemma AsWrittenDropsTheOnlyVertex()
    ensures TinSpecAsWritten(ONE_INDEX) == Success(Mesh([], [], [[1, 1, 1]]))
    ensures TinSpec(ONE_INDEX) == Success(Mesh([Vertex(Coord("x"), Coord("y"), Coord("z"))], [], [[0, 0, 0]]))
  {
    OneIndexDecodes();
    OneIndexTables();
    OneIndexAssemblesAsWritten();
    OneIndexAssembles();
  }

  lemma OneIndexAssemblesAsWritten()
    ensures Assemble(ONE_INDEX, [1]) == Success(Mesh([], [], [[1, 1, 1]]))
  {
    OneIndexDecodes();
    OneIndexTables();
    OneIndexRemaps();
    OneIndexRecords();
  }

  lemma OneIndexAssembles()
    ensures Assemble(ONE_INDEX, [0]) == Success(Mesh([Vertex(Coord("x"), Coord("y"), Coord("z"))], [], [[0, 0, 0]]))
  {
    OneIndexDecodes();
    OneIndexTables();
    OneIndexRemaps();
    OneIndexRecords();
  }

  lemma OneIndexRecords()
    ensures RecordsRead(ONE_INDEX) == 1 && !VertexReadFails(ONE_INDEX)
    ensures ScatterFirst(ONE_INDEX, [0], 1, 1, 1) == [Vertex(Coord("x"), Coord("y"), Coord("z"))]
  {
    assert RecordAvailable(ONE_INDEX, 0);
  }

  /** One raw index, one face (1, 1, 1), no mask, and the vertex record for it. */
  const ONE_INDEX := TinFiles(1, [1, 1, 1], 0, [], [Coord("x"), Coord("y")], [Coord("z")])

  lemma OneIndexDecodes()
    ensures !DecodeFails(ONE_INDEX) && Kept(ONE_INDEX) == [[0, 0, 0]]
  {
    assert Triple(ONE_INDEX, 0) == [0, 0, 0];
    assert KeptFirst(ONE_INDEX, 1) == [[0, 0, 0]];
  }

  lemma OneIndexTables()
    ensures MarkedAsWritten(1, [[0, 0, 0]]) == [1] && Marked(1, [[0, 0, 0]]) == [0]
    ensures Compacted([1], 1) == [1] && Compacted([0], 1) == [0]
    ensures WantedCount([1], 1) == 0 && WantedCount([0], 1) == 1
  {
    assert Referenced([[0, 0, 0]], 0) by {
      assert [[0, 0, 0]][0][0] == 0;
    }
  }

  lemma OneIndexRemaps()
    ensures RemapAll([1], [[0, 0, 0]]) == [[1, 1, 1]]
    ensures RemapAll([0], [[0, 0, 0]]) == [[0, 0, 0]]
  {
    assert RemapAll([1], [[0, 0, 0]])[0] == [1, 1, 1];
    assert RemapAll([0], [[0, 0, 0]])[0] == [0, 0, 0];
  }

  /** With a single raw index, every face of an as-written load points past its empty vertex list. */
  lemma AsWrittenDanglesAtOne(files: TinFiles)
    requires files.totalIndexesCount == 1 && TinSpecAsWritten(files).Success?
    ensures var m := TinSpecAsWritten(files).value;
      |m.vertices| == 0 && forall i, j :: 0 <= i < |m.faces| && 0 <= j < |m.faces[i]| ==> m.faces[i][j] == 1
  {
    var marks := MarkedAsWritten(1, Kept(files));
    KeptInRange(files);
    assert marks[0] >= 1;
    assert Compacted(marks, 1)[0] == 1;
  }

  // ---------------------------------------------------------------------
  // The load, step by step
  // ---------------------------------------------------------------------

  /** `maskInt` at the top of iteration c: 0 at first, then the previous face's value shifted once. */
  function MaskCarried(files: TinFiles, c: nat): int32
  {
    if c == 0 then 0 else MaskAt(files, c - 1) / 2
  }

  /** What the decode loop's variables hold at the top of iteration c. */
  predicate DecodeInv(files: TinFiles, c: nat, maskInt: int32, wordsRead: nat, faces: seq<Face>)
  {
    3 * c <= |files.faceIndices| &&
    c <= TripleCount(files) &&
    wordsRead == ReadsBefore(files.maskBitsCount, c) && wordsRead <= |files.maskWords| &&
    maskInt == MaskCarried(files, c) &&
    faces == KeptFirst(files, c) &&
    forall d :: 0 <= d < c && IsKept(files, d) ==> !OutOfRange(Triple(files, d), files.totalIndexesCount)
  }

  /** A mask word the loop needs is not in the file. */
  lemma MaskRunsOut(files: TinFiles, c: nat)
    requires c <= TripleCount(files) && ReadsMaskWord(files.maskBitsCount, c)
    requires ReadsBefore(files.maskBitsCount, c) >= |files.maskWords|
    ensures MaskShort(files)
  {
    ReadsBeforeGrows(files.maskBitsCount, c + 1, TripleCount(files) + 1);
  }

  /** The face file ends cleanly after c triples, with every word and index in order. */
  lemma DecodeEnds(files: TinFiles, c: nat)
    requires 3 * c == |files.faceIndices|
    requires ReadsBefore(files.maskBitsCount, c + 1) <= |files.maskWords|
    requires forall d :: 0 <= d < c && IsKept(files, d) ==> !OutOfRange(Triple(files, d), files.totalIndexesCount)
    ensures !DecodeFails(files) && TripleCount(files) == c
  {
  }

  /** One or two indices are left after c triples. */
  lemma FaceEndsInside(files: TinFiles, c: nat)
    requires 3 * c < |files.faceIndices| < 3 * c + 3
    ensures FaceIncomplete(files)
  {
    assert |files.faceIndices| == 3 * c + (|files.faceIndices| - 3 * c);
  }

  /** The inner loop of round 1: up to three indices from position `pos` on, each made 0-based. */
  method ReadTriple(indices: seq<int32>, pos: nat) returns (f: Face)
    requires pos <= |indices|
    ensures |f| == if |indices| - pos < 3 then |indices| - pos else 3
    ensures forall j :: 0 <= j < |f| ==> f[j] == RawIndex(indices[pos + j])
  {
    f := [];
    var i := 0;
    while i < 3
      invariant 0 <= i <= 3 && |f| == i && pos + i <= |indices|
      invariant forall j :: 0 <= j < i ==> f[j] == RawIndex(indices[pos + j])
    {
      if pos + i >= |indices| {
        break;
      }
      f := f + [RawIndex(indices[pos + i])];
      i := i + 1;
    }
  }

  /**
   * The marking loop of a kept face: each raw index is checked against the
   * count, then marked wanted.
   */
  method MarkFace(table: array<nat>, faces: seq<Face>, f: Face) returns (ok: bool)
    requires table[..] == Marked(table.Length, faces)
    modifies table
    ensures ok <==> !OutOfRange(f, table.Length)
    ensures ok ==> table[..] == Marked(table.Length, faces + [f])
  {
    var total := table.Length;
    for j := 0 to |f|
      invariant forall q :: 0 <= q < j ==> f[q] < total
      invariant forall r :: 0 <= r < total ==> table[r] == if Referenced(faces, r) || r in f[..j] then 0 else total
    {
      if f[j] >= total {
        return false;
      }
      assert f[..j + 1] == f[..j] + [f[j]];
      table[f[j]] := 0;
    }
    assert f[..|f|] == f;
    forall r | 0 <= r < total
      ensures table[r] == Marked(total, faces + [f])[r]
    {
      ReferencedStep(faces, f, r);
    }
    return true;
  }

  /** Round 1: the `while (true)` loop over mask words and index triples. */
  method Decode(files: TinFiles) returns (r: Result<seq<Face>, Status>, table: array<nat>)
    ensures fresh(table) && table.Length == files.totalIndexesCount
    ensures r.Failure? <==> DecodeFails(files)
    ensures r.Failure? ==> r.error == UnknownFormat
    ensures r.Success? ==> r.value == Kept(files) && table[..] == Marked(files.totalIndexesCount, Kept(files))
  {
    var total := files.totalIndexesCount;
    table := new nat[total](_ => total);
    assert table[..] == Marked(total, []);
    var c: nat := 0;
    var maskInt: int32 := 0;
    var wordsRead: nat := 0;
    var faces: seq<Face> := [];
    while true
      invariant DecodeInv(files, c, maskInt, wordsRead, faces)
      invariant fresh(table) && table.Length == total && table[..] == Marked(total, faces)
      decreases |files.faceIndices| - 3 * c
    {
      if c % 32 == 0 && c < files.maskBitsCount as int {
        if wordsRead >= |files.maskWords| {
          MaskRunsOut(files, c);
          return Failure(UnknownFormat), table;
        }
        ReadWordIsInOrder(files.maskBitsCount, c);
        maskInt := files.maskWords[wordsRead];
        wordsRead := wordsRead + 1;
      }
      assert maskInt == MaskAt(files, c) && wordsRead == ReadsBefore(files.maskBitsCount, c + 1);
      var f := ReadTriple(files.faceIndices, 3 * c);
      if |f| == 0 {
        DecodeEnds(files, c);
        return Success(faces), table;
      }
      if |f| < 3 {
        FaceEndsInside(files, c);
        return Failure(UnknownFormat), table;
      }
      assert f == Triple(files, c);
      if maskInt % 2 == 0 {
        var ok := MarkFace(table, faces, f);
        faces := faces + [f];
        if !ok {
          return Failure(UnknownFormat), table;
        }
      }
      c := c + 1;
      maskInt := maskInt / 2;
    }
  }

  /** Round 2, in place: wanted entries receive consecutive dense indices in raw order. */
  method Compact(table: array<nat>) returns (count: nat)
    modifies table
    ensures table[..] == Compacted(old(table[..]), table.Length)
    ensures count == WantedCount(old(table[..]), table.Length)
  {
    ghost var marks := table[..];
    var total := table.Length;
    count := 0;
    for i := 0 to total
      invariant count == RankBefore(marks, total, i)
      invariant forall r :: 0 <= r < i ==> table[r] == Compacted(marks, total)[r]
      invariant forall r :: i <= r < total ==> table[r] == marks[r]
    {
      if table[i] < total {
        table[i] := count;
        count := count + 1;
      }
    }
    assert table[..] == Compacted(marks, total);
  }

  /** Round 3: read records in lockstep with the raw indices and keep the wanted ones. */
  method ReadVertices(files: TinFiles, table: array<nat>, k: nat) returns (r: Result<seq<Vertex>, Status>)
    requires table.Length == files.totalIndexesCount && Bounded(table[..], files.totalIndexesCount, k)
    ensures r.Failure? <==> VertexReadFails(files)
    ensures r.Failure? ==> r.error == UnknownFormat
    ensures r.Success? ==> r.value == ScatterFirst(files, table[..], files.totalIndexesCount, k, RecordsRead(files))
  {
    var total := files.totalIndexesCount;
    var vertices := seq(k, _ => DEFAULT_VERTEX);
    var rawIndex := 0;
    while rawIndex < table.Length
      invariant rawIndex <= RecordsRead(files)
      invariant forall q :: 0 <= q < rawIndex ==> RecordAvailable(files, q)
      invariant vertices == ScatterFirst(files, table[..], total, k, rawIndex)
    {
      if 2 * rawIndex >= |files.xy| {
        break;
      }
      if 2 * rawIndex + 1 >= |files.xy| || rawIndex >= |files.z| {
        assert !RecordAvailable(files, rawIndex);
        return Failure(UnknownFormat);
      }
      var vert := Vertex(files.xy[2 * rawIndex], files.xy[2 * rawIndex + 1], files.z[rawIndex]);
      if table[rawIndex] < total {
        assert table[..][rawIndex] == table[rawIndex];
        vertices := vertices[table[rawIndex] := vert];
      }
      rawIndex := rawIndex + 1;
    }
    return Success(vertices);
  }

  /** Round 4: every corner of every kept face rewritten through the table, in place. */
  method RemapFaces(faces: seq<Face>, table: array<nat>) returns (out: seq<Face>)
    requires InRange(faces, table.Length)
    ensures out == RemapAll(table[..], faces)
  {
    out := faces;
    var i := 0;
    while i < |out|
      invariant 0 <= i <= |out| == |faces|
      invariant forall q :: 0 <= q < i ==> out[q] == RemapFace(table[..], faces[q])
      invariant forall q :: i <= q < |faces| ==> out[q] == faces[q]
    {
      var j := 0;
      while j < |out[i]|
        invariant |out| == |faces| && 0 <= j <= |out[i]| == |faces[i]|
        invariant forall q :: 0 <= q < j ==> out[i][q] == table[faces[i][q]]
        invariant forall q :: j <= q < |faces[i]| ==> out[i][q] == faces[i][q]
        invariant forall q :: 0 <= q < i ==> out[q] == RemapFace(table[..], faces[q])
        invariant forall q :: i < q < |faces| ==> out[q] == faces[q]
      {
        out := out[i := out[i][j := table[out[i][j]]]];
        j := j + 1;
      }
      assert out[i] == RemapFace(table[..], faces[i]);
      i := i + 1;
    }
  }

  /** `DriverEsriTin::load` over the decoded files. */
  method LoadTin(files: TinFiles) returns (r: Result<Mesh, Status>)
    ensures r == TinSpec(files)
  {
    var decoded, table := Decode(files);
    if decoded.Failure? {
      return Failure(decoded.error);
    }
    ghost var marks := table[..];
    var k := Compact(table);
    CompactedShape(marks, files.totalIndexesCount);
    var vertices := ReadVertices(files, table, k);
    if vertices.Failure? {
      return Failure(vertices.error);
    }
    KeptInRange(files);
    var remapped := RemapFaces(decoded.value, table);
    return Success(Mesh(vertices.value, [], remapped));
  }
}
