/** The persist-log scan: each segment clamped to its own commit ceiling before the projection,
    emitted in plan order. */
module PersistScan {
  import opened Base
  import opened Literals
  import opened SegmentRead
  import I = SegmentIndex

  const COMMIT_SEQ_NUM := "commit_seq_num"
  const WRITE_SEQ_NUM := "write_seq_num"

  datatype PersistSegment = PersistSegment(a: Artifact, ceiling: Option<int>)

  predicate Below(v: Scalar, ceiling: int) { v.IntV? && v.n <= ceiling }

  /** The offsets of the values at or below the ceiling; nulls never pass. */
  function KeptRows(column: seq<Scalar>, ceiling: int): (r: seq<int>)
    ensures I.Increasing(r) && InRange(r, |column|)
    ensures forall o :: o in r <==> 0 <= o < |column| && Below(column[o], ceiling)
  {
    if column == [] then []
    else
      var n := |column| - 1;
      KeptRows(column[..n], ceiling) + (if Below(column[n], ceiling) then [n] else [])
  }

  function AllRows(n: nat): (r: seq<int>)
    ensures |r| == n && forall i :: 0 <= i < n ==> r[i] == i
  {
    seq(n, i => i)
  }

  /** `apply_segment_seq_ceiling`. */
  function ApplyCeiling(b: Batch, ceiling: Option<int>): Result<Batch> {
    match ceiling
    case None => Ok(b)
    case Some(c) =>
      match IndexOf(b.fields, COMMIT_SEQ_NUM)
      case None => Err("no commit_seq_num column")
      case Some(i) =>
        if b.fields[i].t != Int(64, true) then Err("commit_seq_num is not Int64")
        else Ok(Take(b, KeptRows(b.columns[i], c)))
  }

  /** The first column called `commit_seq_num` is a 64-bit integer. */
  ghost predicate CanClamp(fields: Schema) {
    exists i :: 0 <= i < |fields| && fields[i].name == COMMIT_SEQ_NUM && fields[i].t == Int(64, true)
                && forall j :: 0 <= j < i ==> fields[j].name != COMMIT_SEQ_NUM
  }

  /** A batch is refused exactly when a ceiling is set and it has no such column; without a ceiling it passes whole. */
  lemma CeilingRefuses(b: Batch, ceiling: Option<int>)
    ensures ApplyCeiling(b, ceiling).Err? <==> ceiling.Some? && !CanClamp(b.fields)
    ensures ceiling.None? ==> ApplyCeiling(b, ceiling) == Ok(b)
  {
    var at := IndexOf(b.fields, COMMIT_SEQ_NUM);
    if at.Some? && b.fields[at.value].t == Int(64, true) { assert CanClamp(b.fields); }
    if CanClamp(b.fields) {
      var i :| 0 <= i < |b.fields| && b.fields[i].name == COMMIT_SEQ_NUM && b.fields[i].t == Int(64, true)
               && forall j :: 0 <= j < i ==> b.fields[j].name != COMMIT_SEQ_NUM;
      assert at.Some? && at.value == i;
    }
  }

  /** The schema the narrow read asks for: the output, widened by the commit column when a ceiling
      needs it. */
  function ReadSchema(ceiling: Option<int>, full: Schema, out: Schema): Option<Schema> {
    if ceiling.None? || IndexOf(out, COMMIT_SEQ_NUM).Some? then Some(out)
    else match IndexOf(full, COMMIT_SEQ_NUM)
      case None => None
      case Some(i) => Some(out + [full[i]])
  }

  /** The full schema carries the commit column, as every persist log does. */
  predicate HasCommit(full: Schema) {
    IndexOf(full, COMMIT_SEQ_NUM).Some? && full[IndexOf(full, COMMIT_SEQ_NUM).value].t == Int(64, true)
  }

  function CommitField(full: Schema): Field
    requires HasCommit(full)
  {
    full[IndexOf(full, COMMIT_SEQ_NUM).value]
  }

  /** The rows of a file at or below a ceiling. */
  function RowsBelow(native: Batch, ceiling: Option<int>, full: Schema): (r: seq<int>)
    requires HasCommit(full) && Shape(native, full).Ok?
    ensures I.Increasing(r) && InRange(r, native.rows)
  {
    assert CommitField(full) in full;
    match ceiling
    case None => AllRows(native.rows)
    case Some(c) => KeptRows(Offered(native, CommitField(full)).value, c)
  }

  /** What the scan should emit for a segment: the direct read of the output columns, those rows only. */
  function Part(native: Batch, ceiling: Option<int>, full: Schema, out: Schema): Batch
    requires HasCommit(full) && Shape(native, full).Ok? && DistinctNames(full) && Within(out, full)
  {
    ShapeThenNarrow(native, full, out);
    Take(Shape(native, out).value, RowsBelow(native, ceiling, full))
  }

  lemma CommitInSubset(full: Schema, w: Schema)
    requires DistinctNames(full) && HasCommit(full) && Within(w, full) && IndexOf(w, COMMIT_SEQ_NUM).Some?
    ensures w[IndexOf(w, COMMIT_SEQ_NUM).value] == CommitField(full)
  {
    var f := w[IndexOf(w, COMMIT_SEQ_NUM).value];
    assert f in w;
    var i :| 0 <= i < |full| && full[i] == f;
  }

  lemma TakeAllRows(b: Batch)
    ensures Take(b, AllRows(b.rows)) == b
  {
    forall j | 0 <= j < |b.columns| ensures Pick(b.columns[j], AllRows(b.rows)) == b.columns[j] { }
    assert Take(b, AllRows(b.rows)).columns == b.columns;
  }

  lemma CeilingKeeps(native: Batch, c: int, full: Schema, w: Schema)
    requires HasCommit(full) && Shape(native, full).Ok? && DistinctNames(full) && Shape(native, w).Ok?
    requires Within(w, full) && IndexOf(w, COMMIT_SEQ_NUM).Some?
    ensures ApplyCeiling(Shape(native, w).value, Some(c)) == Ok(Take(Shape(native, w).value, RowsBelow(native, Some(c), full)))
  {
    CommitInSubset(full, w);
  }

  /** The row's commit, in the file read with the log's columns, is at or below the ceiling. */
  ghost predicate WithinCeiling(native: Batch, ceiling: Option<int>, full: Schema, o: nat)
    requires HasCommit(full) && Shape(native, full).Ok? && o < native.rows
  {
    var commit := Shape(native, full).value.columns[IndexOf(full, "commit_seq_num").value][o];
    ceiling.Some? ==> commit.IntV? && commit.n <= ceiling.value
  }

  /** `b` is the output columns of exactly the file rows within the ceiling, in file order. */
  ghost predicate Emits(b: Batch, native: Batch, ceiling: Option<int>, full: Schema, out: Schema) {
    exists rows :: EmitsRows(b, native, ceiling, full, out, rows)
  }

  ghost predicate EmitsRows(b: Batch, native: Batch, ceiling: Option<int>, full: Schema, out: Schema, rows: seq<int>) {
    && HasCommit(full) && Shape(native, full).Ok? && Shape(native, out).Ok? && b.fields == out && b.rows == |rows|
    && I.Increasing(rows) && (forall o :: o in rows <==> 0 <= o < native.rows && WithinCeiling(native, ceiling, full, o))
    && (forall c, j :: 0 <= c < |out| && 0 <= j < |rows| && 0 <= rows[j] < native.rows ==>
          b.columns[c][j] == Shape(native, out).value.columns[c][rows[j]])
  }

  lemma RowsBelowExact(native: Batch, ceiling: Option<int>, full: Schema, o: int)
    requires HasCommit(full) && Shape(native, full).Ok?
    ensures o in RowsBelow(native, ceiling, full) <==> 0 <= o < native.rows && WithinCeiling(native, ceiling, full, o)
  {
    var k := IndexOf(full, COMMIT_SEQ_NUM).value;
    assert full[k] in full && Shape(native, full).value.columns[k] == Offered(native, full[k]).value;
    if ceiling.None? && 0 <= o < native.rows { assert AllRows(native.rows)[o] == o; }
  }

  lemma PartEmits(native: Batch, ceiling: Option<int>, full: Schema, out: Schema)
    requires HasCommit(full) && Shape(native, full).Ok? && DistinctNames(full) && Within(out, full)
    ensures Emits(Part(native, ceiling, full, out), native, ceiling, full, out)
  {
    var rows := RowsBelow(native, ceiling, full);
    ShapeThenNarrow(native, full, out);
    forall o ensures o in rows <==> 0 <= o < native.rows && WithinCeiling(native, ceiling, full, o) {
      RowsBelowExact(native, ceiling, full, o);
    }
    assert EmitsRows(Part(native, ceiling, full, out), native, ceiling, full, out, rows);
  }

  /** Reading any schema between the output and the full one, clamping, then projecting, gives the
      rows at or below the ceiling of the direct read. */
  lemma CeilingThenProject(native: Batch, ceiling: Option<int>, full: Schema, w: Schema, out: Schema)
    requires HasCommit(full) && Shape(native, full).Ok? && DistinctNames(full) && DistinctNames(w)
    requires Within(w, full) && Within(out, w) && (ceiling.Some? ==> IndexOf(w, COMMIT_SEQ_NUM).Some?)
    ensures Within(out, full) && Shape(native, w).Ok?
    ensures var bounded := ApplyCeiling(Shape(native, w).value, ceiling);
            bounded.Ok? && Shape(bounded.value, out) == Ok(Part(native, ceiling, full, out))
    ensures Emits(Part(native, ceiling, full, out), native, ceiling, full, out)
  {
    PartEmits(native, ceiling, full, out);
    ShapeThenNarrow(native, full, w);
    ShapeThenNarrow(native, full, out);
    ShapeThenNarrow(native, w, out);
    if ceiling.None? {
      TakeAllRows(Shape(native, out).value);
    } else {
      CeilingKeeps(native, ceiling.value, full, w);
      TakeThenShape(Shape(native, w).value, RowsBelow(native, ceiling, full), out);
    }
  }

  lemma WidenedSchema(ceiling: Option<int>, full: Schema, out: Schema)
    requires HasCommit(full) && DistinctNames(full) && DistinctNames(out) && Within(out, full)
    ensures var w := ReadSchema(ceiling, full, out);
            w.Some? && DistinctNames(w.value) && Within(w.value, full) && Within(out, w.value)
            && (ceiling.Some? ==> IndexOf(w.value, COMMIT_SEQ_NUM).Some?)
  {
    if ceiling.Some? && IndexOf(out, COMMIT_SEQ_NUM).None? {
      var w := out + [CommitField(full)];
      assert w[|out|].name == COMMIT_SEQ_NUM;
      assert CommitField(full) in full;
    }
  }

  /** Cache hit, cached miss or widened narrow read; then the ceiling; then the projection. */
  method ScanSegment(cache: SegmentCache, seg: PersistSegment, full: Schema, out: Schema, ghost decode: Hash -> Batch)
    returns (r: Result<Batch>)
    requires Faithful(seg.a, decode) && cache.Coherent(decode) && DistinctNames(full) && DistinctNames(out) && Within(out, full)
    requires HasCommit(full) && Shape(decode(seg.a.hash), full).Ok?
    modifies cache
    ensures cache.Coherent(decode)
    ensures r.Ok? ==> r.value == Part(decode(seg.a.hash), seg.ceiling, full, out)
    ensures r.Ok? ==> Emits(r.value, decode(seg.a.hash), seg.ceiling, full, out)
    ensures seg.a.file.Ok? ==> r.Ok?
  {
    ghost var native := decode(seg.a.hash);
    var batch: Result<Batch>;
    var hit := cache.Get(seg.a.hash);
    if hit.Some? {
      batch := Shape(hit.value, full);
      CeilingThenProject(native, seg.ceiling, full, full, out);
    } else if Admits(cache.budget, Weight(seg.a)) {
      var decoded := DecodeAndCache(cache, seg.a, decode);
      if decoded.Err? { return Err(decoded.message); }
      batch := Shape(decoded.value, full);
      CeilingThenProject(native, seg.ceiling, full, full, out);
    } else {
      if seg.a.file.Err? { return Err(seg.a.file.message); }
      var w := ReadSchema(seg.ceiling, full, out);
      WidenedSchema(seg.ceiling, full, out);
      batch := Shape(seg.a.file.value, w.value);
      CeilingThenProject(native, seg.ceiling, full, w.value, out);
    }
    if batch.Err? { return batch; }
    var bounded := ApplyCeiling(batch.value, seg.ceiling);
    if bounded.Err? { return bounded; }
    r := Shape(bounded.value, out);
  }

  /** Batches with no rows are not emitted. */
  function NonEmpty(parts: seq<Batch>): seq<Batch> {
    if parts == [] then []
    else
      var n := |parts| - 1;
      NonEmpty(parts[..n]) + (if parts[n].rows > 0 then [parts[n]] else [])
  }

  /** The parts of the first `k` segments, in plan order. */
  ghost function Parts(segs: seq<PersistSegment>, k: nat, full: Schema, out: Schema, decode: Hash -> Batch): (ps: seq<Batch>)
    requires k <= |segs|
  {
    Mapped(segs[..k], seg => PartOf(seg, full, out, decode))
  }

  ghost predicate Scannable(segs: seq<PersistSegment>, full: Schema, out: Schema, decode: Hash -> Batch) {
    && HasCommit(full) && DistinctNames(full) && DistinctNames(out) && Within(out, full)
    && forall i :: 0 <= i < |segs| ==> Fits(segs[i], full, decode)
  }

  /** The file is what its hash stands for, and has the log's columns. */
  ghost predicate Fits(seg: PersistSegment, full: Schema, decode: Hash -> Batch) {
    Faithful(seg.a, decode) && Shape(decode(seg.a.hash), full).Ok?
  }

  /** A segment's part (nothing from a file without the log's columns). */
  ghost function PartOf(seg: PersistSegment, full: Schema, out: Schema, decode: Hash -> Batch): Batch {
    if HasCommit(full) && DistinctNames(full) && Within(out, full) && Shape(decode(seg.a.hash), full).Ok?
    then Part(decode(seg.a.hash), seg.ceiling, full, out) else Empty(out)
  }

  lemma PartsNext(segs: seq<PersistSegment>, k: nat, full: Schema, out: Schema, decode: Hash -> Batch)
    requires k < |segs| && Scannable(segs, full, out, decode)
    ensures NonEmpty(Parts(segs, k + 1, full, out, decode))
         == NonEmpty(Parts(segs, k, full, out, decode)) + NonEmpty([PartOf(segs[k], full, out, decode)])
    ensures Fits(segs[k], full, decode)
  {
    MappedNext(segs, seg => PartOf(seg, full, out, decode), k);
    NonEmptySnoc(Parts(segs, k, full, out, decode), PartOf(segs[k], full, out, decode));
  }

  lemma NonEmptySnoc(parts: seq<Batch>, p: Batch)
    ensures NonEmpty(parts + [p]) == NonEmpty(parts) + NonEmpty([p])
  {
    assert (parts + [p])[..|parts|] == parts;
    assert [p][..0] == [];
  }

  predicate HasRows(b: Batch) { b.rows > 0 }

  lemma {:induction false} NonEmptyIsFilter(parts: seq<Batch>)
    ensures NonEmpty(parts) == Filter(parts, HasRows)
  {
    if parts != [] {
      var n := |parts| - 1;
      NonEmptyIsFilter(parts[..n]);
      FilterSnoc(parts[..n], HasRows, parts[n]);
      assert parts[..n] + [parts[n]] == parts;
    }
  }

  /** Exactly the parts with rows, in order. */
  lemma NonEmptyKept(parts: seq<Batch>)
    ensures Kept(NonEmpty(parts), parts, HasRows)
  {
    NonEmptyIsFilter(parts);
    FilterKeeps(parts, HasRows);
  }

  /** The partition stream: sequential, stopping at the first failure; `done` segments were emitted. */
  method ScanPersist(cache: SegmentCache, segs: seq<PersistSegment>, full: Schema, out: Schema, ghost decode: Hash -> Batch)
    returns (emitted: seq<Batch>, failed: bool, ghost done: nat)
    requires cache.Coherent(decode) && Scannable(segs, full, out, decode)
    modifies cache
    ensures cache.Coherent(decode)
    ensures done <= |segs| && emitted == NonEmpty(Parts(segs, done, full, out, decode))
    ensures Kept(emitted, Parts(segs, done, full, out, decode), HasRows)
    ensures failed <==> done < |segs|
    ensures failed ==> segs[done].a.file.Err?
  {
    emitted, failed := [], false;
    for k := 0 to |segs|
      invariant cache.Coherent(decode)
      invariant emitted == NonEmpty(Parts(segs, k, full, out, decode))
    {
      PartsNext(segs, k, full, out, decode);
      NonEmptyKept(Parts(segs, k, full, out, decode));
      var projected := ScanSegment(cache, segs[k], full, out, decode);
      if projected.Err? { return emitted, true, k; }
      NonEmptySnoc([], projected.value);
      if projected.value.rows > 0 { emitted := emitted + [projected.value]; }
    }
    done := |segs|;
    NonEmptyKept(Parts(segs, done, full, out, decode));
  }

  // ---------------------------------------------------------------- advertised order

  /** The number a row carries in a named column. */
  function NumAt(b: Batch, name: string, i: nat): int
    requires IndexOf(b.fields, name).Some? && i < b.rows
  {
    var v := b.columns[IndexOf(b.fields, name).value][i];
    if v.IntV? then v.n else 0
  }

  predicate LexLeq(a: (int, int), b: (int, int)) { a.0 < b.0 || (a.0 == b.0 && a.1 <= b.1) }

  /** The order the scan advertises for its output columns: both positions, the commit alone, or none. */
  predicate AdvertisedLeq(out: Schema, x: Batch, i: nat, y: Batch, j: nat)
    requires x.fields == y.fields == out && i < x.rows && j < y.rows
  {
    IndexOf(out, COMMIT_SEQ_NUM).Some? ==>
      if IndexOf(out, WRITE_SEQ_NUM).Some?
      then LexLeq((NumAt(x, COMMIT_SEQ_NUM, i), NumAt(x, WRITE_SEQ_NUM, i)), (NumAt(y, COMMIT_SEQ_NUM, j), NumAt(y, WRITE_SEQ_NUM, j)))
      else NumAt(x, COMMIT_SEQ_NUM, i) <= NumAt(y, COMMIT_SEQ_NUM, j)
  }

  /** A row's log position in its file. */
  function PosAt(native: Batch, full: Schema, i: nat): (int, int)
    requires Shape(native, full).Ok? && IndexOf(full, COMMIT_SEQ_NUM).Some? && IndexOf(full, WRITE_SEQ_NUM).Some? && i < native.rows
  {
    (NumAt(Shape(native, full).value, COMMIT_SEQ_NUM, i), NumAt(Shape(native, full).value, WRITE_SEQ_NUM, i))
  }

  predicate HasPositions(full: Schema) { HasCommit(full) && IndexOf(full, WRITE_SEQ_NUM).Some? }

  ghost predicate SortedFile(x: Batch, full: Schema)
    requires HasPositions(full) && Shape(x, full).Ok?
  {
    forall i, j :: 0 <= i <= j < x.rows ==> LexLeq(PosAt(x, full, i), PosAt(x, full, j))
  }

  /** The column a schema gives a name is the one its field offers. */
  lemma NamedColumn(native: Batch, schema: Schema, name: string)
    requires Shape(native, schema).Ok? && IndexOf(schema, name).Some?
    ensures var k := IndexOf(schema, name).value;
            schema[k] in schema && Shape(native, schema).value.columns[k] == Offered(native, schema[k]).value
  {
  }

  lemma SameField(full: Schema, out: Schema, name: string)
    requires DistinctNames(full) && Within(out, full) && IndexOf(out, name).Some?
    ensures IndexOf(full, name).Some? && full[IndexOf(full, name).value] == out[IndexOf(out, name).value]
  {
    var f := out[IndexOf(out, name).value];
    assert f in out;
    var k :| 0 <= k < |full| && full[k] == f;
    FoundAt(full, k);
  }

  /** An emitted row carries, in every kept column, what its file row carries. */
  lemma PartNum(native: Batch, ceiling: Option<int>, full: Schema, out: Schema, name: string, i: nat)
    requires HasCommit(full) && Shape(native, full).Ok? && DistinctNames(full) && Within(out, full)
    requires IndexOf(out, name).Some? && i < Part(native, ceiling, full, out).rows
    ensures IndexOf(full, name).Some?
    ensures NumAt(Part(native, ceiling, full, out), name, i)
         == NumAt(Shape(native, full).value, name, RowsBelow(native, ceiling, full)[i])
  {
    ShapeThenNarrow(native, full, out);
    SameField(full, out, name);
    NamedColumn(native, full, name);
    NamedColumn(native, out, name);
    TakenNum(Shape(native, out).value, RowsBelow(native, ceiling, full), name, i);
  }

  lemma TakenNum(b: Batch, rows: seq<int>, name: string, i: nat)
    requires IndexOf(b.fields, name).Some? && InRange(rows, b.rows) && i < |rows|
    ensures NumAt(Take(b, rows), name, i) == NumAt(b, name, rows[i])
  {
  }

  // ---------------------------------------------------------------- positions

  /** The advertised comparison of two log positions, for a projection with these columns. */
  predicate AdvertisedPos(commit: bool, write: bool, a: (int, int), b: (int, int)) {
    commit ==> if write then LexLeq(a, b) else a.0 <= b.0
  }

  ghost predicate Nondecreasing(ps: seq<(int, int)>) { forall i, j :: 0 <= i <= j < |ps| ==> LexLeq(ps[i], ps[j]) }

  ghost predicate AllBefore(commit: bool, write: bool, a: seq<(int, int)>, b: seq<(int, int)>) {
    forall i, j :: 0 <= i < |a| && 0 <= j < |b| ==> AdvertisedPos(commit, write, a[i], b[j])
  }

  /** The last position of one list is not past the first of the other. */
  predicate Meet(commit: bool, write: bool, a: seq<(int, int)>, b: seq<(int, int)>) {
    a != [] && b != [] ==> AdvertisedPos(commit, write, a[|a| - 1], b[0])
  }

  lemma BoundaryDecides(commit: bool, write: bool, a: seq<(int, int)>, b: seq<(int, int)>)
    requires Nondecreasing(a) && Nondecreasing(b)
    ensures AllBefore(commit, write, a, b) <==> Meet(commit, write, a, b)
  {
    if Meet(commit, write, a, b) {
      forall i, j | 0 <= i < |a| && 0 <= j < |b| ensures AdvertisedPos(commit, write, a[i], b[j]) {
        assert LexLeq(a[i], a[|a| - 1]) && LexLeq(b[0], b[j]);
      }
    }
  }

  function PickPositions(all: seq<(int, int)>, rows: seq<int>): (ps: seq<(int, int)>)
    requires InRange(rows, |all|)
  {
    seq(|rows|, i requires 0 <= i < |rows| => all[rows[i]])
  }

  lemma PickNondecreasing(all: seq<(int, int)>, rows: seq<int>)
    requires Nondecreasing(all) && I.Increasing(rows) && InRange(rows, |all|)
    ensures Nondecreasing(PickPositions(all, rows))
  {
    forall i, j | 0 <= i <= j < |rows| ensures LexLeq(all[rows[i]], all[rows[j]]) { assert rows[i] <= rows[j]; }
  }

  function Positions(x: Batch, full: Schema): (ps: seq<(int, int)>)
    requires HasPositions(full) && Shape(x, full).Ok?
    ensures |ps| == x.rows
  {
    seq(x.rows, i requires 0 <= i < x.rows => PosAt(x, full, i))
  }

  /** The log positions of the rows a file keeps under its ceiling. */
  function KeptPositions(x: Batch, cx: Option<int>, full: Schema): (ps: seq<(int, int)>)
    requires HasPositions(full) && Shape(x, full).Ok?
    ensures |ps| == |RowsBelow(x, cx, full)|
  {
    PickPositions(Positions(x, full), RowsBelow(x, cx, full))
  }

  lemma KeptSorted(x: Batch, cx: Option<int>, full: Schema)
    requires HasPositions(full) && Shape(x, full).Ok? && SortedFile(x, full)
    ensures Nondecreasing(KeptPositions(x, cx, full))
  {
    assert Nondecreasing(Positions(x, full));
    PickNondecreasing(Positions(x, full), RowsBelow(x, cx, full));
  }

  predicate ShowsCommit(out: Schema) { IndexOf(out, COMMIT_SEQ_NUM).Some? }

  predicate ShowsWrite(out: Schema) { IndexOf(out, WRITE_SEQ_NUM).Some? }

  lemma KeptNumbers(x: Batch, cx: Option<int>, i: nat, full: Schema, out: Schema)
    requires HasPositions(full) && DistinctNames(full) && Within(out, full) && Shape(x, full).Ok? && i < Part(x, cx, full, out).rows
    ensures ShowsCommit(out) ==> NumAt(Part(x, cx, full, out), COMMIT_SEQ_NUM, i) == KeptPositions(x, cx, full)[i].0
    ensures ShowsWrite(out) ==> NumAt(Part(x, cx, full, out), WRITE_SEQ_NUM, i) == KeptPositions(x, cx, full)[i].1
  {
    if ShowsCommit(out) { PartNum(x, cx, full, out, COMMIT_SEQ_NUM, i); }
    if ShowsWrite(out) { PartNum(x, cx, full, out, WRITE_SEQ_NUM, i); }
  }

  /** Two emitted rows compare as their file positions do. */
  lemma EmittedAsPositions(x: Batch, cx: Option<int>, i: nat, y: Batch, cy: Option<int>, j: nat, full: Schema, out: Schema)
    requires HasPositions(full) && DistinctNames(full) && Within(out, full) && Shape(x, full).Ok? && Shape(y, full).Ok?
    requires i < Part(x, cx, full, out).rows && j < Part(y, cy, full, out).rows
    ensures AdvertisedLeq(out, Part(x, cx, full, out), i, Part(y, cy, full, out), j)
       <==> AdvertisedPos(ShowsCommit(out), ShowsWrite(out), KeptPositions(x, cx, full)[i], KeptPositions(y, cy, full)[j])
  {
    KeptNumbers(x, cx, i, full, out);
    KeptNumbers(y, cy, j, full, out);
  }

  /** No row of `x` carries a later advertised position than a row of `y` (than a later row of
      itself, when they are the same batch). */
  ghost predicate InOrder(x: Batch, y: Batch, out: Schema, same: bool) {
    && x.fields == y.fields == out
    && forall i, j :: 0 <= i < x.rows && 0 <= j < y.rows && (same ==> i <= j) ==> AdvertisedLeq(out, x, i, y, j)
  }

  /** A sorted file's part is in order. */
  lemma OwnPartInOrder(x: Batch, cx: Option<int>, full: Schema, out: Schema)
    requires HasPositions(full) && DistinctNames(full) && Within(out, full) && Shape(x, full).Ok? && SortedFile(x, full)
    ensures InOrder(Part(x, cx, full, out), Part(x, cx, full, out), out, true)
  {
    var p := Part(x, cx, full, out);
    KeptSorted(x, cx, full);
    forall i, j | 0 <= i <= j < p.rows ensures AdvertisedLeq(out, p, i, p, j) { EmittedAsPositions(x, cx, i, x, cx, j, full, out); }
  }

  lemma OrderTransfers(p: Batch, q: Batch, out: Schema, commit: bool, write: bool, ps: seq<(int, int)>, qs: seq<(int, int)>)
    requires p.fields == q.fields == out && |ps| == p.rows && |qs| == q.rows
    requires forall i, j :: 0 <= i < p.rows && 0 <= j < q.rows ==>
               (AdvertisedLeq(out, p, i, q, j) <==> AdvertisedPos(commit, write, ps[i], qs[j]))
    ensures InOrder(p, q, out, false) <==> AllBefore(commit, write, ps, qs)
  {
  }

  lemma PartsAsPositions(x: Batch, cx: Option<int>, y: Batch, cy: Option<int>, full: Schema, out: Schema)
    requires HasPositions(full) && DistinctNames(full) && Within(out, full) && Shape(x, full).Ok? && Shape(y, full).Ok?
    ensures InOrder(Part(x, cx, full, out), Part(y, cy, full, out), out, false)
       <==> AllBefore(ShowsCommit(out), ShowsWrite(out), KeptPositions(x, cx, full), KeptPositions(y, cy, full))
  {
    var p, q := Part(x, cx, full, out), Part(y, cy, full, out);
    var ps, qs := KeptPositions(x, cx, full), KeptPositions(y, cy, full);
    forall i, j | 0 <= i < p.rows && 0 <= j < q.rows
      ensures AdvertisedLeq(out, p, i, q, j) <==> AdvertisedPos(ShowsCommit(out), ShowsWrite(out), ps[i], qs[j])
    {
      EmittedAsPositions(x, cx, i, y, cy, j, full, out);
    }
    OrderTransfers(p, q, out, ShowsCommit(out), ShowsWrite(out), ps, qs);
  }

  /** The parts of two sorted files are in order exactly when the kept rows meet. */
  lemma PartsInOrderExact(x: Batch, cx: Option<int>, y: Batch, cy: Option<int>, full: Schema, out: Schema)
    requires HasPositions(full) && DistinctNames(full) && Within(out, full) && Shape(x, full).Ok? && Shape(y, full).Ok?
    requires SortedFile(x, full) && SortedFile(y, full)
    ensures InOrder(Part(x, cx, full, out), Part(y, cy, full, out), out, false)
       <==> Meet(ShowsCommit(out), ShowsWrite(out), KeptPositions(x, cx, full), KeptPositions(y, cy, full))
  {
    KeptSorted(x, cx, full);
    KeptSorted(y, cy, full);
    PartsAsPositions(x, cx, y, cy, full, out);
    BoundaryDecides(ShowsCommit(out), ShowsWrite(out), KeptPositions(x, cx, full), KeptPositions(y, cy, full));
  }

  ghost predicate RowsInOrder(bs: seq<Batch>, out: Schema) {
    forall b, c :: 0 <= b <= c < |bs| ==> InOrder(bs[b], bs[c], out, b == c)
  }

  lemma {:induction false} NonEmptyIndex(parts: seq<Batch>, b: nat) returns (m: nat)
    requires b < |NonEmpty(parts)|
    ensures m < |parts| && NonEmpty(parts)[b] == parts[m]
  {
    var n := |parts| - 1;
    if b < |NonEmpty(parts[..n])| { m := NonEmptyIndex(parts[..n], b); } else { m := n; }
  }

  lemma {:induction false} NonEmptyInOrder(parts: seq<Batch>, out: Schema)
    requires RowsInOrder(parts, out)
    ensures RowsInOrder(NonEmpty(parts), out)
  {
    if parts != [] {
      var n := |parts| - 1;
      var es, before := NonEmpty(parts), NonEmpty(parts[..n]);
      NonEmptyInOrder(parts[..n], out);
      forall b, c | 0 <= b <= c < |es| ensures InOrder(es[b], es[c], out, b == c) {
        if c == |before| {
          if b < c { var m := NonEmptyIndex(parts[..n], b); }
        }
      }
    }
  }

  /** A part with rows stands in the stream after everything emitted before it. */
  lemma {:induction false} NonEmptyPlace(parts: seq<Batch>, m: nat)
    requires m < |parts| && parts[m].rows > 0
    ensures |NonEmpty(parts[..m])| < |NonEmpty(parts)| && NonEmpty(parts)[|NonEmpty(parts[..m])|] == parts[m]
  {
    var n := |parts| - 1;
    if m < n {
      NonEmptyPlace(parts[..n], m);
      assert parts[..n][..m] == parts[..m];
    }
  }

  lemma NonEmptyPlaces(parts: seq<Batch>, b: nat, c: nat) returns (i: nat, j: nat)
    requires b < c < |parts| && parts[b].rows > 0 && parts[c].rows > 0
    ensures i < j < |NonEmpty(parts)| && NonEmpty(parts)[i] == parts[b] && NonEmpty(parts)[j] == parts[c]
  {
    i, j := |NonEmpty(parts[..b])|, |NonEmpty(parts[..c])|;
    NonEmptyPlace(parts, b);
    NonEmptyPlace(parts, c);
    NonEmptyPlace(parts[..c], b);
    assert parts[..c][..b] == parts[..b];
  }

  lemma StreamedPair(parts: seq<Batch>, out: Schema, b: nat, c: nat)
    requires RowsInOrder(NonEmpty(parts), out) && b < c < |parts| && parts[b].rows > 0 && parts[c].rows > 0
    ensures InOrder(parts[b], parts[c], out, false)
  {
    var i, j := NonEmptyPlaces(parts, b, c);
  }

  // ---------------------------------------------------------------- the whole stream

  ghost predicate SortedFiles(segs: seq<PersistSegment>, full: Schema, decode: Hash -> Batch)
    requires HasPositions(full)
  {
    forall k :: 0 <= k < |segs| ==> Fits(segs[k], full, decode) && SortedFile(decode(segs[k].a.hash), full)
  }

  ghost function PositionsOf(seg: PersistSegment, full: Schema, decode: Hash -> Batch): seq<(int, int)>
    requires HasPositions(full) && Fits(seg, full, decode)
  {
    KeptPositions(decode(seg.a.hash), seg.ceiling, full)
  }

  ghost predicate SegmentsMeet(s: PersistSegment, t: PersistSegment, full: Schema, out: Schema, decode: Hash -> Batch)
    requires HasPositions(full)
  {
    && Fits(s, full, decode) && Fits(t, full, decode)
    && Meet(ShowsCommit(out), ShowsWrite(out), PositionsOf(s, full, decode), PositionsOf(t, full, decode))
  }

  /** Every listed file ends, in the rows it keeps, where every later one begins. */
  ghost predicate AllMeet(segs: seq<PersistSegment>, done: nat, full: Schema, out: Schema, decode: Hash -> Batch)
    requires HasPositions(full) && done <= |segs|
  {
    forall k, l :: 0 <= k < l < done ==> SegmentsMeet(segs[k], segs[l], full, out, decode)
  }

  lemma PairExact(segs: seq<PersistSegment>, full: Schema, out: Schema, decode: Hash -> Batch, k: nat, l: nat)
    requires HasPositions(full) && Scannable(segs, full, out, decode) && SortedFiles(segs, full, decode) && k < |segs| && l < |segs|
    ensures InOrder(PartOf(segs[k], full, out, decode), PartOf(segs[l], full, out, decode), out, false)
       <==> SegmentsMeet(segs[k], segs[l], full, out, decode)
    ensures InOrder(PartOf(segs[k], full, out, decode), PartOf(segs[k], full, out, decode), out, true)
  {
    assert Fits(segs[k], full, decode) && Fits(segs[l], full, decode);
    var x, y := decode(segs[k].a.hash), decode(segs[l].a.hash);
    PartsInOrderExact(x, segs[k].ceiling, y, segs[l].ceiling, full, out);
    OwnPartInOrder(x, segs[k].ceiling, full, out);
  }

  /** Files listed so that they meet stream in the advertised order. */
  lemma StreamInOrder(segs: seq<PersistSegment>, full: Schema, out: Schema, decode: Hash -> Batch, done: nat)
    requires done <= |segs| && HasPositions(full) && Scannable(segs, full, out, decode) && SortedFiles(segs, full, decode)
    requires AllMeet(segs, done, full, out, decode)
    ensures RowsInOrder(NonEmpty(Parts(segs, done, full, out, decode)), out)
  {
    var ps := Parts(segs, done, full, out, decode);
    forall b, c | 0 <= b <= c < |ps| ensures InOrder(ps[b], ps[c], out, b == c) { PairExact(segs, full, out, decode, b, c); }
    NonEmptyInOrder(ps, out);
  }

  lemma OrderedMeet(segs: seq<PersistSegment>, full: Schema, out: Schema, decode: Hash -> Batch, done: nat, k: nat, l: nat)
    requires done <= |segs| && HasPositions(full) && Scannable(segs, full, out, decode) && SortedFiles(segs, full, decode)
    requires RowsInOrder(NonEmpty(Parts(segs, done, full, out, decode)), out) && k < l < done
    ensures SegmentsMeet(segs[k], segs[l], full, out, decode)
  {
    var ps := Parts(segs, done, full, out, decode);
    PairExact(segs, full, out, decode, k, l);
    PairExact(segs, full, out, decode, l, l);
    if ps[k].rows > 0 && ps[l].rows > 0 { StreamedPair(ps, out, k, l); }
  }

  /** Over sorted files, with any projection and any ceilings, the emitted stream is in its advertised
      order exactly when each file ends, in the rows it keeps, where every later one begins. */
  lemma StreamOrderExact(segs: seq<PersistSegment>, full: Schema, out: Schema, decode: Hash -> Batch, done: nat)
    requires done <= |segs| && HasPositions(full) && Scannable(segs, full, out, decode) && SortedFiles(segs, full, decode)
    ensures RowsInOrder(NonEmpty(Parts(segs, done, full, out, decode)), out) <==> AllMeet(segs, done, full, out, decode)
  {
    if AllMeet(segs, done, full, out, decode) { StreamInOrder(segs, full, out, decode, done); }
    if RowsInOrder(NonEmpty(Parts(segs, done, full, out, decode)), out) {
      forall k, l | 0 <= k < l < done ensures SegmentsMeet(segs[k], segs[l], full, out, decode) {
        OrderedMeet(segs, full, out, decode, done, k, l);
      }
    }
  }

  /** The second file begins at the first one's first position, and the first one spans two commits. */
  predicate Restarts(a: seq<(int, int)>, b: seq<(int, int)>) {
    a != [] && b != [] && b[0] == a[0] && a[0].0 < a[|a| - 1].0
  }

  lemma RestartsApart(write: bool, a: seq<(int, int)>, b: seq<(int, int)>)
    requires Restarts(a, b)
    ensures !Meet(true, write, a, b)
  {
  }

  /** Two Persists with no Purge between them list the same leading rows twice: if the first run holds
      more than one commit, the stream breaks the order it advertises. */
  lemma RepersistedBreaksOrder(segs: seq<PersistSegment>, full: Schema, out: Schema, decode: Hash -> Batch, k: nat, l: nat)
    requires HasPositions(full) && Scannable(segs, full, out, decode) && SortedFiles(segs, full, decode) && k < l < |segs|
    requires Fits(segs[k], full, decode) && Fits(segs[l], full, decode) && ShowsCommit(out)
    requires Restarts(PositionsOf(segs[k], full, decode), PositionsOf(segs[l], full, decode))
    ensures !RowsInOrder(NonEmpty(Parts(segs, |segs|, full, out, decode)), out)
  {
    RestartsApart(ShowsWrite(out), PositionsOf(segs[k], full, decode), PositionsOf(segs[l], full, decode));
    if RowsInOrder(NonEmpty(Parts(segs, |segs|, full, out, decode)), out) { OrderedMeet(segs, full, out, decode, |segs|, k, l); }
  }

  // ---------------------------------------------------------------- two runs of one log

  const LOG_FIELDS: Schema := [Field(COMMIT_SEQ_NUM, Int(64, true), false), Field(WRITE_SEQ_NUM, Int(64, true), false)]

  /** The file a Persist writes of the commits `0..n`, one write each, when none has been purged. */
  function LogRun(n: nat): Batch {
    Columns(LOG_FIELDS, [seq(n, i => IntV(64, true, i)), seq(n, _ => IntV(64, true, 0))], n)
  }

  lemma LogShape(n: nat)
    ensures HasPositions(LOG_FIELDS) && DistinctNames(LOG_FIELDS) && Shape(LogRun(n), LOG_FIELDS) == Ok(LogRun(n))
  {
    LogNames();
    forall i | 0 <= i < 2 ensures Offered(LogRun(n), LOG_FIELDS[i]) == Some(LogRun(n).columns[i]) { FoundAt(LOG_FIELDS, i); }
    assert Offers(LogRun(n), LOG_FIELDS);
    assert OfferedColumns(LogRun(n), LOG_FIELDS) == LogRun(n).columns;
  }

  lemma LogNames()
    ensures DistinctNames(LOG_FIELDS) && IndexOf(LOG_FIELDS, COMMIT_SEQ_NUM) == Some(0) && IndexOf(LOG_FIELDS, WRITE_SEQ_NUM) == Some(1)
  {
    assert COMMIT_SEQ_NUM[0] != WRITE_SEQ_NUM[0];
    FoundAt(LOG_FIELDS, 0);
    FoundAt(LOG_FIELDS, 1);
  }

  lemma LogPositions(n: nat)
    ensures HasPositions(LOG_FIELDS) && Shape(LogRun(n), LOG_FIELDS).Ok? && SortedFile(LogRun(n), LOG_FIELDS)
    ensures KeptPositions(LogRun(n), None, LOG_FIELDS) == seq(n, i => (i, 0))
  {
    LogNames();
    LogShape(n);
    forall i | 0 <= i < n ensures PosAt(LogRun(n), LOG_FIELDS, i) == (i, 0) { }
  }

  /** Persist `m` commits, then `n` without a purge: the plan's stream starts over in the middle. */
  lemma TwoRunsBreakOrder(m: nat, n: nat, first: Artifact, second: Artifact, decode: Hash -> Batch)
    requires 2 <= m <= n && decode(first.hash) == LogRun(m) && decode(second.hash) == LogRun(n)
    requires Faithful(first, decode) && Faithful(second, decode)
    ensures var segs := [PersistSegment(first, None), PersistSegment(second, None)];
            && HasPositions(LOG_FIELDS) && Scannable(segs, LOG_FIELDS, LOG_FIELDS, decode) && SortedFiles(segs, LOG_FIELDS, decode)
            && !RowsInOrder(NonEmpty(Parts(segs, 2, LOG_FIELDS, LOG_FIELDS, decode)), LOG_FIELDS)
  {
    var segs := [PersistSegment(first, None), PersistSegment(second, None)];
    LogNames();
    LogPositions(m);
    LogPositions(n);
    RepersistedBreaksOrder(segs, LOG_FIELDS, LOG_FIELDS, decode, 0, 1);
  }
}
