/** Index-seeked reads of snapshot segments: one sidecar, an intersection of several, and the
    aggregate point seek over all segments. */
module SeekRead {
  import opened Base
  import opened Literals
  import opened Numerals
  import opened SegmentRead
  import I = SegmentIndex

  // ---------------------------------------------------------------- sidecars as batches

  function KeyField(i: nat, t: DataType): Field { Field("key_" + ShowNat(i), t, true) }

  /** `segment_index_schema`: one nullable column per key, then the offsets. */
  function IndexSchema(types: seq<DataType>): Schema {
    seq(|types|, i requires 0 <= i < |types| => KeyField(i, types[i])) + [Field("row_offset", Int(64, true), false)]
  }

  /** A shaped sidecar batch read positionally. */
  function AsSidecar(b: Batch, types: seq<DataType>): I.Sidecar
    requires b.fields == IndexSchema(types)
  {
    var n := |types|;
    I.Sidecar(types, seq(b.rows, i requires 0 <= i < b.rows =>
      I.Entry(seq(n, j requires 0 <= j < n => b.columns[j][i]), OffsetAt(b.columns[n], i))))
  }

  function OffsetAt(column: seq<Scalar>, i: nat): int
    requires i < |column|
  {
    if column[i].IntV? then column[i].n else 0
  }

  /** The sidecar file, read with these key types, indexes these key tuples (one per base row). */
  ghost predicate Indexes(file: Batch, types: seq<DataType>, keys: seq<seq<Scalar>>) {
    Shape(file, IndexSchema(types)).Ok? ==>
      var sc := AsSidecar(Shape(file, IndexSchema(types)).value, types);
      I.WellFormed(sc) && I.IsIndexOf(sc.entries, keys, |types|)
  }

  /** Some probe equals the key's leading columns, in the columns' own types. */
  ghost predicate KeyAmong(types: seq<DataType>, key: seq<Scalar>, probes: seq<seq<string>>) {
    exists p :: p in probes && I.KeyMatches(types, key, p)
  }

  lemma SelectedIsKeyAmong(sc: I.Sidecar, keys: seq<seq<Scalar>>, probes: seq<seq<string>>, o: int)
    requires I.IsIndexOf(sc.entries, keys, |sc.keyTypes|)
    ensures I.Selected(sc, probes, o) <==> 0 <= o < |keys| && KeyAmong(sc.keyTypes, keys[o], probes)
  {
    if I.Selected(sc, probes, o) {
      var e, p :| e in sc.entries && p in probes && e.offset == o && I.KeyMatches(sc.keyTypes, e.key, p);
      var i :| 0 <= i < |sc.entries| && sc.entries[i] == e;
    }
    if 0 <= o < |keys| && KeyAmong(sc.keyTypes, keys[o], probes) {
      var p :| p in probes && I.KeyMatches(sc.keyTypes, keys[o], p);
      assert I.HasOffset(sc.entries, o);
      var i :| 0 <= i < |sc.entries| && sc.entries[i].offset == o;
      assert sc.entries[i] in sc.entries;
    }
  }

  /** The rows of `[0, n)` satisfying `p`, in order. */
  ghost function Matching(n: nat, p: int -> bool): (r: seq<int>)
    ensures I.Increasing(r) && InRange(r, n) && forall o :: o in r <==> 0 <= o < n && p(o)
  {
    if n == 0 then [] else Matching(n - 1, p) + (if p(n - 1) then [n - 1] else [])
  }

  lemma MatchingUnique(n: nat, p: int -> bool, r: seq<int>)
    requires I.Increasing(r) && forall o :: o in r <==> 0 <= o < n && p(o)
    ensures r == Matching(n, p)
  {
    I.IncreasingUnique(r, Matching(n, p));
  }

  // ---------------------------------------------------------------- one entry

  datatype SeekEntry = SeekEntry(sidecar: Artifact, keyColumns: seq<string>, tuples: seq<seq<string>>)

  /** `key_column_types`: all-text for the identity shape, else looked up by name. */
  function KeyTypes(keyColumns: seq<string>, arity: nat, full: Schema): Option<seq<DataType>> {
    if keyColumns == [] then Some(seq(arity, _ => Utf8))
    else if forall c :: c in keyColumns ==> IndexOf(full, c).Some?
    then Some(seq(|keyColumns|, i requires 0 <= i < |keyColumns| =>
      assert keyColumns[i] in keyColumns; full[IndexOf(full, keyColumns[i]).value].t))
    else None
  }

  /** The reader's first column of that name has that type. */
  predicate DeclaredAs(full: Schema, name: string, t: DataType) {
    exists i :: 0 <= i < |full| && full[i].name == name && full[i].t == t && forall k :: 0 <= k < i ==> full[k].name != name
  }

  /** The seek types are text throughout for the identity shape and the reader's declared types
      for named columns, and there are none exactly when the reader lacks a key column. */
  lemma KeyTypesAre(keyColumns: seq<string>, arity: nat, full: Schema)
    ensures var r := KeyTypes(keyColumns, arity, full);
            && (r.None? <==> exists c :: c in keyColumns && forall i :: 0 <= i < |full| ==> full[i].name != c)
            && (r.Some? && keyColumns == [] ==> |r.value| == arity && forall i :: 0 <= i < arity ==> r.value[i] == Utf8)
            && (r.Some? && keyColumns != [] ==>
                  |r.value| == |keyColumns| && forall i :: 0 <= i < |keyColumns| ==> DeclaredAs(full, keyColumns[i], r.value[i]))
  {
    if forall c :: c in keyColumns ==> IndexOf(full, c).Some? {
      forall i | 0 <= i < |keyColumns| ensures DeclaredAs(full, keyColumns[i], full[IndexOf(full, keyColumns[i]).value].t) {
        assert keyColumns[i] in keyColumns;
      }
    }
  }

  /** Whether a probe set fails outright against this sidecar file. */
  ghost predicate Seekable(file: Batch, types: seq<DataType>, probes: seq<seq<string>>) {
    var shaped := Shape(file, IndexSchema(types));
    shaped.Ok? && !I.BadProbes(AsSidecar(shaped.value, types), probes)
  }

  /** Load the sidecar through the cache and seek it. */
  method SeekEntryOffsets(cache: SegmentCache, sidecar: Artifact, types: seq<DataType>, probes: seq<seq<string>>,
                          ghost keys: seq<seq<Scalar>>, ghost decode: Hash -> Batch)
    returns (r: Result<seq<int>>)
    requires Faithful(sidecar, decode) && cache.Coherent(decode) && Indexes(decode(sidecar.hash), types, keys)
    modifies cache
    ensures cache.Coherent(decode)
    ensures r.Ok? ==> I.Increasing(r.value) && forall o :: o in r.value <==> 0 <= o < |keys| && KeyAmong(types, keys[o], probes)
    ensures r.Ok? ==> Seekable(decode(sidecar.hash), types, probes)
    ensures sidecar.file.Ok? && Seekable(decode(sidecar.hash), types, probes) ==> r.Ok?
  {
    var batch: Batch;
    var hit := cache.Get(sidecar.hash);
    if hit.Some? {
      batch := hit.value;
    } else {
      var decoded := DecodeAndCache(cache, sidecar, decode);
      if decoded.Err? { return Err(decoded.message); }
      batch := decoded.value;
    }
    var shaped := Shape(batch, IndexSchema(types));
    if shaped.Err? { return Err(shaped.message); }
    var sc := AsSidecar(shaped.value, types);
    r := I.SeekRowOffsets(sc, probes);
    forall o ensures I.Selected(sc, probes, o) <==> 0 <= o < |keys| && KeyAmong(types, keys[o], probes) {
      SelectedIsKeyAmong(sc, keys, probes, o);
    }
  }

  /** Decode the base segment and take the matched rows, before shaping where the decode is native.
      The result still has to be projected to the output schema. */
  method TakeMatchedRows(cache: SegmentCache, a: Artifact, full: Schema, out: Schema, offsets: seq<int>, ghost decode: Hash -> Batch)
    returns (r: Result<Batch>)
    requires Faithful(a, decode) && cache.Coherent(decode) && DistinctNames(full) && DistinctNames(out) && Within(out, full)
    requires Shape(decode(a.hash), full).Ok? && InRange(offsets, decode(a.hash).rows)
    modifies cache
    ensures cache.Coherent(decode)
    ensures a.file.Ok? ==> r.Ok?
    ensures r.Ok? ==> Shape(decode(a.hash), out).Ok? && Shape(r.value, out) == Ok(Take(Shape(decode(a.hash), out).value, offsets))
  {
    ghost var native := decode(a.hash);
    ShapeThenNarrow(native, full, out);
    ghost var direct := Shape(native, out).value;
    if offsets == [] {
      EmptyIsTakeNone(full, out, direct);
      return Ok(Empty(full));
    }
    var read := ReadUnshaped(cache, a, out, decode);
    if read.Err? { return Err(read.message); }
    match read.value {
      case Native(b) =>
        TakeThenShape(b, offsets, full);
        TakeThenShape(b, offsets, out);
        ShapeThenNarrow(Take(b, offsets), full, out);
        r := Shape(Take(b, offsets), full);
      case Projected(b) =>
        ShapeAgain(native, out);
        TakeThenShape(b, offsets, out);
        r := Ok(Take(b, offsets));
    }
  }

  // ---------------------------------------------------------------- intersecting entries

  /** The entry cannot be typed against the reader's schema, so it selects nothing and restricts nothing. */
  predicate Skipped(e: SeekEntry, full: Schema) {
    e.tuples != [] && KeyTypes(e.keyColumns, |e.tuples[0]|, full).None?
  }

  /** Row `o` passes entry `e`, whose sidecar indexes `keys`. */
  ghost predicate Passes(e: SeekEntry, full: Schema, keys: seq<seq<Scalar>>, o: int) {
    Skipped(e, full) || (e.tuples != [] && 0 <= o < |keys| && KeyAmong(KeyTypes(e.keyColumns, |e.tuples[0]|, full).value, keys[o], e.tuples))
  }

  /** Row `o` passes the first `k` entries. */
  ghost predicate PassesFirst(es: seq<SeekEntry>, full: Schema, keys: seq<seq<seq<Scalar>>>, k: nat, o: int)
    requires k <= |keys| == |es|
  {
    forall j :: 0 <= j < k ==> Passes(es[j], full, keys[j], o)
  }

  ghost predicate EntryOk(e: SeekEntry, full: Schema, keys: seq<seq<Scalar>>, decode: Hash -> Batch) {
    Faithful(e.sidecar, decode) &&
    (e.tuples != [] && !Skipped(e, full) ==> Indexes(decode(e.sidecar.hash), KeyTypes(e.keyColumns, |e.tuples[0]|, full).value, keys))
  }

  /** The entry's seek itself cannot fail. */
  ghost predicate EntrySeeks(e: SeekEntry, full: Schema, decode: Hash -> Batch) {
    e.sidecar.file.Ok? &&
    (e.tuples != [] && !Skipped(e, full) ==> Seekable(decode(e.sidecar.hash), KeyTypes(e.keyColumns, |e.tuples[0]|, full).value, e.tuples))
  }

  /** An offset list holds exactly the rows below `rows` that pass the first `k` entries. */
  ghost predicate Holds(offsets: seq<int>, rows: nat, es: seq<SeekEntry>, full: Schema, keys: seq<seq<seq<Scalar>>>, k: nat)
    requires k <= |keys| == |es|
  {
    I.Increasing(offsets) && forall o :: o in offsets <==> 0 <= o < rows && PassesFirst(es, full, keys, k, o)
  }

  /** One turn of the loop body: `None` when the entry is skipped. */
  method SeekOne(cache: SegmentCache, e: SeekEntry, full: Schema, ghost keys: seq<seq<Scalar>>, ghost decode: Hash -> Batch)
    returns (r: Result<Option<seq<int>>>)
    requires cache.Coherent(decode) && EntryOk(e, full, keys, decode)
    modifies cache
    ensures cache.Coherent(decode)
    ensures EntrySeeks(e, full, decode) ==> r.Ok?
    ensures r.Ok? ==> (r.value.None? <==> Skipped(e, full))
    ensures r.Ok? && r.value.Some? ==> I.Increasing(r.value.value) && forall o :: o in r.value.value <==> 0 <= o < |keys| && Passes(e, full, keys, o)
  {
    if e.tuples == [] { return Ok(Some([])); }
    var types := KeyTypes(e.keyColumns, |e.tuples[0]|, full);
    if types.None? { return Ok(None); }
    var offsets := SeekEntryOffsets(cache, e.sidecar, types.value, e.tuples, keys, decode);
    if offsets.Err? { return Err(offsets.message); }
    r := Ok(Some(offsets.value));
  }

  /** The accumulator loop: `None` when every entry was skipped, else the intersection. */
  method IntersectEntries(cache: SegmentCache, es: seq<SeekEntry>, full: Schema, ghost rows: nat,
                          ghost keys: seq<seq<seq<Scalar>>>, ghost decode: Hash -> Batch)
    returns (r: Result<Option<seq<int>>>)
    requires cache.Coherent(decode) && |keys| == |es|
    requires forall k :: 0 <= k < |es| ==> EntryOk(es[k], full, keys[k], decode) && |keys[k]| == rows
    modifies cache
    ensures cache.Coherent(decode)
    ensures (forall e :: e in es ==> EntrySeeks(e, full, decode)) ==> r.Ok?
    ensures r.Ok? ==> (r.value.None? <==> forall k :: 0 <= k < |es| ==> Skipped(es[k], full))
    ensures r.Ok? && r.value.Some? ==> Holds(r.value.value, rows, es, full, keys, |es|)
  {
    var acc: Option<seq<int>> := None;
    for k := 0 to |es|
      invariant cache.Coherent(decode)
      invariant acc.None? <==> forall j :: 0 <= j < k ==> Skipped(es[j], full)
      invariant acc.Some? ==> Holds(acc.value, rows, es, full, keys, k)
    {
      var one := SeekOne(cache, es[k], full, keys[k], decode);
      if one.Err? { return Err(one.message); }
      if one.value.None? {
        if acc.Some? { HoldsSkip(acc.value, rows, es, full, keys, k); }
        continue;
      }
      if acc.None? {
        HoldsFirst(one.value.value, rows, es, full, keys, k);
        acc := one.value;
      } else {
        var both := I.IntersectSorted(acc.value, one.value.value);
        HoldsBoth(acc.value, one.value.value, both, rows, es, full, keys, k);
        acc := Some(both);
      }
      if acc.value == [] {
        HoldsNothing(rows, es, full, keys, k + 1);
        return Ok(acc);
      }
    }
    r := Ok(acc);
  }

  lemma HoldsSkip(offsets: seq<int>, rows: nat, es: seq<SeekEntry>, full: Schema, keys: seq<seq<seq<Scalar>>>, k: nat)
    requires k < |keys| == |es| && Holds(offsets, rows, es, full, keys, k) && Skipped(es[k], full)
    ensures Holds(offsets, rows, es, full, keys, k + 1)
  {
  }

  lemma HoldsFirst(offsets: seq<int>, rows: nat, es: seq<SeekEntry>, full: Schema, keys: seq<seq<seq<Scalar>>>, k: nat)
    requires k < |keys| == |es| && (forall j :: 0 <= j < k ==> Skipped(es[j], full)) && I.Increasing(offsets)
    requires forall o :: o in offsets <==> 0 <= o < rows && Passes(es[k], full, keys[k], o)
    ensures Holds(offsets, rows, es, full, keys, k + 1)
  {
  }

  lemma HoldsBoth(a: seq<int>, b: seq<int>, both: seq<int>, rows: nat, es: seq<SeekEntry>, full: Schema, keys: seq<seq<seq<Scalar>>>, k: nat)
    requires k < |keys| == |es| && Holds(a, rows, es, full, keys, k) && I.Increasing(both)
    requires forall o :: o in b <==> 0 <= o < rows && Passes(es[k], full, keys[k], o)
    requires forall o :: o in both <==> o in a && o in b
    ensures Holds(both, rows, es, full, keys, k + 1)
  {
    forall o ensures o in both <==> 0 <= o < rows && PassesFirst(es, full, keys, k + 1, o) {
      assert PassesFirst(es, full, keys, k + 1, o) <==> PassesFirst(es, full, keys, k, o) && Passes(es[k], full, keys[k], o);
    }
  }

  lemma HoldsNothing(rows: nat, es: seq<SeekEntry>, full: Schema, keys: seq<seq<seq<Scalar>>>, k: nat)
    requires k <= |keys| == |es| && Holds([], rows, es, full, keys, k)
    ensures Holds([], rows, es, full, keys, |es|)
  {
    forall o | 0 <= o < rows ensures !PassesFirst(es, full, keys, |es|, o) {
      assert o !in [];
      assert !PassesFirst(es, full, keys, k, o);
    }
  }

  /** The rows a list of entries selects: those passing every entry that could be typed. */
  ghost function SelectedRows(es: seq<SeekEntry>, full: Schema, keys: seq<seq<seq<Scalar>>>, rows: nat): seq<int>
    requires |keys| == |es|
  {
    Matching(rows, o => PassesFirst(es, full, keys, |es|, o))
  }

  /** `read_intersect_seeked_snapshot_segment`, projected: exactly the selected rows of the direct
      read, for every list of entries and every cache state; all rows when every entry is skipped. */
  method ReadIntersectSeeked(cache: SegmentCache, a: Artifact, es: seq<SeekEntry>, full: Schema, out: Schema,
                             ghost keys: seq<seq<seq<Scalar>>>, ghost decode: Hash -> Batch)
    returns (r: Result<Batch>)
    requires Faithful(a, decode) && cache.Coherent(decode) && DistinctNames(full) && DistinctNames(out) && Within(out, full)
    requires Shape(decode(a.hash), full).Ok? && |keys| == |es|
    requires forall k :: 0 <= k < |es| ==> EntryOk(es[k], full, keys[k], decode) && |keys[k]| == decode(a.hash).rows
    modifies cache
    ensures cache.Coherent(decode)
    ensures a.file.Ok? && (forall e :: e in es ==> EntrySeeks(e, full, decode)) ==> r.Ok?
    ensures r.Ok? ==> Shape(decode(a.hash), out).Ok?
                      && r.value == Take(Shape(decode(a.hash), out).value, SelectedRows(es, full, keys, decode(a.hash).rows))
  {
    ghost var rows := decode(a.hash).rows;
    ghost var p := o => PassesFirst(es, full, keys, |es|, o);
    ShapeThenNarrow(decode(a.hash), full, out);
    var selected := IntersectEntries(cache, es, full, rows, keys, decode);
    if selected.Err? { return Err(selected.message); }
    if selected.value.None? {
      r := ReadSegment(cache, a, full, out, decode);
      TakeAll(Shape(decode(a.hash), out).value, p);
      return;
    }
    MatchingUnique(rows, p, selected.value.value);
    var taken := TakeMatchedRows(cache, a, full, out, selected.value.value, decode);
    if taken.Err? { return taken; }
    r := Shape(taken.value, out);
  }

  lemma MatchingAll(n: nat, p: int -> bool)
    requires forall o :: 0 <= o < n ==> p(o)
    ensures |Matching(n, p)| == n && forall i :: 0 <= i < n ==> Matching(n, p)[i] == i
  {
    var all := seq(n, i => i);
    forall o ensures o in all <==> 0 <= o < n && p(o) {
      if 0 <= o < n { assert all[o] == o; }
    }
    MatchingUnique(n, p, all);
  }

  lemma TakeAll(b: Batch, p: int -> bool)
    requires forall o :: 0 <= o < b.rows ==> p(o)
    ensures Take(b, Matching(b.rows, p)) == b
  {
    MatchingAll(b.rows, p);
    forall j | 0 <= j < |b.columns| ensures Pick(b.columns[j], Matching(b.rows, p)) == b.columns[j] { }
    assert Take(b, Matching(b.rows, p)).columns == b.columns;
  }

  /** Seek, then residual, equals full scan, then residual, whenever the residual implies every
      entry that was not skipped. */
  lemma SeekThenResidual(es: seq<SeekEntry>, full: Schema, keys: seq<seq<seq<Scalar>>>, rows: nat, residual: int -> bool)
    requires |keys| == |es|
    requires forall o :: 0 <= o < rows && residual(o) ==> PassesFirst(es, full, keys, |es|, o)
    ensures Filter(SelectedRows(es, full, keys, rows), residual) == Matching(rows, residual)
  {
    FilterMatching(rows, o => PassesFirst(es, full, keys, |es|, o), residual);
  }

  lemma FilterMatching(n: nat, p: int -> bool, q: int -> bool)
    requires forall o :: 0 <= o < n && q(o) ==> p(o)
    ensures Filter(Matching(n, p), q) == Matching(n, q)
  {
    FilterIncreasing(Matching(n, p), q);
    MatchingUnique(n, q, Filter(Matching(n, p), q));
  }

  lemma {:induction false} FilterIncreasing(s: seq<int>, p: int -> bool)
    requires I.Increasing(s)
    ensures I.Increasing(Filter(s, p))
  {
    if s != [] {
      FilterIncreasing(s[1..], p);
      var rest := Filter(s[1..], p);
      assert forall i :: 0 <= i < |rest| ==> rest[i] in rest;
    }
  }

  // ---------------------------------------------------------------- the aggregate point seek

  datatype Segment = Segment(base: Artifact, identity: Option<Artifact>, keyed: seq<(string, Artifact)>)

  function FindKeyed(keyed: seq<(string, Artifact)>, id: string): Option<Artifact> {
    if keyed == [] then None else if keyed[0].0 == id then Some(keyed[0].1) else FindKeyed(keyed[1..], id)
  }

  /** `sidecar_for_index`: the identity slot, or the first keyed sidecar of that index. */
  function SidecarFor(seg: Segment, index: Option<string>): Option<Artifact> {
    match index
    case None => seg.identity
    case Some(id) => FindKeyed(seg.keyed, id)
  }

  /** The segment has no sidecar for this index. */
  predicate Lacks(seg: Segment, index: Option<string>) {
    if index.None? then seg.identity.None? else forall k :: 0 <= k < |seg.keyed| ==> seg.keyed[k].0 != index.value
  }

  lemma {:induction false} FindKeyedFirst(keyed: seq<(string, Artifact)>, id: string)
    ensures FindKeyed(keyed, id).None? <==> forall k :: 0 <= k < |keyed| ==> keyed[k].0 != id
    ensures FindKeyed(keyed, id).Some? ==>
              exists k :: 0 <= k < |keyed| && keyed[k] == (id, FindKeyed(keyed, id).value) && forall j :: 0 <= j < k ==> keyed[j].0 != id
  {
    if keyed != [] && keyed[0].0 != id {
      FindKeyedFirst(keyed[1..], id);
      if FindKeyed(keyed, id).Some? {
        var k :| 0 <= k < |keyed[1..]| && keyed[1..][k] == (id, FindKeyed(keyed, id).value) && forall j :: 0 <= j < k ==> keyed[1..][j].0 != id;
        assert keyed[k + 1] == (id, FindKeyed(keyed, id).value);
        assert forall j :: 0 < j < k + 1 ==> keyed[j] == keyed[1..][j - 1];
      }
    }
  }

  /** The sidecar a seek reads: the identity one, or the first of those keyed by the index. */
  lemma SidecarIs(seg: Segment, index: Option<string>)
    ensures SidecarFor(seg, index).None? <==> Lacks(seg, index)
    ensures index.None? ==> SidecarFor(seg, index) == seg.identity
    ensures index.Some? && SidecarFor(seg, index).Some? ==>
              exists k :: 0 <= k < |seg.keyed| && seg.keyed[k] == (index.value, SidecarFor(seg, index).value)
                          && forall j :: 0 <= j < k ==> seg.keyed[j].0 != index.value
  {
    if index.Some? { FindKeyedFirst(seg.keyed, index.value); }
  }

  function Append(a: Batch, b: Batch): (r: Batch)
    requires a.fields == b.fields
    ensures r.fields == a.fields
  {
    Columns(a.fields, seq(|a.columns|, j requires 0 <= j < |a.columns| => a.columns[j] + b.columns[j]), a.rows + b.rows)
  }

  function Concat(out: Schema, parts: seq<Batch>): (r: Batch)
    requires forall b :: b in parts ==> b.fields == out
    ensures r.fields == out
  {
    if parts == [] then Empty(out) else Append(parts[0], Concat(out, parts[1..]))
  }

  function TotalRows(parts: seq<Batch>): nat {
    if parts == [] then 0 else parts[0].rows + TotalRows(parts[1..])
  }

  /** Row `j` of part `k` stands in `b` after every row of the parts before it. */
  ghost predicate StandsAfter(b: Batch, parts: seq<Batch>, k: nat)
    requires k < |parts|
  {
    && b.fields == parts[k].fields && TotalRows(parts[..k]) + parts[k].rows <= b.rows
    && forall c, j :: 0 <= c < |b.columns| && 0 <= j < parts[k].rows ==>
         b.columns[c][TotalRows(parts[..k]) + j] == parts[k].columns[c][j]
  }

  /** `b` is the parts one after the other: all their rows, each in its place, and no other. */
  ghost predicate OneAfterAnother(b: Batch, parts: seq<Batch>) {
    b.rows == TotalRows(parts) && forall k :: 0 <= k < |parts| ==> StandsAfter(b, parts, k)
  }

  lemma AppendAt(a: Batch, b: Batch, c: nat, j: nat)
    requires a.fields == b.fields && c < |a.columns|
    ensures j < a.rows ==> Append(a, b).columns[c][j] == a.columns[c][j]
    ensures j < b.rows ==> Append(a, b).columns[c][a.rows + j] == b.columns[c][j]
  {
  }

  lemma FirstStands(parts: seq<Batch>, rest: Batch)
    requires parts != [] && parts[0].fields == rest.fields
    ensures StandsAfter(Append(parts[0], rest), parts, 0)
  {
    var first, all := parts[0], Append(parts[0], rest);
    forall c, j | 0 <= c < |all.columns| && 0 <= j < first.rows ensures all.columns[c][j] == first.columns[c][j] { AppendAt(first, rest, c, j); }
    assert TotalRows(parts[..0]) == 0;
  }

  lemma LaterStands(parts: seq<Batch>, rest: Batch, k: nat)
    requires 0 < k < |parts| && parts[0].fields == rest.fields && StandsAfter(rest, parts[1..], k - 1)
    ensures StandsAfter(Append(parts[0], rest), parts, k)
  {
    assert parts[..k][1..] == parts[1..][..k - 1];
    var before := TotalRows(parts[1..][..k - 1]);
    forall c, j | 0 <= c < |rest.columns| && 0 <= j < parts[k].rows
      ensures Append(parts[0], rest).columns[c][parts[0].rows + (before + j)] == parts[k].columns[c][j]
    {
      AppendAt(parts[0], rest, c, before + j);
    }
  }

  lemma {:induction false} ConcatOneAfterAnother(out: Schema, parts: seq<Batch>)
    requires forall b :: b in parts ==> b.fields == out
    ensures OneAfterAnother(Concat(out, parts), parts)
  {
    if parts != [] {
      var rest := Concat(out, parts[1..]);
      ConcatOneAfterAnother(out, parts[1..]);
      forall k | 0 <= k < |parts| ensures StandsAfter(Append(parts[0], rest), parts, k) {
        if k == 0 { FirstStands(parts, rest); } else { LaterStands(parts, rest, k); }
      }
    }
  }

  function Arity(probes: seq<seq<string>>): nat { if probes == [] then 0 else |probes[0]| }

  /** The seek cannot be used: a segment lacks the sidecar, or a key column is not in the schema. */
  predicate Declines(segs: seq<Segment>, index: Option<string>, keyColumns: seq<string>, full: Schema) {
    (exists seg :: seg in segs && Lacks(seg, index)) || (exists c :: c in keyColumns && forall i :: 0 <= i < |full| ==> full[i].name != c)
  }

  // ---------------------------------------------------------------- a filtered scan

  /** A row's value under a name, null where there is no such column. */
  function ValueAt(b: Batch, name: string, o: nat): Scalar
    requires o < b.rows
  {
    match IndexOf(b.fields, name)
    case Some(i) => b.columns[i][o]
    case None => NullV(Utf8)
  }

  function KeyAt(b: Batch, names: seq<string>, o: nat): seq<Scalar>
    requires o < b.rows
  {
    seq(|names|, j requires 0 <= j < |names| => ValueAt(b, names[j], o))
  }

  /** The key columns of a batch, row by row. */
  function KeysOf(b: Batch, names: seq<string>): (keys: seq<seq<Scalar>>)
    ensures |keys| == b.rows
  {
    seq(b.rows, o requires 0 <= o < b.rows => KeyAt(b, names, o))
  }

  /** The rows of a batch whose own key columns match some probe. */
  ghost function FilterByKey(b: Batch, names: seq<string>, types: seq<DataType>, probes: seq<seq<string>>): (r: Batch)
    ensures r.fields == b.fields
  {
    Take(b, Matching(b.rows, o => 0 <= o < b.rows && KeyAmong(types, KeyAt(b, names, o), probes)))
  }

  /** Read the whole segment, keep the rows whose key columns match, project (nothing from a file
      that does not fit the schema). */
  ghost function FilteredScan(seg: Segment, names: seq<string>, types: seq<DataType>, probes: seq<seq<string>>,
                              full: Schema, out: Schema, decode: Hash -> Batch): (b: Batch)
    ensures b.fields == out
  {
    match Shape(decode(seg.base.hash), full)
    case Err(_) => Empty(out)
    case Ok(scan) =>
      match Shape(FilterByKey(scan, names, types, probes), out)
      case Ok(b) => b
      case Err(_) => Empty(out)
  }

  lemma FilteredScanIsTake(seg: Segment, names: seq<string>, types: seq<DataType>, probes: seq<seq<string>>,
                           full: Schema, out: Schema, decode: Hash -> Batch, offsets: seq<int>)
    requires DistinctNames(full) && Within(out, full) && Shape(decode(seg.base.hash), full).Ok? && I.Increasing(offsets)
    requires var scan := Shape(decode(seg.base.hash), full).value;
             forall o :: o in offsets <==> 0 <= o < scan.rows && KeyAmong(types, KeyAt(scan, names, o), probes)
    ensures Shape(decode(seg.base.hash), out).Ok? && InRange(offsets, decode(seg.base.hash).rows)
    ensures FilteredScan(seg, names, types, probes, full, out, decode) == Take(Shape(decode(seg.base.hash), out).value, offsets)
  {
    var native := decode(seg.base.hash);
    var scan := Shape(native, full).value;
    var p := o => 0 <= o < scan.rows && KeyAmong(types, KeyAt(scan, names, o), probes);
    MatchingUnique(scan.rows, p, offsets);
    ShapeThenNarrow(native, full, out);
    TakeThenShape(scan, offsets, out);
  }

  lemma NoProbesNoRows(seg: Segment, names: seq<string>, types: seq<DataType>, full: Schema, out: Schema, decode: Hash -> Batch)
    requires DistinctNames(full) && Within(out, full) && Shape(decode(seg.base.hash), full).Ok?
    ensures Shape(Empty(full), out) == Ok(FilteredScan(seg, names, types, [], full, out, decode))
  {
    FilteredScanIsTake(seg, names, types, [], full, out, decode, []);
    EmptyIsTakeNone(full, out, Shape(decode(seg.base.hash), out).value);
  }

  // ---------------------------------------------------------------- segment by segment

  /** A segment whose file fits the full schema and whose sidecar for this index, read with these
      types, indexes the file's own key columns. */
  ghost predicate SegmentOk(seg: Segment, index: Option<string>, names: seq<string>, types: seq<DataType>, full: Schema, decode: Hash -> Batch) {
    && Faithful(seg.base, decode) && Shape(decode(seg.base.hash), full).Ok?
    && (SidecarFor(seg, index).Some? ==>
          var sc := SidecarFor(seg, index).value;
          Faithful(sc, decode) && Indexes(decode(sc.hash), types, KeysOf(Shape(decode(seg.base.hash), full).value, names)))
  }

  ghost function FilteredScans(segs: seq<Segment>, names: seq<string>, types: seq<DataType>, probes: seq<seq<string>>,
                               full: Schema, out: Schema, decode: Hash -> Batch): (bs: seq<Batch>)
    ensures forall b :: b in bs ==> b.fields == out
  {
    Mapped(segs, seg => FilteredScan(seg, names, types, probes, full, out, decode))
  }

  /** `read_seeked_snapshot_segment` on the selected sidecar, projected: the filtered scan. */
  method ReadSeeked(cache: SegmentCache, seg: Segment, index: Option<string>, types: seq<DataType>, probes: seq<seq<string>>,
                    full: Schema, out: Schema, ghost names: seq<string>, ghost decode: Hash -> Batch)
    returns (r: Result<Batch>)
    requires cache.Coherent(decode) && DistinctNames(full) && DistinctNames(out) && Within(out, full)
    requires SegmentOk(seg, index, names, types, full, decode) && SidecarFor(seg, index).Some?
    modifies cache
    ensures cache.Coherent(decode)
    ensures r.Ok? ==> r.value == FilteredScan(seg, names, types, probes, full, out, decode)
    ensures Readable(seg, index, types, probes, decode) ==> r.Ok?
  {
    var sidecar := SidecarFor(seg, index).value;
    ghost var scan := Shape(decode(seg.base.hash), full).value;
    ShapeThenNarrow(decode(seg.base.hash), full, out);
    if probes == [] {
      NoProbesNoRows(seg, names, types, full, out, decode);
      return Shape(Empty(full), out);
    }
    var offsets := SeekEntryOffsets(cache, sidecar, types, probes, KeysOf(scan, names), decode);
    if offsets.Err? { return Err(offsets.message); }
    FilteredScanIsTake(seg, names, types, probes, full, out, decode, offsets.value);
    var taken := TakeMatchedRows(cache, seg.base, full, out, offsets.value, decode);
    if taken.Err? { return taken; }
    r := Shape(taken.value, out);
  }

  ghost predicate AllOk(segs: seq<Segment>, index: Option<string>, names: seq<string>, types: seq<DataType>, full: Schema, decode: Hash -> Batch) {
    forall seg :: seg in segs ==> SegmentOk(seg, index, names, types, full, decode)
  }

  /** The segment's files can be read and its sidecar takes these probes, so its seek cannot fail. */
  ghost predicate Readable(seg: Segment, index: Option<string>, types: seq<DataType>, probes: seq<seq<string>>, decode: Hash -> Batch) {
    && seg.base.file.Ok? && SidecarFor(seg, index).Some? && SidecarFor(seg, index).value.file.Ok?
    && Seekable(decode(SidecarFor(seg, index).value.hash), types, probes)
  }

  /** The per-segment loop. */
  method SeekSegments(cache: SegmentCache, segs: seq<Segment>, probes: seq<seq<string>>, index: Option<string>, types: seq<DataType>,
                      full: Schema, out: Schema, ghost names: seq<string>, ghost decode: Hash -> Batch)
    returns (r: Result<seq<Batch>>)
    requires cache.Coherent(decode) && DistinctNames(full) && DistinctNames(out) && Within(out, full)
    requires AllOk(segs, index, names, types, full, decode) && forall seg :: seg in segs ==> SidecarFor(seg, index).Some?
    modifies cache
    ensures cache.Coherent(decode)
    ensures r.Ok? ==> r.value == FilteredScans(segs, names, types, probes, full, out, decode)
    ensures (forall seg :: seg in segs ==> Readable(seg, index, types, probes, decode)) ==> r.Ok?
  {
    var parts: seq<Batch> := [];
    ghost var scanned := (seg: Segment) => FilteredScan(seg, names, types, probes, full, out, decode);
    for i := 0 to |segs|
      invariant cache.Coherent(decode)
      invariant parts == Mapped(segs[..i], scanned)
    {
      MappedNext(segs, scanned, i);
      var part := ReadSeeked(cache, segs[i], index, types, probes, full, out, names, decode);
      if part.Err? { return Err(part.message); }
      parts := parts + [part.value];
    }
    assert segs[..|segs|] == segs;
    r := Ok(parts);
  }

  /** `seek_snapshot_point`: declines, or returns exactly what a scan of every segment filtered on
      its own key columns returns, segment after segment, in the output schema. */
  method SeekSnapshotPoint(cache: SegmentCache, segs: seq<Segment>, probes: seq<seq<string>>, index: Option<string>,
                           keyColumns: seq<string>, full: Schema, out: Schema, ghost names: seq<string>, ghost decode: Hash -> Batch)
    returns (r: Result<Option<Batch>>)
    requires cache.Coherent(decode) && DistinctNames(full) && DistinctNames(out) && Within(out, full)
    requires var types := KeyTypes(keyColumns, Arity(probes), full);
             types.Some? ==> AllOk(segs, index, names, types.value, full, decode)
    modifies cache
    ensures cache.Coherent(decode)
    ensures Declines(segs, index, keyColumns, full) ==> r == Ok(None)
    ensures !Declines(segs, index, keyColumns, full) ==>
              var types := KeyTypes(keyColumns, Arity(probes), full).value;
              r != Ok(None) && ((forall seg :: seg in segs ==> Readable(seg, index, types, probes, decode)) ==> r.Ok?)
    ensures r.Ok? && r.value.Some? ==>
              var types := KeyTypes(keyColumns, Arity(probes), full).value;
              r.value.value.fields == out && OneAfterAnother(r.value.value, FilteredScans(segs, names, types, probes, full, out, decode))
  {
    forall seg | seg in segs ensures SidecarFor(seg, index).None? <==> Lacks(seg, index) { SidecarIs(seg, index); }
    KeyTypesAre(keyColumns, Arity(probes), full);
    if exists seg :: seg in segs && SidecarFor(seg, index).None? { return Ok(None); }
    var types := KeyTypes(keyColumns, Arity(probes), full);
    if types.None? { return Ok(None); }
    var parts := SeekSegments(cache, segs, probes, index, types.value, full, out, names, decode);
    if parts.Err? { return Err(parts.message); }
    ConcatOneAfterAnother(out, parts.value);
    r := Ok(Some(Concat(out, parts.value)));
  }

  // ---------------------------------------------------------------- a built sidecar is an index

  function KeyColumn(types: seq<DataType>, es: seq<I.Entry>, j: nat): seq<Scalar>
    requires j < |types| && forall i :: 0 <= i < |es| ==> I.Typed(es[i].key, types)
  {
    seq(|es|, i requires 0 <= i < |es| => assert I.Typed(es[i].key, types); es[i].key[j])
  }

  function OffsetColumn(es: seq<I.Entry>): seq<Scalar> {
    seq(|es|, i requires 0 <= i < |es| => IntV(64, true, es[i].offset))
  }

  /** The batch `build_segment_index` writes for these sorted entries. */
  function IndexBatch(types: seq<DataType>, es: seq<I.Entry>): (b: Batch)
    requires forall i :: 0 <= i < |es| ==> I.Typed(es[i].key, types)
    ensures b.fields == IndexSchema(types)
  {
    var columns := seq(|types|, j requires 0 <= j < |types| => KeyColumn(types, es, j)) + [OffsetColumn(es)];
    assert forall i :: 0 <= i < |es| ==> I.Typed(es[i].key, types);
    Columns(IndexSchema(types), columns, |es|)
  }

  lemma KeyNamesDiffer(i: nat, j: nat)
    requires i != j
    ensures "key_" + ShowNat(i) != "key_" + ShowNat(j)
  {
    assert ("key_" + ShowNat(i))[4..] == ShowNat(i) && ("key_" + ShowNat(j))[4..] == ShowNat(j);
    assert ShowInt(i) == ShowNat(i) && ShowInt(j) == ShowNat(j);
    ShowIntInjective(i, j);
  }

  lemma IndexNamesDistinct(types: seq<DataType>)
    ensures DistinctNames(IndexSchema(types))
  {
    forall i, j | 0 <= i < j < |IndexSchema(types)| ensures IndexSchema(types)[i].name != IndexSchema(types)[j].name {
      if j < |types| { KeyNamesDiffer(i, j); } else { assert ("key_" + ShowNat(i))[0] == 'k' && "row_offset"[0] == 'r'; }
    }
  }

  /** What the writer stores is, for a reader with the same key types, an index of the segment's keys. */
  lemma BuiltSidecarIndexes(types: seq<DataType>, es: seq<I.Entry>, keys: seq<seq<Scalar>>)
    requires I.IsIndexOf(es, keys, |types|) && forall i :: 0 <= i < |es| ==> I.Typed(es[i].key, types)
    ensures Shape(IndexBatch(types, es), IndexSchema(types)).Ok? && Indexes(IndexBatch(types, es), types, keys)
  {
    var b := IndexBatch(types, es);
    IndexNamesDistinct(types);
    forall f | f in b.fields ensures Offered(b, f).Some? {
      var i :| 0 <= i < |b.fields| && b.fields[i] == f;
      FoundAt(b.fields, i);
    }
    forall i | 0 <= i < |b.fields| ensures Offered(b, b.fields[i]) == Some(b.columns[i]) { FoundAt(b.fields, i); }
    assert Shape(b, b.fields).value.columns == b.columns;
    var sc := AsSidecar(b, types);
    forall i | 0 <= i < |es| ensures sc.entries[i] == es[i] {
      assert sc.entries[i].key == es[i].key;
    }
    assert sc.entries == es;
  }

  predicate HasColumns(b: Batch, names: seq<string>) { forall n :: n in names ==> IndexOf(b.fields, n).Some? }

  function NamedTypes(b: Batch, names: seq<string>): seq<DataType>
    requires HasColumns(b, names)
  {
    seq(|names|, j requires 0 <= j < |names| => assert names[j] in names; b.fields[IndexOf(b.fields, names[j]).value].t)
  }

  function NamedColumns(b: Batch, names: seq<string>): (columns: seq<seq<Scalar>>)
    requires HasColumns(b, names)
    ensures |columns| == |names| && forall c :: c in columns ==> |c| == b.rows
  {
    seq(|names|, j requires 0 <= j < |names| => assert names[j] in names; b.columns[IndexOf(b.fields, names[j]).value])
  }

  lemma ColumnsAreKeys(b: Batch, names: seq<string>)
    requires names != [] && HasColumns(b, names)
    ensures I.RowsOf(NamedColumns(b, names)) == KeysOf(b, names)
    ensures forall key :: key in KeysOf(b, names) ==> I.Typed(key, NamedTypes(b, names))
  {
    forall o | 0 <= o < b.rows
      ensures I.RowAt(NamedColumns(b, names), o) == KeyAt(b, names, o) && I.Typed(KeyAt(b, names, o), NamedTypes(b, names))
    {
      forall j | 0 <= j < |names| ensures IndexOf(b.fields, names[j]).Some? { assert names[j] in names; }
    }
  }

  /** `build_one_segment_sidecar`'s artifact: the key columns by name, sorted with their offsets.
      Whatever the segment, the file indexes its own key columns. */
  method BuildSidecar(b: Batch, names: seq<string>) returns (r: Result<Batch>)
    ensures r.Err? <==> names == [] || !HasColumns(b, names)
    ensures r.Ok? ==> Shape(r.value, IndexSchema(NamedTypes(b, names))).Ok?
    ensures r.Ok? ==> Indexes(r.value, NamedTypes(b, names), KeysOf(b, names))
  {
    if !HasColumns(b, names) { return Err("missing key column"); }
    var built := I.BuildSegmentIndex(NamedColumns(b, names));
    if built.Err? { return Err(built.message); }
    ColumnsAreKeys(b, names);
    BuiltSidecarIndexes(NamedTypes(b, names), built.value, KeysOf(b, names));
    r := Ok(IndexBatch(NamedTypes(b, names), built.value));
  }

  lemma SameColumn(native: Batch, full: Schema, name: string)
    requires DistinctNames(full) && Shape(native, full).Ok? && IndexOf(native.fields, name).Some? && IndexOf(full, name).Some?
    ensures var scan := Shape(native, full).value;
            scan.columns[IndexOf(full, name).value] == native.columns[IndexOf(native.fields, name).value]
    ensures native.rows > 0 ==> full[IndexOf(full, name).value].t == native.fields[IndexOf(native.fields, name).value].t
  {
    var i, k := IndexOf(full, name).value, IndexOf(native.fields, name).value;
    assert full[i] in full && Offered(native, full[i]).Some?;
    if native.rows > 0 { assert TypeOf(native.columns[k][0]) == native.fields[k].t == full[i].t; }
  }

  /** A reader whose schema has the key columns derives the types the writer used and sees the same keys. */
  lemma ReaderAgrees(native: Batch, full: Schema, names: seq<string>, arity: nat)
    requires DistinctNames(full) && Shape(native, full).Ok? && names != [] && native.rows > 0
    requires HasColumns(native, names) && forall n :: n in names ==> IndexOf(full, n).Some?
    ensures KeyTypes(names, arity, full) == Some(NamedTypes(native, names))
    ensures KeysOf(Shape(native, full).value, names) == KeysOf(native, names)
  {
    var scan := Shape(native, full).value;
    forall n | n in names
      ensures scan.columns[IndexOf(full, n).value] == native.columns[IndexOf(native.fields, n).value]
      ensures full[IndexOf(full, n).value].t == native.fields[IndexOf(native.fields, n).value].t
    {
      SameColumn(native, full, n);
    }
    assert KeyTypes(names, arity, full).value == NamedTypes(native, names);
    forall o | 0 <= o < native.rows ensures KeyAt(scan, names, o) == KeyAt(native, names, o) {
      forall j | 0 <= j < |names| ensures ValueAt(scan, names[j], o) == ValueAt(native, names[j], o) { assert names[j] in names; }
    }
  }

  /** So a segment written with `BuildSidecar` is one the seek may rely on. */
  lemma BuiltSegmentSeeks(seg: Segment, index: Option<string>, names: seq<string>, full: Schema, decode: Hash -> Batch)
    requires Faithful(seg.base, decode) && DistinctNames(full) && Shape(decode(seg.base.hash), full).Ok? && decode(seg.base.hash).rows > 0
    requires names != [] && HasColumns(decode(seg.base.hash), names) && forall n :: n in names ==> IndexOf(full, n).Some?
    requires SidecarFor(seg, index).Some? && Faithful(SidecarFor(seg, index).value, decode)
    requires var native := decode(seg.base.hash);
             Indexes(decode(SidecarFor(seg, index).value.hash), NamedTypes(native, names), KeysOf(native, names))
    ensures KeyTypes(names, 0, full).Some? && SegmentOk(seg, index, names, KeyTypes(names, 0, full).value, full, decode)
  {
    ReaderAgrees(decode(seg.base.hash), full, names, 0);
  }
}
