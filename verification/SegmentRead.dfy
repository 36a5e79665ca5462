/** Cold segment reads through the content-addressed cache.

    A read may hit the cache, decode and fill it, or bypass it with a narrower read.  All ways must
    give the same output batch, whatever the cache holds and however readers interleave.
  */
module SegmentRead {
  import opened Base
  import opened Literals

  // ---------------------------------------------------------------- batches and shaping

  datatype Field = Field(name: string, t: DataType, nullable: bool)

  type Schema = seq<Field>

  datatype Columns = Columns(fields: Schema, columns: seq<seq<Scalar>>, rows: nat)

  /** The first field of that name. */
  function IndexOf(fields: Schema, name: string): (r: Option<nat>)
    ensures r.Some? ==> r.value < |fields| && fields[r.value].name == name && forall i :: 0 <= i < r.value ==> fields[i].name != name
    ensures r.None? <==> forall i :: 0 <= i < |fields| ==> fields[i].name != name
  {
    if fields == [] then None
    else if fields[0].name == name then Some(0)
    else match IndexOf(fields[1..], name)
      case None => None
      case Some(i) => Some(i + 1)
  }

  predicate DistinctNames(fields: Schema) {
    forall i, j :: 0 <= i < j < |fields| ==> fields[i].name != fields[j].name
  }

  /** The column may stand under this field: right length and type, and nulls only where allowed. */
  predicate Conforms(column: seq<Scalar>, f: Field, rows: nat) {
    |column| == rows && forall i :: 0 <= i < rows ==> TypeOf(column[i]) == f.t && (f.nullable || !column[i].NullV?)
  }

  predicate WellFormed(b: Columns) {
    |b.columns| == |b.fields| && forall i :: 0 <= i < |b.fields| ==> Conforms(b.columns[i], b.fields[i], b.rows)
  }

  /** A record batch: columns that conform to their fields. */
  type Batch = b: Columns | WellFormed(b) witness Columns([], [], 0)

  function Nulls(t: DataType, rows: nat): seq<Scalar> { seq(rows, _ => NullV(t)) }

  /** The column a batch offers under a field: its own, nulls where the field post-dates the
      segment, or `None` where neither is allowed. */
  function Offered(b: Batch, f: Field): (r: Option<seq<Scalar>>)
    ensures r.Some? ==> Conforms(r.value, f, b.rows)
  {
    match IndexOf(b.fields, f.name)
    case Some(i) => if Conforms(b.columns[i], f, b.rows) then Some(b.columns[i]) else None
    case None => if f.nullable then Some(Nulls(f.t, b.rows)) else None
  }

  predicate Offers(b: Batch, schema: Schema) { forall f :: f in schema ==> Offered(b, f).Some? }

  function OfferedColumns(b: Batch, schema: Schema): (r: seq<seq<Scalar>>)
    requires Offers(b, schema)
    ensures |r| == |schema| && forall i :: 0 <= i < |schema| ==> Conforms(r[i], schema[i], b.rows)
  {
    seq(|schema|, i requires 0 <= i < |schema| => Offered(b, schema[i]).value)
  }

  /** `shape_to_schema` without a projection, and `project_batch_to_schema`. */
  function Shape(b: Batch, schema: Schema): (r: Result<Batch>)
    ensures r.Ok? ==> r.value.fields == schema && r.value.rows == b.rows
  {
    if Offers(b, schema) then Ok(Columns(schema, OfferedColumns(b, schema), b.rows)) else Err("column missing or of another type")
  }

  /** Where a name stands in a schema, if anywhere: its first place. */
  ghost predicate StandsAt(fields: Schema, name: string, k: nat) {
    k < |fields| && fields[k].name == name && forall i :: 0 <= i < k ==> fields[i].name != name
  }

  /** The column under a field: the batch's own of that name, which must conform, or, where there is
      none and nulls are allowed, nulls. */
  ghost predicate Fills(b: Batch, f: Field, column: seq<Scalar>) {
    && (forall k: nat :: StandsAt(b.fields, f.name, k) ==> column == b.columns[k] && Conforms(column, f, b.rows))
    && ((forall k: nat :: !StandsAt(b.fields, f.name, k)) ==>
          f.nullable && |column| == b.rows && forall o :: 0 <= o < b.rows ==> column[o] == NullV(f.t))
  }

  lemma OfferedMeaning(b: Batch, f: Field)
    ensures Offered(b, f).Some? <==> exists column :: Fills(b, f, column)
    ensures Offered(b, f).Some? ==> Fills(b, f, Offered(b, f).value)
  {
    IndexStands(b.fields, f.name);
    var found := IndexOf(b.fields, f.name);
    if exists column :: Fills(b, f, column) {
      var column :| Fills(b, f, column);
      assert found.Some? ==> StandsAt(b.fields, f.name, found.value);
    }
    if Offered(b, f).Some? { assert Fills(b, f, Offered(b, f).value); }
  }

  /** Shaping succeeds exactly when every field can be filled, and fills it. */
  lemma ShapeMeaning(b: Batch, schema: Schema)
    ensures Shape(b, schema).Ok? <==> forall f :: f in schema ==> exists column :: Fills(b, f, column)
    ensures Shape(b, schema).Ok? ==> forall i :: 0 <= i < |schema| ==> Fills(b, schema[i], Shape(b, schema).value.columns[i])
  {
    forall f: Field ensures Offered(b, f).Some? <==> exists column :: Fills(b, f, column) { OfferedMeaning(b, f); }
    forall f: Field | Offered(b, f).Some? ensures Fills(b, f, Offered(b, f).value) { OfferedMeaning(b, f); }
  }

  lemma IndexStands(fields: Schema, name: string)
    ensures forall k: nat :: StandsAt(fields, name, k) ==> IndexOf(fields, name) == Some(k)
    ensures IndexOf(fields, name).Some? ==> StandsAt(fields, name, IndexOf(fields, name).value)
  {
    forall k: nat | StandsAt(fields, name, k) ensures IndexOf(fields, name) == Some(k) { assert fields[k].name == name; }
  }

  /** `take`: the rows at these offsets, in this order. */
  function Pick(column: seq<Scalar>, offsets: seq<int>): seq<Scalar>
    requires forall i :: 0 <= i < |offsets| ==> 0 <= offsets[i] < |column|
  {
    seq(|offsets|, i requires 0 <= i < |offsets| => column[offsets[i]])
  }

  predicate InRange(offsets: seq<int>, rows: nat) { forall i :: 0 <= i < |offsets| ==> 0 <= offsets[i] < rows }

  function Take(b: Batch, offsets: seq<int>): (r: Batch)
    requires InRange(offsets, b.rows)
    ensures r.fields == b.fields && r.rows == |offsets|
  {
    Columns(b.fields, seq(|b.columns|, j requires 0 <= j < |b.columns| => Pick(b.columns[j], offsets)), |offsets|)
  }

  function Empty(schema: Schema): Batch {
    Columns(schema, seq(|schema|, _ => []), 0)
  }

  /** Every output field is one of the full schema's. */
  predicate Within(out: Schema, full: Schema) { forall f :: f in out ==> f in full }

  lemma FoundAt(fields: Schema, i: nat)
    requires DistinctNames(fields) && i < |fields|
    ensures IndexOf(fields, fields[i].name) == Some(i)
  {
    var r := IndexOf(fields, fields[i].name);
    assert r.Some?;
  }

  /** A full-schema batch offers, under any of its fields, what the file offers. */
  lemma FullOffers(b: Batch, full: Schema, f: Field)
    requires DistinctNames(full) && f in full && Shape(b, full).Ok?
    ensures Offered(Shape(b, full).value, f) == Offered(b, f)
  {
    var i :| 0 <= i < |full| && full[i] == f;
    FoundAt(full, i);
  }

  /** Shaping to the full schema and then narrowing equals narrowing the file directly. */
  lemma ShapeThenNarrow(b: Batch, full: Schema, out: Schema)
    requires DistinctNames(full) && Within(out, full) && Shape(b, full).Ok?
    ensures Shape(b, out).Ok? && Shape(Shape(b, full).value, out) == Shape(b, out)
  {
    forall f | f in out ensures Offered(b, f).Some? && Offered(Shape(b, full).value, f) == Offered(b, f) {
      FullOffers(b, full, f);
    }
    assert Shape(Shape(b, full).value, out).value.columns == Shape(b, out).value.columns;
  }

  lemma ShapeAgain(b: Batch, out: Schema)
    requires DistinctNames(out) && Shape(b, out).Ok?
    ensures Shape(Shape(b, out).value, out) == Shape(b, out)
  {
    ShapeThenNarrow(b, out, out);
  }

  lemma TakeOffers(b: Batch, offsets: seq<int>, f: Field)
    requires InRange(offsets, b.rows) && Offered(b, f).Some?
    ensures Offered(Take(b, offsets), f) == Some(Pick(Offered(b, f).value, offsets))
  {
    var r := IndexOf(b.fields, f.name);
    if r.None? { assert Nulls(f.t, |offsets|) == Pick(Nulls(f.t, b.rows), offsets); }
  }

  /** Taking rows before shaping equals shaping before taking, when shaping the whole batch succeeds. */
  lemma TakeThenShape(b: Batch, offsets: seq<int>, schema: Schema)
    requires InRange(offsets, b.rows) && Shape(b, schema).Ok?
    ensures Shape(Take(b, offsets), schema) == Ok(Take(Shape(b, schema).value, offsets))
  {
    forall f | f in schema ensures Offered(Take(b, offsets), f) == Some(Pick(Offered(b, f).value, offsets)) {
      TakeOffers(b, offsets, f);
    }
    assert Shape(Take(b, offsets), schema).value.columns == Take(Shape(b, schema).value, offsets).columns;
  }

  lemma EmptyIsTakeNone(full: Schema, out: Schema, direct: Batch)
    requires DistinctNames(full) && Within(out, full) && direct.fields == out
    ensures Shape(Empty(full), out) == Ok(Take(direct, []))
  {
    forall f | f in out ensures Offered(Empty(full), f) == Some([]) {
      var i :| 0 <= i < |full| && full[i] == f;
      FoundAt(full, i);
    }
    assert Shape(Empty(full), out).value.columns == Take(direct, []).columns;
  }

  // ---------------------------------------------------------------- the cache

  type Hash = string

  const MAX_WEIGHT: nat := 0xFFFF_FFFF

  predicate Admits(budget: nat, weight: nat) { budget > 0 && 0 < weight <= budget && weight <= MAX_WEIGHT }

  /** A stored artifact: its content hash, recorded size, and what its file decodes to. */
  datatype Artifact = Artifact(hash: Hash, size: int, file: Result<Batch>)

  function Weight(a: Artifact): nat { if a.size < 0 then 0 else a.size }

  /** A readable file holds the batch its hash stands for, so equal hashes decode equally. */
  ghost predicate Faithful(a: Artifact, decode: Hash -> Batch) {
    a.file.Ok? ==> a.file.value == decode(a.hash)
  }

  class SegmentCache {
    const budget: nat
    var entries: map<Hash, (Batch, nat)>

    /** Every resident entry is the decode its hash stands for, charged an admissible weight. */
    ghost predicate Coherent(decode: Hash -> Batch)
      reads this
    {
      forall h :: h in entries ==> entries[h].0 == decode(h) && Admits(budget, entries[h].1)
    }

    constructor (budgetBytes: nat)
      ensures budget == budgetBytes && entries == map[]
    {
      budget := budgetBytes;
      entries := map[];
    }

    method Get(h: Hash) returns (r: Option<Batch>)
      ensures r == if h in entries then Some(entries[h].0) else None
    {
      r := if h in entries then Some(entries[h].0) else None;
    }

    method Insert(h: Hash, b: Batch, weight: nat)
      modifies this
      ensures 0 < weight <= budget && weight <= MAX_WEIGHT ==> entries == old(entries)[h := (b, weight)]
      ensures !(0 < weight <= budget && weight <= MAX_WEIGHT) ==> entries == old(entries)
    {
      if !Admits(budget, weight) { return; }
      entries := entries[h := (b, weight)];
    }
  }

  /** Decode the whole file, offer it to the cache, return it unshaped. */
  method DecodeAndCache(cache: SegmentCache, a: Artifact, ghost decode: Hash -> Batch) returns (r: Result<Batch>)
    requires Faithful(a, decode) && cache.Coherent(decode)
    modifies cache
    ensures cache.Coherent(decode)
    ensures r == a.file
  {
    r := a.file;
    if r.Ok? { cache.Insert(a.hash, r.value, Weight(a)); }
  }

  /** A read before shaping: the native decode, or a projected one that bypassed the cache. */
  datatype Unshaped = Native(batch: Batch) | Projected(batch: Batch)

  method ReadUnshaped(cache: SegmentCache, a: Artifact, out: Schema, ghost decode: Hash -> Batch) returns (r: Result<Unshaped>)
    requires Faithful(a, decode) && cache.Coherent(decode)
    modifies cache
    ensures cache.Coherent(decode)
    ensures r.Ok? ==> r.value == Native(decode(a.hash))
                      || (Shape(decode(a.hash), out).Ok? && r.value == Projected(Shape(decode(a.hash), out).value))
    ensures a.file.Ok? && Shape(decode(a.hash), out).Ok? ==> r.Ok?
  {
    var hit := cache.Get(a.hash);
    if hit.Some? { return Ok(Native(hit.value)); }
    if Admits(cache.budget, Weight(a)) {
      var decoded := DecodeAndCache(cache, a, decode);
      if decoded.Err? { return Err(decoded.message); }
      return Ok(Native(decoded.value));
    }
    if a.file.Err? { return Err(a.file.message); }
    var projected := Shape(a.file.value, out);
    if projected.Err? { return Err(projected.message); }
    return Ok(Projected(projected.value));
  }

  /** What the cached paths return for a native batch: shape to the full schema, then narrow. */
  function ViaFull(b: Batch, full: Schema, out: Schema): Result<Batch>
  {
    match Shape(b, full)
    case Ok(shaped) => Shape(shaped, out)
    case Err(m) => Err(m)
  }

  /** What the bypass returns: a projected read, then the same projection again. */
  function ViaProjection(b: Batch, out: Schema): Result<Batch>
  {
    match Shape(b, out)
    case Ok(shaped) => Shape(shaped, out)
    case Err(m) => Err(m)
  }

  /** The cached paths and the bypass agree exactly when the file can be shaped to the full schema
      or cannot even be shaped to the output schema. */
  lemma PathsAgree(b: Batch, full: Schema, out: Schema)
    requires DistinctNames(full) && DistinctNames(out) && Within(out, full)
    ensures ViaFull(b, full, out) == ViaProjection(b, out) <==> Shape(b, full).Ok? || Shape(b, out).Err?
    ensures Shape(b, full).Ok? ==> ViaFull(b, full, out) == Shape(b, out)
  {
    if Shape(b, full).Ok? { ShapeThenNarrow(b, full, out); }
    if Shape(b, out).Ok? { ShapeAgain(b, out); }
  }

  /** One non-nullable column missing from the file, and outside the projection, is enough for the
      same read to fail from the cache and succeed past it. */
  lemma PathsCanDiffer()
    ensures exists b: Batch, full, out :: DistinctNames(full) && DistinctNames(out) && Within(out, full)
                                   && ViaFull(b, full, out).Err? && ViaProjection(b, out).Ok?
  {
    var kept, added := Field("a", Utf8, false), Field("b", Utf8, false);
    var b: Batch := Columns([kept], [[StrV("x")]], 1);
    assert Offered(b, kept).Some? && Offered(b, added).None?;
    assert added in [kept, added];
    PathsAgree(b, [kept, added], [kept]);
    ShapeAgain(b, [kept]);
    assert ViaFull(b, [kept, added], [kept]).Err? && ViaProjection(b, [kept]).Ok?;
  }

  /** `read_cached_snapshot_segment` followed by the projection to the output schema. */
  method ReadSegment(cache: SegmentCache, a: Artifact, full: Schema, out: Schema, ghost decode: Hash -> Batch) returns (r: Result<Batch>)
    requires Faithful(a, decode) && cache.Coherent(decode) && DistinctNames(full) && DistinctNames(out) && Within(out, full)
    modifies cache
    ensures cache.Coherent(decode)
    ensures Shape(decode(a.hash), full).Ok? && (r.Ok? || a.file.Ok?) ==> r == Shape(decode(a.hash), out)
  {
    PathsAgree(decode(a.hash), full, out);
    var read := ReadUnshaped(cache, a, out, decode);
    if read.Err? { return Err(read.message); }
    r := match read.value
      case Native(b) => ViaFull(b, full, out)
      case Projected(b) => Shape(b, out);
  }

  // ---------------------------------------------------------------- interleaved readers

  /** A read of a whole segment, or of the rows a seek selected. */
  datatype Request = Request(a: Artifact, full: Schema, out: Schema, rows: Option<seq<int>>)

  /** The selected rows of a batch (all of a batch the selection does not fit). */
  function Chosen(b: Batch, rows: Option<seq<int>>): Batch {
    if rows.Some? && InRange(rows.value, b.rows) then Take(b, rows.value) else b
  }

  /** From a native batch: select, shape to the full schema, narrow. */
  function FromNative(b: Batch, q: Request): Result<Batch> { ViaFull(Chosen(b, q.rows), q.full, q.out) }

  /** Past the cache: read projected, select, project again. */
  function FromProjection(b: Batch, q: Request): Result<Batch> {
    match Shape(b, q.out)
    case Ok(projected) => Shape(Chosen(projected, q.rows), q.out)
    case Err(m) => Err(m)
  }

  /** The selected rows of the file's direct projection. */
  function Direct(b: Batch, q: Request): Result<Batch> {
    match Shape(b, q.out)
    case Ok(projected) => Ok(Chosen(projected, q.rows))
    case Err(m) => Err(m)
  }

  /** What a request needs for its answer not to depend on the path. */
  ghost predicate Sound(decode: Hash -> Batch, q: Request) {
    && Faithful(q.a, decode) && DistinctNames(q.full) && DistinctNames(q.out) && Within(q.out, q.full)
    && Shape(decode(q.a.hash), q.full).Ok? && (q.rows.Some? ==> InRange(q.rows.value, decode(q.a.hash).rows))
  }

  /** Selecting before shaping, after a projected read, or not decoding at all for an empty
      selection: all give the selected rows of the direct projection. */
  lemma PathsAreDirect(decode: Hash -> Batch, q: Request)
    requires Sound(decode, q)
    ensures FromNative(decode(q.a.hash), q) == Direct(decode(q.a.hash), q) == FromProjection(decode(q.a.hash), q)
    ensures q.rows == Some([]) ==> Shape(Empty(q.full), q.out) == Direct(decode(q.a.hash), q)
  {
    var b := decode(q.a.hash);
    ShapeThenNarrow(b, q.full, q.out);
    ShapeAgain(b, q.out);
    if q.rows.Some? {
      TakeThenShape(b, q.rows.value, q.full);
      TakeThenShape(b, q.rows.value, q.out);
      ShapeThenNarrow(Take(b, q.rows.value), q.full, q.out);
      TakeThenShape(Shape(b, q.out).value, q.rows.value, q.out);
      if q.rows.value == [] { EmptyIsTakeNone(q.full, q.out, Shape(b, q.out).value); }
    }
  }

  /** A reader between its await points. */
  datatype Reader = Start | Missed | Decoded(batch: Batch) | Done(r: Result<Batch>)

  datatype Sys = Sys(entries: map<Hash, Batch>, readers: seq<Reader>)

  /** What reader `q` does next, and what it leaves in the cache. */
  function Step(budget: nat, q: Request, p: Reader, entries: map<Hash, Batch>): (Reader, map<Hash, Batch>) {
    match p
    case Start =>
      if q.rows == Some([]) then (Done(Shape(Empty(q.full), q.out)), entries)
      else if q.a.hash in entries then (Done(FromNative(entries[q.a.hash], q)), entries)
      else (Missed, entries)
    case Missed =>
      if q.a.file.Err? then (Done(Err(q.a.file.message)), entries)
      else if Admits(budget, Weight(q.a)) then (Decoded(q.a.file.value), entries)
      else (Done(FromProjection(q.a.file.value, q)), entries)
    case Decoded(b) => (Done(FromNative(b, q)), entries[q.a.hash := b])
    case Done(_) => (p, entries)
  }

  /** Whatever the cache holds when a reader gets its turns, three finish it; one that missed on a file
      the budget admits leaves that file cached. */
  lemma ThreeTurnsFinish(budget: nat, q: Request, e0: map<Hash, Batch>, e1: map<Hash, Batch>, e2: map<Hash, Batch>)
    ensures var p2 := Step(budget, q, Step(budget, q, Start, e0).0, e1).0;
            var (p3, e3) := Step(budget, q, p2, e2);
            && p3.Done?
            && (q.rows != Some([]) && q.a.hash !in e0 && q.a.file.Ok? && 0 < q.a.size <= budget && q.a.size <= MAX_WEIGHT ==>
                  e3 == e2[q.a.hash := q.a.file.value])
  {
  }

  ghost predicate ReaderStep(budget: nat, reqs: seq<Request>, i: nat, s: Sys, s': Sys) {
    && i < |reqs| && i < |s.readers|
    && var (p, entries) := Step(budget, reqs[i], s.readers[i], s.entries);
       s' == Sys(entries, s.readers[i := p])
  }

  ghost predicate Next(budget: nat, reqs: seq<Request>, s: Sys, s': Sys) {
    (exists i: nat :: ReaderStep(budget, reqs, i, s, s')) || (exists h :: s' == s.(entries := s.entries - {h}))
  }

  /** A run from any coherent cache: readers step one at a time, entries vanish at will. */
  ghost predicate Run(budget: nat, decode: Hash -> Batch, reqs: seq<Request>, run: seq<Sys>) {
    && run != [] && |run[0].readers| == |reqs| && (forall p :: p in run[0].readers ==> p.Start?)
    && (forall h :: h in run[0].entries ==> run[0].entries[h] == decode(h))
    && (forall k :: 0 <= k < |run| - 1 ==> Next(budget, reqs, run[k], run[k + 1]))
  }

  ghost predicate CoherentEntries(decode: Hash -> Batch, entries: map<Hash, Batch>) {
    forall h :: h in entries ==> entries[h] == decode(h)
  }

  /** The reader holds, or has returned, the right batch. */
  ghost predicate ReaderOk(decode: Hash -> Batch, q: Request, p: Reader) {
    && (p.Decoded? ==> p.batch == decode(q.a.hash))
    && (p.Done? && (p.r.Ok? || q.a.file.Ok?) ==> p.r == Direct(decode(q.a.hash), q))
  }

  ghost predicate Inv(decode: Hash -> Batch, reqs: seq<Request>, s: Sys) {
    && |s.readers| == |reqs| && CoherentEntries(decode, s.entries)
    && (forall i :: 0 <= i < |reqs| ==> ReaderOk(decode, reqs[i], s.readers[i]))
  }

  lemma StepKeeps(budget: nat, decode: Hash -> Batch, q: Request, p: Reader, entries: map<Hash, Batch>)
    requires Sound(decode, q) && ReaderOk(decode, q, p) && CoherentEntries(decode, entries)
    ensures var (p', entries') := Step(budget, q, p, entries);
            ReaderOk(decode, q, p') && CoherentEntries(decode, entries')
  {
    PathsAreDirect(decode, q);
  }

  lemma NextKeepsInv(budget: nat, decode: Hash -> Batch, reqs: seq<Request>, s: Sys, s': Sys)
    requires Inv(decode, reqs, s) && (forall q :: q in reqs ==> Sound(decode, q)) && Next(budget, reqs, s, s')
    ensures Inv(decode, reqs, s')
  {
    if i: nat :| ReaderStep(budget, reqs, i, s, s') {
      assert reqs[i] in reqs;
      StepKeeps(budget, decode, reqs[i], s.readers[i], s.entries);
    }
  }

  /** In every interleaving of reads, inserts and evictions, by callers with their own schemas,
      every finished read, seeked or not, returned its rows of the direct projection of its file. */
  lemma {:induction false} InterleavedReadsAreDirect(budget: nat, decode: Hash -> Batch, reqs: seq<Request>, run: seq<Sys>, k: nat)
    requires (forall q :: q in reqs ==> Sound(decode, q)) && Run(budget, decode, reqs, run) && k < |run|
    ensures Inv(decode, reqs, run[k])
  {
    assert forall i :: 0 <= i < |reqs| ==> run[0].readers[i] in run[0].readers;
    if k > 0 {
      InterleavedReadsAreDirect(budget, decode, reqs, run, k - 1);
      NextKeepsInv(budget, decode, reqs, run[k - 1], run[k]);
    }
  }
}
