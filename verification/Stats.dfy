/** Segment statistics: min and max computed when a segment is written, carried by column name,
    parsed under the reader's schema, laid out for pruning and folded across segments. */
module Stats {
  import opened Base
  import opened Literals
  import opened Numerals
  import opened SegmentRead
  import I = SegmentIndex

  // ---------------------------------------------------------------- writing

  /** The smallest (`want == Less`) or largest (`want == Greater`) non-null value. */
  function Best(column: seq<Scalar>, want: I.Ordering): Option<Scalar> {
    if column == [] then None
    else
      var v, rest := column[0], Best(column[1..], want);
      if v.NullV? then rest
      else if rest.None? || I.Compare(v, rest.value) == want then Some(v)
      else rest
  }

  /** No non-null value of the column lies beyond `bound` in the direction `want`. */
  predicate Bounds(bound: Scalar, column: seq<Scalar>, want: I.Ordering) {
    forall v :: v in column && !v.NullV? ==> I.Compare(v, bound) != want
  }

  predicate AllNulls(column: seq<Scalar>) { forall v :: v in column ==> v.NullV? }

  /** In the direction `want`, beyond-ness passes along. */
  lemma Beyond(a: Scalar, b: Scalar, c: Scalar, want: I.Ordering)
    requires want != I.Equal && I.Compare(b, a) != want && I.Compare(c, b) != want
    ensures I.Compare(c, a) != want
  {
    I.CompareFlip(a, b);
    I.CompareFlip(b, c);
    I.CompareFlip(a, c);
    if want == I.Less { I.Chain(a, b, c); } else { I.Chain(c, b, a); }
  }

  lemma {:induction false} BestBounds(column: seq<Scalar>, want: I.Ordering)
    requires want != I.Equal
    ensures var best := Best(column, want);
            && (best.None? <==> AllNulls(column))
            && (best.Some? ==> best.value in column && !best.value.NullV? && Bounds(best.value, column, want))
  {
    if column != [] {
      BestBounds(column[1..], want);
      var v, rest := column[0], Best(column[1..], want);
      assert column == [v] + column[1..];
      if !v.NullV? && rest.Some? {
        I.CompareFlip(v, rest.value);
        if I.Compare(v, rest.value) == want {
          forall w | w in column[1..] && !w.NullV? ensures I.Compare(w, v) != want { Beyond(v, rest.value, w, want); }
        }
      }
      SelfEqual(v);
    }
  }

  lemma SelfEqual(v: Scalar)
    ensures I.Compare(v, v) == I.Equal
  {
    I.CompareFlip(v, v);
  }

  function NullCount(column: seq<Scalar>): nat {
    if column == [] then 0 else (if column[0].NullV? then 1 else 0) + NullCount(column[1..])
  }

  /** The rows that hold a null. */
  function NullRows(column: seq<Scalar>): set<nat> { set i: nat | i < |column| && column[i].NullV? }

  lemma {:induction false} NullCountIsCount(column: seq<Scalar>)
    ensures NullCount(column) == |NullRows(column)|
  {
    if column != [] {
      NullCountIsCount(column[1..]);
      Shifted(column);
    }
  }

  lemma Shifted(column: seq<Scalar>)
    requires column != []
    ensures |NullRows(column)| == |NullRows(column[1..])| + if column[0].NullV? then 1 else 0
  {
    var later := set i: nat | i in NullRows(column) && i > 0;
    assert NullRows(column) == later + (if column[0].NullV? then {0} else {});
    SameSize(NullRows(column[1..]), later);
  }

  lemma SameSize(a: set<nat>, b: set<nat>)
    requires forall i: nat :: i in a <==> i + 1 in b
    requires 0 !in b
    ensures |a| == |b|
  {
    var up := set i | i in a :: i + 1;
    forall j | j in b ensures j in up {
      var i: nat := j - 1;
      assert i + 1 in b && i in a;
    }
    assert b == up;
    if a != {} {
      var i :| i in a;
      SameSize(a - {i}, b - {i + 1});
    }
  }

  datatype ColumnStats = ColumnStats(min: Option<Scalar>, max: Option<Scalar>, nulls: Option<nat>)

  const UNKNOWN := ColumnStats(None, None, None)

  predicate Prunable(t: DataType) { !t.Float? }

  function StatsOf(column: seq<Scalar>, t: DataType): ColumnStats {
    if Prunable(t) then ColumnStats(Best(column, I.Less), Best(column, I.Greater), Some(NullCount(column)))
    else ColumnStats(None, None, Some(NullCount(column)))
  }

  /** What a segment's statistics bytes may hold. */
  datatype Payload = Absent | Unparsable | Encoded(rows: nat, columns: seq<(string, ColumnStats)>)

  /** `compute_segment_statistics`. */
  function Compute(b: Batch): Payload {
    Encoded(b.rows, seq(|b.fields|, i requires 0 <= i < |b.fields| => (b.fields[i].name, StatsOf(b.columns[i], b.fields[i].t))))
  }

  // ---------------------------------------------------------------- reading

  function Lookup(columns: seq<(string, ColumnStats)>, name: string): ColumnStats {
    if columns == [] then UNKNOWN else if columns[0].0 == name then columns[0].1 else Lookup(columns[1..], name)
  }

  datatype Parsed = Parsed(rows: nat, columns: seq<ColumnStats>)

  /** `parse_segment_statistics`: by name, first match, unknown when absent or unparsable. */
  function Parse(p: Payload, schema: Schema): (r: Parsed)
    ensures |r.columns| == |schema|
  {
    match p
    case Encoded(rows, columns) => Parsed(rows, seq(|schema|, i requires 0 <= i < |schema| => Lookup(columns, schema[i].name)))
    case _ => Parsed(0, seq(|schema|, _ => UNKNOWN))
  }

  lemma {:induction false} LookupComputed(names: Schema, columns: seq<(string, ColumnStats)>, name: string)
    requires |columns| == |names| && forall i :: 0 <= i < |names| ==> columns[i].0 == names[i].name
    ensures Lookup(columns, name) == match IndexOf(names, name) case Some(i) => columns[i].1 case None => UNKNOWN
  {
    if names != [] { LookupComputed(names[1..], columns[1..], name); }
  }

  /** The statistics a reader gets for a column it keeps the type of are those of the column it reads. */
  lemma ParsedColumn(b: Batch, schema: Schema, idx: nat)
    requires idx < |schema| && Offered(b, schema[idx]).Some?
    ensures var column := Offered(b, schema[idx]).value;
            var got := Parse(Compute(b), schema).columns[idx];
            if IndexOf(b.fields, schema[idx].name).Some? && |column| > 0 then got == StatsOf(column, schema[idx].t)
            else got.min == got.max == None
  {
    LookupComputed(b.fields, Compute(b).columns, schema[idx].name);
  }

  /** Bounds and row count survive writing, encoding by name and parsing under any schema that keeps the column's type. */
  lemma ParsedBounds(b: Batch, schema: Schema, idx: nat)
    requires idx < |schema| && Offered(b, schema[idx]).Some? && Prunable(schema[idx].t)
    ensures var column := Offered(b, schema[idx]).value;
            var got := Parse(Compute(b), schema).columns[idx];
            && Parse(Compute(b), schema).rows == b.rows && (got.min.None? <==> AllNulls(column)) && (got.max.None? <==> AllNulls(column))
            && (got.min.Some? ==> got.min.value in column && !got.min.value.NullV? && Bounds(got.min.value, column, I.Less))
            && (got.max.Some? ==> got.max.value in column && !got.max.value.NullV? && Bounds(got.max.value, column, I.Greater))
  {
    var column := Offered(b, schema[idx]).value;
    ParsedColumn(b, schema, idx);
    BestBounds(column, I.Less);
    BestBounds(column, I.Greater);
  }

  // ---------------------------------------------------------------- pruning arrays

  const MAX_DECIMAL128 := 38

  /** `push_scalar`: the value under the column's own type, null on a mismatch.  A decimal keeps its
      unscaled digits and takes the column's scale. */
  function Slot(t: DataType, v: Option<Scalar>): Option<Scalar> {
    match (t, v)
    case (Int(b, sg), Some(IntV(vb, vs, n))) => if b == vb && sg == vs then v else None
    case (Decimal(p, sc), Some(DecV(vp, _, u))) => if (p > MAX_DECIMAL128) == (vp > MAX_DECIMAL128) then Some(DecV(p, sc, u)) else None
    case (Utf8, Some(StrV(_))) => v
    case _ => None
  }

  /** `build_array` for one of the two bounds: nothing for an unknown or unprunable column, else
      exactly one slot per segment. */
  method BuildArray(parsed: seq<Parsed>, schema: Schema, name: string, low: bool) returns (r: Option<seq<Option<Scalar>>>)
    ensures r.None? <==> IndexOf(schema, name).None? || !Prunable(schema[IndexOf(schema, name).value].t)
    ensures r.Some? ==> |r.value| == |parsed|
    ensures r.Some? ==> forall i :: 0 <= i < |parsed| ==>
              var idx := IndexOf(schema, name).value;
              r.value[i] == if idx < |parsed[i].columns|
                            then Slot(schema[idx].t, if low then parsed[i].columns[idx].min else parsed[i].columns[idx].max) else None
  {
    var found := IndexOf(schema, name);
    if found.None? || !Prunable(schema[found.value].t) { return None; }
    var idx := found.value;
    var slots: seq<Option<Scalar>> := [];
    for i := 0 to |parsed|
      invariant |slots| == i
      invariant forall j :: 0 <= j < i ==>
                  slots[j] == if idx < |parsed[j].columns|
                              then Slot(schema[idx].t, if low then parsed[j].columns[idx].min else parsed[j].columns[idx].max) else None
    {
      if idx < |parsed[i].columns| {
        var c := parsed[i].columns[idx];
        slots := slots + [Slot(schema[idx].t, if low then c.min else c.max)];
      } else {
        slots := slots + [None];
      }
    }
    return Some(slots);
  }

  /** The rule a pruner applies to `column = literal` given the two slots. */
  predicate MayHold(low: Option<Scalar>, high: Option<Scalar>, lit: Scalar) {
    (low.Some? ==> I.Compare(lit, low.value) != I.Less) && (high.Some? ==> I.Compare(lit, high.value) != I.Greater)
  }

  /** A segment pruned for `column = literal` has no such row, for any reader that keeps the type. */
  lemma PrunedHasNoMatch(b: Batch, schema: Schema, idx: nat, lit: Scalar, v: Scalar)
    requires idx < |schema| && Prunable(schema[idx].t) && Offered(b, schema[idx]).Some?
    requires v in Offered(b, schema[idx]).value && !v.NullV? && I.Compare(v, lit) == I.Equal
    ensures var got := Parse(Compute(b), schema).columns[idx];
            MayHold(Slot(schema[idx].t, got.min), Slot(schema[idx].t, got.max), lit)
  {
    var got := Parse(Compute(b), schema).columns[idx];
    ParsedBounds(b, schema, idx);
    I.CompareFlip(v, lit);
    Beyond(got.min.value, v, lit, I.Less);
    Beyond(got.max.value, v, lit, I.Greater);
    var column := Offered(b, schema[idx]).value;
    SlotKeeps(column, schema[idx], b.rows, got.min.value);
    SlotKeeps(column, schema[idx], b.rows, got.max.value);
  }

  /** A segment all of whose values lie on one side of the literal is pruned. */
  lemma OutsideIsPruned(b: Batch, schema: Schema, idx: nat, lit: Scalar, want: I.Ordering)
    requires idx < |schema| && Prunable(schema[idx].t) && Offered(b, schema[idx]).Some? && want != I.Equal
    requires !AllNulls(Offered(b, schema[idx]).value)
    requires forall v :: v in Offered(b, schema[idx]).value && !v.NullV? ==> I.Compare(lit, v) == want
    ensures var got := Parse(Compute(b), schema).columns[idx];
            !MayHold(Slot(schema[idx].t, got.min), Slot(schema[idx].t, got.max), lit)
  {
    var got := Parse(Compute(b), schema).columns[idx];
    ParsedBounds(b, schema, idx);
    SlotKeeps(Offered(b, schema[idx]).value, schema[idx], b.rows, got.min.value);
    SlotKeeps(Offered(b, schema[idx]).value, schema[idx], b.rows, got.max.value);
  }

  lemma SlotKeeps(column: seq<Scalar>, f: Field, rows: nat, v: Scalar)
    requires Conforms(column, f, rows) && Prunable(f.t) && v in column && !v.NullV?
    ensures Slot(f.t, Some(v)) == Some(v)
  {
    var i :| 0 <= i < |column| && column[i] == v;
  }

  // ---------------------------------------------------------------- a changed decimal scale

  /** `a <= b` as numbers, across scales. */
  predicate DecLeq(a: Scalar, b: Scalar)
    requires a.DecV? && b.DecV?
  {
    Scale(a.unscaled, b.scale) <= Scale(b.unscaled, a.scale)
  }

  lemma {:induction false} ScaleMonotone(m: int, n: int, k: nat)
    ensures m <= n <==> Scale(m, k) <= Scale(n, k)
  {
    if k > 0 { ScaleMonotone(m, n, k - 1); }
  }

  /** More fraction digits move a positive number up and a negative one down. */
  lemma ScaleGrows(m: int, k: nat, l: nat)
    requires k < l
    ensures (Scale(m, k) <= Scale(m, l) <==> m >= 0) && (Scale(m, l) <= Scale(m, k) <==> m <= 0)
  {
    var d := l - k;
    ScaleScale(m, k, d);
    ScaleStretch(Scale(m, k), d);
  }

  lemma {:induction false} ScaleStretch(n: int, d: nat)
    requires d > 0
    ensures (n > 0 ==> n < Scale(n, d)) && (n < 0 ==> Scale(n, d) < n) && (n == 0 ==> Scale(n, d) == 0)
  {
    if d > 1 { ScaleStretch(n, d - 1); }
  }

  predicate DecColumn(column: seq<Scalar>, p: nat, s: nat) {
    forall v :: v in column && !v.NullV? ==> v.DecV? && v.precision == p && v.scale == s
  }

  /** Reading a decimal column under another scale keeps the low slot a lower bound exactly when
      the scale is unchanged, or it grew and the minimum is not negative, or it shrank and the
      minimum is not positive. */
  lemma LowSlotExact(column: seq<Scalar>, p: nat, wrote: nat, q: nat, now: nat)
    requires DecColumn(column, p, wrote) && Best(column, I.Less).Some? && (p > MAX_DECIMAL128) == (q > MAX_DECIMAL128)
    ensures var m := Best(column, I.Less).value;
            var slot := Slot(Decimal(q, now), Some(m));
            && m.DecV? && slot.Some? && slot.value.DecV?
            && ((forall v :: v in column && v.DecV? ==> DecLeq(slot.value, v))
                <==> now == wrote || (now > wrote && m.unscaled >= 0) || (now < wrote && m.unscaled <= 0))
  {
    BestBounds(column, I.Less);
    var m := Best(column, I.Less).value;
    var slot := DecV(q, now, m.unscaled);
    if now > wrote { ScaleGrows(m.unscaled, wrote, now); }
    if now < wrote { ScaleGrows(m.unscaled, now, wrote); }
    forall v | v in column && v.DecV? ensures Scale(m.unscaled, now) <= Scale(v.unscaled, now) {
      ScaleMonotone(m.unscaled, v.unscaled, now);
    }
    assert DecLeq(slot, m) <==> Scale(m.unscaled, wrote) <= Scale(m.unscaled, now);
  }

  lemma HighSlotExact(column: seq<Scalar>, p: nat, wrote: nat, q: nat, now: nat)
    requires DecColumn(column, p, wrote) && Best(column, I.Greater).Some? && (p > MAX_DECIMAL128) == (q > MAX_DECIMAL128)
    ensures var m := Best(column, I.Greater).value;
            var slot := Slot(Decimal(q, now), Some(m));
            && m.DecV? && slot.Some? && slot.value.DecV?
            && ((forall v :: v in column && v.DecV? ==> DecLeq(v, slot.value))
                <==> now == wrote || (now > wrote && m.unscaled <= 0) || (now < wrote && m.unscaled >= 0))
  {
    BestBounds(column, I.Greater);
    var m := Best(column, I.Greater).value;
    var slot := DecV(q, now, m.unscaled);
    if now > wrote { ScaleGrows(m.unscaled, wrote, now); }
    if now < wrote { ScaleGrows(m.unscaled, now, wrote); }
    forall v | v in column && v.DecV? ensures Scale(v.unscaled, now) <= Scale(m.unscaled, now) {
      ScaleMonotone(v.unscaled, m.unscaled, now);
    }
    assert DecLeq(m, slot) <==> Scale(m.unscaled, now) <= Scale(m.unscaled, wrote);
  }

  // ---------------------------------------------------------------- folding

  /** `scalar_less`: only like with like, decimals only at equal scale. */
  function ScalarLess(a: Scalar, b: Scalar): Option<bool> {
    match (a, b)
    case (IntV(p, s, m), IntV(q, t, n)) => if p == q && s == t then Some(m < n) else None
    case (DecV(p, s, m), DecV(q, t, n)) => if (p > MAX_DECIMAL128) == (q > MAX_DECIMAL128) && s == t then Some(m < n) else None
    case (StrV(x), StrV(y)) => Some(I.CompareText(x, y) == I.Less)
    case _ => None
  }

  /** Values the fold may compare: integers of one type, decimals of one width and scale, or text. */
  ghost predicate Comparable(a: Scalar, b: Scalar) {
    || (a.StrV? && b.StrV?)
    || (a.IntV? && b.IntV? && TypeOf(a) == TypeOf(b))
    || (a.DecV? && b.DecV? && a.scale == b.scale && (a.precision > MAX_DECIMAL128 <==> b.precision > MAX_DECIMAL128))
  }

  /** Comparable values compare in key order, all others not at all. */
  lemma ScalarLessExact(a: Scalar, b: Scalar)
    ensures ScalarLess(a, b) == if Comparable(a, b) then Some(I.Compare(a, b) == I.Less) else None
  {
  }

  /** Keep the candidate when it is known to lie beyond the current value. */
  function Better(cur: Option<Scalar>, candidate: Option<Scalar>, want: I.Ordering): Option<Scalar> {
    if candidate.None? then cur
    else if cur.None? then candidate
    else
      var beyond := if want == I.Less then ScalarLess(candidate.value, cur.value) else ScalarLess(cur.value, candidate.value);
      if beyond == Some(true) then candidate else cur
  }

  /** One segment's contribution. */
  function Candidate(p: Parsed, idx: nat, want: I.Ordering): Option<Scalar> {
    if idx < |p.columns| then (if want == I.Less then p.columns[idx].min else p.columns[idx].max) else None
  }

  function FoldBest(parsed: seq<Parsed>, idx: nat, want: I.Ordering): Option<Scalar> {
    if parsed == [] then None
    else
      var n := |parsed| - 1;
      Better(FoldBest(parsed[..n], idx, want), Candidate(parsed[n], idx, want), want)
  }

  function FoldNulls(parsed: seq<Parsed>, idx: nat): Option<nat> {
    if parsed == [] then None
    else
      var n := |parsed| - 1;
      var before := FoldNulls(parsed[..n], idx);
      if idx < |parsed[n].columns| && parsed[n].columns[idx].nulls.Some?
      then Some((if before.Some? then before.value else 0) + parsed[n].columns[idx].nulls.value) else before
  }

  /** `fold_column_stats`: the accumulator loop. */
  method FoldColumnStats(parsed: seq<Parsed>, idx: nat) returns (r: ColumnStats)
    ensures r == ColumnStats(FoldBest(parsed, idx, I.Less), FoldBest(parsed, idx, I.Greater), FoldNulls(parsed, idx))
  {
    var min: Option<Scalar>, max: Option<Scalar> := None, None;
    var nulls, haveNull := 0, false;
    for i := 0 to |parsed|
      invariant min == FoldBest(parsed[..i], idx, I.Less) && max == FoldBest(parsed[..i], idx, I.Greater)
      invariant FoldNulls(parsed[..i], idx) == if haveNull then Some(nulls) else None
      invariant !haveNull ==> nulls == 0
    {
      assert parsed[..i + 1][..i] == parsed[..i];
      if idx < |parsed[i].columns| {
        var c := parsed[i].columns[idx];
        if c.min.Some? {
          if min.None? { min := c.min; }
          else if ScalarLess(c.min.value, min.value) == Some(true) { min := c.min; }
        }
        if c.max.Some? {
          if max.None? { max := c.max; }
          else if ScalarLess(max.value, c.max.value) == Some(true) { max := c.max; }
        }
        if c.nulls.Some? { nulls, haveNull := nulls + c.nulls.value, true; }
      }
    }
    assert parsed[..|parsed|] == parsed;
    r := ColumnStats(min, max, if haveNull then Some(nulls) else None);
  }

  /** Every segment wrote its own statistics and offers the column under the reader's type. */
  predicate Written(batches: seq<Batch>, parsed: seq<Parsed>, schema: Schema, idx: nat) {
    idx < |schema| && Prunable(schema[idx].t) && |parsed| == |batches|
    && forall i :: 0 <= i < |batches| ==> Offered(batches[i], schema[idx]).Some? && parsed[i] == Parse(Compute(batches[i]), schema)
  }

  lemma LessIsCompare(a: Scalar, b: Scalar)
    requires TypeOf(a) == TypeOf(b) && !a.NullV? && !b.NullV? && !a.FloatV?
    ensures ScalarLess(a, b) == Some(I.Compare(a, b) == I.Less)
  {
  }

  lemma BetterBounds(cur: Option<Scalar>, candidate: Option<Scalar>, want: I.Ordering, t: DataType, column: seq<Scalar>)
    requires want != I.Equal && Prunable(t)
    requires cur.Some? ==> TypeOf(cur.value) == t && !cur.value.NullV?
    requires candidate.Some? ==> TypeOf(candidate.value) == t && !candidate.value.NullV?
    ensures var r := Better(cur, candidate, want);
            && (r.None? <==> cur.None? && candidate.None?) && (r.Some? ==> TypeOf(r.value) == t && !r.value.NullV?)
            && (cur.Some? && Bounds(cur.value, column, want) ==> Bounds(r.value, column, want))
            && (candidate.Some? && Bounds(candidate.value, column, want) ==> Bounds(r.value, column, want))
  {
    if cur.Some? && candidate.Some? {
      var x, y := cur.value, candidate.value;
      LessIsCompare(x, y);
      LessIsCompare(y, x);
      I.CompareFlip(x, y);
      forall v | v in column && !v.NullV?
        ensures I.Compare(v, x) != want && I.Compare(y, x) == want ==> I.Compare(v, y) != want
        ensures I.Compare(v, y) != want && I.Compare(y, x) != want ==> I.Compare(v, x) != want
      {
        if I.Compare(v, x) != want && I.Compare(y, x) == want { Beyond(y, x, v, want); }
        if I.Compare(v, y) != want && I.Compare(y, x) != want { Beyond(x, y, v, want); }
      }
    }
  }

  /** A known value of type `t` that bounds the column, or unknown where the column has no value. */
  predicate Covers(r: Option<Scalar>, column: seq<Scalar>, t: DataType, want: I.Ordering) {
    && (r.None? <==> AllNulls(column))
    && (r.Some? ==> TypeOf(r.value) == t && !r.value.NullV? && r.value in column && Bounds(r.value, column, want))
  }

  predicate Among(v: Scalar, columns: seq<seq<Scalar>>) { exists i :: 0 <= i < |columns| && v in columns[i] }

  lemma {:induction false} FoldCovers(parsed: seq<Parsed>, idx: nat, want: I.Ordering, columns: seq<seq<Scalar>>, t: DataType)
    requires want != I.Equal && Prunable(t) && |columns| == |parsed|
    requires forall i :: 0 <= i < |parsed| ==> Covers(Candidate(parsed[i], idx, want), columns[i], t, want)
    ensures var r := FoldBest(parsed, idx, want);
            && (r.None? <==> forall i :: 0 <= i < |columns| ==> AllNulls(columns[i]))
            && (r.Some? ==> TypeOf(r.value) == t && !r.value.NullV? && forall i :: 0 <= i < |columns| ==> Bounds(r.value, columns[i], want))
  {
    if parsed != [] {
      var n := |parsed| - 1;
      FoldCovers(parsed[..n], idx, want, columns[..n], t);
      var cur, candidate := FoldBest(parsed[..n], idx, want), Candidate(parsed[n], idx, want);
      var r := Better(cur, candidate, want);
      assert Covers(candidate, columns[n], t, want);
      forall i | 0 <= i < |columns| && r.Some? ensures Bounds(r.value, columns[i], want) {
        if i < n { assert columns[i] == columns[..n][i]; }
        BetterBounds(cur, candidate, want, t, columns[i]);
      }
      BetterBounds(cur, candidate, want, t, columns[n]);
      assert forall i :: 0 <= i < n ==> columns[i] == columns[..n][i];
    }
  }

  lemma {:induction false} FoldAttained(parsed: seq<Parsed>, idx: nat, want: I.Ordering, columns: seq<seq<Scalar>>)
    requires |columns| == |parsed|
    requires forall i :: 0 <= i < |parsed| && Candidate(parsed[i], idx, want).Some? ==> Candidate(parsed[i], idx, want).value in columns[i]
    ensures FoldBest(parsed, idx, want).Some? ==> Among(FoldBest(parsed, idx, want).value, columns)
  {
    if parsed != [] {
      var n := |parsed| - 1;
      FoldAttained(parsed[..n], idx, want, columns[..n]);
      if FoldBest(parsed[..n], idx, want).Some? {
        var v := FoldBest(parsed[..n], idx, want).value;
        var i :| 0 <= i < n && v in columns[..n][i];
        assert v in columns[i];
      }
    }
  }

  /** The column every segment offers the reader. */
  function ReadColumns(batches: seq<Batch>, f: Field): (r: seq<seq<Scalar>>)
    requires forall i :: 0 <= i < |batches| ==> Offered(batches[i], f).Some?
  {
    seq(|batches|, i requires 0 <= i < |batches| => Offered(batches[i], f).value)
  }

  /** The folded bound exists unless no segment holds a value, has the column's type, and bounds
      every non-null value of every segment. */
  lemma FoldBounds(batches: seq<Batch>, parsed: seq<Parsed>, schema: Schema, idx: nat, want: I.Ordering)
    requires Written(batches, parsed, schema, idx) && want != I.Equal
    ensures var r, columns := FoldBest(parsed, idx, want), ReadColumns(batches, schema[idx]);
            && (r.None? <==> forall i :: 0 <= i < |columns| ==> AllNulls(columns[i]))
            && (r.Some? ==> TypeOf(r.value) == schema[idx].t && !r.value.NullV? && forall i :: 0 <= i < |columns| ==> Bounds(r.value, columns[i], want))
            && (r.Some? ==> Among(r.value, columns))
  {
    var columns := ReadColumns(batches, schema[idx]);
    forall i | 0 <= i < |parsed| ensures Covers(Candidate(parsed[i], idx, want), columns[i], schema[idx].t, want) {
      ParsedBounds(batches[i], schema, idx);
      var c := Candidate(parsed[i], idx, want);
      if c.Some? { ConformingType(columns[i], schema[idx], batches[i].rows, c.value); }
    }
    FoldCovers(parsed, idx, want, columns, schema[idx].t);
    FoldAttained(parsed, idx, want, columns);
  }

  lemma ConformingType(column: seq<Scalar>, f: Field, rows: nat, v: Scalar)
    requires Conforms(column, f, rows) && v in column
    ensures TypeOf(v) == f.t
  {
    var i :| 0 <= i < |column| && column[i] == v;
  }

  /** A segment without statistics is passed over, so folded bounds need not cover its values. */
  lemma UnwrittenSegmentEscapes()
    ensures exists b: Batch, c: Batch, schema: Schema ::
              && |schema| == 1 && Offered(b, schema[0]).Some? && Offered(c, schema[0]).Some?
              && var low := FoldBest([Parse(Compute(b), schema), Parse(Absent, schema)], 0, I.Less);
                 low.Some? && !Bounds(low.value, Offered(c, schema[0]).value, I.Less)
  {
    var f := Field("n", Int(64, true), false);
    var b: Batch := Columns([f], [[IntV(64, true, 5)]], 1);
    var c: Batch := Columns([f], [[IntV(64, true, 3)]], 1);
    var parsed := [Parse(Compute(b), [f]), Parse(Absent, [f])];
    ParsedColumn(b, [f], 0);
    assert Best([IntV(64, true, 5)], I.Less) == Some(IntV(64, true, 5));
    assert parsed[..1][..0] == [] && parsed[..1][0] == parsed[0];
    assert FoldBest(parsed[..1], 0, I.Less) == Some(IntV(64, true, 5));
    assert Offered(c, [f][0]).value[0] == IntV(64, true, 3);
    assert !Bounds(IntV(64, true, 5), Offered(c, [f][0]).value, I.Less);
  }

  function TotalNulls(columns: seq<seq<Scalar>>): nat {
    if columns == [] then 0 else TotalNulls(columns[..|columns| - 1]) + |NullRows(columns[|columns| - 1])|
  }

  lemma {:induction false} FoldNullsSum(parsed: seq<Parsed>, idx: nat, columns: seq<seq<Scalar>>)
    requires |columns| == |parsed|
    requires forall i :: 0 <= i < |parsed| ==> idx < |parsed[i].columns| && parsed[i].columns[idx].nulls == Some(|NullRows(columns[i])|)
    ensures FoldNulls(parsed, idx) == if columns == [] then None else Some(TotalNulls(columns))
  {
    if parsed != [] { FoldNullsSum(parsed[..|parsed| - 1], idx, columns[..|columns| - 1]); }
  }

  /** Where every segment's file has the column, the folded null count is the exact total. */
  lemma FoldNullsExact(batches: seq<Batch>, parsed: seq<Parsed>, schema: Schema, idx: nat)
    requires Written(batches, parsed, schema, idx)
    requires forall i :: 0 <= i < |batches| ==> IndexOf(batches[i].fields, schema[idx].name).Some?
    ensures FoldNulls(parsed, idx) == if batches == [] then None else Some(TotalNulls(ReadColumns(batches, schema[idx])))
  {
    var columns := ReadColumns(batches, schema[idx]);
    forall i | 0 <= i < |parsed| ensures parsed[i].columns[idx].nulls == Some(|NullRows(columns[i])|) {
      NullCountIsCount(columns[i]);
      LookupComputed(batches[i].fields, Compute(batches[i]).columns, schema[idx].name);
    }
    FoldNullsSum(parsed, idx, columns);
  }
}
