/** The per-segment index sidecar: sorted composite keys with row offsets, the binary-search seek
    over it, and the intersection of several seeks on one segment. */
module SegmentIndex {
  import opened Base
  import opened Literals

  // ---------------------------------------------------------------- key order

  datatype Ordering = Less | Equal | Greater

  function CompareInt(a: int, b: int): Ordering { if a < b then Less else if a == b then Equal else Greater }

  function CompareText(a: string, b: string): Ordering {
    if a == [] then (if b == [] then Equal else Less)
    else if b == [] then Greater
    else if a[0] != b[0] then CompareInt(a[0] as int, b[0] as int)
    else CompareText(a[1..], b[1..])
  }

  function Class(v: Scalar): nat {
    match v
    case IntV(_, _, _) => 0
    case DecV(_, _, _) => 0
    case StrV(_) => 1
    case FloatV(_) => 2
    case NullV(_) => 3
  }

  /** Ascending, nulls last. */
  function Compare(a: Scalar, b: Scalar): Ordering {
    if Class(a) != Class(b) then CompareInt(Class(a), Class(b))
    else if IsNumber(a) then CompareInt(Unscaled(a), Unscaled(b))
    else if a.StrV? then CompareText(a.s, b.s)
    else if a.FloatV? then CompareInt(a.repr, b.repr)
    else Equal
  }

  /** Lexicographic, on the probe's columns only: a shorter probe is a prefix probe. */
  function CompareKeys(key: seq<Scalar>, probe: seq<Scalar>): Ordering
    requires |probe| <= |key|
  {
    if probe == [] then Equal
    else if Compare(key[0], probe[0]) == Equal then CompareKeys(key[1..], probe[1..])
    else Compare(key[0], probe[0])
  }

  /** The texts agree up to `k`, where the first has the smaller character. */
  predicate SmallerAt(a: string, b: string, k: nat) { k < |a| && k < |b| && a[..k] == b[..k] && a[k] < b[k] }

  lemma AgreeFirst(a: string, b: string, k: nat)
    requires SmallerAt(a, b, k)
    ensures k > 0 ==> a[0] == b[0]
  {
    if k > 0 { assert a[..k][0] == b[..k][0]; }
  }

  lemma SmallerLater(a: string, b: string, k: nat)
    requires a != [] && b != [] && a[0] == b[0]
    ensures SmallerAt(a[1..], b[1..], k) <==> SmallerAt(a, b, k + 1)
  {
    if k < |a| - 1 && k < |b| - 1 {
      assert a[..k + 1] == [a[0]] + a[1..][..k] && b[..k + 1] == [b[0]] + b[1..][..k];
      assert a[..k + 1][1..] == a[1..][..k] && b[..k + 1][1..] == b[1..][..k];
    }
  }

  lemma PrefixLater(a: string, b: string)
    requires a != [] && b != [] && a[0] == b[0]
    ensures a < b <==> a[1..] < b[1..]
  {
    assert a == [a[0]] + a[1..] && b == [b[0]] + b[1..];
  }

  /** Text order: a proper prefix comes first, else the first difference decides. */
  lemma {:induction false} TextOrder(a: string, b: string)
    ensures CompareText(a, b) == Less <==> a < b || exists k: nat :: SmallerAt(a, b, k)
  {
    if a != [] && b != [] {
      if a[0] == b[0] {
        TextOrder(a[1..], b[1..]);
        PrefixLater(a, b);
        if k: nat :| SmallerAt(a[1..], b[1..], k) { SmallerLater(a, b, k); }
        if k: nat :| SmallerAt(a, b, k) { SmallerLater(a, b, k - 1); }
      } else {
        if a[0] < b[0] { assert SmallerAt(a, b, 0); }
        forall k: nat | SmallerAt(a, b, k) ensures k > 0 ==> a[0] == b[0] { AgreeFirst(a, b, k); }
      }
    }
  }

  /** Ascending and nulls last, within one column type. */
  lemma OrderMeaning(a: Scalar, b: Scalar)
    requires TypeOf(a) == TypeOf(b)
    ensures a.NullV? ==> Compare(a, b) != Less
    ensures !a.NullV? && b.NullV? ==> Compare(a, b) == Less
    ensures IsNumber(a) && IsNumber(b) ==> (Compare(a, b) == Less <==> Unscaled(a) < Unscaled(b))
    ensures a.StrV? && b.StrV? ==> (Compare(a, b) == Less <==> a.s < b.s || exists k: nat :: SmallerAt(a.s, b.s, k))
  {
    if a.StrV? && b.StrV? { TextOrder(a.s, b.s); }
  }

  /** Keys compare by their first differing column. */
  lemma {:induction false} KeyOrder(key: seq<Scalar>, probe: seq<Scalar>, k: nat)
    requires |probe| <= |key| && k < |probe| && Compare(key[k], probe[k]) != Equal
    requires forall i :: 0 <= i < k ==> Compare(key[i], probe[i]) == Equal
    ensures CompareKeys(key, probe) == Compare(key[k], probe[k])
  {
    if k > 0 { KeyOrder(key[1..], probe[1..], k - 1); }
  }

  lemma {:induction false} TextEqual(a: string, b: string)
    ensures CompareText(a, b) == Equal <==> a == b
  {
    if a != [] && b != [] {
      TextEqual(a[1..], b[1..]);
      assert a == [a[0]] + a[1..] && b == [b[0]] + b[1..];
    }
  }

  lemma {:induction false} TextChain(a: string, b: string, c: string)
    requires CompareText(a, b) != Greater && CompareText(b, c) != Greater
    ensures CompareText(a, c) == if CompareText(a, b) == Equal && CompareText(b, c) == Equal then Equal else Less
  {
    if a != [] && b != [] && c != [] && a[0] == b[0] == c[0] { TextChain(a[1..], b[1..], c[1..]); }
  }

  lemma Chain(a: Scalar, b: Scalar, c: Scalar)
    requires Compare(a, b) != Greater && Compare(b, c) != Greater
    ensures Compare(a, c) == if Compare(a, b) == Equal && Compare(b, c) == Equal then Equal else Less
  {
    if a.StrV? && b.StrV? && c.StrV? { TextChain(a.s, b.s, c.s); }
  }

  /** A probe that is at or above a key is at or above every smaller key, and strictly when it was strict. */
  lemma {:induction false} ChainKeys(a: seq<Scalar>, b: seq<Scalar>, probe: seq<Scalar>)
    requires |a| == |b| && |probe| <= |b| && CompareKeys(a, b) != Greater
    ensures CompareKeys(b, probe) != Greater ==> CompareKeys(a, probe) != Greater
    ensures CompareKeys(b, probe) == Less ==> CompareKeys(a, probe) == Less
  {
    if probe != [] && CompareKeys(b, probe) != Greater {
      Chain(a[0], b[0], probe[0]);
      if Compare(a[0], b[0]) == Equal && Compare(b[0], probe[0]) == Equal {
        ChainKeys(a[1..], b[1..], probe[1..]);
      }
    }
  }

  function Flip(o: Ordering): Ordering {
    match o
    case Less => Greater
    case Equal => Equal
    case Greater => Less
  }

  lemma {:induction false} TextFlip(a: string, b: string)
    ensures CompareText(b, a) == Flip(CompareText(a, b))
  {
    if a != [] && b != [] && a[0] == b[0] { TextFlip(a[1..], b[1..]); }
  }

  lemma CompareFlip(a: Scalar, b: Scalar)
    ensures Compare(b, a) == Flip(Compare(a, b))
  {
    if a.StrV? && b.StrV? { TextFlip(a.s, b.s); }
  }

  lemma {:induction false} KeysFlip(a: seq<Scalar>, b: seq<Scalar>)
    requires |a| == |b|
    ensures CompareKeys(b, a) == Flip(CompareKeys(a, b))
  {
    if a != [] {
      CompareFlip(a[0], b[0]);
      KeysFlip(a[1..], b[1..]);
    }
  }

  // ---------------------------------------------------------------- the sidecar

  datatype Entry = Entry(key: seq<Scalar>, offset: int)

  datatype Sidecar = Sidecar(keyTypes: seq<DataType>, entries: seq<Entry>)

  /** Every key has the sidecar's arity and types. */
  predicate Typed(key: seq<Scalar>, types: seq<DataType>) {
    |key| == |types| && forall i :: 0 <= i < |key| ==> TypeOf(key[i]) == types[i]
  }

  ghost predicate Sorted(es: seq<Entry>, arity: nat) {
    && (forall i :: 0 <= i < |es| ==> |es[i].key| == arity)
    && (forall i, j :: 0 <= i < j < |es| ==> CompareKeys(es[i].key, es[j].key) != Greater)
  }

  ghost predicate WellFormed(sc: Sidecar) {
    Sorted(sc.entries, |sc.keyTypes|) && forall e :: e in sc.entries ==> Typed(e.key, sc.keyTypes)
  }

  ghost predicate HasOffset(es: seq<Entry>, o: int) { exists i :: 0 <= i < |es| && es[i].offset == o }

  /** `es` lists every row once, with its own key, in key order. */
  ghost predicate IsIndexOf(es: seq<Entry>, rows: seq<seq<Scalar>>, arity: nat) {
    && Sorted(es, arity) && |es| == |rows|
    && (forall i :: 0 <= i < |es| ==> 0 <= es[i].offset < |rows| && es[i].key == rows[es[i].offset])
    && (forall o :: 0 <= o < |rows| ==> HasOffset(es, o))
  }

  function Insert(e: Entry, es: seq<Entry>): (r: seq<Entry>)
    requires forall i :: 0 <= i < |es| ==> |es[i].key| == |e.key|
    ensures |r| == |es| + 1
    ensures forall x :: x in r <==> x == e || x in es
  {
    if es == [] then [e]
    else if CompareKeys(e.key, es[0].key) != Greater then [e] + es
    else [es[0]] + Insert(e, es[1..])
  }

  lemma BelowAll(key: seq<Scalar>, es: seq<Entry>, j: nat)
    requires Sorted(es, |key|) && j < |es| && CompareKeys(key, es[0].key) != Greater
    ensures CompareKeys(key, es[j].key) != Greater
  {
    if CompareKeys(key, es[j].key) == Greater {
      KeysFlip(key, es[j].key);
      if j > 0 { ChainKeys(es[0].key, es[j].key, key); }
      KeysFlip(key, es[0].key);
    }
  }

  lemma ConsSorts(e: Entry, es: seq<Entry>)
    requires Sorted(es, |e.key|) && forall x :: x in es ==> |x.key| == |e.key| && CompareKeys(e.key, x.key) != Greater
    ensures Sorted([e] + es, |e.key|)
  {
  }

  lemma {:induction false} InsertSorts(e: Entry, es: seq<Entry>)
    requires Sorted(es, |e.key|)
    ensures Sorted(Insert(e, es), |e.key|)
  {
    if es != [] {
      if CompareKeys(e.key, es[0].key) != Greater {
        forall x | x in es ensures |x.key| == |e.key| && CompareKeys(e.key, x.key) != Greater {
          var j :| 0 <= j < |es| && es[j] == x;
          BelowAll(e.key, es, j);
        }
        ConsSorts(e, es);
      } else {
        InsertSorts(e, es[1..]);
        KeysFlip(e.key, es[0].key);
        ConsSorts(es[0], Insert(e, es[1..]));
      }
    }
  }

  /** Row `i` of a list of equally long columns. */
  function RowAt(columns: seq<seq<Scalar>>, i: nat): seq<Scalar>
    requires forall c :: c in columns ==> i < |c|
  {
    seq(|columns|, j requires 0 <= j < |columns| => columns[j][i])
  }

  function RowsOf(columns: seq<seq<Scalar>>): (rows: seq<seq<Scalar>>)
    requires columns != [] && forall c :: c in columns ==> |c| == |columns[0]|
  {
    seq(|columns[0]|, i requires 0 <= i < |columns[0]| => RowAt(columns, i))
  }

  /** `build_segment_index`. */
  method BuildSegmentIndex(columns: seq<seq<Scalar>>) returns (r: Result<seq<Entry>>)
    ensures r.Err? <==> columns == [] || exists c :: c in columns && |c| != |columns[0]|
    ensures r.Ok? ==> IsIndexOf(r.value, RowsOf(columns), |columns|)
  {
    if columns == [] { return Err("no key column"); }
    if exists c :: c in columns && |c| != |columns[0]| { return Err("key columns of differing length"); }
    var es := SortRows(RowsOf(columns), |columns|);
    return Ok(es);
  }

  method SortRows(rows: seq<seq<Scalar>>, arity: nat) returns (es: seq<Entry>)
    requires forall row :: row in rows ==> |row| == arity
    ensures IsIndexOf(es, rows, arity)
  {
    es := [];
    for i := 0 to |rows|
      invariant IsIndexOf(es, rows[..i], arity)
    {
      var e := Entry(rows[i], i);
      InsertSorts(e, es);
      InsertIndexes(e, es, rows[..i], rows[..i + 1]);
      es := Insert(e, es);
    }
    assert rows[..|rows|] == rows;
  }

  lemma InsertPoints(e: Entry, es: seq<Entry>, rows: seq<seq<Scalar>>, i: nat)
    requires IsIndexOf(es, rows, |e.key|) && e.offset == |rows| && i < |Insert(e, es)|
    ensures 0 <= Insert(e, es)[i].offset <= |rows| && Insert(e, es)[i].key == (rows + [e.key])[Insert(e, es)[i].offset]
  {
    var x := Insert(e, es)[i];
    assert x in Insert(e, es);
    if x != e { var j :| 0 <= j < |es| && es[j] == x; }
  }

  lemma InsertReaches(e: Entry, es: seq<Entry>, rows: seq<seq<Scalar>>, o: int)
    requires IsIndexOf(es, rows, |e.key|) && e.offset == |rows| && 0 <= o <= |rows|
    ensures HasOffset(Insert(e, es), o)
  {
    var x := e;
    if o < |rows| {
      assert HasOffset(es, o);
      var j :| 0 <= j < |es| && es[j].offset == o;
      x := es[j];
    }
    assert x in Insert(e, es);
    var k :| 0 <= k < |Insert(e, es)| && Insert(e, es)[k] == x;
  }

  lemma InsertIndexes(e: Entry, es: seq<Entry>, rows: seq<seq<Scalar>>, more: seq<seq<Scalar>>)
    requires IsIndexOf(es, rows, |e.key|) && Sorted(Insert(e, es), |e.key|)
    requires more == rows + [e.key] && e.offset == |rows|
    ensures IsIndexOf(Insert(e, es), more, |e.key|)
  {
    forall i | 0 <= i < |Insert(e, es)|
      ensures 0 <= Insert(e, es)[i].offset < |more| && Insert(e, es)[i].key == more[Insert(e, es)[i].offset]
    {
      InsertPoints(e, es, rows, i);
    }
    forall o | 0 <= o < |more| ensures HasOffset(Insert(e, es), o) { InsertReaches(e, es, rows, o); }
  }

  // ---------------------------------------------------------------- increasing offset lists

  ghost predicate Increasing(s: seq<int>) { forall i, j :: 0 <= i < j < |s| ==> s[i] < s[j] }

  /** An increasing list is determined by its elements. */
  lemma {:induction false} IncreasingUnique(a: seq<int>, b: seq<int>)
    requires Increasing(a) && Increasing(b) && forall x :: x in a <==> x in b
    ensures a == b
  {
    if a != [] { assert a[0] in a; }
    if b != [] { assert b[0] in b; }
    if a != [] {
      assert a[0] == b[0];
      forall x ensures x in a[1..] <==> x in b[1..] {
        assert x in a[1..] <==> x in a && x != a[0];
        assert x in b[1..] <==> x in b && x != b[0];
      }
      IncreasingUnique(a[1..], b[1..]);
      assert a == [a[0]] + a[1..] && b == [b[0]] + b[1..];
    }
  }

  /** Sort and drop repeats. */
  function SortDedup(s: seq<int>): (r: seq<int>)
    ensures Increasing(r) && forall x :: x in r <==> x in s
  {
    if s == [] then [] else Place(s[0], SortDedup(s[1..]))
  }

  function Place(x: int, s: seq<int>): (r: seq<int>)
    requires Increasing(s)
    ensures Increasing(r) && forall y :: y in r <==> y == x || y in s
  {
    if s == [] || x < s[0] then [x] + s
    else if x == s[0] then s
    else
      var rest := Place(x, s[1..]);
      assert forall i :: 0 <= i < |rest| ==> rest[i] in rest;
      [s[0]] + rest
  }

  /** `intersect_sorted`: the two-pointer merge. */
  method IntersectSorted(a: seq<int>, b: seq<int>) returns (out: seq<int>)
    requires Increasing(a) && Increasing(b)
    ensures Increasing(out) && forall x :: x in out <==> x in a && x in b
  {
    out := [];
    var i, j := 0, 0;
    while i < |a| && j < |b|
      invariant 0 <= i <= |a| && 0 <= j <= |b|
      invariant Increasing(out)
      invariant forall k :: 0 <= k < |out| ==> out[k] in a && out[k] in b && (i < |a| ==> out[k] < a[i])
      invariant forall p, q :: 0 <= p < |a| && 0 <= q < |b| && a[p] == b[q] ==> a[p] in out || (i <= p && j <= q)
      decreases |a| - i + |b| - j
    {
      if a[i] < b[j] {
        i := i + 1;
      } else if a[i] > b[j] {
        j := j + 1;
      } else {
        out := out + [a[i]];
        i, j := i + 1, j + 1;
      }
    }
  }

  // ---------------------------------------------------------------- the seek

  /** The probe's elements in the key columns' types, or `None` when one is unrepresentable. */
  function CastTuple(probe: seq<string>, types: seq<DataType>): (r: Option<seq<Scalar>>)
    requires |probe| <= |types|
    ensures r.Some? ==> |r.value| == |probe| && forall i :: 0 <= i < |probe| ==> Cast(StrV(probe[i]), types[i]) == Some(r.value[i])
    ensures r.None? ==> exists i :: 0 <= i < |probe| && Cast(StrV(probe[i]), types[i]).None?
  {
    if probe == [] then Some([])
    else match (Cast(StrV(probe[0]), types[0]), CastTuple(probe[1..], types[1..]))
      case (Some(v), Some(rest)) => Some([v] + rest)
      case _ => None
  }

  predicate Ragged(probes: seq<seq<string>>)
    requires probes != []
  {
    exists p :: p in probes && |p| != |probes[0]|
  }

  predicate Castable(probes: seq<seq<string>>, types: seq<DataType>) {
    forall p :: p in probes ==> |p| <= |types| && CastTuple(p, types).Some?
  }

  /** Probes of unequal, zero or over-long arity, or an element no key column value can equal. */
  predicate BadProbes(sc: Sidecar, probes: seq<seq<string>>) {
    probes != [] &&
    (|probes[0]| == 0 || |probes[0]| > |sc.keyTypes|
     || (exists p :: p in probes && |p| != |probes[0]|)
     || (sc.entries != [] && exists p, i :: p in probes && 0 <= i < |p| && Cast(StrV(p[i]), sc.keyTypes[i]).None?))
  }

  /** The leading key columns equal the probe, in the columns' own types. */
  predicate KeyMatches(types: seq<DataType>, key: seq<Scalar>, probe: seq<string>) {
    |probe| <= |types| && |probe| <= |key| && forall i :: 0 <= i < |probe| ==> Cast(StrV(probe[i]), types[i]) == Some(key[i])
  }

  /** Some entry with this offset matches some probe. */
  ghost predicate Selected(sc: Sidecar, probes: seq<seq<string>>, o: int) {
    exists e, p :: e in sc.entries && p in probes && e.offset == o && KeyMatches(sc.keyTypes, e.key, p)
  }

  lemma CompareEqual(a: Scalar, b: Scalar)
    requires TypeOf(a) == TypeOf(b) && !b.NullV?
    ensures Compare(a, b) == Equal <==> a == b
  {
    if a.StrV? && b.StrV? { TextEqual(a.s, b.s); }
  }

  lemma {:induction false} KeysEqual(key: seq<Scalar>, probe: seq<Scalar>)
    requires |probe| <= |key| && forall i :: 0 <= i < |probe| ==> TypeOf(key[i]) == TypeOf(probe[i]) && !probe[i].NullV?
    ensures CompareKeys(key, probe) == Equal <==> key[..|probe|] == probe
  {
    if probe != [] {
      KeysEqual(key[1..], probe[1..]);
      CompareEqual(key[0], probe[0]);
      assert key[..|probe|] == [key[0]] + key[1..][..|probe| - 1];
      assert probe == [probe[0]] + probe[1..];
    }
  }

  lemma EqualIsEquality(key: seq<Scalar>, types: seq<DataType>, probe: seq<string>)
    requires Typed(key, types) && |probe| <= |types| && CastTuple(probe, types).Some?
    ensures CompareKeys(key, CastTuple(probe, types).value) == Equal <==> KeyMatches(types, key, probe)
  {
    forall i | 0 <= i < |probe| ensures TypeOf(CastTuple(probe, types).value[i]) == types[i] && !CastTuple(probe, types).value[i].NullV? {
      CastTyped(StrV(probe[i]), types[i]);
    }
    KeysEqual(key, CastTuple(probe, types).value);
  }

  /** First slot whose key is at or above the probe. */
  method LowerBound(es: seq<Entry>, arity: nat, probe: seq<Scalar>) returns (lo: nat)
    requires Sorted(es, arity) && |probe| <= arity
    ensures lo <= |es|
    ensures forall i :: 0 <= i < |es| ==> (i < lo <==> CompareKeys(es[i].key, probe) == Less)
  {
    lo := 0;
    var hi := |es|;
    while lo < hi
      invariant 0 <= lo <= hi <= |es|
      invariant forall i :: 0 <= i < lo ==> CompareKeys(es[i].key, probe) == Less
      invariant forall i :: hi <= i < |es| ==> CompareKeys(es[i].key, probe) != Less
    {
      var mid := lo + (hi - lo) / 2;
      forall i | 0 <= i < mid ensures CompareKeys(es[mid].key, probe) == Less ==> CompareKeys(es[i].key, probe) == Less {
        ChainKeys(es[i].key, es[mid].key, probe);
      }
      forall i | mid < i < |es| ensures CompareKeys(es[mid].key, probe) != Less ==> CompareKeys(es[i].key, probe) != Less {
        ChainKeys(es[mid].key, es[i].key, probe);
      }
      if CompareKeys(es[mid].key, probe) == Less { lo := mid + 1; } else { hi := mid; }
    }
  }

  ghost predicate Hit(es: seq<Entry>, arity: nat, probe: seq<Scalar>, o: int)
    requires Sorted(es, arity) && |probe| <= arity
  {
    exists i :: 0 <= i < |es| && es[i].offset == o && CompareKeys(es[i].key, probe) == Equal
  }

  ghost predicate RunOf(es: seq<Entry>, arity: nat, probe: seq<Scalar>, out: seq<int>)
    requires Sorted(es, arity) && |probe| <= arity
  {
    forall o :: o in out <==> Hit(es, arity, probe, o)
  }

  lemma RunIsHits(es: seq<Entry>, arity: nat, probe: seq<Scalar>, lo: nat, hi: nat, out: seq<int>)
    requires Sorted(es, arity) && |probe| <= arity && lo <= hi <= |es| && |out| == hi - lo
    requires forall k :: lo <= k < hi ==> out[k - lo] == es[k].offset
    requires forall k :: 0 <= k < |es| ==> (lo <= k < hi <==> CompareKeys(es[k].key, probe) == Equal)
    ensures RunOf(es, arity, probe, out)
  {
    forall o | o in out ensures Hit(es, arity, probe, o) {
      var k :| 0 <= k < |out| && out[k] == o;
      assert es[lo + k].offset == out[lo + k - lo];
    }
    forall o | Hit(es, arity, probe, o) ensures o in out {
      var k :| 0 <= k < |es| && es[k].offset == o && CompareKeys(es[k].key, probe) == Equal;
      assert out[k - lo] == o;
    }
  }

  /** The offsets of the run of entries equal to the probe. */
  method EqualRun(es: seq<Entry>, arity: nat, probe: seq<Scalar>) returns (out: seq<int>)
    requires Sorted(es, arity) && |probe| <= arity
    ensures RunOf(es, arity, probe, out)
  {
    var lo := LowerBound(es, arity, probe);
    out := [];
    var i := lo;
    while i < |es| && CompareKeys(es[i].key, probe) == Equal
      invariant lo <= i <= |es|
      invariant forall k :: lo <= k < i ==> CompareKeys(es[k].key, probe) == Equal
      invariant |out| == i - lo && forall k :: lo <= k < i ==> out[k - lo] == es[k].offset
    {
      out := out + [es[i].offset];
      i := i + 1;
    }
    forall k | i < k < |es| ensures CompareKeys(es[k].key, probe) != Equal {
      ChainKeys(es[i].key, es[k].key, probe);
    }
    RunIsHits(es, arity, probe, lo, i, out);
  }

  lemma EntryMatches(sc: Sidecar, i: nat, p: seq<string>)
    requires WellFormed(sc) && i < |sc.entries| && |p| <= |sc.keyTypes| && CastTuple(p, sc.keyTypes).Some?
    ensures |p| <= |sc.entries[i].key|
    ensures CompareKeys(sc.entries[i].key, CastTuple(p, sc.keyTypes).value) == Equal <==> KeyMatches(sc.keyTypes, sc.entries[i].key, p)
  {
    EqualIsEquality(sc.entries[i].key, sc.keyTypes, p);
  }

  /** Entry `i` carries this offset and matches the probe. */
  ghost predicate MatchesAt(sc: Sidecar, p: seq<string>, o: int, i: nat) {
    i < |sc.entries| && sc.entries[i].offset == o && KeyMatches(sc.keyTypes, sc.entries[i].key, p)
  }

  lemma SelectedOne(sc: Sidecar, p: seq<string>, o: int)
    ensures Selected(sc, [p], o) <==> exists i: nat :: MatchesAt(sc, p, o, i)
  {
    if Selected(sc, [p], o) {
      var e, q :| e in sc.entries && q in [p] && e.offset == o && KeyMatches(sc.keyTypes, e.key, q);
      var i: nat :| i < |sc.entries| && sc.entries[i] == e;
      assert MatchesAt(sc, p, o, i);
    }
    if i: nat :| MatchesAt(sc, p, o, i) { assert sc.entries[i] in sc.entries && p in [p]; }
  }

  lemma HitSelects(sc: Sidecar, p: seq<string>, probe: seq<Scalar>, o: int)
    requires WellFormed(sc) && |p| <= |sc.keyTypes| && CastTuple(p, sc.keyTypes) == Some(probe) && Hit(sc.entries, |sc.keyTypes|, probe, o)
    ensures exists i: nat :: MatchesAt(sc, p, o, i)
  {
    var i: nat :| i < |sc.entries| && sc.entries[i].offset == o && CompareKeys(sc.entries[i].key, probe) == Equal;
    EntryMatches(sc, i, p);
    assert MatchesAt(sc, p, o, i);
  }

  lemma SelectHits(sc: Sidecar, p: seq<string>, probe: seq<Scalar>, o: int, i: nat)
    requires WellFormed(sc) && |p| <= |sc.keyTypes| && CastTuple(p, sc.keyTypes) == Some(probe) && MatchesAt(sc, p, o, i)
    ensures Hit(sc.entries, |sc.keyTypes|, probe, o)
  {
    EntryMatches(sc, i, p);
  }

  lemma HitIsMatch(sc: Sidecar, p: seq<string>, o: int)
    requires WellFormed(sc) && |p| <= |sc.keyTypes| && CastTuple(p, sc.keyTypes).Some?
    ensures Hit(sc.entries, |sc.keyTypes|, CastTuple(p, sc.keyTypes).value, o) <==> Selected(sc, [p], o)
  {
    var probe := CastTuple(p, sc.keyTypes).value;
    SelectedOne(sc, p, o);
    if Hit(sc.entries, |sc.keyTypes|, probe, o) { HitSelects(sc, p, probe, o); }
    if i: nat :| MatchesAt(sc, p, o, i) { SelectHits(sc, p, probe, o, i); }
  }

  ghost predicate Collected(sc: Sidecar, probes: seq<seq<string>>, out: seq<int>) {
    forall o :: o in out <==> Selected(sc, probes, o)
  }

  /** The runs of all probes, one after the other. */
  method CollectRuns(sc: Sidecar, probes: seq<seq<string>>) returns (out: seq<int>)
    requires WellFormed(sc) && Castable(probes, sc.keyTypes)
    ensures Collected(sc, probes, out)
  {
    out := [];
    for i := 0 to |probes|
      invariant Collected(sc, probes[..i], out)
    {
      assert probes[i] in probes;
      var run := EqualRun(sc.entries, |sc.keyTypes|, CastTuple(probes[i], sc.keyTypes).value);
      TakeMore(probes, i);
      RunCollected(sc, probes[..i], probes[i], probes[..i + 1], out, run);
      out := out + run;
    }
    assert probes[..|probes|] == probes;
  }

  lemma TakeMore<T>(s: seq<T>, i: nat)
    requires i < |s|
    ensures s[..i + 1] == s[..i] + [s[i]]
  {
  }

  lemma RunCollected(sc: Sidecar, ps: seq<seq<string>>, p: seq<string>, more: seq<seq<string>>, out: seq<int>, run: seq<int>)
    requires WellFormed(sc) && |p| <= |sc.keyTypes| && CastTuple(p, sc.keyTypes).Some? && more == ps + [p] && Collected(sc, ps, out)
    requires RunOf(sc.entries, |sc.keyTypes|, CastTuple(p, sc.keyTypes).value, run)
    ensures Collected(sc, more, out + run)
  {
    forall o ensures o in out + run <==> Selected(sc, more, o) {
      HitIsMatch(sc, p, o);
      SelectedSplit(sc, ps, p, more, o);
    }
  }

  /** `seek_row_offsets`: exactly the matching offsets, increasing, or an error on a malformed probe set. */
  method SeekRowOffsets(sc: Sidecar, probes: seq<seq<string>>) returns (r: Result<seq<int>>)
    requires WellFormed(sc)
    ensures r.Err? <==> BadProbes(sc, probes)
    ensures r.Ok? ==> Increasing(r.value) && forall o :: o in r.value <==> Selected(sc, probes, o)
  {
    if probes == [] { return Ok([]); }
    if Ragged(probes) { return Err("mixed arity"); }
    if |probes[0]| == 0 || |probes[0]| > |sc.keyTypes| { return Err("arity out of range"); }
    if sc.entries == [] { return Ok([]); }
    if !Castable(probes, sc.keyTypes) { return Err("probe does not cast"); }
    var out := CollectRuns(sc, probes);
    return Ok(SortDedup(out));
  }

  lemma SelectedSplit(sc: Sidecar, ps: seq<seq<string>>, p: seq<string>, more: seq<seq<string>>, o: int)
    requires more == ps + [p]
    ensures Selected(sc, more, o) <==> Selected(sc, ps, o) || Selected(sc, [p], o)
  {
    if Selected(sc, ps, o) {
      var e, q :| e in sc.entries && q in ps && e.offset == o && KeyMatches(sc.keyTypes, e.key, q);
      assert q in more;
    }
    if Selected(sc, [p], o) {
      var e, q :| e in sc.entries && q in [p] && e.offset == o && KeyMatches(sc.keyTypes, e.key, q);
      assert q in more;
    }
    if Selected(sc, more, o) {
      var e, q :| e in sc.entries && q in more && e.offset == o && KeyMatches(sc.keyTypes, e.key, q);
      assert q in ps || q in [p];
    }
  }
}
