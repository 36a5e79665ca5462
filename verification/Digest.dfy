/** Canonical compaction of byte-view columns before the content digest.

    A view array's data buffers may hold bytes outside its rows and in any arrangement; compaction
    rebuilds them from the rows alone.
  */
module Digest {
  import opened Base

  newtype Byte = b: int | 0 <= b < 256

  type Bytes = seq<Byte>

  const MAX_INLINE: nat := 12

  /** A value of at most twelve bytes is held in the view; a longer one is a reference, with its
      first four bytes repeated in the view. */
  datatype View = Inline(bytes: Bytes) | Ref(len: nat, prefix: Bytes, buffer: nat, offset: nat)

  predicate ValidView(v: View, buffers: seq<Bytes>) {
    match v
    case Inline(b) => |b| <= MAX_INLINE
    case Ref(len, prefix, buffer, offset) =>
      && len > MAX_INLINE && buffer < |buffers| && offset + len <= |buffers[buffer]|
      && prefix == buffers[buffer][offset..offset + 4]
  }

  function Read(v: View, buffers: seq<Bytes>): Bytes
    requires ValidView(v, buffers)
  {
    match v
    case Inline(b) => b
    case Ref(len, _, buffer, offset) => buffers[buffer][offset..offset + len]
  }

  /** Views, shared data buffers, and one validity bit per row (`true` is null). */
  datatype ViewArray = ViewArray(views: seq<View>, buffers: seq<Bytes>, nulls: seq<bool>)

  predicate Valid(a: ViewArray) {
    |a.nulls| == |a.views| && forall i :: 0 <= i < |a.views| ==> ValidView(a.views[i], a.buffers)
  }

  /** The bytes in every slot, a null's hidden ones included. */
  function Slots(a: ViewArray): seq<Bytes>
    requires Valid(a)
  {
    seq(|a.views|, i requires 0 <= i < |a.views| => Read(a.views[i], a.buffers))
  }

  /** The logical rows. */
  function Cells(slots: seq<Bytes>, nulls: seq<bool>): seq<Option<Bytes>>
    requires |slots| == |nulls|
  {
    seq(|slots|, i requires 0 <= i < |slots| => if nulls[i] then None else Some(slots[i]))
  }

  // ---------------------------------------------------------------- gc

  /** Append a long value to the last buffer, or to a new one when that would pass the limit. */
  function AppendLong(buffers: seq<Bytes>, s: Bytes, limit: nat): seq<Bytes> {
    var n := |buffers|;
    if n > 0 && |buffers[n - 1]| + |s| <= limit then buffers[..n - 1] + [buffers[n - 1] + s] else buffers + [s]
  }

  function Place(s: Bytes, buffers: seq<Bytes>, limit: nat): (View, seq<Bytes>) {
    if |s| <= MAX_INLINE then (Inline(s), buffers)
    else
      var bs := AppendLong(buffers, s, limit);
      (Ref(|s|, s[..4], |bs| - 1, |bs[|bs| - 1]| - |s|), bs)
  }

  /** Every earlier buffer is still there, perhaps longer. */
  predicate Grows(bs: seq<Bytes>, more: seq<Bytes>) {
    |bs| <= |more| && forall i :: 0 <= i < |bs| ==> bs[i] <= more[i]
  }

  lemma PlaceReads(s: Bytes, buffers: seq<Bytes>, limit: nat)
    ensures var (v, bs) := Place(s, buffers, limit);
            ValidView(v, bs) && Read(v, bs) == s && Grows(buffers, bs)
  {
    if |s| > MAX_INLINE {
      var bs := AppendLong(buffers, s, limit);
      var last := bs[|bs| - 1];
      var offset := |last| - |s|;
      assert last[offset..offset + |s|] == s;
      assert last[offset..offset + 4] == s[..4];
    }
  }

  lemma GrowthKeeps(v: View, bs: seq<Bytes>, more: seq<Bytes>)
    requires ValidView(v, bs) && Grows(bs, more)
    ensures ValidView(v, more) && Read(v, more) == Read(v, bs)
  {
    if v.Ref? {
      var before, grown := bs[v.buffer], more[v.buffer];
      assert grown[..|before|] == before;
      assert grown[v.offset..v.offset + v.len] == before[v.offset..v.offset + v.len];
      assert grown[v.offset..v.offset + 4] == before[v.offset..v.offset + 4];
    }
  }

  /** Slots laid out in row order in buffers sized by the values alone. */
  function LayOut(slots: seq<Bytes>, limit: nat): (r: (seq<View>, seq<Bytes>))
    ensures |r.0| == |slots|
  {
    if slots == [] then ([], [])
    else
      var n := |slots| - 1;
      var (vs, bs) := LayOut(slots[..n], limit);
      var (v, more) := Place(slots[n], bs, limit);
      (vs + [v], more)
  }

  /** The values too long to be inlined, end to end. */
  ghost function LongBytes(slots: seq<Bytes>): Bytes {
    if slots == [] then []
    else
      var n := |slots| - 1;
      LongBytes(slots[..n]) + (if |slots[n]| > MAX_INLINE then slots[n] else [])
  }

  /** Up to the block limit all long values lie end to end in one buffer; without any there is none. */
  lemma {:induction false} LayOutPacks(slots: seq<Bytes>, limit: nat)
    requires |LongBytes(slots)| <= limit
    ensures LayOut(slots, limit).1 == if LongBytes(slots) == [] then [] else [LongBytes(slots)]
  {
    if slots != [] {
      var n := |slots| - 1;
      var before, last := LongBytes(slots[..n]), slots[n];
      LayOutPacks(slots[..n], limit);
      assert LayOut(slots, limit).1 == Place(last, LayOut(slots[..n], limit).1, limit).1;
      if |last| > MAX_INLINE {
        assert before == [] ==> before + last == last;
        assert before != [] ==> [before][..0] + [before + last] == [before + last];
      } else {
        assert before + [] == before;
      }
    }
  }

  predicate Holds(vs: seq<View>, bs: seq<Bytes>, slots: seq<Bytes>) {
    |vs| == |slots| && forall i :: 0 <= i < |slots| ==> ValidView(vs[i], bs) && Read(vs[i], bs) == slots[i]
  }

  lemma HoldsMore(vs: seq<View>, bs: seq<Bytes>, slots: seq<Bytes>, s: Bytes, limit: nat)
    requires Holds(vs, bs, slots)
    ensures Holds(vs + [Place(s, bs, limit).0], Place(s, bs, limit).1, slots + [s])
  {
    PlaceReads(s, bs, limit);
    forall i | 0 <= i < |slots| ensures ValidView(vs[i], Place(s, bs, limit).1) && Read(vs[i], Place(s, bs, limit).1) == slots[i] {
      GrowthKeeps(vs[i], bs, Place(s, bs, limit).1);
    }
  }

  lemma {:induction false} LayOutReads(slots: seq<Bytes>, limit: nat)
    ensures Holds(LayOut(slots, limit).0, LayOut(slots, limit).1, slots)
  {
    if slots != [] {
      var n := |slots| - 1;
      LayOutReads(slots[..n], limit);
      var (vs, bs) := LayOut(slots[..n], limit);
      HoldsMore(vs, bs, slots[..n], slots[n], limit);
      assert slots[..n] + [slots[n]] == slots;
    }
  }

  /** `gc`: every slot is copied, null or not. */
  function Gc(a: ViewArray, limit: nat): (r: ViewArray)
    requires Valid(a)
    ensures Valid(r) && Slots(r) == Slots(a) && r.nulls == a.nulls
  {
    LayOutReads(Slots(a), limit);
    var (vs, bs) := LayOut(Slots(a), limit);
    assert forall i :: 0 <= i < |vs| ==> Read(vs[i], bs) == Slots(a)[i];
    ViewArray(vs, bs, a.nulls)
  }

  /** Compacted arrays are equal exactly when slots, hidden bytes included, and nulls agree. */
  lemma GcCanonical(a: ViewArray, b: ViewArray, limit: nat)
    requires Valid(a) && Valid(b)
    ensures Gc(a, limit) == Gc(b, limit) <==> Slots(a) == Slots(b) && a.nulls == b.nulls
  {
    assert Slots(Gc(a, limit)) == Slots(a) && Slots(Gc(b, limit)) == Slots(b);
  }

  function SliceViews(a: ViewArray, start: nat, n: nat): (r: ViewArray)
    requires Valid(a) && start + n <= |a.views|
    ensures Valid(r) && Slots(r) == Slots(a)[start..start + n]
  {
    ViewArray(a.views[start..start + n], a.buffers, a.nulls[start..start + n])
  }

  // ---------------------------------------------------------------- columns

  /** `Offsets` is a list column (`large` for 64-bit offsets), `Fixed` a fixed-size list, `Other`
      any type without byte views, already in the form its encoding takes. */
  datatype Column =
    | Views(text: bool, a: ViewArray)
    | Offsets(large: bool, offsets: seq<nat>, child: ViewArray, nulls: seq<bool>)
    | Fixed(size: nat, length: nat, child: ViewArray, nulls: seq<bool>)
    | Other(rows: seq<Option<Bytes>>)

  predicate Increasing(s: seq<nat>) { forall i, j :: 0 <= i <= j < |s| ==> s[i] <= s[j] }

  /** Items in `n` rows of a fixed-size list. */
  function Span(size: nat, n: nat): nat { if n == 0 then 0 else Span(size, n - 1) + size }

  predicate ValidColumn(c: Column) {
    match c
    case Views(_, a) => Valid(a)
    case Offsets(_, offsets, child, nulls) =>
      Valid(child) && |offsets| == |nulls| + 1 && Increasing(offsets) && offsets[|nulls|] <= |child.views|
    case Fixed(size, length, child, nulls) => Valid(child) && |nulls| == length && |child.views| == Span(size, length)
    case Other(_) => true
  }

  type Col = c: Column | ValidColumn(c) witness Other([])

  /** The offsets relative to the first, and the child range they span. */
  function Rebase(offsets: seq<nat>): (r: seq<nat>)
    requires |offsets| > 0 && Increasing(offsets)
    ensures |r| == |offsets| && Increasing(r) && r[0] == 0 && forall i :: 0 <= i < |r| ==> r[i] == offsets[i] - offsets[0]
  {
    seq(|offsets|, i requires 0 <= i < |offsets| => offsets[i] - offsets[0])
  }

  function Spanned(offsets: seq<nat>, child: ViewArray): (r: ViewArray)
    requires |offsets| > 0 && Increasing(offsets) && Valid(child) && offsets[|offsets| - 1] <= |child.views|
    ensures Valid(r) && Slots(r) == Slots(child)[offsets[0]..offsets[|offsets| - 1]]
  {
    SliceViews(child, offsets[0], offsets[|offsets| - 1] - offsets[0])
  }

  /** `compact_column`. */
  function Compact(c: Col, limit: nat): Col {
    match c
    case Views(t, a) => Views(t, Gc(a, limit))
    case Offsets(l, offsets, child, nulls) => Offsets(l, Rebase(offsets), Gc(Spanned(offsets, child), limit), nulls)
    case Fixed(size, length, child, nulls) => Fixed(size, length, Gc(child, limit), nulls)
    case Other(_) => c
  }

  // ---------------------------------------------------------------- meaning

  datatype Cell = Null | Value(bytes: Bytes) | Values(items: seq<Option<Bytes>>)

  function CellsOf(a: ViewArray): seq<Option<Bytes>>
    requires Valid(a)
  {
    Cells(Slots(a), a.nulls)
  }

  function RangeCells(child: ViewArray, from: nat, to: nat): seq<Option<Bytes>>
    requires Valid(child) && from <= to <= |child.views|
  {
    CellsOf(child)[from..to]
  }

  lemma {:induction false} SpanSum(size: nat, m: nat, n: nat)
    ensures Span(size, m + n) == Span(size, m) + Span(size, n)
  {
    if n > 0 { SpanSum(size, m, n - 1); }
  }

  lemma FixedRange(size: nat, length: nat, i: nat)
    requires i < length
    ensures Span(size, i) <= Span(size, i + 1) <= Span(size, length) && Span(size, i + 1) == Span(size, i) + size
  {
    SpanSum(size, i + 1, length - i - 1);
  }

  function Len(c: Col): nat {
    match c
    case Views(_, a) => |a.views|
    case Offsets(_, _, _, nulls) => |nulls|
    case Fixed(_, length, _, _) => length
    case Other(rows) => |rows|
  }

  function RowAt(c: Col, i: nat): Cell
    requires i < Len(c)
  {
    match c
    case Views(_, a) => if a.nulls[i] then Null else Value(Read(a.views[i], a.buffers))
    case Offsets(_, offsets, child, nulls) => if nulls[i] then Null else Values(RangeCells(child, offsets[i], offsets[i + 1]))
    case Fixed(size, length, child, nulls) =>
      FixedRange(size, length, i);
      if nulls[i] then Null else Values(RangeCells(child, Span(size, i), Span(size, i + 1)))
    case Other(rows) => if rows[i].None? then Null else Value(rows[i].value)
  }

  /** The logical rows of a column. */
  function Rows(c: Col): seq<Cell> { seq(Len(c), i requires 0 <= i < Len(c) => RowAt(c, i)) }

  /** Compaction and slicing keep the cells. */
  lemma GcCells(a: ViewArray, limit: nat)
    requires Valid(a)
    ensures CellsOf(Gc(a, limit)) == CellsOf(a)
  {
    assert Slots(Gc(a, limit)) == Slots(a);
  }

  lemma SliceCells(a: ViewArray, start: nat, n: nat)
    requires Valid(a) && start + n <= |a.views|
    ensures CellsOf(SliceViews(a, start, n)) == CellsOf(a)[start..start + n]
  {
    assert Slots(SliceViews(a, start, n)) == Slots(a)[start..start + n];
  }

  lemma GcSpanned(offsets: seq<nat>, child: ViewArray, limit: nat)
    requires |offsets| > 0 && Increasing(offsets) && Valid(child) && offsets[|offsets| - 1] <= |child.views|
    ensures CellsOf(Gc(Spanned(offsets, child), limit)) == CellsOf(child)[offsets[0]..offsets[|offsets| - 1]]
  {
    GcCells(Spanned(offsets, child), limit);
    SliceCells(child, offsets[0], offsets[|offsets| - 1] - offsets[0]);
  }

  lemma SpannedCells(offsets: seq<nat>, child: ViewArray, limit: nat, i: nat)
    requires |offsets| > i + 1 && Increasing(offsets) && Valid(child) && offsets[|offsets| - 1] <= |child.views|
    ensures Rebase(offsets)[i + 1] <= |Gc(Spanned(offsets, child), limit).views|
    ensures RangeCells(Gc(Spanned(offsets, child), limit), Rebase(offsets)[i], Rebase(offsets)[i + 1])
         == RangeCells(child, offsets[i], offsets[i + 1])
  {
    GcSpanned(offsets, child, limit);
    PackedRange(Gc(Spanned(offsets, child), limit), child, offsets[0], offsets[|offsets| - 1], offsets[i], offsets[i + 1]);
  }

  lemma PackedRange(packed: ViewArray, child: ViewArray, first: nat, last: nat, from: nat, to: nat)
    requires Valid(packed) && Valid(child) && first <= from <= to <= last <= |child.views|
    requires CellsOf(packed) == CellsOf(child)[first..last]
    ensures to - first <= |packed.views| && RangeCells(packed, from - first, to - first) == RangeCells(child, from, to)
  {
    assert |packed.views| == |CellsOf(packed)| == last - first;
    SubSlice(CellsOf(child), first, last, from - first, to - first);
  }

  lemma SubSlice<T>(s: seq<T>, start: nat, end: nat, from: nat, to: nat)
    requires start <= end <= |s| && from <= to <= end - start
    ensures s[start..end][from..to] == s[start + from..start + to]
  {
    forall i | 0 <= i < to - from ensures s[start..end][from..to][i] == s[start + from..start + to][i] {
      assert s[start..end][from + i] == s[start + from + i];
    }
  }

  lemma CompactKeepsRow(c: Col, limit: nat, i: nat)
    requires i < Len(c)
    ensures Len(Compact(c, limit)) == Len(c) && RowAt(Compact(c, limit), i) == RowAt(c, i)
  {
    match c
    case Views(_, a) =>
      GcCells(a, limit);
      assert CellsOf(Gc(a, limit))[i] == CellsOf(a)[i];
    case Offsets(_, offsets, child, _) => SpannedCells(offsets, child, limit, i);
    case Fixed(size, length, child, _) =>
      FixedRange(size, length, i);
      GcCells(child, limit);
    case Other(_) =>
  }

  /** Compaction keeps every logical row, the row count and the nulls, zero-size lists included. */
  lemma CompactKeepsRows(c: Col, limit: nat)
    ensures Rows(Compact(c, limit)) == Rows(c)
  {
    assert Len(Compact(c, limit)) == Len(c);
    forall i | 0 <= i < Len(c) ensures RowAt(Compact(c, limit), i) == RowAt(c, i) { CompactKeepsRow(c, limit, i); }
  }

  // ---------------------------------------------------------------- canonical layout

  /** Same type, same row lengths, same slots and nulls, hidden ones included; nothing about how
      either side's buffers are arranged. */
  predicate SameContent(c: Col, d: Col) {
    match (c, d)
    case (Views(t, a), Views(u, b)) => t == u && Slots(a) == Slots(b) && a.nulls == b.nulls
    case (Offsets(l, p, a, m), Offsets(k, q, b, n)) =>
      && l == k && m == n && Rebase(p) == Rebase(q)
      && Slots(Spanned(p, a)) == Slots(Spanned(q, b)) && Spanned(p, a).nulls == Spanned(q, b).nulls
    case (Fixed(s, x, a, m), Fixed(t, y, b, n)) => s == t && x == y && m == n && Slots(a) == Slots(b) && a.nulls == b.nulls
    case (Other(x), Other(y)) => x == y
    case _ => false
  }

  /** Two compacted columns are physically equal exactly when their contents are. */
  lemma CompactCanonical(c: Col, d: Col, limit: nat)
    ensures Compact(c, limit) == Compact(d, limit) <==> SameContent(c, d)
  {
    match (c, d)
    case (Views(_, a), Views(_, b)) => GcCanonical(a, b, limit);
    case (Offsets(_, p, a, _), Offsets(_, q, b, _)) => GcCanonical(Spanned(p, a), Spanned(q, b), limit);
    case (Fixed(_, _, a, _), Fixed(_, _, b, _)) => GcCanonical(a, b, limit);
    case _ =>
  }

  predicate SameType(c: Col, d: Col) {
    match (c, d)
    case (Views(t, _), Views(u, _)) => t == u
    case (Offsets(l, _, _, _), Offsets(k, _, _, _)) => l == k
    case (Fixed(s, _, _, _), Fixed(t, _, _, _)) => s == t
    case (Other(_), Other(_)) => true
    case _ => false
  }

  /** A null slot of a view array holds no bytes. */
  predicate BareNulls(a: ViewArray)
    requires Valid(a)
  {
    forall i :: 0 <= i < |a.nulls| && a.nulls[i] ==> Read(a.views[i], a.buffers) == []
  }

  predicate AllNull(a: ViewArray, from: nat, to: nat)
    requires Valid(a) && from <= to <= |a.views|
  {
    forall i :: from <= i < to ==> a.nulls[i]
  }

  predicate NullItems(size: nat, length: nat, child: ViewArray, i: nat)
    requires Valid(child) && |child.views| == Span(size, length) && i < length
  {
    FixedRange(size, length, i);
    AllNull(child, Span(size, i), Span(size, i + 1))
  }

  /** Nulls hide nothing: empty ranges, all-null children, no bytes. */
  predicate NoHidden(c: Col) {
    match c
    case Views(_, a) => BareNulls(a)
    case Offsets(_, offsets, child, nulls) =>
      BareNulls(Spanned(offsets, child)) && forall i :: 0 <= i < |nulls| && nulls[i] ==> offsets[i] == offsets[i + 1]
    case Fixed(size, length, child, nulls) =>
      BareNulls(child) && forall i :: 0 <= i < length && nulls[i] ==> NullItems(size, length, child, i)
    case Other(_) => true
  }

  /** Where nulls hide no bytes, the logical cells determine slots and nulls. */
  lemma CellsDetermine(a: ViewArray, b: ViewArray)
    requires Valid(a) && Valid(b) && BareNulls(a) && BareNulls(b) && CellsOf(a) == CellsOf(b)
    ensures Slots(a) == Slots(b) && a.nulls == b.nulls
  {
    assert |a.views| == |CellsOf(a)| == |CellsOf(b)| == |b.views|;
    forall i | 0 <= i < |a.views| ensures Slots(a)[i] == Slots(b)[i] && a.nulls[i] == b.nulls[i] {
      assert CellsOf(a)[i] == CellsOf(b)[i];
    }
  }

  /** Equal rows fix the row lengths, and the cells of the range each prefix of rows spans. */
  lemma {:induction false} OffsetsAgree(c: Col, d: Col, k: nat)
    requires c.Offsets? && d.Offsets? && NoHidden(c) && NoHidden(d) && Rows(c) == Rows(d) && k <= Len(c)
    ensures Len(d) == Len(c) && Rebase(c.offsets)[k] == Rebase(d.offsets)[k]
    ensures RangeCells(c.child, c.offsets[0], c.offsets[k]) == RangeCells(d.child, d.offsets[0], d.offsets[k])
  {
    assert Len(c) == |Rows(c)| && Len(d) == |Rows(d)|;
    if k > 0 {
      OffsetsAgree(c, d, k - 1);
      assert Rows(c)[k - 1] == Rows(d)[k - 1];
      RangeSplit(c.child, c.offsets[0], c.offsets[k - 1], c.offsets[k]);
      RangeSplit(d.child, d.offsets[0], d.offsets[k - 1], d.offsets[k]);
      assert RangeCells(c.child, c.offsets[k - 1], c.offsets[k]) == RangeCells(d.child, d.offsets[k - 1], d.offsets[k]);
    }
  }

  lemma RangeSplit(a: ViewArray, from: nat, mid: nat, to: nat)
    requires Valid(a) && from <= mid <= to <= |a.views|
    ensures RangeCells(a, from, to) == RangeCells(a, from, mid) + RangeCells(a, mid, to)
    ensures |RangeCells(a, mid, to)| == to - mid
  {
  }

  lemma NullRange(size: nat, length: nat, child: ViewArray, i: nat)
    requires Valid(child) && |child.views| == Span(size, length) && i < length && NullItems(size, length, child, i)
    ensures Span(size, i) <= Span(size, i + 1) <= Span(size, length)
    ensures RangeCells(child, Span(size, i), Span(size, i + 1)) == seq(size, _ => None)
  {
    FixedRange(size, length, i);
  }

  lemma FixedItem(c: Col, d: Col, i: nat)
    requires c.Fixed? && d.Fixed? && c.size == d.size && c.length == d.length && i < c.length
    requires NoHidden(c) && NoHidden(d) && RowAt(c, i) == RowAt(d, i)
    ensures Span(c.size, i) <= Span(c.size, i + 1) <= Span(c.size, c.length)
    ensures RangeCells(c.child, Span(c.size, i), Span(c.size, i + 1)) == RangeCells(d.child, Span(d.size, i), Span(d.size, i + 1))
  {
    FixedRange(c.size, c.length, i);
    if c.nulls[i] {
      NullRange(c.size, c.length, c.child, i);
      NullRange(d.size, d.length, d.child, i);
    }
  }

  lemma {:induction false} FixedAgree(c: Col, d: Col, k: nat)
    requires c.Fixed? && d.Fixed? && c.size == d.size && NoHidden(c) && NoHidden(d) && Rows(c) == Rows(d) && k <= c.length
    ensures d.length == c.length && Span(c.size, k) <= Span(c.size, c.length)
    ensures RangeCells(c.child, 0, Span(c.size, k)) == RangeCells(d.child, 0, Span(d.size, k))
  {
    assert Len(c) == |Rows(c)| && Len(d) == |Rows(d)|;
    if k == 0 {
      assert Span(c.size, k) == 0;
    } else {
      FixedAgree(c, d, k - 1);
      assert Rows(c)[k - 1] == Rows(d)[k - 1];
      FixedItem(c, d, k - 1);
      RangeSplit(c.child, 0, Span(c.size, k - 1), Span(c.size, k));
      RangeSplit(d.child, 0, Span(c.size, k - 1), Span(c.size, k));
    }
  }

  lemma NullsAgree(c: Col, d: Col)
    requires SameType(c, d) && Rows(c) == Rows(d)
    ensures Len(c) == Len(d) && forall i :: 0 <= i < Len(c) ==> (RowAt(c, i).Null? <==> RowAt(d, i).Null?)
  {
    assert Len(c) == |Rows(c)| && Len(d) == |Rows(d)|;
    forall i | 0 <= i < Len(c) ensures RowAt(c, i) == RowAt(d, i) { assert Rows(c)[i] == Rows(d)[i]; }
  }

  lemma ViewsAgree(c: Col, d: Col)
    requires c.Views? && d.Views? && c.text == d.text && NoHidden(c) && NoHidden(d) && Rows(c) == Rows(d)
    ensures SameContent(c, d)
  {
    NullsAgree(c, d);
    forall i | 0 <= i < Len(c) ensures CellsOf(c.a)[i] == CellsOf(d.a)[i] { assert Rows(c)[i] == Rows(d)[i]; }
    CellsDetermine(c.a, d.a);
  }

  lemma NullBitsAgree(c: Col, d: Col)
    requires c.Offsets? && d.Offsets? && Rows(c) == Rows(d)
    ensures c.nulls == d.nulls
  {
    assert Len(c) == |Rows(c)| && Len(d) == |Rows(d)|;
    forall i | 0 <= i < Len(c) ensures c.nulls[i] == d.nulls[i] { assert Rows(c)[i] == Rows(d)[i]; }
  }

  lemma SpannedIsRange(c: Col)
    requires c.Offsets?
    ensures CellsOf(Spanned(c.offsets, c.child)) == RangeCells(c.child, c.offsets[0], c.offsets[Len(c)])
  {
    SliceCells(c.child, c.offsets[0], c.offsets[Len(c)] - c.offsets[0]);
  }

  lemma ListsAgree(c: Col, d: Col)
    requires c.Offsets? && d.Offsets? && c.large == d.large && NoHidden(c) && NoHidden(d) && Rows(c) == Rows(d)
    ensures SameContent(c, d)
  {
    NullBitsAgree(c, d);
    forall k | 0 <= k <= Len(c) ensures Rebase(c.offsets)[k] == Rebase(d.offsets)[k] { OffsetsAgree(c, d, k); }
    OffsetsAgree(c, d, Len(c));
    SpannedIsRange(c);
    SpannedIsRange(d);
    CellsDetermine(Spanned(c.offsets, c.child), Spanned(d.offsets, d.child));
  }

  lemma FixedsAgree(c: Col, d: Col)
    requires c.Fixed? && d.Fixed? && c.size == d.size && NoHidden(c) && NoHidden(d) && Rows(c) == Rows(d)
    ensures SameContent(c, d)
  {
    NullsAgree(c, d);
    forall i | 0 <= i < Len(c) ensures c.nulls[i] == d.nulls[i] { assert RowAt(c, i).Null? <==> RowAt(d, i).Null?; }
    FixedAgree(c, d, c.length);
    assert CellsOf(c.child) == RangeCells(c.child, 0, Span(c.size, c.length));
    assert CellsOf(d.child) == RangeCells(d.child, 0, Span(d.size, d.length));
    CellsDetermine(c.child, d.child);
  }

  /** Independently built columns of the same type with the same rows, whose nulls hide nothing,
      compact to the same physical layout. */
  lemma SameRowsSameLayout(c: Col, d: Col, limit: nat)
    requires SameType(c, d) && NoHidden(c) && NoHidden(d) && Rows(c) == Rows(d)
    ensures Compact(c, limit) == Compact(d, limit)
  {
    match c
    case Views(_, _) => ViewsAgree(c, d);
    case Offsets(_, _, _, _) => ListsAgree(c, d);
    case Fixed(_, _, _, _) => FixedsAgree(c, d);
    case Other(x) =>
      NullsAgree(c, d);
      forall i | 0 <= i < |x| ensures x[i] == d.rows[i] { assert Rows(c)[i] == Rows(d)[i]; }
    CompactCanonical(c, d, limit);
  }

  /** Bytes under a null are part of the layout: two columns of one null row each can differ. */
  lemma HiddenBytesShow(limit: nat)
    ensures exists c: Col, d: Col :: SameType(c, d) && Rows(c) == Rows(d) && Compact(c, limit) != Compact(d, limit)
  {
    var c: Col := Views(true, ViewArray([Inline([])], [], [true]));
    var d: Col := Views(true, ViewArray([Inline([7])], [], [true]));
    assert Slots(c.a)[0] != Slots(d.a)[0];
    CompactCanonical(c, d, limit);
    assert Rows(c) == [Null] && Rows(d) == [Null];
  }

  // ---------------------------------------------------------------- slices

  /** `slice`: list columns keep their whole child, fixed-size lists slice it too. */
  function Slice(c: Col, start: nat, n: nat): Col
    requires start + n <= Len(c)
  {
    match c
    case Views(t, a) => Views(t, SliceViews(a, start, n))
    case Offsets(l, offsets, child, nulls) => Offsets(l, offsets[start..start + n + 1], child, nulls[start..start + n])
    case Fixed(size, length, child, nulls) =>
      FixedSlice(size, length, start, n);
      Fixed(size, n, SliceViews(child, Span(size, start), Span(size, n)), nulls[start..start + n])
    case Other(rows) => Other(rows[start..start + n])
  }

  lemma FixedSlice(size: nat, length: nat, start: nat, n: nat)
    requires start + n <= length
    ensures Span(size, start) + Span(size, n) == Span(size, start + n) <= Span(size, length)
  {
    SpanSum(size, start, n);
    SpanSum(size, start + n, length - start - n);
  }

  lemma SliceRange(a: ViewArray, start: nat, n: nat, from: nat, to: nat)
    requires Valid(a) && start + n <= |a.views| && from <= to <= n
    ensures RangeCells(SliceViews(a, start, n), from, to) == RangeCells(a, start + from, start + to)
  {
    SliceCells(a, start, n);
    SubSlice(CellsOf(a), start, start + n, from, to);
  }

  lemma SliceItems(size: nat, length: nat, child: ViewArray, start: nat, n: nat, i: nat)
    requires Valid(child) && |child.views| == Span(size, length) && start + n <= length && i < n
    ensures Span(size, start) + Span(size, n) <= |child.views| && Span(size, i) <= Span(size, i + 1) <= Span(size, n)
    ensures Span(size, start + i) <= Span(size, start + i + 1) <= |child.views|
    ensures RangeCells(SliceViews(child, Span(size, start), Span(size, n)), Span(size, i), Span(size, i + 1))
         == RangeCells(child, Span(size, start + i), Span(size, start + i + 1))
  {
    FixedSlice(size, length, start, n);
    FixedRange(size, n, i);
    FixedSlice(size, length, start, i);
    FixedSlice(size, length, start, i + 1);
    SliceRange(child, Span(size, start), Span(size, n), Span(size, i), Span(size, i + 1));
  }

  lemma SliceRow(c: Col, start: nat, n: nat, i: nat)
    requires start + n <= Len(c) && i < n
    ensures RowAt(Slice(c, start, n), i) == RowAt(c, start + i)
  {
    if c.Fixed? { SliceItems(c.size, c.length, c.child, start, n, i); }
  }

  lemma SliceRows(c: Col, start: nat, n: nat)
    requires start + n <= Len(c)
    ensures Rows(Slice(c, start, n)) == Rows(c)[start..start + n]
  {
    assert Len(Slice(c, start, n)) == n;
    forall i | 0 <= i < n ensures Rows(Slice(c, start, n))[i] == Rows(c)[start..start + n][i] { SliceRow(c, start, n, i); }
  }

  lemma SliceType(c: Col, start: nat, n: nat)
    requires start + n <= Len(c)
    ensures SameType(c, Slice(c, start, n))
  {
  }

  /** A slice whose own nulls hide nothing, whatever the rest of its parent holds, compacts to the
      very layout an array built from its rows alone compacts to. */
  lemma SliceIsCanonical(c: Col, start: nat, n: nat, d: Col, limit: nat)
    requires start + n <= Len(c) && NoHidden(Slice(c, start, n)) && NoHidden(d) && SameType(c, d) && Rows(d) == Rows(c)[start..start + n]
    ensures Compact(Slice(c, start, n), limit) == Compact(d, limit)
  {
    SliceType(c, start, n);
    SliceRows(c, start, n);
    SameRowsSameLayout(Slice(c, start, n), d, limit);
  }

  // ---------------------------------------------------------------- whole batches

  predicate HoldsByteView(c: Col) { !c.Other? }

  /** `compact_view_buffers`: untouched when no column holds byte views. */
  function CompactBatch(columns: seq<Col>, limit: nat): (r: seq<Col>)
    ensures |r| == |columns|
  {
    if exists c :: c in columns && HoldsByteView(c)
    then seq(|columns|, i requires 0 <= i < |columns| => Compact(columns[i], limit))
    else columns
  }

  /** The gate is only a shortcut. */
  lemma CompactBatchAt(columns: seq<Col>, limit: nat, i: nat)
    requires i < |columns|
    ensures CompactBatch(columns, limit)[i] == Compact(columns[i], limit)
  {
    assert columns[i] in columns;
  }

  /** Whatever the encoding and the hash, a slice of a batch and an independently built batch of the
      same rows have one digest. */
  lemma DigestOfSlice(digest: seq<Col> -> string, batch: seq<Col>, start: nat, n: nat, built: seq<Col>, limit: nat)
    requires |built| == |batch|
    requires forall i :: 0 <= i < |batch| ==>
               && start + n <= Len(batch[i]) && NoHidden(Slice(batch[i], start, n)) && NoHidden(built[i])
               && SameType(batch[i], built[i]) && Rows(built[i]) == Rows(batch[i])[start..start + n]
    ensures var slice := seq(|batch|, i requires 0 <= i < |batch| => Slice(batch[i], start, n));
            digest(CompactBatch(slice, limit)) == digest(CompactBatch(built, limit))
  {
    var slice := seq(|batch|, i requires 0 <= i < |batch| => Slice(batch[i], start, n));
    forall i | 0 <= i < |batch| ensures CompactBatch(slice, limit)[i] == CompactBatch(built, limit)[i] {
      SliceIsCanonical(batch[i], start, n, built[i], limit);
      CompactBatchAt(slice, limit, i);
      CompactBatchAt(built, limit, i);
    }
    assert CompactBatch(slice, limit) == CompactBatch(built, limit);
  }
}
