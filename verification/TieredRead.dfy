/** A whole read over the hot tier, the cold persist band, the snapshot baseline and, for a forked
    branch, the parent's cold tier.
  */
module TieredRead {
  import opened Base
  import opened Log
  import opened MergeRead

  // ---------------------------------------------------------------- composing the parts

  function Touched(rows: seq<ResolvedRow>): set<Uuid> {
    set o | o in rows :: o.row
  }

  /** `filter_live_rows` and the projection to output columns. */
  function Live(rows: seq<ResolvedRow>): seq<OutRow> {
    if rows == [] then []
    else (if rows[0].isDelete then [] else [OutRow(rows[0].row, if rows[0].cols.Some? then rows[0].cols.value else [])])
         + Live(rows[1..])
  }

  function NotIn(rows: seq<OutRow>, excluded: set<Uuid>): seq<OutRow> {
    Filter(rows, (o: OutRow) => o.row !in excluded)
  }

  /** The merge read: latest-wins union, exclusion set from the unfiltered union, parent fold,
      snapshot anti-join, and the user's residual filter last. */
  function Merge(hot: seq<ResolvedRow>, cold: seq<ResolvedRow>, base: Option<seq<ResolvedRow>>,
                 snapshot: seq<OutRow>, residual: OutRow -> bool): seq<OutRow>
  {
    var composed := Deduped(hot + cold);
    var child, childExcluded := Live(composed), Touched(composed);
    var resolved := if base.Some? then child + NotIn(Live(base.value), childExcluded) else child;
    var excluded := if base.Some? then childExcluded + Touched(base.value) else childExcluded;
    Filter(resolved, residual) + Filter(NotIn(snapshot, excluded), residual)
  }

  ghost predicate OneEach(out: seq<OutRow>) {
    forall i, j :: 0 <= i < j < |out| ==> out[i].row != out[j].row
  }

  ghost predicate HasOut(out: seq<OutRow>, r: Uuid) {
    exists o :: o in out && o.row == r
  }

  /** `out` lists exactly the rows of `m`, each once. */
  ghost predicate Serves(out: seq<OutRow>, m: map<Uuid, Payload>) {
    && OneEach(out)
    && (forall o :: o in out ==> o.row in m && m[o.row] == o.cols)
    && (forall r :: r in m ==> HasOut(out, r))
  }

  ghost function Keep(m: map<Uuid, Payload>, residual: OutRow -> bool): map<Uuid, Payload> {
    map r | r in m && residual(OutRow(r, m[r])) :: m[r]
  }

  lemma {:induction false} InLive(rows: seq<ResolvedRow>, o: OutRow)
    ensures o in Live(rows) <==> exists q :: q in rows && !q.isDelete && o == OutRow(q.row, if q.cols.Some? then q.cols.value else [])
  {
    if rows != [] { InLive(rows[1..], o); }
  }

  lemma {:induction false} LiveOneEach(rows: seq<ResolvedRow>)
    requires OnePerRow(rows)
    ensures OneEach(Live(rows))
  {
    if rows != [] {
      LiveOneEach(rows[1..]);
      forall o | o in Live(rows[1..]) ensures o.row != rows[0].row { InLive(rows[1..], o); }
    }
  }

  lemma {:induction false} FilterOneEach(out: seq<OutRow>, p: OutRow -> bool)
    requires OneEach(out)
    ensures OneEach(Filter(out, p))
  {
    if out != [] {
      FilterOneEach(out[1..], p);
      forall o | o in Filter(out[1..], p) ensures o.row != out[0].row { assert o in out[1..]; }
    }
  }

  lemma FilterServes(out: seq<OutRow>, m: map<Uuid, Payload>, p: OutRow -> bool)
    requires Serves(out, m)
    ensures Serves(Filter(out, p), Keep(m, p))
  {
    FilterOneEach(out, p);
    forall o | o in Filter(out, p) ensures o.row in Keep(m, p) && Keep(m, p)[o.row] == o.cols {
      assert o == OutRow(o.row, m[o.row]);
    }
    forall r | r in Keep(m, p) ensures HasOut(Filter(out, p), r) {
      var o :| o in out && o.row == r;
      assert o == OutRow(r, m[r]);
      assert o in Filter(out, p);
    }
  }

  lemma NotInServes(out: seq<OutRow>, m: map<Uuid, Payload>, excluded: set<Uuid>)
    requires Serves(out, m)
    ensures Serves(NotIn(out, excluded), m - excluded)
  {
    FilterOneEach(out, (o: OutRow) => o.row !in excluded);
    forall r | r in m - excluded ensures HasOut(NotIn(out, excluded), r) {
      var o :| o in out && o.row == r;
      assert o in NotIn(out, excluded);
    }
  }

  lemma AppendServes(a: seq<OutRow>, b: seq<OutRow>, ma: map<Uuid, Payload>, mb: map<Uuid, Payload>)
    requires Serves(a, ma) && Serves(b, mb) && ma.Keys !! mb.Keys
    ensures Serves(a + b, mb + ma)
  {
    forall r | r in mb + ma ensures HasOut(a + b, r) {
      if r in ma { var o :| o in a && o.row == r; assert o in a + b; }
      else { var o :| o in b && o.row == r; assert o in a + b; }
    }
    forall i, j | 0 <= i < j < |a + b| ensures (a + b)[i].row != (a + b)[j].row {
      if i < |a| <= j { assert a[i] in a && b[j - |a|] in b; }
    }
  }

  lemma LiveServes(rows: seq<ResolvedRow>, s: set<Event>)
    requires ResolvesTo(rows, s)
    ensures Serves(Live(rows), View(s)) && Touched(rows) == Rows(s)
  {
    LiveOneEach(rows);
    forall o | o in Live(rows) ensures o.row in View(s) && View(s)[o.row] == o.cols {
      InLive(rows, o);
      var q :| q in rows && !q.isDelete && o == OutRow(q.row, if q.cols.Some? then q.cols.value else []);
      assert Carries(q, s);
    }
    forall r | r in View(s) ensures HasOut(Live(rows), r) {
      var q :| q in rows && q.row == r;
      assert Carries(q, s);
      InLive(rows, OutRow(r, View(s)[r]));
    }
    forall r ensures r in Touched(rows) <==> r in Rows(s) {
      if r in Rows(s) { assert HasRow(rows, r); }
      if r in Touched(rows) { var q :| q in rows && q.row == r; assert Carries(q, s); }
    }
  }

  lemma KeepSplits(newer: map<Uuid, Payload>, older: map<Uuid, Payload>, p: OutRow -> bool)
    requires newer.Keys !! older.Keys
    ensures Keep(older, p) + Keep(newer, p) == Keep(older + newer, p) && Keep(newer, p).Keys !! Keep(older, p).Keys
  {
  }

  /** A read without a parent source serves the union's live rows over the snapshot rows it does
      not shadow, filtered by the residual. */
  lemma MergeServes(hot: seq<ResolvedRow>, cold: seq<ResolvedRow>, snapshot: seq<OutRow>, residual: OutRow -> bool,
                    log: set<Event>, baseline: map<Uuid, Payload>)
    requires ResolvesTo(Deduped(hot + cold), log) && Serves(snapshot, baseline)
    ensures Serves(Merge(hot, cold, None, snapshot, residual), Keep(Overlay(baseline, View(log), Rows(log)), residual))
  {
    LiveServes(Deduped(hot + cold), log);
    NotInServes(snapshot, baseline, Rows(log));
    FilterServes(Live(Deduped(hot + cold)), View(log), residual);
    FilterServes(NotIn(snapshot, Rows(log)), baseline - Rows(log), residual);
    KeepSplits(View(log), baseline - Rows(log), residual);
    AppendServes(Filter(Live(Deduped(hot + cold)), residual), Filter(NotIn(snapshot, Rows(log)), residual),
                 Keep(View(log), residual), Keep(baseline - Rows(log), residual));
  }

  /** With a parent source, the parent's log rows sit between the child's and the baseline. */
  lemma MergeWithParentServes(hot: seq<ResolvedRow>, cold: seq<ResolvedRow>, base: seq<ResolvedRow>, snapshot: seq<OutRow>,
                              residual: OutRow -> bool, child: set<Event>, parent: set<Event>, baseline: map<Uuid, Payload>)
    requires ResolvesTo(Deduped(hot + cold), child) && ResolvesTo(base, parent) && Serves(snapshot, baseline)
    ensures Serves(Merge(hot, cold, Some(base), snapshot, residual),
                   Keep(Overlay(Overlay(baseline, View(parent), Rows(parent)), View(child), Rows(child)), residual))
  {
    var live, inherited := Live(Deduped(hot + cold)), NotIn(Live(base), Rows(child));
    var mc, mp := View(child), View(parent) - Rows(child);
    LiveServes(Deduped(hot + cold), child);
    LiveServes(base, parent);
    NotInServes(Live(base), View(parent), Rows(child));
    AppendServes(live, inherited, mc, mp);
    var excluded := Rows(child) + Rows(parent);
    NotInServes(snapshot, baseline, excluded);
    FilterServes(live + inherited, mp + mc, residual);
    FilterServes(NotIn(snapshot, excluded), baseline - excluded, residual);
    KeepSplits(mp + mc, baseline - excluded, residual);
    AppendServes(Filter(live + inherited, residual), Filter(NotIn(snapshot, excluded), residual),
                 Keep(mp + mc, residual), Keep(baseline - excluded, residual));
    OverlayTwice(baseline, View(parent), Rows(parent), View(child), Rows(child));
  }

  lemma OverlayTwice(baseline: map<Uuid, Payload>, mid: map<Uuid, Payload>, midRows: set<Uuid>,
                     top: map<Uuid, Payload>, topRows: set<Uuid>)
    ensures Overlay(Overlay(baseline, mid, midRows), top, topRows)
         == (baseline - (topRows + midRows)) + ((mid - topRows) + top)
  {
  }

  // ---------------------------------------------------------------- layers

  function All(o: OutRow): bool { true }

  lemma KeepAll(m: map<Uuid, Payload>)
    ensures Keep(m, All) == m
  {
  }

  lemma ServesUnique(out: seq<OutRow>, m: map<Uuid, Payload>, n: map<Uuid, Payload>)
    requires Serves(out, m)
    ensures Serves(out, n) <==> m == n
  {
    if Serves(out, n) {
      forall r ensures r in m <==> r in n { assert r in m ==> HasOut(out, r); assert r in n ==> HasOut(out, r); }
      forall r | r in m ensures m[r] == n[r] { assert HasOut(out, r); }
    }
  }

  /** The two events leave a row in the same state. */
  predicate SameVersion(a: Event, b: Event) {
    (a.Delete? && b.Delete?) || (a.Upsert? && b.Upsert? && a.cols == b.cols)
  }

  /** What a read serves when `top` shadows `mid`, row by row, and both shadow the baseline. */
  ghost function Layered(held: set<Event>, mid: set<Event>, top: set<Event>): map<Uuid, Payload> {
    Overlay(Overlay(View(held), View(mid), Rows(mid)), View(top), Rows(top))
  }

  /** The topmost layer that mentions the row leaves it as the whole history does. */
  ghost predicate TopCurrent(held: set<Event>, mid: set<Event>, top: set<Event>, v: set<Event>, r: Uuid)
    requires r in Rows(v)
  {
    if r in Rows(top) then SameVersion(Winner(top, r), Winner(v, r))
    else if r in Rows(mid) then SameVersion(Winner(mid, r), Winner(v, r))
    else if r in Rows(held) then SameVersion(Winner(held, r), Winner(v, r))
    else Winner(v, r).Delete?
  }

  ghost predicate AgreesAt(m: map<Uuid, Payload>, n: map<Uuid, Payload>, r: Uuid) {
    (r in m <==> r in n) && (r in m && r in n ==> m[r] == n[r])
  }

  lemma MapsAgree(m: map<Uuid, Payload>, n: map<Uuid, Payload>)
    ensures m == n <==> forall r :: AgreesAt(m, n, r)
  {
    if forall r :: AgreesAt(m, n, r) {
      forall r ensures r in m <==> r in n { assert AgreesAt(m, n, r); }
      forall r | r in m ensures m[r] == n[r] { assert AgreesAt(m, n, r); }
    }
  }

  lemma LayerDecides(held: set<Event>, mid: set<Event>, top: set<Event>, v: set<Event>, r: Uuid)
    requires r in Rows(v)
    ensures AgreesAt(Layered(held, mid, top), View(v), r) <==> TopCurrent(held, mid, top, v, r)
  {
  }

  /** A layered read is right exactly when every row's topmost layer holds its current version. */
  lemma LayersDecide(held: set<Event>, mid: set<Event>, top: set<Event>, v: set<Event>)
    requires held <= v && mid <= v && top <= v
    ensures Layered(held, mid, top) == View(v) <==> forall r :: r in Rows(v) ==> TopCurrent(held, mid, top, v, r)
  {
    MapsAgree(Layered(held, mid, top), View(v));
    forall r ensures r in Rows(v) ==> (AgreesAt(Layered(held, mid, top), View(v), r) <==> TopCurrent(held, mid, top, v, r)) {
      if r in Rows(v) { LayerDecides(held, mid, top, v, r); }
    }
    forall r | r !in Rows(v) ensures AgreesAt(Layered(held, mid, top), View(v), r) { }
  }

  lemma NoMiddle(held: set<Event>, top: set<Event>)
    ensures Layered(held, {}, top) == Overlay(View(held), View(top), Rows(top))
  {
    assert Overlay(View(held), View({}), Rows({})) == View(held);
  }

  /** For every row the straddling rows mention and nothing newer rewrites, they hold its baseline version. */
  ghost predicate StraddlersCurrent(held: set<Event>, newer: set<Event>, strad: set<Event>) {
    forall r :: r in Rows(strad) && r !in Rows(newer) ==>
      r in Rows(held) && SameVersion(Winner(strad, r), Winner(held, r))
  }

  ghost predicate RowsPrecede(lo: set<Event>, hi: set<Event>) {
    forall l, h :: l in lo && h in hi && l.row == h.row ==> PosLess(l, h)
  }

  lemma StraddlerRow(held: set<Event>, newer: set<Event>, strad: set<Event>, r: Uuid)
    requires Coherent(held + newer) && strad <= held && RowsPrecede(held, newer) && r in Rows(held + newer)
    ensures TopCurrent(held, {}, newer + strad, held + newer, r)
         <==> (r in Rows(strad) && r !in Rows(newer) ==> r in Rows(held) && SameVersion(Winner(strad, r), Winner(held, r)))
  {
    WinnerSplit(held + newer, held, newer, r);
    assert Rows(newer + strad) == Rows(newer) + Rows(strad);
    assert Rows(strad) <= Rows(held);
    assert Coherent(newer + strad) && newer + strad == strad + newer;
    if r in Rows(newer + strad) { WinnerSplit(newer + strad, strad, newer, r); }
  }

  /** When the layers above the baseline are everything newer and some of the baseline's own rows,
      only the latter can go wrong. */
  lemma StraddlersDecide(held: set<Event>, newer: set<Event>, strad: set<Event>)
    requires Coherent(held + newer) && strad <= held && RowsPrecede(held, newer)
    ensures (forall r :: r in Rows(held + newer) ==> TopCurrent(held, {}, newer + strad, held + newer, r))
       <==> StraddlersCurrent(held, newer, strad)
  {
    forall r | r in Rows(held + newer)
      ensures TopCurrent(held, {}, newer + strad, held + newer, r)
         <==> (r in Rows(strad) && r !in Rows(newer) ==> r in Rows(held) && SameVersion(Winner(strad, r), Winner(held, r)))
    {
      StraddlerRow(held, newer, strad, r);
    }
    assert forall r :: r in Rows(strad) ==> r in Rows(held + newer);
  }

  // ---------------------------------------------------------------- visibility and tiers

  /** Where a read is pinned.  An open transaction also sees what it wrote itself, placed after
      every commit. */
  datatype Axis = AsOfMicros(ts: int) | AsOfSeq(n: int) | OpenTx(began: int, own: set<Event>)

  predicate Sees(axis: Axis, e: Event) {
    match axis
    case AsOfMicros(ts) => e.micros <= ts
    case AsOfSeq(n) => e.commitSeq <= n
    case OpenTx(began, _) => e.commitSeq < began
  }

  /** The inclusive position bound an axis puts on cold, if any. */
  function CommitSeqUpper(axis: Axis): Option<int> {
    match axis
    case AsOfMicros(_) => None
    case AsOfSeq(n) => Some(n)
    case OpenTx(began, _) => Some(began - 1)
  }

  function Own(axis: Axis): set<Event> {
    if axis.OpenTx? then axis.own else {}
  }

  /** What a read at this point should see of the log: commits up to its bound, and its own writes. */
  ghost function Visible(log: set<Event>, axis: Axis): set<Event> {
    match axis
    case AsOfMicros(ts) => set e | e in log && e.micros <= ts
    case AsOfSeq(n) => set e | e in log && e.commitSeq <= n
    case OpenTx(began, own) => (set e | e in log && e.commitSeq < began) + own
  }

  function Upto(log: set<Event>, w: int): set<Event> {
    set e | e in log && e.commitSeq <= w
  }

  /** What a plan reads for one branch and table: the hot log, the cold rows it fetches, a baseline
      that is the replay of `held`, and the one fence for both tiers. */
  datatype Tiers = Tiers(hot: set<Event>, cold: set<Event>, snapshot: seq<OutRow>, held: set<Event>, fence: int)

  /** Hot serves what is past the fence, and the reader's own writes. */
  function HotSource(t: Tiers, axis: Axis): set<Event> {
    (set e | e in t.hot && e.commitSeq > t.fence && Sees(axis, e)) + Own(axis)
  }

  /** Cold up to the fence, without what the baseline already holds. */
  function ColdSource(t: Tiers, axis: Axis): set<Event> {
    set e | e in t.cold && e !in t.held && e.commitSeq <= t.fence && Sees(axis, e)
  }

  /** Cold as the merge query emits it: no lower bound, so fetched rows the baseline holds take part. */
  function ColdUnfenced(t: Tiers, axis: Axis): set<Event> {
    set e | e in t.cold && e.commitSeq <= t.fence && Sees(axis, e)
  }

  /** The fetched rows the baseline holds. */
  function Straddling(t: Tiers): set<Event> { t.cold * t.held }

  /** Everything visible is in the baseline or in the tier whose side of the fence it is on, the
      baseline precedes the rest, and the reader's own writes follow every commit. */
  ghost predicate Holds(t: Tiers, log: set<Event>, axis: Axis) {
    && t.held <= log && (forall e :: e in t.held ==> e.commitSeq <= t.fence && Sees(axis, e))
    && (forall e :: e in t.hot && e.commitSeq > t.fence && Sees(axis, e) ==> e in log)
    && (forall e :: e in t.cold && e.commitSeq <= t.fence && Sees(axis, e) ==> e in log)
    && (forall e :: e in log && e.commitSeq > t.fence && Sees(axis, e) ==> e in t.hot)
    && (forall e :: e in log && e.commitSeq <= t.fence && Sees(axis, e) && e !in t.held ==> e in t.cold)
    && RowsPrecede(t.held, log - t.held)
    && (forall o :: o in Own(axis) ==> o.commitSeq > t.fence && forall e :: e in log ==> e.commitSeq < o.commitSeq)
    && Serves(t.snapshot, View(t.held))
  }

  lemma SourcesCover(t: Tiers, log: set<Event>, axis: Axis)
    requires Holds(t, log, axis)
    ensures Visible(log, axis) == t.held + (HotSource(t, axis) + ColdSource(t, axis))
    ensures ColdUnfenced(t, axis) == ColdSource(t, axis) + Straddling(t)
    ensures forall a, b :: a in ColdUnfenced(t, axis) && b in HotSource(t, axis) ==> a.commitSeq < b.commitSeq
    ensures RowsPrecede(t.held, HotSource(t, axis) + ColdSource(t, axis))
  {
    forall e ensures e in Visible(log, axis) <==> e in t.held + (HotSource(t, axis) + ColdSource(t, axis)) { }
    forall e ensures e in ColdUnfenced(t, axis) <==> e in ColdSource(t, axis) + Straddling(t) { }
  }

  /** A read over hot, cold and snapshot serves exactly the replay of the visible history, filtered
      by the residual, whichever way the tiers split it, when no cold version of a row carries a
      later timestamp than the hot one. */
  lemma TieredReadIsReplay(t: Tiers, log: set<Event>, axis: Axis, hot: seq<ResolvedRow>, cold: seq<ResolvedRow>,
                           residual: OutRow -> bool, es: seq<Event>)
    requires Holds(t, log, axis) && Coherent(Visible(log, axis)) && FenceMonotone(hot, cold)
    requires ResolvesTo(hot, HotSource(t, axis)) && ResolvesTo(cold, ColdSource(t, axis))
    requires History(es, Visible(log, axis))
    ensures Serves(Merge(hot, cold, None, t.snapshot, residual), Keep(Replay(es), residual))
  {
    var v, h, c := Visible(log, axis), HotSource(t, axis), ColdSource(t, axis);
    SourcesCover(t, log, axis);
    UnionLatestResolves(hot, cold, h, c);
    MergeServes(hot, cold, t.snapshot, residual, h + c, View(t.held));
    ViewSplit(v, t.held, h + c);
    ReplayIsView(es, v);
  }

  /** The two logs hold their halves of the fence, `(wSnap, wPersist]` and above `wPersist`, and the
      baseline everything up to `wSnap`. */
  ghost predicate SplitAt(log: set<Event>, hotLog: set<Event>, coldLog: set<Event>, snapshot: seq<OutRow>, wSnap: int, wPersist: int) {
    && wSnap <= wPersist && Serves(snapshot, View(Upto(log, wSnap)))
    && (forall e: Event :: e.commitSeq > wPersist ==> (e in hotLog <==> e in log))
    && (forall e: Event :: wSnap < e.commitSeq <= wPersist ==> (e in coldLog <==> e in log))
  }

  /** The plan types' contract: hot above `W_persist`, cold in `(W_snap, W_persist]` and the rows of
      the baseline neither touches are the replay, for every log and every such pair of watermarks. */
  lemma FencedReadIsReplay(log: set<Event>, hotLog: set<Event>, coldLog: set<Event>, snapshot: seq<OutRow>, wSnap: int, wPersist: int,
                           axis: Axis, hot: seq<ResolvedRow>, cold: seq<ResolvedRow>, residual: OutRow -> bool, es: seq<Event>)
    requires SplitAt(log, hotLog, coldLog, snapshot, wSnap, wPersist)
    requires (forall e :: e in Upto(log, wSnap) ==> Sees(axis, e))
    requires forall o :: o in Own(axis) ==> o.commitSeq > wPersist && forall e :: e in log ==> e.commitSeq < o.commitSeq
    requires Coherent(Visible(log, axis)) && FenceMonotone(hot, cold)
    requires ResolvesTo(hot, (set e | e in hotLog && e.commitSeq > wPersist && Sees(axis, e)) + Own(axis))
    requires ResolvesTo(cold, set e | e in coldLog && wSnap < e.commitSeq <= wPersist && Sees(axis, e))
    requires History(es, Visible(log, axis))
    ensures Serves(Merge(hot, cold, None, snapshot, residual), Keep(Replay(es), residual))
  {
    var band := set e | e in coldLog && wSnap < e.commitSeq <= wPersist;
    var t := Tiers(hotLog, band, snapshot, Upto(log, wSnap), wPersist);
    assert ColdSource(t, axis) == set e | e in coldLog && wSnap < e.commitSeq <= wPersist && Sees(axis, e);
    TieredReadIsReplay(t, log, axis, hot, cold, residual, es);
  }

  // ---------------------------------------------------------------- the unfenced cold read

  /** What the emitted read serves. */
  lemma UnfencedServes(t: Tiers, log: set<Event>, axis: Axis, hot: seq<ResolvedRow>, cold: seq<ResolvedRow>, residual: OutRow -> bool)
    requires Holds(t, log, axis) && Coherent(Visible(log, axis)) && FenceMonotone(hot, cold)
    requires ResolvesTo(hot, HotSource(t, axis)) && ResolvesTo(cold, ColdUnfenced(t, axis))
    ensures var served := HotSource(t, axis) + ColdUnfenced(t, axis);
            served <= Visible(log, axis)
            && Serves(Merge(hot, cold, None, t.snapshot, residual), Keep(Layered(t.held, {}, served), residual))
  {
    var h, c := HotSource(t, axis), ColdUnfenced(t, axis);
    SourcesCover(t, log, axis);
    assert Coherent(h + c);
    UnionLatestResolves(hot, cold, h, c);
    MergeServes(hot, cold, t.snapshot, residual, h + c, View(t.held));
    NoMiddle(t.held, h + c);
  }

  lemma UnfencedLayers(t: Tiers, log: set<Event>, axis: Axis)
    requires Holds(t, log, axis) && Coherent(Visible(log, axis))
    ensures Layered(t.held, {}, HotSource(t, axis) + ColdUnfenced(t, axis)) == View(Visible(log, axis))
       <==> StraddlersCurrent(t.held, HotSource(t, axis) + ColdSource(t, axis), Straddling(t))
  {
    var newer := HotSource(t, axis) + ColdSource(t, axis);
    SourcesCover(t, log, axis);
    assert HotSource(t, axis) + ColdUnfenced(t, axis) == newer + Straddling(t);
    StraddlersDecide(t.held, newer, Straddling(t));
    LayersDecide(t.held, {}, newer + Straddling(t), Visible(log, axis));
  }

  /** Without the lower bound the read is right exactly when the straddling rows are current: for
      each row they mention that nothing newer rewrites, they hold its baseline version. */
  lemma UnfencedReadExact(t: Tiers, log: set<Event>, axis: Axis, hot: seq<ResolvedRow>, cold: seq<ResolvedRow>)
    requires Holds(t, log, axis) && Coherent(Visible(log, axis)) && FenceMonotone(hot, cold)
    requires ResolvesTo(hot, HotSource(t, axis)) && ResolvesTo(cold, ColdUnfenced(t, axis))
    ensures Serves(Merge(hot, cold, None, t.snapshot, All), View(Visible(log, axis)))
       <==> StraddlersCurrent(t.held, HotSource(t, axis) + ColdSource(t, axis), Straddling(t))
  {
    var got := Layered(t.held, {}, HotSource(t, axis) + ColdUnfenced(t, axis));
    UnfencedServes(t, log, axis, hot, cold, All);
    KeepAll(got);
    ServesUnique(Merge(hot, cold, None, t.snapshot, All), got, View(Visible(log, axis)));
    UnfencedLayers(t, log, axis);
  }

  /** With current straddlers the read is the replay under every residual. */
  lemma UnfencedReadIsReplay(t: Tiers, log: set<Event>, axis: Axis, hot: seq<ResolvedRow>, cold: seq<ResolvedRow>,
                             residual: OutRow -> bool, es: seq<Event>)
    requires Holds(t, log, axis) && Coherent(Visible(log, axis)) && FenceMonotone(hot, cold)
    requires ResolvesTo(hot, HotSource(t, axis)) && ResolvesTo(cold, ColdUnfenced(t, axis))
    requires StraddlersCurrent(t.held, HotSource(t, axis) + ColdSource(t, axis), Straddling(t))
    requires History(es, Visible(log, axis))
    ensures Serves(Merge(hot, cold, None, t.snapshot, residual), Keep(Replay(es), residual))
  {
    UnfencedServes(t, log, axis, hot, cold, residual);
    UnfencedLayers(t, log, axis);
    ReplayIsView(es, Visible(log, axis));
  }

  /** If the fetched rows reach back, without a hole, to one common position, the straddlers are current. */
  lemma UnfencedReadAboveCommonCut(t: Tiers, log: set<Event>, axis: Axis, hot: seq<ResolvedRow>, cold: seq<ResolvedRow>,
                                   residual: OutRow -> bool, es: seq<Event>, cut: int)
    requires Holds(t, log, axis) && Coherent(Visible(log, axis)) && FenceMonotone(hot, cold)
    requires ResolvesTo(hot, HotSource(t, axis)) && ResolvesTo(cold, ColdUnfenced(t, axis))
    requires forall e :: e in t.held ==> (e in t.cold <==> e.commitSeq > cut)
    requires History(es, Visible(log, axis))
    ensures Serves(Merge(hot, cold, None, t.snapshot, residual), Keep(Replay(es), residual))
  {
    forall r | r in Rows(Straddling(t)) ensures r in Rows(t.held) && Winner(Straddling(t), r) == Winner(t.held, r) {
      SourcesCover(t, log, axis);
      CutWinner(t.held, Straddling(t), cut, r);
    }
    UnfencedReadIsReplay(t, log, axis, hot, cold, residual, es);
  }

  lemma CutWinner(held: set<Event>, above: set<Event>, cut: int, r: Uuid)
    requires Coherent(held) && above == (set e | e in held && e.commitSeq > cut) && r in Rows(above)
    ensures r in Rows(held) && Winner(above, r) == Winner(held, r)
  {
    var below := held - above;
    assert held == below + above;
    WinnerSplit(held, below, above, r);
  }

  // ---------------------------------------------------------------- named rows

  function Named(s: set<Event>, ids: set<Uuid>): set<Event> {
    set e | e in s && e.row in ids
  }

  ghost function Only(m: map<Uuid, Payload>, ids: set<Uuid>): map<Uuid, Payload> {
    map r | r in m && r in ids :: m[r]
  }

  lemma NamedView(s: set<Event>, ids: set<Uuid>)
    requires Coherent(s)
    ensures View(Named(s, ids)) == Only(View(s), ids) && Rows(Named(s, ids)) == Rows(s) * ids
  {
    forall r | r in Rows(s) && r in ids ensures r in Rows(Named(s, ids)) && Winner(Named(s, ids), r) == Winner(s, r) {
      var w := Winner(s, r);
      assert w in Named(s, ids);
      assert Latest(Named(s, ids), w);
      WinnerUnique(Named(s, ids), w);
    }
    assert Rows(Named(s, ids)) == Rows(s) * ids;
  }

  lemma NamedOverlay(baseline: map<Uuid, Payload>, s: set<Event>, ids: set<Uuid>)
    requires Coherent(s)
    ensures Overlay(Only(baseline, ids), View(Named(s, ids)), Rows(Named(s, ids))) == Only(Overlay(baseline, View(s), Rows(s)), ids)
  {
    NamedView(s, ids);
  }

  /** Restricting the hot, cold and snapshot sources to named rows, below the latest-wins step and
      the exclusion, restricts what the whole read serves to those rows. */
  lemma NamedReadRestricts(t: Tiers, log: set<Event>, axis: Axis, ids: set<Uuid>, hot: seq<ResolvedRow>, cold: seq<ResolvedRow>,
                           snapshot: seq<OutRow>, residual: OutRow -> bool)
    requires Holds(t, log, axis) && Coherent(Visible(log, axis)) && FenceMonotone(hot, cold)
    requires ResolvesTo(hot, Named(HotSource(t, axis), ids)) && ResolvesTo(cold, Named(ColdUnfenced(t, axis), ids))
    requires Serves(snapshot, Only(View(t.held), ids))
    ensures Serves(Merge(hot, cold, None, snapshot, residual),
                   Keep(Only(Layered(t.held, {}, HotSource(t, axis) + ColdUnfenced(t, axis)), ids), residual))
  {
    var h, c := HotSource(t, axis), ColdUnfenced(t, axis);
    SourcesCover(t, log, axis);
    assert Coherent(h + c) && Coherent(Named(h, ids) + Named(c, ids));
    assert Named(h, ids) + Named(c, ids) == Named(h + c, ids);
    UnionLatestResolves(hot, cold, Named(h, ids), Named(c, ids));
    MergeServes(hot, cold, snapshot, residual, Named(h + c, ids), Only(View(t.held), ids));
    NamedOverlay(View(t.held), h + c, ids);
    NoMiddle(t.held, h + c);
  }

  lemma LastDecides(s: set<Event>, w: Event)
    requires Coherent(s) && Latest(s, w)
    ensures w.row in View(s) <==> w.Upsert?
    ensures w.Upsert? ==> View(s)[w.row] == w.cols
  {
    WinnerUnique(s, w);
  }
}
