/** Short runs that reach each way a planned read can go wrong. */
module LifecycleRuns {
  import opened Base
  import opened Log
  import opened MergeRead
  import opened TieredRead
  import opened Lifecycle

  ghost predicate Ends(run: seq<State>, s: State, ties: bool) {
    (if ties then Run(run) else TieFreeRun(run)) && run[|run| - 1] == s
  }

  /** Some run, or some run without ties, ends here. */
  ghost predicate Reachable(s: State, ties: bool) { exists run :: Ends(run, s, ties) }

  lemma Reaches(s: State, t: State, ties: bool)
    requires Reachable(s, ties) && (if ties then Next(s, t) else TieFreeNext(s, t))
    ensures Reachable(t, ties)
  {
    var run :| Ends(run, s, ties);
    assert Ends(run + [t], t, ties);
  }

  lemma ReachableInv(s: State, ties: bool)
    requires Reachable(s, ties)
    ensures Inv(s)
  {
    var run :| Ends(run, s, ties);
    if !ties { TieFreeIsRun(run); }
    InvAlways(run, |run| - 1);
  }

  const START := State({}, {}, [], [], GENESIS, 0, 0, 0)

  lemma StartReached(ties: bool)
    ensures Reachable(START, ties)
  {
    assert Ends([START], START, ties);
  }

  /** One more commit of a single event. */
  lemma Commits(s: State, e: Event, log: set<Event>, hot: set<Event>, ties: bool)
    requires Reachable(s, ties) && e.commitSeq == s.next && s.clock <= e.micros && 0 < e.micros && (ties || s.persistedAt < e.micros)
    requires log == s.log + {e} && hot == s.hot + {e}
    ensures Reachable(State(log, hot, s.segments, s.snaps, s.purged, s.persistedAt, s.next + 1, e.micros), ties)
  {
    var t := State(log, hot, s.segments, s.snaps, s.purged, s.persistedAt, s.next + 1, e.micros);
    assert Commit(s, t, {e});
    Reaches(s, t, ties);
  }

  /** Everything in hot copied to the given files. */
  lemma Persists(s: State, files: seq<Segment>, segments: seq<Segment>, e: Event, ties: bool)
    requires Reachable(s, ties) && Cold(files) == s.hot && (forall g :: g in files ==> g != {} && OneKind(g))
    requires e in s.hot && e.micros == s.clock && s.persistedAt < s.clock && forall x :: x in s.hot ==> x.micros <= s.clock
    requires segments == s.segments + files
    ensures Reachable(State(s.log, s.hot, segments, s.snaps, s.purged, s.clock, s.next, s.clock), ties)
  {
    var t := State(s.log, s.hot, segments, s.snaps, s.purged, s.clock, s.next, s.clock);
    assert UptoMicros(s.hot, s.clock) == s.hot;
    assert Persist(s, t, s.clock, files);
    Reaches(s, t, ties);
  }

  ghost predicate WindowFolds(s: State, request: Option<int>, w: int, fold: set<Event>) {
    && Last(s).cut < Cut(s, request) && fold == Within(Cold(s.segments), Last(s).cut, Cut(s, request))
    && Stamped(w, Last(s).w, Overlapping(s.segments, Last(s).cut, Cut(s, request)))
  }

  lemma Snapshots(s: State, request: Option<int>, w: int, band: seq<ResolvedRow>, fold: set<Event>, sn: Snap, ties: bool)
    requires Reachable(s, ties) && WindowFolds(s, request, w, fold) && ResolvesTo(band, fold)
    requires sn == Snap(Cut(s, request), w, Merge([], band, None, Last(s).rows, All), Last(s).held + fold)
    ensures Reachable(State(s.log, s.hot, s.segments, s.snaps + [sn], s.purged, s.persistedAt, s.next, s.clock), ties)
  {
    var t := State(s.log, s.hot, s.segments, s.snaps + [sn], s.purged, s.persistedAt, s.next, s.clock);
    WindowIsCold(s.segments, Last(s).cut, Cut(s, request));
    assert Snapshot(s, t, request, w, band);
    Reaches(s, t, ties);
  }

  lemma TwoFiles(g: Segment, h: Segment)
    ensures Cold([g, h]) == g + h
  {
    forall e ensures e in Cold([g, h]) <==> e in g + h {
      assert g in [g, h] && h in [g, h];
    }
  }

  lemma OneFile(g: Segment)
    ensures Cold([g]) == g
  {
    forall e ensures e in Cold([g]) <==> e in g { assert g in [g]; }
  }

  lemma OverlappingHas(segs: seq<Segment>, g: Segment, lo: int, hi: int, below: Event, top: Event)
    requires g in segs && below in g && top in g && below.micros <= hi && lo < top.micros
    ensures top in Overlapping(segs, lo, hi)
  {
    assert Overlaps(g, lo, hi);
  }

  lemma OneCommit(a: Event, ties: bool)
    requires a.commitSeq == 0 && 0 < a.micros
    ensures Reachable(State({a}, {a}, [], [], GENESIS, 0, 1, a.micros), ties)
  {
    StartReached(ties);
    Commits(START, a, {a}, {a}, ties);
  }

  lemma TwoCommits(a: Event, b: Event, ties: bool)
    requires a.commitSeq == 0 && b.commitSeq == 1 && 0 < a.micros <= b.micros
    ensures Reachable(State({a, b}, {a, b}, [], [], GENESIS, 0, 2, b.micros), ties)
  {
    OneCommit(a, ties);
    Commits(State({a}, {a}, [], [], GENESIS, 0, 1, a.micros), b, {a, b}, {a, b}, ties);
  }

  lemma FirstSnapshot(s: State, request: Option<int>, w: int, band: seq<ResolvedRow>, fold: set<Event>, ties: bool)
    requires Reachable(s, ties) && s.snaps == [] && WindowFolds(s, request, w, fold) && ResolvesTo(band, fold)
    ensures Reachable(s.(snaps := [Snap(Cut(s, request), w, Merge([], band, None, [], All), fold)]), ties)
  {
    var sn := Snap(Cut(s, request), w, Merge([], band, None, [], All), fold);
    Snapshots(s, request, w, band, fold, sn, ties);
    assert [] + [sn] == [sn];
  }

  /** The tiers hold this much, and the plan may start from this baseline. */
  ghost predicate Planned(s: State, sn: Snap, axis: Axis, h: set<Event>, c: set<Event>) {
    && Eligible(s, axis, sn)
    && HotSource(PlanTiers(s, sn, axis), axis) == h && ColdUnfenced(PlanTiers(s, sn, axis), axis) == c
  }

  /** The planned read of a reachable state, from its sources. */
  lemma ReadServes(s: State, axis: Axis, sn: Snap, hot: seq<ResolvedRow>, cold: seq<ResolvedRow>, h: set<Event>, c: set<Event>, ties: bool)
    requires Reachable(s, ties) && Planned(s, sn, axis, h, c) && ResolvesTo(hot, h) && ResolvesTo(cold, c)
    ensures Serves(Merge(hot, cold, None, sn.rows, All), Overlay(View(sn.held), View(h + c), Rows(h + c)))
  {
    ReachableInv(s, ties);
    PlanServes(s, axis, sn, hot, cold, All);
    KeepAll(Layered(sn.held, {}, h + c));
    NoMiddle(sn.held, h + c);
  }

  lemma ServesTop(s: State, axis: Axis, sn: Snap, hot: seq<ResolvedRow>, cold: seq<ResolvedRow>, h: set<Event>, c: set<Event>, r: Uuid, ties: bool)
    requires Reachable(s, ties) && Planned(s, sn, axis, h, c) && ResolvesTo(hot, h) && ResolvesTo(cold, c) && r in View(h + c)
    ensures HasOut(Merge(hot, cold, None, sn.rows, All), r)
  {
    ReadServes(s, axis, sn, hot, cold, h, c, ties);
    assert r in Overlay(View(sn.held), View(h + c), Rows(h + c));
  }

  lemma SegmentsGrow(s: State, files: seq<Segment>, e: Event, ties: bool)
    requires Reachable(s, ties) && Cold(files) == s.hot && (forall g :: g in files ==> g != {} && OneKind(g))
    requires e in s.hot && e.micros == s.clock && s.persistedAt < s.clock && forall x :: x in s.hot ==> x.micros <= s.clock
    ensures Reachable(s.(segments := s.segments + files, persistedAt := s.clock), ties)
  {
    Persists(s, files, s.segments + files, e, ties);
  }

  // ---------------------------------------------------------------- a deleted row comes back

  /** A row written and deleted, then another row written. */
  predicate WrittenDeleted(u: Event, d: Event, q: Event) {
    && u.Upsert? && d.Delete? && q.Upsert? && u.row == d.row && q.row != u.row
    && u.commitSeq == 0 && d.commitSeq == 1 && q.commitSeq == 2 && 0 < u.micros < d.micros < q.micros
  }

  function FirstSnap(u: Event, d: Event, rows: seq<OutRow>): Snap { Snap(d.micros, 1, rows, {u, d}) }

  function Persisted(u: Event, d: Event): State { State({u, d}, {u, d}, [{u}, {d}], [], GENESIS, d.micros, 2, d.micros) }

  function Snapped(u: Event, d: Event, rows: seq<OutRow>): State { Persisted(u, d).(snaps := [FirstSnap(u, d, rows)]) }

  function Grown(u: Event, d: Event, q: Event, rows: seq<OutRow>): State {
    State({u, d, q}, {u, d, q}, [{u}, {d}], [FirstSnap(u, d, rows)], GENESIS, d.micros, 3, q.micros)
  }

  /** Write and delete a row, persist, snapshot, write another row, persist again before any purge:
      the second run's upsert file holds the old upsert next to the new row, its delete file lies
      wholly below the snapshot and is not fetched. */
  function Straddled(u: Event, d: Event, q: Event, rows: seq<OutRow>): State {
    Grown(u, d, q, rows).(segments := [{u}, {d}] + [{u, q}, {d}], persistedAt := q.micros)
  }

  lemma StraddlePersisted(u: Event, d: Event, q: Event)
    requires WrittenDeleted(u, d, q)
    ensures Reachable(Persisted(u, d), false)
  {
    TwoCommits(u, d, false);
    TwoFiles({u}, {d});
    Persists(State({u, d}, {u, d}, [], [], GENESIS, 0, 2, d.micros), [{u}, {d}], [{u}, {d}], d, false);
  }

  lemma StraddleWindow(u: Event, d: Event, q: Event)
    requires WrittenDeleted(u, d, q)
    ensures WindowFolds(Persisted(u, d), None, 1, {u, d})
  {
    TwoFiles({u}, {d});
    WindowIsCold([{u}, {d}], 0, d.micros);
    OverlappingHas([{u}, {d}], {d}, 0, d.micros, d, d);
  }

  lemma StraddleSnapped(u: Event, d: Event, q: Event, band: seq<ResolvedRow>)
    requires WrittenDeleted(u, d, q) && ResolvesTo(band, {u, d})
    ensures Reachable(Snapped(u, d, Merge([], band, None, [], All)), false)
  {
    StraddlePersisted(u, d, q);
    StraddleWindow(u, d, q);
    FirstSnapshot(Persisted(u, d), None, 1, band, {u, d}, false);
  }

  lemma StraddleGrown(u: Event, d: Event, q: Event, rows: seq<OutRow>)
    requires WrittenDeleted(u, d, q) && Reachable(Snapped(u, d, rows), false)
    ensures Reachable(Straddled(u, d, q, rows), false)
  {
    Commits(Snapped(u, d, rows), q, {u, d, q}, {u, d, q}, false);
    TwoFiles({u, q}, {d});
    assert {u, d, q} == {u, q} + {d};
    SegmentsGrow(Grown(u, d, q, rows), [{u, q}, {d}], q, false);
  }

  lemma StraddleFetch(u: Event, d: Event, q: Event, rows: seq<OutRow>)
    requires WrittenDeleted(u, d, q)
    ensures Fetched(Straddled(u, d, q, rows), FirstSnap(u, d, rows), AsOfSeq(2)) == {u, q}
  {
    var s, sn, axis := Straddled(u, d, q, rows), FirstSnap(u, d, rows), AsOfSeq(2);
    var g := {u, q};
    assert s.segments == [{u}, {d}, {u, q}, {d}];
    assert u in g && q in g && IsFetched(s, sn, axis, g);
    assert !ReachesPast({u}, d.micros) && !ReachesPast({d}, d.micros);
    assert !IsFetched(s, sn, axis, {u}) && !IsFetched(s, sn, axis, {d});
  }

  lemma StraddleSources(u: Event, d: Event, q: Event, rows: seq<OutRow>)
    requires WrittenDeleted(u, d, q)
    ensures Planned(Straddled(u, d, q, rows), FirstSnap(u, d, rows), AsOfSeq(2), {q}, {u})
  {
    StraddleFetch(u, d, q, rows);
  }

  lemma StraddleViews(u: Event, d: Event, q: Event)
    requires WrittenDeleted(u, d, q)
    ensures u.row in View({q} + {u}) && u.row !in View({u, d, q})
  {
    assert Latest({q} + {u}, u) && Coherent({q} + {u});
    LastDecides({q} + {u}, u);
    assert Latest({u, d, q}, d) && Coherent({u, d, q});
    LastDecides({u, d, q}, d);
  }

  lemma StraddleMisses(u: Event, d: Event, q: Event, rows: seq<OutRow>)
    requires WrittenDeleted(u, d, q)
    ensures Complete({u, d, q}, FirstSnap(u, d, rows)) && u.row !in View(Visible({u, d, q}, AsOfSeq(2)))
  {
    StraddleViews(u, d, q);
    assert Visible({u, d, q}, AsOfSeq(2)) == {u, d, q};
  }

  lemma StraddleRead(u: Event, d: Event, q: Event, rows: seq<OutRow>, hot: seq<ResolvedRow>, cold: seq<ResolvedRow>)
    requires WrittenDeleted(u, d, q) && Reachable(Snapped(u, d, rows), false) && ResolvesTo(hot, {q}) && ResolvesTo(cold, {u})
    ensures HasOut(Merge(hot, cold, None, rows, All), u.row)
  {
    StraddleGrown(u, d, q, rows);
    StraddleSources(u, d, q, rows);
    StraddleViews(u, d, q);
    ServesTop(Straddled(u, d, q, rows), AsOfSeq(2), FirstSnap(u, d, rows), hot, cold, {q}, {u}, u.row, false);
  }

  /** In that reachable state the latest read, from the only snapshot, serves the deleted row. */
  lemma StraddlingSegmentResurrects(u: Event, d: Event, q: Event, band: seq<ResolvedRow>, hot: seq<ResolvedRow>, cold: seq<ResolvedRow>)
    requires WrittenDeleted(u, d, q) && ResolvesTo(band, {u, d}) && ResolvesTo(hot, {q}) && ResolvesTo(cold, {u})
    ensures var rows := Merge([], band, None, [], All);
            var s, sn := Straddled(u, d, q, rows), FirstSnap(u, d, rows);
            && Reachable(s, false) && Complete(s.log, sn) && Planned(s, sn, AsOfSeq(2), {q}, {u})
            && HasOut(Merge(hot, cold, None, rows, All), u.row) && u.row !in View(Visible(s.log, AsOfSeq(2)))
  {
    var rows := Merge([], band, None, [], All);
    StraddleSnapped(u, d, q, band);
    StraddleGrown(u, d, q, rows);
    StraddleSources(u, d, q, rows);
    StraddleMisses(u, d, q, rows);
    StraddleRead(u, d, q, rows, hot, cold);
  }

  // ---------------------------------------------------------------- a cut inside a persist run

  predicate TwoRows(a: Event, b: Event) {
    && a.Upsert? && b.Upsert? && a.row != b.row && a.commitSeq == 0 && b.commitSeq == 1 && 0 < a.micros < b.micros
  }

  function MidRunSnap(a: Event, rows: seq<OutRow>): Snap { Snap(a.micros, 1, rows, {a}) }

  function OneRun(a: Event, b: Event): State { State({a, b}, {a, b}, [{a, b}], [], GENESIS, b.micros, 2, b.micros) }

  /** Two commits in one persist run, and a snapshot requested at the first one's timestamp. */
  function MidRun(a: Event, b: Event, rows: seq<OutRow>): State { OneRun(a, b).(snaps := [MidRunSnap(a, rows)]) }

  lemma MidRunWindow(a: Event, b: Event)
    requires TwoRows(a, b)
    ensures WindowFolds(OneRun(a, b), Some(a.micros), 1, {a})
  {
    OneFile({a, b});
    WindowIsCold([{a, b}], 0, a.micros);
    OverlappingHas([{a, b}], {a, b}, 0, a.micros, a, b);
  }

  lemma OneRunReached(a: Event, b: Event)
    requires TwoRows(a, b)
    ensures Reachable(OneRun(a, b), false)
  {
    TwoCommits(a, b, false);
    OneFile({a, b});
    Persists(State({a, b}, {a, b}, [], [], GENESIS, 0, 2, b.micros), [{a, b}], [{a, b}], b, false);
  }

  lemma MidRunReached(a: Event, b: Event, band: seq<ResolvedRow>)
    requires TwoRows(a, b) && ResolvesTo(band, {a})
    ensures Reachable(MidRun(a, b, Merge([], band, None, [], All)), false)
  {
    OneRunReached(a, b);
    MidRunWindow(a, b);
    FirstSnapshot(OneRun(a, b), Some(a.micros), 1, band, {a}, false);
  }

  lemma MidRunSources(a: Event, b: Event, rows: seq<OutRow>)
    requires TwoRows(a, b)
    ensures Planned(MidRun(a, b, rows), MidRunSnap(a, rows), AsOfSeq(1), {}, {a, b})
  {
    var s, sn, axis := MidRun(a, b, rows), MidRunSnap(a, rows), AsOfSeq(1);
    var g := {a, b};
    assert a in g && b in g && IsFetched(s, sn, axis, g);
    assert Fetched(s, sn, axis) == {a, b};
  }

  /** Nothing lies in the band above the stamped watermark, and the baseline lacks the second row. */
  lemma MidRunFenced(a: Event, b: Event, rows: seq<OutRow>)
    requires TwoRows(a, b)
    ensures var s, sn := MidRun(a, b, rows), MidRunSnap(a, rows);
            && Complete(s.log, sn) && sn.held != Upto(s.log, sn.w) && b.row !in View(sn.held)
            && forall e :: e in s.log ==> !(sn.w < e.commitSeq <= Fence(s, sn))
  {
    assert b in Upto({a, b}, 1) && b !in {a};
  }

  lemma MidRunRead(a: Event, b: Event, rows: seq<OutRow>, hot: seq<ResolvedRow>, cold: seq<ResolvedRow>)
    requires TwoRows(a, b) && Reachable(MidRun(a, b, rows), false) && ResolvesTo(hot, {}) && ResolvesTo(cold, {a, b})
    ensures Serves(Merge(hot, cold, None, rows, All), View({a, b}))
  {
    MidRunSources(a, b, rows);
    ReadServes(MidRun(a, b, rows), AsOfSeq(1), MidRunSnap(a, rows), hot, cold, {}, {a, b}, false);
    MidRunView(a, b);
  }

  lemma MidRunView(a: Event, b: Event)
    ensures Overlay(View({a}), View({} + {a, b}), Rows({} + {a, b})) == View({a, b})
  {
    assert {} + {a, b} == {a, b};
    assert View({a}).Keys <= Rows({a, b});
  }

  /** The watermark stamped there runs past what the baseline holds, and a cold read bounded below
      by it loses the second commit; the planned read, with no lower bound, does not. */
  lemma StampPastCut(a: Event, b: Event, band: seq<ResolvedRow>, hot: seq<ResolvedRow>, cold: seq<ResolvedRow>)
    requires TwoRows(a, b) && ResolvesTo(band, {a}) && ResolvesTo(hot, {}) && ResolvesTo(cold, {a, b})
    ensures var rows := Merge([], band, None, [], All);
            var s, sn := MidRun(a, b, rows), MidRunSnap(a, rows);
            && Reachable(s, false) && Complete(s.log, sn) && Planned(s, sn, AsOfSeq(1), {}, {a, b})
            && sn.held != Upto(s.log, sn.w) && b.row !in View(sn.held)
            && (forall e :: e in s.log ==> !(sn.w < e.commitSeq <= Fence(s, sn)))
            && Serves(Merge(hot, cold, None, rows, All), View({a, b}))
  {
    var rows := Merge([], band, None, [], All);
    MidRunReached(a, b, band);
    MidRunSources(a, b, rows);
    MidRunFenced(a, b, rows);
    MidRunRead(a, b, rows, hot, cold);
  }

  // ---------------------------------------------------------------- a commit lost to a tie

  /** The second commit carries the first one's timestamp, the third a later one. */
  predicate Tied(a: Event, b: Event, c: Event) {
    && a.Upsert? && b.Upsert? && c.Upsert? && a.row != b.row && c.row != b.row
    && a.commitSeq == 0 && b.commitSeq == 1 && c.commitSeq == 2 && 0 < a.micros == b.micros < c.micros
  }

  function TieFirst(a: Event, first: seq<OutRow>): Snap { Snap(a.micros, 0, first, {a}) }

  function TieSecond(a: Event, c: Event, second: seq<OutRow>): Snap { Snap(c.micros, 2, second, {a, c}) }

  function TieStart(a: Event): State { State({a}, {a}, [{a}], [], GENESIS, a.micros, 1, a.micros) }

  function TieSnapped(a: Event, first: seq<OutRow>): State { TieStart(a).(snaps := [TieFirst(a, first)]) }

  function TieGrown(a: Event, b: Event, c: Event, first: seq<OutRow>): State {
    State({a, b, c}, {a, b, c}, [{a}], [TieFirst(a, first)], GENESIS, a.micros, 3, c.micros)
  }

  function TiePersisted(a: Event, b: Event, c: Event, first: seq<OutRow>): State {
    TieGrown(a, b, c, first).(segments := [{a}] + [{a, b, c}], persistedAt := c.micros)
  }

  /** A commit stamped the very microsecond the persist watermark stands at: the next snapshot's
      window starts after it, and the stamped watermark hides it from hot. */
  function TieState(a: Event, b: Event, c: Event, first: seq<OutRow>, second: seq<OutRow>): State {
    TiePersisted(a, b, c, first).(snaps := [TieFirst(a, first)] + [TieSecond(a, c, second)])
  }

  lemma TieStartReached(a: Event)
    requires a.Upsert? && a.commitSeq == 0 && 0 < a.micros
    ensures Reachable(TieStart(a), true) && WindowFolds(TieStart(a), None, 0, {a})
  {
    OneCommit(a, true);
    OneFile({a});
    Persists(State({a}, {a}, [], [], GENESIS, 0, 1, a.micros), [{a}], [{a}], a, true);
    WindowIsCold([{a}], 0, a.micros);
    OverlappingHas([{a}], {a}, 0, a.micros, a, a);
  }

  lemma TieSnappedReached(a: Event, band: seq<ResolvedRow>)
    requires a.Upsert? && a.commitSeq == 0 && 0 < a.micros && ResolvesTo(band, {a})
    ensures Reachable(TieSnapped(a, Merge([], band, None, [], All)), true)
  {
    TieStartReached(a);
    FirstSnapshot(TieStart(a), None, 0, band, {a}, true);
  }

  lemma TieGrownReached(a: Event, b: Event, c: Event, first: seq<OutRow>)
    requires Tied(a, b, c) && Reachable(TieSnapped(a, first), true)
    ensures Reachable(TieGrown(a, b, c, first), true)
  {
    Commits(TieSnapped(a, first), b, {a, b}, {a, b}, true);
    Commits(State({a, b}, {a, b}, [{a}], [TieFirst(a, first)], GENESIS, a.micros, 2, b.micros), c, {a, b, c}, {a, b, c}, true);
  }

  lemma TiePersistedReached(a: Event, b: Event, c: Event, first: seq<OutRow>)
    requires Tied(a, b, c) && Reachable(TieSnapped(a, first), true)
    ensures Reachable(TiePersisted(a, b, c, first), true)
  {
    TieGrownReached(a, b, c, first);
    OneFile({a, b, c});
    SegmentsGrow(TieGrown(a, b, c, first), [{a, b, c}], c, true);
  }

  lemma TieWindow(a: Event, b: Event, c: Event, first: seq<OutRow>)
    requires Tied(a, b, c)
    ensures WindowFolds(TiePersisted(a, b, c, first), None, 2, {c})
  {
    var segs := [{a}] + [{a, b, c}];
    assert segs == [{a}, {a, b, c}];
    TwoFiles({a}, {a, b, c});
    WindowIsCold(segs, a.micros, c.micros);
    OverlappingHas(segs, {a, b, c}, a.micros, c.micros, a, c);
  }

  lemma TieReached(a: Event, b: Event, c: Event, first: seq<OutRow>, band: seq<ResolvedRow>)
    requires Tied(a, b, c) && Reachable(TieSnapped(a, first), true) && ResolvesTo(band, {c})
    ensures Reachable(TieState(a, b, c, first, Merge([], band, None, first, All)), true)
  {
    TiePersistedReached(a, b, c, first);
    TieWindow(a, b, c, first);
    assert {a, c} == {a} + {c};
    Snapshots(TiePersisted(a, b, c, first), None, 2, band, {c}, TieSecond(a, c, Merge([], band, None, first, All)), true);
  }

  lemma TieSources(a: Event, b: Event, c: Event, first: seq<OutRow>, second: seq<OutRow>)
    requires Tied(a, b, c)
    ensures Planned(TieState(a, b, c, first, second), TieSecond(a, c, second), AsOfSeq(2), {}, {})
  {
    var s, sn, axis := TieState(a, b, c, first, second), TieSecond(a, c, second), AsOfSeq(2);
    assert s.segments == [{a}, {a, b, c}];
    assert !ReachesPast({a}, c.micros) && !ReachesPast({a, b, c}, c.micros);
    assert !IsFetched(s, sn, axis, {a}) && !IsFetched(s, sn, axis, {a, b, c});
    assert Fetched(s, sn, axis) == {};
  }

  lemma TieViews(a: Event, b: Event, c: Event, second: seq<OutRow>)
    requires Tied(a, b, c)
    ensures b.row !in View({a, c}) && b.row in View(Visible({a, b, c}, AsOfSeq(2))) && !Complete({a, b, c}, TieSecond(a, c, second))
  {
    assert b.row !in Rows({a, c});
    assert Latest({a, b, c}, b) && Coherent({a, b, c});
    LastDecides({a, b, c}, b);
    assert Visible({a, b, c}, AsOfSeq(2)) == {a, b, c};
    assert b in UptoMicros({a, b, c}, c.micros) && b !in {a, c};
  }

  lemma TieRead(a: Event, b: Event, c: Event, first: seq<OutRow>, second: seq<OutRow>, hot: seq<ResolvedRow>, cold: seq<ResolvedRow>)
    requires Tied(a, b, c) && Reachable(TieState(a, b, c, first, second), true) && ResolvesTo(hot, {}) && ResolvesTo(cold, {})
    ensures !HasOut(Merge(hot, cold, None, second, All), b.row)
  {
    TieSources(a, b, c, first, second);
    TieViews(a, b, c, second);
    ReadServes(TieState(a, b, c, first, second), AsOfSeq(2), TieSecond(a, c, second), hot, cold, {}, {}, true);
    NothingOver(View({a, c}), b.row);
  }

  lemma NothingOver(m: map<Uuid, Payload>, r: Uuid)
    requires r !in m
    ensures var none: set<Event> := {}; r !in Overlay(m, View(none + none), Rows(none + none))
  {
    var none: set<Event> := {};
    assert none + none == none && Rows(none) == {};
  }

  /** From then on the latest read misses the commit. */
  lemma TieIsLost(a: Event, b: Event, c: Event, band: seq<ResolvedRow>, later: seq<ResolvedRow>, hot: seq<ResolvedRow>, cold: seq<ResolvedRow>)
    requires Tied(a, b, c) && ResolvesTo(band, {a}) && ResolvesTo(later, {c}) && ResolvesTo(hot, {}) && ResolvesTo(cold, {})
    ensures var first := Merge([], band, None, [], All);
            var second := Merge([], later, None, first, All);
            var s, sn := TieState(a, b, c, first, second), TieSecond(a, c, second);
            && Reachable(s, true) && !Complete(s.log, sn) && Planned(s, sn, AsOfSeq(2), {}, {})
            && !HasOut(Merge(hot, cold, None, second, All), b.row) && b.row in View(Visible(s.log, AsOfSeq(2)))
  {
    var first := Merge([], band, None, [], All);
    var second := Merge([], later, None, first, All);
    TieSnappedReached(a, band);
    TieReached(a, b, c, first, later);
    TieSources(a, b, c, first, second);
    TieViews(a, b, c, second);
    TieRead(a, b, c, first, second, hot, cold);
  }
}
