/** The life of a table over whole runs: commits land in hot, Persist copies hot rows to cold
    segments, Snapshot folds a baseline from cold up to a timestamp cut, Purge drops hot rows up to
    the baseline's stamped watermark.

    Persist copies every row still in hot, so segments of different runs overlap until a Purge; a
    snapshot stamps the largest position of every segment its window touches, which may lie past
    the cut.
  */
module Lifecycle {
  import opened Base
  import opened Log
  import opened MergeRead
  import opened TieredRead

  /** `SNAPSHOT_SEQ_GENESIS`: the watermark of the empty baseline. */
  const GENESIS: int := -1

  /** A persist segment: the rows of one file. */
  type Segment = set<Event>

  /** A committed snapshot: its timestamp cut, the watermark `W_snap` stamped on it, its rows, and
      the events folded into them. */
  datatype Snap = Snap(cut: int, w: int, rows: seq<OutRow>, held: set<Event>)

  /** No snapshot yet; every commit timestamp is positive. */
  const EMPTY_BASELINE := Snap(0, GENESIS, [], {})

  /** `purged` is `Pu`, `persistedAt` the persist watermark in micros (0 before the first Persist),
      `next` the commit counter, `clock` the last commit timestamp. */
  datatype State = State(
    log: set<Event>, hot: set<Event>, segments: seq<Segment>, snaps: seq<Snap>,
    purged: int, persistedAt: int, next: int, clock: int)

  function Cold(segments: seq<Segment>): set<Event> {
    set g, e | g in segments && e in g :: e
  }

  function UptoMicros(log: set<Event>, cut: int): set<Event> {
    set e | e in log && e.micros <= cut
  }

  function Last(s: State): Snap { if s.snaps == [] then EMPTY_BASELINE else s.snaps[|s.snaps| - 1] }

  // ---------------------------------------------------------------- steps

  ghost predicate Init(s: State) {
    s.log == {} && s.hot == {} && s.segments == [] && s.snaps == [] && s.purged == GENESIS && s.persistedAt == 0 && s.next == 0
  }

  /** A transaction commits under the counter's row lock: one position, one timestamp. */
  ghost predicate Commit(s: State, t: State, writes: set<Event>) {
    && Coherent(writes) && s.clock <= t.clock && 0 < t.clock
    && (forall e :: e in writes ==> e.commitSeq == s.next && e.micros == t.clock)
    && t == s.(log := s.log + writes, hot := s.hot + writes, next := s.next + 1, clock := t.clock)
  }

  predicate OneKind(g: Segment) { forall a, b :: a in g && b in g ==> a.Upsert? == b.Upsert? }

  /** Persist copies every hot row up to a target, upserts and deletes to their own files, if the
      largest timestamp among them advances the watermark. */
  ghost predicate Persist(s: State, t: State, target: int, files: seq<Segment>) {
    var rows := UptoMicros(s.hot, target);
    && Cold(files) == rows && (forall g :: g in files ==> g != {} && OneKind(g))
    && (exists e :: e in rows && e.micros == t.persistedAt) && (forall e :: e in rows ==> e.micros <= t.persistedAt)
    && s.persistedAt < t.persistedAt
    && t == s.(segments := s.segments + files, persistedAt := t.persistedAt)
  }

  /** The segment has a row after `from` and one at or before `to`. */
  ghost predicate Overlaps(g: Segment, from: int, to: int) { ReachesPast(g, from) && ReachesBack(g, to) }

  ghost predicate ReachesPast(g: Segment, micros: int) { exists e :: e in g && e.micros > micros }

  ghost predicate ReachesBack(g: Segment, micros: int) { exists e :: e in g && e.micros <= micros }

  /** The rows of every segment overlapping the window. */
  ghost function Overlapping(segments: seq<Segment>, from: int, to: int): set<Event> {
    set g, e | g in segments && Overlaps(g, from, to) && e in g :: e
  }

  /** The rows the window's per-row filter keeps. */
  function Within(rows: set<Event>, from: int, to: int): set<Event> {
    set e | e in rows && from < e.micros <= to
  }

  /** `min(requested, persisted_at)`. */
  function Cut(s: State, request: Option<int>): int {
    if request.Some? && request.value < s.persistedAt then request.value else s.persistedAt
  }

  /** `max(prior W_snap, MAX(max_commit_seq_num))` over the included segments. */
  ghost predicate Stamped(w: int, prior: int, included: set<Event>) {
    && prior <= w && (forall e :: e in included ==> e.commitSeq <= w)
    && (w == prior || exists e :: e in included && e.commitSeq == w)
  }

  /** Snapshot merges the window `(prior cut, cut]` over the latest baseline. */
  ghost predicate Snapshot(s: State, t: State, request: Option<int>, w: int, band: seq<ResolvedRow>) {
    var prior, cut := Last(s), Cut(s, request);
    var included := Overlapping(s.segments, prior.cut, cut);
    && prior.cut < cut && ResolvesTo(band, Within(included, prior.cut, cut)) && Stamped(w, prior.w, included)
    && t == s.(snaps := s.snaps + [Snap(cut, w, Merge([], band, None, prior.rows, All), prior.held + Within(included, prior.cut, cut))])
  }

  /** Purge drops hot rows up to the latest stamped watermark, if that advances `Pu`. */
  ghost predicate Purge(s: State, t: State) {
    && s.purged < Last(s).w
    && t == s.(hot := (set e | e in s.hot && e.commitSeq > Last(s).w), purged := Last(s).w)
  }

  ghost predicate Next(s: State, t: State) {
    || (exists writes :: Commit(s, t, writes))
    || (exists target, files :: Persist(s, t, target, files))
    || (exists request, w, band :: Snapshot(s, t, request, w, band))
    || Purge(s, t)
  }

  ghost predicate Run(states: seq<State>) {
    |states| > 0 && Init(states[0]) && forall i :: 0 <= i < |states| - 1 ==> Next(states[i], states[i + 1])
  }

  // ---------------------------------------------------------------- invariant

  /** One timestamp per commit, never running backwards along the commit order. */
  ghost predicate ClockOrder(s: set<Event>) {
    forall a, b :: a in s && b in s && a.commitSeq <= b.commitSeq ==> a.micros <= b.micros
  }

  ghost predicate HistoryOk(s: State) {
    && s.hot <= s.log && Cold(s.segments) <= s.log && Coherent(s.log) && ClockOrder(s.log) && 0 <= s.next
    && (forall e :: e in s.log ==> 0 <= e.commitSeq < s.next && 0 < e.micros <= s.clock)
    && s.purged < s.next && (forall e :: e in s.log ==> (e.commitSeq > s.purged <==> e in s.hot))
  }

  /** Together with any of its rows, `cold` holds everything logged up to that position. */
  ghost predicate IsPrefix(cold: set<Event>, log: set<Event>) {
    cold <= log && forall e, x :: e in log && x in cold && e.commitSeq <= x.commitSeq ==> e in cold
  }

  /** Some segment that reaches back to `cut` has a row at position `w`. */
  ghost predicate StampSource(segments: seq<Segment>, cut: int, w: int) {
    exists g :: IsStampSource(segments, cut, w, g)
  }

  ghost predicate IsStampSource(segments: seq<Segment>, cut: int, w: int, g: Segment) {
    g in segments && ReachesBack(g, cut) && exists x :: x in g && x.commitSeq == w
  }

  ghost predicate SnapOk(s: State, sn: Snap) {
    && sn.held <= Cold(s.segments) && (forall e :: e in sn.held ==> e.micros <= sn.cut && e.commitSeq <= sn.w)
    && 0 <= sn.cut <= s.persistedAt && GENESIS <= sn.w && (sn.w != GENESIS ==> StampSource(s.segments, sn.cut, sn.w))
    && Serves(sn.rows, View(sn.held))
  }

  ghost predicate Inv(s: State) {
    HistoryOk(s) && ColdOk(s) && SnapsOk(s) && SnapsRise(s.snaps) && GENESIS <= s.purged <= Last(s).w
  }

  ghost predicate ColdOk(s: State) {
    IsPrefix(Cold(s.segments), s.log) && 0 <= s.persistedAt && forall x :: x in Cold(s.segments) ==> x.micros <= s.persistedAt
  }

  ghost predicate SnapsOk(s: State) { forall i :: 0 <= i < |s.snaps| ==> SnapOk(s, s.snaps[i]) }

  ghost predicate SnapsRise(snaps: seq<Snap>) {
    forall i, j :: 0 <= i < j < |snaps| ==> snaps[i].cut < snaps[j].cut && snaps[i].w <= snaps[j].w
  }

  lemma LastOk(s: State)
    requires SnapsOk(s) && 0 <= s.persistedAt
    ensures SnapOk(s, Last(s))
  {
    if s.snaps == [] { assert View({}) == map[]; }
  }

  lemma ColdAppends(a: seq<Segment>, b: seq<Segment>)
    ensures Cold(a + b) == Cold(a) + Cold(b)
  {
    forall e ensures e in Cold(a + b) <==> e in Cold(a) + Cold(b) {
      if e in Cold(a) { var g :| g in a && e in g; assert g in a + b; }
      if e in Cold(b) { var g :| g in b && e in g; assert g in a + b; }
    }
  }

  lemma SourceStays(a: seq<Segment>, b: seq<Segment>, cut: int, later: int, w: int)
    requires StampSource(a, cut, w) && a <= b && cut <= later
    ensures StampSource(b, later, w)
  {
    var g :| IsStampSource(a, cut, w, g);
    assert g in b;
    assert IsStampSource(b, later, w, g);
  }

  lemma SnapStays(s: State, t: State, sn: Snap)
    requires SnapOk(s, sn) && s.segments <= t.segments && s.persistedAt <= t.persistedAt
    ensures SnapOk(t, sn)
  {
    ColdAppends(s.segments, t.segments[|s.segments|..]);
    assert s.segments + t.segments[|s.segments|..] == t.segments;
    if sn.w != GENESIS { SourceStays(s.segments, t.segments, sn.cut, sn.cut, sn.w); }
  }

  lemma SnapsStay(s: State, t: State)
    requires SnapsOk(s) && t.snaps == s.snaps && s.segments <= t.segments && s.persistedAt <= t.persistedAt
    ensures SnapsOk(t)
  {
    forall i | 0 <= i < |t.snaps| ensures SnapOk(t, t.snaps[i]) { SnapStays(s, t, s.snaps[i]); }
  }

  /** Nothing at or below a stamped watermark is missing from cold. */
  lemma StampedIsCold(segments: seq<Segment>, log: set<Event>, cut: int, w: int, e: Event)
    requires IsPrefix(Cold(segments), log) && StampSource(segments, cut, w) && e in log && e.commitSeq <= w
    ensures e in Cold(segments)
  {
    var g :| IsStampSource(segments, cut, w, g);
    var x: Event :| x in g && x.commitSeq == w;
    assert x in Cold(segments);
  }

  lemma PurgedIsCold(s: State, e: Event)
    requires Inv(s) && e in s.log && e.commitSeq <= s.purged
    ensures e in Cold(s.segments)
  {
    LastOk(s);
    StampedIsCold(s.segments, s.log, Last(s).cut, Last(s).w, e);
  }

  lemma CommitKeeps(s: State, t: State, writes: set<Event>)
    requires Inv(s) && Commit(s, t, writes)
    ensures Inv(t)
  {
    assert HistoryOk(t);
    SnapsStay(s, t);
  }

  /** Copying every hot row up to a timestamp extends the prefix. */
  lemma PrefixGrows(cold: set<Event>, log: set<Event>, hot: set<Event>, rows: set<Event>, target: int)
    requires IsPrefix(cold, log) && ClockOrder(log) && hot <= log && rows == UptoMicros(hot, target)
    requires forall e :: e in log ==> e in hot || e in cold
    ensures IsPrefix(cold + rows, log)
  {
    forall e, x | e in log && x in cold + rows && e.commitSeq <= x.commitSeq ensures e in cold + rows {
      if x in rows { assert e.micros <= x.micros; }
    }
  }

  lemma PersistCopies(s: State, t: State, target: int, files: seq<Segment>)
    requires Inv(s) && Persist(s, t, target, files)
    ensures Cold(t.segments) == Cold(s.segments) + UptoMicros(s.hot, target)
    ensures IsPrefix(Cold(t.segments), t.log)
  {
    ColdAppends(s.segments, files);
    forall e | e in s.log ensures e in s.hot || e in Cold(s.segments) {
      if e !in s.hot { PurgedIsCold(s, e); }
    }
    PrefixGrows(Cold(s.segments), s.log, s.hot, UptoMicros(s.hot, target), target);
  }

  lemma PersistColdOk(s: State, t: State, target: int, files: seq<Segment>)
    requires Inv(s) && Persist(s, t, target, files)
    ensures HistoryOk(t) && ColdOk(t)
  {
    PersistCopies(s, t, target, files);
    forall x | x in Cold(t.segments) ensures x in t.log && x.micros <= t.persistedAt { }
  }

  lemma PersistKeeps(s: State, t: State, target: int, files: seq<Segment>)
    requires Inv(s) && Persist(s, t, target, files)
    ensures Inv(t)
  {
    PersistColdOk(s, t, target, files);
    SnapsStay(s, t);
  }

  /** The window's rows are all the cold rows with those timestamps. */
  lemma WindowIsCold(segments: seq<Segment>, from: int, to: int)
    ensures Within(Overlapping(segments, from, to), from, to) == Within(Cold(segments), from, to)
    ensures Overlapping(segments, from, to) <= Cold(segments)
  {
    forall e | e in Within(Cold(segments), from, to) ensures e in Overlapping(segments, from, to) {
      var g :| g in segments && e in g;
      assert Overlaps(g, from, to);
    }
  }

  /** Merging a later window over a baseline serves the view of both. */
  lemma FoldServes(rows: seq<OutRow>, held: set<Event>, fold: set<Event>, band: seq<ResolvedRow>, cut: int)
    requires Serves(rows, View(held)) && ResolvesTo(band, fold)
    requires Coherent(fold) && Coherent(held + fold) && ClockOrder(held + fold)
    requires (forall e :: e in held ==> e.micros <= cut) && (forall e :: e in fold ==> e.micros > cut)
    ensures Serves(Merge([], band, None, rows, All), View(held + fold))
  {
    ColdAlone(band, fold);
    MergeServes([], band, rows, All, fold, View(held));
    KeepAll(Overlay(View(held), View(fold), Rows(fold)));
    forall l, h | l in held && h in fold ensures PosLess(l, h) { assert l.micros < h.micros; }
    ViewSplit(held + fold, held, fold);
  }

  lemma ColdAlone(band: seq<ResolvedRow>, fold: set<Event>)
    requires ResolvesTo(band, fold) && Coherent(fold)
    ensures ResolvesTo(Deduped([] + band), fold)
  {
    assert FenceMonotone([], band) && {} + fold == fold && ResolvesTo([], {});
    UnionLatestResolves([], band, {}, fold);
  }

  /** What a Snapshot step adds, in terms of the cold rows alone. */
  ghost predicate Folded(s: State, sn: Snap) {
    && Last(s).cut < sn.cut <= s.persistedAt && Last(s).w <= sn.w
    && sn.held == Last(s).held + Within(Cold(s.segments), Last(s).cut, sn.cut)
    && (forall e :: e in sn.held ==> e.commitSeq <= sn.w)
    && (sn.w != GENESIS ==> StampSource(s.segments, sn.cut, sn.w)) && Serves(sn.rows, View(sn.held))
  }

  lemma StampHasSource(segments: seq<Segment>, from: int, to: int, prior: int, w: int)
    requires Stamped(w, prior, Overlapping(segments, from, to)) && w != prior
    ensures StampSource(segments, to, w)
  {
    var x: Event :| x in Overlapping(segments, from, to) && x.commitSeq == w;
    var g :| g in segments && Overlaps(g, from, to) && x in g;
    assert IsStampSource(segments, to, w, g);
  }

  lemma WindowServes(log: set<Event>, cold: set<Event>, prior: Snap, cut: int, band: seq<ResolvedRow>)
    requires Coherent(log) && ClockOrder(log) && cold <= log && prior.held <= log
    requires (forall e :: e in prior.held ==> e.micros <= prior.cut) && Serves(prior.rows, View(prior.held))
    requires ResolvesTo(band, Within(cold, prior.cut, cut))
    ensures Serves(Merge([], band, None, prior.rows, All), View(prior.held + Within(cold, prior.cut, cut)))
  {
    var fold := Within(cold, prior.cut, cut);
    assert Coherent(fold) && Coherent(prior.held + fold) && ClockOrder(prior.held + fold);
    FoldServes(prior.rows, prior.held, fold, band, prior.cut);
  }

  /** The snapshot a step writes. */
  ghost function Written(s: State, cut: int, w: int, band: seq<ResolvedRow>): Snap {
    Snap(cut, w, Merge([], band, None, Last(s).rows, All), Last(s).held + Within(Cold(s.segments), Last(s).cut, cut))
  }

  lemma SnapshotWrites(s: State, t: State, request: Option<int>, w: int, band: seq<ResolvedRow>)
    requires Snapshot(s, t, request, w, band)
    ensures var cut := Cut(s, request);
            && Last(t) == Written(s, cut, w, band) && t == s.(snaps := s.snaps + [Last(t)]) && Last(s).cut < cut
            && ResolvesTo(band, Within(Cold(s.segments), Last(s).cut, cut))
  {
    WindowIsCold(s.segments, Last(s).cut, Cut(s, request));
  }

  lemma StampCovers(segments: seq<Segment>, prior: Snap, cut: int, w: int)
    requires Stamped(w, prior.w, Overlapping(segments, prior.cut, cut)) && (forall e :: e in prior.held ==> e.commitSeq <= prior.w)
    requires prior.cut < cut && GENESIS <= prior.w && (prior.w != GENESIS ==> StampSource(segments, prior.cut, prior.w))
    ensures prior.w <= w && (forall e :: e in prior.held + Within(Cold(segments), prior.cut, cut) ==> e.commitSeq <= w)
    ensures w != GENESIS ==> StampSource(segments, cut, w)
  {
    WindowIsCold(segments, prior.cut, cut);
    if w != prior.w { StampHasSource(segments, prior.cut, cut, prior.w, w); }
    else if w != GENESIS { SourceStays(segments, segments, prior.cut, cut, w); }
  }

  lemma SnapshotFolds(s: State, t: State, request: Option<int>, w: int, band: seq<ResolvedRow>)
    requires Inv(s) && Snapshot(s, t, request, w, band)
    ensures Folded(s, Last(t)) && t == s.(snaps := s.snaps + [Last(t)]) && Last(t).cut == Cut(s, request) && Last(t).w == w
  {
    LastOk(s);
    SnapshotWrites(s, t, request, w, band);
    StampCovers(s.segments, Last(s), Cut(s, request), w);
    WindowServes(s.log, Cold(s.segments), Last(s), Cut(s, request), band);
  }

  lemma FoldedSnaps(s: State, t: State, sn: Snap)
    requires SnapsOk(s) && 0 <= s.persistedAt && Folded(s, sn) && t == s.(snaps := s.snaps + [sn])
    ensures SnapsOk(t)
  {
    LastOk(s);
    assert SnapOk(t, sn);
    forall i | 0 <= i < |t.snaps| ensures SnapOk(t, t.snaps[i]) {
      if i < |s.snaps| { SnapStays(s, t, s.snaps[i]); }
    }
  }

  lemma FoldedRises(s: State, sn: Snap)
    requires SnapsRise(s.snaps) && Last(s).cut < sn.cut && Last(s).w <= sn.w
    ensures SnapsRise(s.snaps + [sn])
  {
  }

  lemma FoldedKeeps(s: State, t: State, sn: Snap)
    requires Inv(s) && Folded(s, sn) && t == s.(snaps := s.snaps + [sn])
    ensures Inv(t)
  {
    FoldedSnaps(s, t, sn);
    FoldedRises(s, sn);
  }

  lemma StampBelowNext(s: State, cut: int, w: int)
    requires HistoryOk(s) && StampSource(s.segments, cut, w)
    ensures w < s.next
  {
    var g :| IsStampSource(s.segments, cut, w, g);
    var x: Event :| x in g && x.commitSeq == w;
    assert x in Cold(s.segments);
  }

  lemma PurgeKeeps(s: State, t: State)
    requires Inv(s) && Purge(s, t)
    ensures Inv(t)
  {
    LastOk(s);
    StampBelowNext(s, Last(s).cut, Last(s).w);
    SnapsStay(s, t);
  }

  lemma NextKeeps(s: State, t: State)
    requires Inv(s) && Next(s, t)
    ensures Inv(t)
  {
    if writes :| Commit(s, t, writes) {
      CommitKeeps(s, t, writes);
    } else if target, files :| Persist(s, t, target, files) {
      PersistKeeps(s, t, target, files);
    } else if request, w, band :| Snapshot(s, t, request, w, band) {
      SnapshotFolds(s, t, request, w, band);
      FoldedKeeps(s, t, Last(t));
    } else {
      PurgeKeeps(s, t);
    }
  }

  /** In every run, cold holds a prefix of the log that covers both `Pu` and every stamped
      watermark, hot holds everything past `Pu`, and every baseline serves what was folded into it. */
  lemma {:induction false} InvAlways(states: seq<State>, i: nat)
    requires Run(states) && i < |states|
    ensures Inv(states[i])
  {
    if i > 0 {
      InvAlways(states, i - 1);
      NextKeeps(states[i - 1], states[i]);
    } else {
      assert Cold([]) == {};
    }
  }

  // ---------------------------------------------------------------- what a baseline holds

  /** Nothing at or before the cut is missing from the baseline. */
  ghost predicate Complete(log: set<Event>, sn: Snap) { sn.held == UptoMicros(log, sn.cut) }

  /** A snapshot over a complete baseline is the replay of everything up to its cut exactly when
      everything up to the cut had been persisted. */
  lemma SnapshotHoldsCut(s: State, t: State, request: Option<int>, w: int, band: seq<ResolvedRow>)
    requires Inv(s) && Snapshot(s, t, request, w, band) && Complete(s.log, Last(s))
    ensures Complete(t.log, Last(t)) <==> UptoMicros(s.log, Cut(s, request)) <= Cold(s.segments)
    ensures Complete(t.log, Last(t)) ==> Serves(Last(t).rows, View(UptoMicros(s.log, Cut(s, request))))
  {
    SnapshotFolds(s, t, request, w, band);
    LastOk(s);
    FoldComplete(s.log, Cold(s.segments), Last(s), Last(t));
  }

  lemma FoldComplete(log: set<Event>, cold: set<Event>, prior: Snap, sn: Snap)
    requires cold <= log && prior.held <= cold && prior.cut < sn.cut && Complete(log, prior)
    requires sn.held == prior.held + Within(cold, prior.cut, sn.cut)
    ensures Complete(log, sn) <==> UptoMicros(log, sn.cut) <= cold
  {
    if UptoMicros(log, sn.cut) <= cold {
      forall e ensures e in sn.held <==> e in UptoMicros(log, sn.cut) { }
    }
  }

  /** The stamped watermark is the baseline's own extent exactly when no included segment reaches
      past the cut. */
  lemma StampExact(s: State, t: State, request: Option<int>, w: int, band: seq<ResolvedRow>)
    requires Inv(s) && Snapshot(s, t, request, w, band) && Complete(t.log, Last(t))
    ensures Last(t).held == Upto(s.log, w)
       <==> forall e :: e in Overlapping(s.segments, Last(s).cut, Cut(s, request)) ==> e.micros <= Cut(s, request)
  {
    SnapshotFolds(s, t, request, w, band);
    WindowIsCold(s.segments, Last(s).cut, Cut(s, request));
    ExtentExact(s.segments, s.log, Last(s).cut, Last(t));
  }

  lemma ExtentExact(segments: seq<Segment>, log: set<Event>, from: int, sn: Snap)
    requires Cold(segments) <= log && ClockOrder(log) && Complete(log, sn) && from < sn.cut
    requires Overlapping(segments, from, sn.cut) <= Upto(log, sn.w) && (forall e :: e in sn.held ==> e.commitSeq <= sn.w)
    requires sn.w == GENESIS ==> Upto(log, GENESIS) == {}
    requires sn.w != GENESIS ==> StampSource(segments, sn.cut, sn.w)
    ensures sn.held == Upto(log, sn.w) <==> forall e :: e in Overlapping(segments, from, sn.cut) ==> e.micros <= sn.cut
  {
    if forall e :: e in Overlapping(segments, from, sn.cut) ==> e.micros <= sn.cut {
      forall e | e in Upto(log, sn.w) ensures e.micros <= sn.cut { StampWithinCut(segments, log, from, sn.cut, sn.w, e); }
    }
  }

  lemma StampWithinCut(segments: seq<Segment>, log: set<Event>, from: int, cut: int, w: int, e: Event)
    requires Cold(segments) <= log && ClockOrder(log) && from < cut && e in log && e.commitSeq <= w
    requires StampSource(segments, cut, w)
    requires forall e :: e in Overlapping(segments, from, cut) ==> e.micros <= cut
    ensures e.micros <= cut
  {
    var g :| IsStampSource(segments, cut, w, g);
    var x: Event :| x in g && x.commitSeq == w;
    assert x in Cold(segments);
    assert ReachesPast(g, cut) ==> Overlaps(g, from, cut);
    assert x.micros > cut ==> x in Overlapping(segments, from, cut);
  }

  // ---------------------------------------------------------------- reads

  /** `max(Pu, W_snap)`. */
  function Fence(s: State, sn: Snap): int { if s.purged > sn.w then s.purged else sn.w }

  /** `min(as_of, persist watermark)`: no segment wholly after it is fetched. */
  function FetchUpper(s: State, axis: Axis): int {
    if axis.AsOfMicros? && axis.ts < s.persistedAt then axis.ts else s.persistedAt
  }

  /** The segment overlaps the window from just after the baseline's cut, and has a row at or below
      the axis' position bound. */
  ghost predicate IsFetched(s: State, sn: Snap, axis: Axis, g: Segment) {
    && g in s.segments && Overlaps(g, sn.cut, FetchUpper(s, axis))
    && (CommitSeqUpper(axis).Some? ==> exists e :: e in g && e.commitSeq <= CommitSeqUpper(axis).value)
  }

  /** Some row of the segment is in the read's view of time. */
  ghost predicate HasSeen(g: Segment, axis: Axis) { exists e :: e in g && Sees(axis, e) }

  /** A segment is fetched exactly when it has a row past the baseline's cut and one the read sees. */
  lemma FetchedExactly(s: State, sn: Snap, axis: Axis, g: Segment)
    requires ColdOk(s) && g in s.segments
    ensures IsFetched(s, sn, axis, g) <==> ReachesPast(g, sn.cut) && HasSeen(g, axis)
  {
    assert forall e :: e in g ==> e in Cold(s.segments);
    if HasSeen(g, axis) {
      var e :| e in g && Sees(axis, e);
      assert e.micros <= FetchUpper(s, axis);
    }
  }

  ghost function Fetched(s: State, sn: Snap, axis: Axis): set<Event> {
    set g, e | g in s.segments && IsFetched(s, sn, axis, g) && e in g :: e
  }

  ghost function PlanTiers(s: State, sn: Snap, axis: Axis): Tiers {
    Tiers(s.hot, Fetched(s, sn, axis), sn.rows, sn.held, Fence(s, sn))
  }

  /** The planner may pick this baseline: none at all, or one whose cut and watermark the read is
      past.  The reader's own writes come after every commit. */
  ghost predicate Eligible(s: State, axis: Axis, sn: Snap) {
    && (sn == EMPTY_BASELINE || sn in s.snaps)
    && (axis.AsOfMicros? ==> sn.cut <= axis.ts) && (CommitSeqUpper(axis).Some? ==> sn.w <= CommitSeqUpper(axis).value)
    && Coherent(Own(axis)) && (forall o :: o in Own(axis) ==> o.commitSeq >= s.next && o.micros >= s.clock)
  }

  lemma PickedOk(s: State, sn: Snap)
    requires SnapsOk(s) && SnapsRise(s.snaps) && 0 <= s.persistedAt && GENESIS <= Last(s).w && (sn == EMPTY_BASELINE || sn in s.snaps)
    ensures SnapOk(s, sn) && sn.w <= Last(s).w
  {
    if sn != EMPTY_BASELINE { var i :| 0 <= i < |s.snaps| && s.snaps[i] == sn; } else { assert View({}) == map[]; }
  }

  lemma EligibleOk(s: State, axis: Axis, sn: Snap)
    requires Inv(s) && Eligible(s, axis, sn)
    ensures SnapOk(s, sn) && sn.w <= Last(s).w && Fence(s, sn) < s.next && (forall e :: e in sn.held ==> e in s.log && Sees(axis, e))
  {
    PickedOk(s, sn);
    if sn.w != GENESIS { StampBelowNext(s, sn.cut, sn.w); }
  }

  lemma FetchedIsCold(s: State, sn: Snap, axis: Axis)
    ensures Fetched(s, sn, axis) <= Cold(s.segments)
  {
  }

  /** Every visible cold row past the cut is fetched. */
  lemma FetchCovers(s: State, sn: Snap, axis: Axis, e: Event)
    requires ColdOk(s) && e in Cold(s.segments) && e.micros > sn.cut && Sees(axis, e)
    ensures e in Fetched(s, sn, axis)
  {
    var g :| g in s.segments && e in g;
    assert ReachesPast(g, sn.cut) && ReachesBack(g, FetchUpper(s, axis));
    assert IsFetched(s, sn, axis, g);
  }

  lemma VisibleCoherent(s: State, axis: Axis, sn: Snap)
    requires Inv(s) && Eligible(s, axis, sn)
    ensures Coherent(Visible(s.log, axis))
  {
  }

  lemma PlanFenceMonotone(s: State, axis: Axis, sn: Snap, hot: seq<ResolvedRow>, cold: seq<ResolvedRow>)
    requires Inv(s) && Eligible(s, axis, sn)
    requires ResolvesTo(hot, HotSource(PlanTiers(s, sn, axis), axis)) && ResolvesTo(cold, ColdUnfenced(PlanTiers(s, sn, axis), axis))
    ensures FenceMonotone(hot, cold)
  {
    var t := PlanTiers(s, sn, axis);
    FetchedIsCold(s, sn, axis);
    forall a, b | a in ColdUnfenced(t, axis) && b in HotSource(t, axis) ensures a.micros <= b.micros { assert a in s.log; }
    TimesImplyFenceMonotone(hot, cold, HotSource(t, axis), ColdUnfenced(t, axis));
  }

  /** What the planned read serves, in every reachable state. */
  lemma PlanServes(s: State, axis: Axis, sn: Snap, hot: seq<ResolvedRow>, cold: seq<ResolvedRow>, residual: OutRow -> bool)
    requires Inv(s) && Eligible(s, axis, sn)
    requires ResolvesTo(hot, HotSource(PlanTiers(s, sn, axis), axis)) && ResolvesTo(cold, ColdUnfenced(PlanTiers(s, sn, axis), axis))
    ensures var t := PlanTiers(s, sn, axis);
            var served := HotSource(t, axis) + ColdUnfenced(t, axis);
            served <= Visible(s.log, axis) && sn.held <= Visible(s.log, axis)
            && Serves(Merge(hot, cold, None, sn.rows, residual), Keep(Layered(sn.held, {}, served), residual))
  {
    var t := PlanTiers(s, sn, axis);
    var h, c := HotSource(t, axis), ColdUnfenced(t, axis);
    EligibleOk(s, axis, sn);
    FetchedIsCold(s, sn, axis);
    VisibleCoherent(s, axis, sn);
    assert h + c <= Visible(s.log, axis);
    PlanFenceMonotone(s, axis, sn, hot, cold);
    UnionLatestResolves(hot, cold, h, c);
    MergeServes(hot, cold, sn.rows, residual, h + c, View(sn.held));
    NoMiddle(sn.held, h + c);
  }

  /** In every reachable state, ties or not, and for every eligible baseline the planned read is right
      exactly when each row's topmost source holds its current version. */
  lemma TopmostDecides(states: seq<State>, i: nat, axis: Axis, sn: Snap, hot: seq<ResolvedRow>, cold: seq<ResolvedRow>)
    requires Run(states) && i < |states| && Eligible(states[i], axis, sn)
    requires ResolvesTo(hot, HotSource(PlanTiers(states[i], sn, axis), axis))
    requires ResolvesTo(cold, ColdUnfenced(PlanTiers(states[i], sn, axis), axis))
    ensures var t, v := PlanTiers(states[i], sn, axis), Visible(states[i].log, axis);
            Serves(Merge(hot, cold, None, sn.rows, All), View(v))
            <==> forall r :: r in Rows(v) ==> TopCurrent(sn.held, {}, HotSource(t, axis) + ColdUnfenced(t, axis), v, r)
  {
    var t, v := PlanTiers(states[i], sn, axis), Visible(states[i].log, axis);
    var served := HotSource(t, axis) + ColdUnfenced(t, axis);
    InvAlways(states, i);
    PlanServes(states[i], axis, sn, hot, cold, All);
    KeepAll(Layered(sn.held, {}, served));
    ServesUnique(Merge(hot, cold, None, sn.rows, All), Layered(sn.held, {}, served), View(v));
    LayersDecide(sn.held, {}, served, v);
  }

  /** The plan meets the tier contract when its baseline is complete. */
  lemma PlanHolds(s: State, axis: Axis, sn: Snap)
    requires Inv(s) && Eligible(s, axis, sn) && Complete(s.log, sn)
    ensures Holds(PlanTiers(s, sn, axis), s.log, axis)
  {
    var t := PlanTiers(s, sn, axis);
    EligibleOk(s, axis, sn);
    FetchedIsCold(s, sn, axis);
    forall e | e in s.log && e.commitSeq <= t.fence && Sees(axis, e) && e !in t.held ensures e in t.cold {
      UpToFenceIsCold(s, sn, e);
      FetchCovers(s, sn, axis, e);
    }
    forall l, h | l in sn.held && h in s.log - sn.held ensures PosLess(l, h) { assert l.micros < h.micros; }
  }

  lemma UpToFenceIsCold(s: State, sn: Snap, e: Event)
    requires Inv(s) && SnapOk(s, sn) && e in s.log && e.commitSeq <= Fence(s, sn)
    ensures e in Cold(s.segments)
  {
    if e.commitSeq <= s.purged { PurgedIsCold(s, e); } else { StampedIsCold(s.segments, s.log, sn.cut, sn.w, e); }
  }

  lemma CompleteReadExact(s: State, axis: Axis, sn: Snap, hot: seq<ResolvedRow>, cold: seq<ResolvedRow>)
    requires Inv(s) && Eligible(s, axis, sn) && Complete(s.log, sn)
    requires ResolvesTo(hot, HotSource(PlanTiers(s, sn, axis), axis)) && ResolvesTo(cold, ColdUnfenced(PlanTiers(s, sn, axis), axis))
    ensures var t := PlanTiers(s, sn, axis);
            Serves(Merge(hot, cold, None, sn.rows, All), View(Visible(s.log, axis)))
            <==> StraddlersCurrent(sn.held, HotSource(t, axis) + ColdSource(t, axis), Straddling(t))
  {
    PlanHolds(s, axis, sn);
    VisibleCoherent(s, axis, sn);
    PlanFenceMonotone(s, axis, sn, hot, cold);
    UnfencedReadExact(PlanTiers(s, sn, axis), s.log, axis, hot, cold);
  }

  // ---------------------------------------------------------------- runs without ties

  /** Commits after a Persist carry later timestamps than its watermark.  Persist, Snapshot and Purge
      run whenever and however they like. */
  ghost predicate TieFreeNext(s: State, t: State) {
    || (exists writes :: Commit(s, t, writes) && t.clock > s.persistedAt)
    || (exists target, files :: Persist(s, t, target, files))
    || (exists request, w, band :: Snapshot(s, t, request, w, band))
    || Purge(s, t)
  }

  ghost predicate TieFreeRun(states: seq<State>) {
    |states| > 0 && Init(states[0]) && forall i :: 0 <= i < |states| - 1 ==> TieFreeNext(states[i], states[i + 1])
  }

  lemma TieFreeIsRun(states: seq<State>)
    requires TieFreeRun(states)
    ensures Run(states)
  {
    forall i | 0 <= i < |states| - 1 ensures Next(states[i], states[i + 1]) { assert TieFreeNext(states[i], states[i + 1]); }
  }

  /** Everything up to the persist watermark is cold, and no baseline misses anything up to its cut. */
  ghost predicate Whole(s: State) {
    && Inv(s) && UptoMicros(s.log, s.persistedAt) <= Cold(s.segments)
    && (forall i :: 0 <= i < |s.snaps| ==> Complete(s.log, s.snaps[i]))
  }

  lemma WholeCommit(s: State, t: State, writes: set<Event>)
    requires Whole(s) && Commit(s, t, writes) && t.clock > s.persistedAt
    ensures Whole(t)
  {
    CommitKeeps(s, t, writes);
    forall i | 0 <= i < |t.snaps| ensures Complete(t.log, t.snaps[i]) {
      assert SnapOk(s, s.snaps[i]);
      assert UptoMicros(t.log, t.snaps[i].cut) == UptoMicros(s.log, s.snaps[i].cut);
    }
  }

  lemma WholePersist(s: State, t: State, target: int, files: seq<Segment>)
    requires Whole(s) && Persist(s, t, target, files)
    ensures Whole(t)
  {
    PersistKeeps(s, t, target, files);
    PersistCopies(s, t, target, files);
    forall e | e in UptoMicros(t.log, t.persistedAt) ensures e in Cold(t.segments) {
      if e !in s.hot { PurgedIsCold(s, e); }
    }
  }

  lemma LastComplete(s: State)
    requires Whole(s)
    ensures Complete(s.log, Last(s))
  {
    if s.snaps == [] { assert UptoMicros(s.log, 0) == {}; }
  }

  lemma WholeFold(s: State, t: State, sn: Snap)
    requires Whole(s) && Folded(s, sn) && sn.cut <= s.persistedAt && t == s.(snaps := s.snaps + [sn])
    ensures Whole(t)
  {
    FoldedKeeps(s, t, sn);
    LastOk(s);
    LastComplete(s);
    FoldComplete(s.log, Cold(s.segments), Last(s), sn);
  }

  lemma WholeNext(s: State, t: State)
    requires Whole(s) && TieFreeNext(s, t)
    ensures Whole(t)
  {
    if writes :| Commit(s, t, writes) && t.clock > s.persistedAt {
      WholeCommit(s, t, writes);
    } else if target, files :| Persist(s, t, target, files) {
      WholePersist(s, t, target, files);
    } else if request, w, band :| Snapshot(s, t, request, w, band) {
      SnapshotFolds(s, t, request, w, band);
      WholeFold(s, t, Last(t));
    } else {
      PurgeKeeps(s, t);
    }
  }

  /** In every run without ties every baseline is the replay of everything up to its cut. */
  lemma {:induction false} WholeAlways(states: seq<State>, i: nat)
    requires TieFreeRun(states) && i < |states|
    ensures Whole(states[i])
  {
    if i > 0 {
      WholeAlways(states, i - 1);
      WholeNext(states[i - 1], states[i]);
    } else {
      assert Cold([]) == {};
    }
  }

  lemma EligibleComplete(s: State, axis: Axis, sn: Snap)
    requires Whole(s) && Eligible(s, axis, sn)
    ensures Complete(s.log, sn)
  {
    if sn == EMPTY_BASELINE {
      assert UptoMicros(s.log, 0) == {};
    } else {
      var i :| 0 <= i < |s.snaps| && s.snaps[i] == sn;
    }
  }

  /** In every state of a run without ties, whatever the order of Persist, Snapshot and Purge and
      wherever the cuts fell, the planned read from any eligible baseline is right exactly when the
      straddling rows are current. */
  lemma EveryReadExact(states: seq<State>, i: nat, axis: Axis, sn: Snap, hot: seq<ResolvedRow>, cold: seq<ResolvedRow>)
    requires TieFreeRun(states) && i < |states| && Eligible(states[i], axis, sn)
    requires ResolvesTo(hot, HotSource(PlanTiers(states[i], sn, axis), axis))
    requires ResolvesTo(cold, ColdUnfenced(PlanTiers(states[i], sn, axis), axis))
    ensures var t := PlanTiers(states[i], sn, axis);
            Serves(Merge(hot, cold, None, sn.rows, All), View(Visible(states[i].log, axis)))
            <==> StraddlersCurrent(sn.held, HotSource(t, axis) + ColdSource(t, axis), Straddling(t))
  {
    WholeAlways(states, i);
    EligibleComplete(states[i], axis, sn);
    CompleteReadExact(states[i], axis, sn, hot, cold);
  }

  // ---------------------------------------------------------------- reads without straddlers

  /** No segment has rows on both sides of the cut. */
  ghost predicate CleanCut(segments: seq<Segment>, cut: int) {
    forall g :: g in segments ==> !(ReachesBack(g, cut) && ReachesPast(g, cut))
  }

  lemma NoStraddler(s: State, axis: Axis, sn: Snap)
    requires Inv(s) && Eligible(s, axis, sn) && CleanCut(s.segments, sn.cut)
    ensures Straddling(PlanTiers(s, sn, axis)) == {}
  {
    EligibleOk(s, axis, sn);
    forall e | e in Fetched(s, sn, axis) ensures e !in sn.held {
      var g :| g in s.segments && IsFetched(s, sn, axis, g) && e in g;
      assert ReachesPast(g, sn.cut) && !ReachesBack(g, sn.cut);
    }
  }

  /** In every state of a run without ties, from any eligible baseline whose cut no segment crosses,
      the planned read is the replay of the visible history under every residual. */
  lemma CleanReadIsReplay(states: seq<State>, i: nat, axis: Axis, sn: Snap, hot: seq<ResolvedRow>, cold: seq<ResolvedRow>,
                          residual: OutRow -> bool, es: seq<Event>)
    requires TieFreeRun(states) && i < |states| && Eligible(states[i], axis, sn) && CleanCut(states[i].segments, sn.cut)
    requires ResolvesTo(hot, HotSource(PlanTiers(states[i], sn, axis), axis))
    requires ResolvesTo(cold, ColdUnfenced(PlanTiers(states[i], sn, axis), axis))
    requires History(es, Visible(states[i].log, axis))
    ensures Serves(Merge(hot, cold, None, sn.rows, residual), Keep(Replay(es), residual))
  {
    WholeAlways(states, i);
    EligibleComplete(states[i], axis, sn);
    NoStraddler(states[i], axis, sn);
    PlanHolds(states[i], axis, sn);
    VisibleCoherent(states[i], axis, sn);
    PlanFenceMonotone(states[i], axis, sn, hot, cold);
    assert Rows({}) == {};
    UnfencedReadIsReplay(PlanTiers(states[i], sn, axis), states[i].log, axis, hot, cold, residual, es);
  }

  // ---------------------------------------------------------------- disciplined runs

  /** A step without ties whose snapshots cut at the persist watermark, and in which no Persist comes
      between a Snapshot and its Purge. */
  ghost predicate DisciplinedNext(s: State, t: State) {
    || (exists writes :: Commit(s, t, writes) && t.clock > s.persistedAt)
    || (exists target, files :: Persist(s, t, target, files) && s.purged == Last(s).w)
    || (exists w, band :: Snapshot(s, t, None, w, band))
    || Purge(s, t)
  }

  ghost predicate DisciplinedRun(states: seq<State>) {
    |states| > 0 && Init(states[0]) && forall i :: 0 <= i < |states| - 1 ==> DisciplinedNext(states[i], states[i + 1])
  }

  lemma StepIsTieFree(s: State, t: State)
    requires DisciplinedNext(s, t)
    ensures TieFreeNext(s, t)
  {
    if w, band :| Snapshot(s, t, None, w, band) { }
  }

  lemma DisciplinedIsTieFree(states: seq<State>)
    requires DisciplinedRun(states)
    ensures TieFreeRun(states)
  {
    forall i | 0 <= i < |states| - 1 ensures TieFreeNext(states[i], states[i + 1]) { StepIsTieFree(states[i], states[i + 1]); }
  }

  ghost predicate CleanCuts(s: State) { forall i :: 0 <= i < |s.snaps| ==> CleanCut(s.segments, s.snaps[i].cut) }

  lemma PersistCleanly(s: State, target: int, files: seq<Segment>, i: nat)
    requires Whole(s) && CleanCuts(s) && s.purged == Last(s).w && i < |s.snaps| && Cold(files) == UptoMicros(s.hot, target)
    ensures CleanCut(s.segments + files, s.snaps[i].cut)
  {
    var sn := s.snaps[i];
    assert SnapOk(s, sn) && Complete(s.log, sn) && sn.w <= Last(s).w;
    forall g | g in files ensures !ReachesBack(g, sn.cut) {
      forall e | e in g ensures e.micros > sn.cut {
        assert e in Cold(files);
        assert e in s.hot && e.commitSeq > s.purged && e !in sn.held;
      }
    }
  }

  lemma EndIsCleanCut(s: State)
    requires ColdOk(s)
    ensures CleanCut(s.segments, s.persistedAt)
  {
    forall g | g in s.segments ensures !ReachesPast(g, s.persistedAt) {
      forall e | e in g ensures e.micros <= s.persistedAt { assert e in Cold(s.segments); }
    }
  }

  lemma CleanPersist(s: State, t: State, target: int, files: seq<Segment>)
    requires Whole(s) && CleanCuts(s) && Persist(s, t, target, files) && s.purged == Last(s).w
    ensures CleanCuts(t)
  {
    forall i | 0 <= i < |t.snaps| ensures CleanCut(t.segments, t.snaps[i].cut) { PersistCleanly(s, target, files, i); }
  }

  lemma CleanFold(s: State, t: State, sn: Snap)
    requires ColdOk(s) && CleanCuts(s) && sn.cut == s.persistedAt && t == s.(snaps := s.snaps + [sn])
    ensures CleanCuts(t)
  {
    EndIsCleanCut(s);
  }

  lemma CleanNext(s: State, t: State)
    requires Whole(s) && CleanCuts(s) && DisciplinedNext(s, t)
    ensures CleanCuts(t)
  {
    if writes :| Commit(s, t, writes) && t.clock > s.persistedAt {
      assert t.segments == s.segments && t.snaps == s.snaps;
    } else if target, files :| Persist(s, t, target, files) && s.purged == Last(s).w {
      CleanPersist(s, t, target, files);
    } else if w, band :| Snapshot(s, t, None, w, band) {
      SnapshotFolds(s, t, None, w, band);
      CleanFold(s, t, Last(t));
    } else {
      assert t.segments == s.segments && t.snaps == s.snaps;
    }
  }

  ghost predicate Tidy(s: State) { Whole(s) && CleanCuts(s) }

  lemma TidyNext(s: State, t: State)
    requires Tidy(s) && DisciplinedNext(s, t)
    ensures Tidy(t)
  {
    CleanNext(s, t);
    StepIsTieFree(s, t);
    WholeNext(s, t);
  }

  lemma {:induction false} TidyAlways(states: seq<State>, i: nat)
    requires DisciplinedRun(states) && i < |states|
    ensures Tidy(states[i])
  {
    if i > 0 {
      TidyAlways(states, i - 1);
      TidyNext(states[i - 1], states[i]);
    } else {
      assert Cold([]) == {};
    }
  }

  /** In every state of a disciplined run, whichever eligible baseline the planner picks and wherever
      Persist, Snapshot and Purge have got to, the planned read is the replay of the visible history. */
  lemma EveryReadIsReplay(states: seq<State>, i: nat, axis: Axis, sn: Snap, hot: seq<ResolvedRow>, cold: seq<ResolvedRow>,
                          residual: OutRow -> bool, es: seq<Event>)
    requires DisciplinedRun(states) && i < |states| && Eligible(states[i], axis, sn)
    requires ResolvesTo(hot, HotSource(PlanTiers(states[i], sn, axis), axis))
    requires ResolvesTo(cold, ColdUnfenced(PlanTiers(states[i], sn, axis), axis))
    requires History(es, Visible(states[i].log, axis))
    ensures Serves(Merge(hot, cold, None, sn.rows, residual), Keep(Replay(es), residual))
  {
    DisciplinedIsTieFree(states);
    TidyAlways(states, i);
    if sn == EMPTY_BASELINE { NothingBeforeZero(states[i]); }
    CleanReadIsReplay(states, i, axis, sn, hot, cold, residual, es);
  }

  lemma NothingBeforeZero(s: State)
    requires Inv(s)
    ensures CleanCut(s.segments, 0)
  {
    forall g | g in s.segments ensures !ReachesBack(g, 0) {
      forall e | e in g ensures e.micros > 0 { assert e in Cold(s.segments); }
    }
  }
}
