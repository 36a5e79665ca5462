/** Reads on a forked branch: the parent's cold tier folded in below the child, and inherited by
    clamped segment references.
  */
module Fork {
  import opened Base
  import opened Log
  import opened MergeRead
  import opened TieredRead

  /** `commit_seq_ceiling = min(fork_commit_seq_num, as_of_seq)`. */
  function Ceiling(fork: int, axis: Axis): int {
    match CommitSeqUpper(axis)
    case None => fork
    case Some(n) => if n < fork then n else fork
  }

  /** The parent rows the base resolve admits, from whatever the parent's segment files hold. */
  function BaseSource(files: set<Event>, fork: int, axis: Axis): set<Event> {
    set e | e in files && e.commitSeq <= Ceiling(fork, axis) && (axis.AsOfMicros? ==> e.micros <= axis.ts)
  }

  /** What the child inherits: the parent's history up to the fork, as far as the read sees. */
  ghost function Inherited(parent: set<Event>, fork: int, axis: Axis): set<Event> {
    set e | e in parent && e.commitSeq <= fork && Sees(axis, e)
  }

  // ---------------------------------------------------------------- the base fold

  /** The base source bounded below by the parent's baseline. */
  function BaseBand(files: set<Event>, wSnap: int, fork: int, axis: Axis): set<Event> {
    set e | e in BaseSource(files, fork, axis) && e.commitSeq > wSnap
  }

  /** The parent's cold tier: a baseline at or below the ceiling and every commit from there to the fork. */
  ghost predicate ParentCold(parent: set<Event>, files: set<Event>, baseline: seq<OutRow>, wSnap: int, fork: int, axis: Axis) {
    && files <= parent && wSnap <= Ceiling(fork, axis) && Serves(baseline, View(Upto(parent, wSnap)))
    && (forall e :: e in parent && e.commitSeq <= wSnap ==> Sees(axis, e))
    && (forall e :: e in parent && wSnap < e.commitSeq <= fork ==> e in files)
  }

  /** The child holds every commit after the fork and has no baseline of its own. */
  ghost predicate ChildTiers(t: Tiers, child: set<Event>, fork: int, axis: Axis) {
    && t.held == {} && t.fence >= fork && Holds(t, child, axis) && forall e :: e in child ==> e.commitSeq > fork
  }

  lemma InheritedSplits(parent: set<Event>, files: set<Event>, baseline: seq<OutRow>, wSnap: int, fork: int, axis: Axis)
    requires ParentCold(parent, files, baseline, wSnap, fork, axis)
    ensures Inherited(parent, fork, axis) == Upto(parent, wSnap) + BaseBand(files, wSnap, fork, axis)
  {
  }

  lemma ForkedServes(parent: set<Event>, files: set<Event>, baseline: seq<OutRow>, wSnap: int, fork: int, child: set<Event>, t: Tiers,
                     axis: Axis, hot: seq<ResolvedRow>, cold: seq<ResolvedRow>, base: seq<ResolvedRow>, residual: OutRow -> bool)
    requires ParentCold(parent, files, baseline, wSnap, fork, axis) && ChildTiers(t, child, fork, axis)
    requires Coherent(Visible(child, axis)) && FenceMonotone(hot, cold)
    requires ResolvesTo(hot, HotSource(t, axis)) && ResolvesTo(cold, ColdSource(t, axis))
    requires ResolvesTo(base, BaseBand(files, wSnap, fork, axis))
    ensures Serves(Merge(hot, cold, Some(base), baseline, residual),
                   Keep(Layered(Upto(parent, wSnap), BaseBand(files, wSnap, fork, axis), Visible(child, axis)), residual))
  {
    SourcesCover(t, child, axis);
    var h, c := HotSource(t, axis), ColdSource(t, axis);
    assert Visible(child, axis) == h + c;
    UnionLatestResolves(hot, cold, h, c);
    MergeWithParentServes(hot, cold, base, baseline, residual, h + c, BaseBand(files, wSnap, fork, axis), View(Upto(parent, wSnap)));
  }

  lemma TwoSplits(lo: set<Event>, mid: set<Event>, hi: set<Event>)
    requires Coherent((lo + mid) + hi)
    requires forall l, h :: l in lo && h in mid ==> PosLess(l, h)
    requires forall l, h :: l in lo + mid && h in hi ==> PosLess(l, h)
    ensures View((lo + mid) + hi) == Layered(lo, mid, hi)
  {
    ViewSplit((lo + mid) + hi, lo + mid, hi);
    assert Coherent(lo + mid);
    ViewSplit(lo + mid, lo, mid);
  }

  lemma ChildFollows(t: Tiers, child: set<Event>, fork: int, axis: Axis, e: Event)
    requires ChildTiers(t, child, fork, axis) && e in Visible(child, axis)
    ensures e.commitSeq > fork
  {
  }

  /** The fold's contract: hot over child-cold over the parent's cold band by `row_uuid` serves the
      parent's history up to the fork followed by the child's, whatever post-fork rows the parent's
      files also hold. */
  lemma ForkedReadIsReplay(
    parent: set<Event>, files: set<Event>, baseline: seq<OutRow>, wSnap: int, fork: int, child: set<Event>, t: Tiers, axis: Axis,
    hot: seq<ResolvedRow>, cold: seq<ResolvedRow>, base: seq<ResolvedRow>, residual: OutRow -> bool,
    inherited: seq<Event>, own: seq<Event>)
    requires ParentCold(parent, files, baseline, wSnap, fork, axis) && ChildTiers(t, child, fork, axis)
    requires Coherent(Inherited(parent, fork, axis) + Visible(child, axis)) && FenceMonotone(hot, cold)
    requires ResolvesTo(hot, HotSource(t, axis)) && ResolvesTo(cold, ColdSource(t, axis))
    requires ResolvesTo(base, BaseBand(files, wSnap, fork, axis))
    requires History(inherited, Inherited(parent, fork, axis)) && History(own, Visible(child, axis))
    ensures Serves(Merge(hot, cold, Some(base), baseline, residual), Keep(Replay(inherited + own), residual))
  {
    var lo, mid, hi := Upto(parent, wSnap), BaseBand(files, wSnap, fork, axis), Visible(child, axis);
    InheritedSplits(parent, files, baseline, wSnap, fork, axis);
    ForkedServes(parent, files, baseline, wSnap, fork, child, t, axis, hot, cold, base, residual);
    forall l, h | l in lo + mid && h in hi ensures PosLess(l, h) { ChildFollows(t, child, fork, axis, h); }
    TwoSplits(lo, mid, hi);
    HistoriesChain(inherited, own, lo + mid, hi);
    ReplayIsView(inherited + own, (lo + mid) + hi);
  }

  // ---------------------------------------------------------------- inherited references

  /** A segment row of the plan: the rows its file range holds and the ceiling it claims. */
  datatype PersistSegment = PersistSegment(rows: set<Event>, maxCommitSeq: Option<int>)

  function SegmentRows(s: PersistSegment): set<Event> {
    set e | e in s.rows && (s.maxCommitSeq.Some? ==> e.commitSeq <= s.maxCommitSeq.value)
  }

  ghost function ColdRows(segments: seq<PersistSegment>): set<Event> {
    set s, e | s in segments && e in SegmentRows(s) :: e
  }

  lemma ColdRowsAppend(a: seq<PersistSegment>, b: seq<PersistSegment>)
    ensures ColdRows(a + b) == ColdRows(a) + ColdRows(b)
  {
    forall e | e in ColdRows(a) + ColdRows(b) ensures e in ColdRows(a + b) {
      if e in ColdRows(a) {
        var s :| s in a && e in SegmentRows(s);
        assert s in a + b;
      } else {
        var s :| s in b && e in SegmentRows(s);
        assert s in a + b;
      }
    }
  }

  /** The fork's copies of the parent's segments, each clamped to the fork position. */
  ghost predicate ClampedTo(segments: seq<PersistSegment>, parent: set<Event>, fork: int) {
    forall s :: s in segments ==> s.rows <= parent && s.maxCommitSeq.Some? && s.maxCommitSeq.value <= fork
  }

  lemma ClampedRows(segments: seq<PersistSegment>, parent: set<Event>, fork: int)
    requires ClampedTo(segments, parent, fork)
    ensures ColdRows(segments) <= Upto(parent, fork)
  {
  }

  /** A forked child's sources: rows of clamped copies and of its own later files that cover what the
      baseline does not hold of either history, its own commits split at the fence. */
  ghost predicate ForkedTiers(parent: set<Event>, child: set<Event>, fork: int, copied: seq<PersistSegment>, own: seq<PersistSegment>,
                              t: Tiers, axis: Axis)
  {
    && fork <= t.fence && ClampedTo(copied, parent, fork) && t.cold <= ColdRows(copied + own)
    && (forall e :: e in child ==> e.commitSeq > fork) && ColdRows(own) <= child && t.hot <= child
    && (forall e :: e in Inherited(parent, fork, axis) && e !in t.held ==> e in t.cold)
    && (forall e :: e in child && e.commitSeq <= t.fence && Sees(axis, e) && e !in t.held ==> e in t.cold)
    && (forall e :: e in child && e.commitSeq > t.fence ==> e in t.hot)
  }

  /** The read sees the whole baseline, which precedes the rest and replays what it holds; the
      reader's own writes come after every commit. */
  ghost predicate BaselineSeen(t: Tiers, log: set<Event>, axis: Axis) {
    && t.held <= log && (forall e :: e in t.held ==> e.commitSeq <= t.fence && Sees(axis, e))
    && RowsPrecede(t.held, log - t.held) && Serves(t.snapshot, View(t.held))
    && (forall o :: o in Own(axis) ==> o.commitSeq > t.fence && forall e :: e in log ==> e.commitSeq < o.commitSeq)
  }

  /** The tier contract holds of the parent's history up to the fork followed by the child's. */
  lemma ClampedReferencesHold(parent: set<Event>, child: set<Event>, fork: int, copied: seq<PersistSegment>, own: seq<PersistSegment>,
                              t: Tiers, axis: Axis)
    requires ForkedTiers(parent, child, fork, copied, own, t, axis) && BaselineSeen(t, Upto(parent, fork) + child, axis)
    ensures Holds(t, Upto(parent, fork) + child, axis)
  {
    ColdRowsAppend(copied, own);
    ClampedRows(copied, parent, fork);
  }

  lemma ForkedVisible(parent: set<Event>, child: set<Event>, fork: int, axis: Axis)
    ensures Visible(Upto(parent, fork) + child, axis) == Inherited(parent, fork, axis) + Visible(child, axis)
  {
  }

  /** A read at or above the fork goes through the copied references alone.  It serves the parent's
      history up to the fork and then the child's exactly when every copied row the baseline already
      holds is current. */
  lemma ClampedReadExact(parent: set<Event>, child: set<Event>, fork: int, copied: seq<PersistSegment>, own: seq<PersistSegment>,
                         t: Tiers, axis: Axis, hot: seq<ResolvedRow>, cold: seq<ResolvedRow>)
    requires ForkedTiers(parent, child, fork, copied, own, t, axis) && BaselineSeen(t, Upto(parent, fork) + child, axis)
    requires Coherent(Inherited(parent, fork, axis) + Visible(child, axis)) && FenceMonotone(hot, cold)
    requires ResolvesTo(hot, HotSource(t, axis)) && ResolvesTo(cold, ColdUnfenced(t, axis))
    ensures Serves(Merge(hot, cold, None, t.snapshot, All), View(Inherited(parent, fork, axis) + Visible(child, axis)))
       <==> StraddlersCurrent(t.held, HotSource(t, axis) + ColdSource(t, axis), Straddling(t))
  {
    ClampedReferencesHold(parent, child, fork, copied, own, t, axis);
    ForkedVisible(parent, child, fork, axis);
    UnfencedReadExact(t, Upto(parent, fork) + child, axis, hot, cold);
  }

  /** With current straddlers it is the replay of the two histories under every residual. */
  lemma ClampedReadIsReplay(parent: set<Event>, child: set<Event>, fork: int, copied: seq<PersistSegment>, own: seq<PersistSegment>,
                            t: Tiers, axis: Axis, hot: seq<ResolvedRow>, cold: seq<ResolvedRow>, residual: OutRow -> bool,
                            inherited: seq<Event>, later: seq<Event>)
    requires ForkedTiers(parent, child, fork, copied, own, t, axis) && BaselineSeen(t, Upto(parent, fork) + child, axis)
    requires Coherent(Inherited(parent, fork, axis) + Visible(child, axis)) && FenceMonotone(hot, cold)
    requires ResolvesTo(hot, HotSource(t, axis)) && ResolvesTo(cold, ColdUnfenced(t, axis))
    requires StraddlersCurrent(t.held, HotSource(t, axis) + ColdSource(t, axis), Straddling(t))
    requires History(inherited, Inherited(parent, fork, axis)) && History(later, Visible(child, axis))
    ensures Serves(Merge(hot, cold, None, t.snapshot, residual), Keep(Replay(inherited + later), residual))
  {
    ClampedReferencesHold(parent, child, fork, copied, own, t, axis);
    ForkedVisible(parent, child, fork, axis);
    forall l, h | l in Inherited(parent, fork, axis) && h in Visible(child, axis) ensures PosLess(l, h) { }
    HistoriesChain(inherited, later, Inherited(parent, fork, axis), Visible(child, axis));
    UnfencedReadIsReplay(t, Upto(parent, fork) + child, axis, hot, cold, residual, inherited + later);
  }

  // ---------------------------------------------------------------- reads below the fork

  /** `as_of_micros < fork_micros || as_of_seq < fork_seq`: the only reads that reach for the parent. */
  predicate BelowFork(axis: Axis, fork: int, forkMicros: int) {
    match axis
    case AsOfMicros(ts) => ts < forkMicros
    case AsOfSeq(n) => n < fork
    case OpenTx(_, _) => false
  }

  /** A read is below the fork exactly when it does not see the commit the fork was taken at. */
  lemma BelowForkMeans(axis: Axis, fork: int, forkMicros: int, e: Event)
    requires e.commitSeq == fork && e.micros == forkMicros && (axis.OpenTx? ==> axis.began > fork)
    ensures BelowFork(axis, fork, forkMicros) <==> !Sees(axis, e)
  {
  }

  /** The child's plan below the fork: rows of clamped copies and of its own later files, a baseline
      of inherited rows the read sees (its own leg, or else the parent's), hot past the fork. */
  ghost predicate BelowForkTiers(parent: set<Event>, child: set<Event>, fork: int, forkMicros: int, copied: seq<PersistSegment>,
                                 own: seq<PersistSegment>, t: Tiers, axis: Axis)
  {
    && BelowFork(axis, fork, forkMicros) && fork <= t.fence && ClampedTo(copied, parent, fork)
    && t.cold <= ColdRows(copied + own) && ColdRows(own) <= child && t.hot <= child
    && (forall e :: e in child ==> e.commitSeq > fork && e.micros >= forkMicros)
    && t.held <= Inherited(parent, fork, axis) && Serves(t.snapshot, View(t.held))
  }

  /** The child's own writes are out of sight: hot is empty and cold holds inherited rows only. */
  lemma BelowForkSources(parent: set<Event>, child: set<Event>, fork: int, forkMicros: int, copied: seq<PersistSegment>,
                         own: seq<PersistSegment>, t: Tiers, axis: Axis)
    requires BelowForkTiers(parent, child, fork, forkMicros, copied, own, t, axis)
    ensures HotSource(t, axis) == {} && ColdUnfenced(t, axis) <= Inherited(parent, fork, axis)
    ensures Visible(Upto(parent, fork) + child, axis) == Inherited(parent, fork, axis)
  {
    ColdRowsAppend(copied, own);
    ClampedRows(copied, parent, fork);
  }

  lemma NoHotResolves(hot: seq<ResolvedRow>, cold: seq<ResolvedRow>, c: set<Event>)
    requires ResolvesTo(hot, {}) && ResolvesTo(cold, c) && Coherent(c)
    ensures ResolvesTo(Deduped(hot + cold), c)
  {
    assert forall o :: o in hot ==> Carries(o, {});
    assert {} + c == c;
    UnionLatestResolves(hot, cold, {}, c);
  }

  /** What the fold serves below the fork: the copied rows over the parent's over the baseline. */
  lemma BelowForkServes(parent: set<Event>, child: set<Event>, fork: int, forkMicros: int, copied: seq<PersistSegment>,
                        own: seq<PersistSegment>, t: Tiers, axis: Axis, files: set<Event>,
                        hot: seq<ResolvedRow>, cold: seq<ResolvedRow>, base: seq<ResolvedRow>, residual: OutRow -> bool)
    requires BelowForkTiers(parent, child, fork, forkMicros, copied, own, t, axis) && files <= parent
    requires Coherent(Inherited(parent, fork, axis))
    requires ResolvesTo(hot, HotSource(t, axis)) && ResolvesTo(cold, ColdUnfenced(t, axis))
    requires ResolvesTo(base, BaseSource(files, fork, axis))
    ensures Serves(Merge(hot, cold, Some(base), t.snapshot, residual),
                   Keep(Layered(t.held, BaseSource(files, fork, axis), ColdUnfenced(t, axis)), residual))
  {
    var c := ColdUnfenced(t, axis);
    BelowForkSources(parent, child, fork, forkMicros, copied, own, t, axis);
    assert Coherent(c);
    NoHotResolves(hot, cold, c);
    MergeWithParentServes(hot, cold, base, t.snapshot, residual, c, BaseSource(files, fork, axis), View(t.held));
  }

  /** A copied row is on top of everything, so it must be its row's current version; a parent row the
      baseline already holds, if nothing else mentions the row, must be its baseline version. */
  ghost predicate FoldCurrent(held: set<Event>, mid: set<Event>, top: set<Event>, v: set<Event>) {
    && (forall r :: r in Rows(top) && r in Rows(v) ==> SameVersion(Winner(top, r), Winner(v, r)))
    && (forall r :: r in Rows(mid * held) && r !in Rows(top) && r !in Rows(mid - held) ==>
          r in Rows(held) && SameVersion(Winner(mid * held, r), Winner(held, r)))
  }

  lemma SameWinner(some: set<Event>, all: set<Event>, r: Uuid)
    requires Coherent(all) && some <= all && r in Rows(all) && forall e :: e in all && e.row == r ==> e in some
    ensures r in Rows(some) && Winner(some, r) == Winner(all, r)
  {
    assert Latest(some, Winner(all, r));
    WinnerUnique(some, Winner(all, r));
  }

  lemma FoldRow(held: set<Event>, mid: set<Event>, top: set<Event>, v: set<Event>, r: Uuid)
    requires Coherent(v) && held <= v && mid <= v && RowsPrecede(held, v - held) && v - held <= mid + top
    requires r in Rows(v) && r !in Rows(top)
    ensures TopCurrent(held, mid, top, v, r)
       <==> (r in Rows(mid * held) && r !in Rows(mid - held) ==>
               r in Rows(held) && SameVersion(Winner(mid * held, r), Winner(held, r)))
  {
    var newer, strad := mid - held, mid * held;
    assert mid == newer + strad;
    forall e | e in v && e.row == r ensures e in held + newer {
      if e !in held { assert e in mid + top; }
    }
    SameWinner(held + newer, v, r);
    StraddlerRow(held, newer, strad, r);
    assert r in Rows(newer + strad) <==> r in Rows(mid);
  }

  lemma FoldDecides(held: set<Event>, mid: set<Event>, top: set<Event>, v: set<Event>)
    requires Coherent(v) && held <= v && mid <= v && top <= v && RowsPrecede(held, v - held) && v - held <= mid + top
    ensures (forall r :: r in Rows(v) ==> TopCurrent(held, mid, top, v, r)) <==> FoldCurrent(held, mid, top, v)
  {
    forall r | r in Rows(v) && r !in Rows(top)
      ensures TopCurrent(held, mid, top, v, r)
         <==> (r in Rows(mid * held) && r !in Rows(mid - held) ==>
                 r in Rows(held) && SameVersion(Winner(mid * held, r), Winner(held, r)))
    {
      FoldRow(held, mid, top, v, r);
    }
    assert forall r :: r in Rows(mid * held) ==> r in Rows(v);
  }

  lemma FoldTopmost(out: seq<OutRow>, held: set<Event>, mid: set<Event>, top: set<Event>, v: set<Event>)
    requires Serves(out, Keep(Layered(held, mid, top), All)) && held <= v && mid <= v && top <= v
    ensures Serves(out, View(v)) <==> forall r :: r in Rows(v) ==> TopCurrent(held, mid, top, v, r)
  {
    KeepAll(Layered(held, mid, top));
    ServesUnique(out, Layered(held, mid, top), View(v));
    LayersDecide(held, mid, top, v);
  }

  lemma FoldExact(out: seq<OutRow>, held: set<Event>, mid: set<Event>, top: set<Event>, v: set<Event>)
    requires Serves(out, Keep(Layered(held, mid, top), All))
    requires Coherent(v) && held <= v && mid <= v && top <= v && RowsPrecede(held, v - held) && v - held <= mid + top
    ensures Serves(out, View(v)) <==> FoldCurrent(held, mid, top, v)
  {
    FoldTopmost(out, held, mid, top, v);
    FoldDecides(held, mid, top, v);
  }

  /** Every inherited row the baseline lacks is in the parent files or among the fetched copies, and
      the baseline precedes those rows.  The parent may have moved on to a later baseline of its own,
      so its files alone need not reach back to the child's. */
  ghost predicate JointlyCovered(parent: set<Event>, files: set<Event>, held: set<Event>, top: set<Event>, fork: int, axis: Axis) {
    && files <= parent && RowsPrecede(held, Inherited(parent, fork, axis) - held)
    && (forall e :: e in Inherited(parent, fork, axis) && e !in held ==> e in files || e in top)
  }

  lemma BaseCovers(parent: set<Event>, files: set<Event>, held: set<Event>, top: set<Event>, fork: int, axis: Axis)
    requires JointlyCovered(parent, files, held, top, fork, axis)
    ensures var v, mid := Inherited(parent, fork, axis), BaseSource(files, fork, axis);
            mid <= v && v - held <= mid + top
  {
  }

  /** For any plan below the fork, with whatever files the parent's own baseline left to fetch: the
      read is right exactly when each row's topmost source holds its current version. */
  lemma BelowForkTopmostDecides(parent: set<Event>, child: set<Event>, fork: int, forkMicros: int, copied: seq<PersistSegment>,
                                own: seq<PersistSegment>, t: Tiers, axis: Axis, files: set<Event>,
                                hot: seq<ResolvedRow>, cold: seq<ResolvedRow>, base: seq<ResolvedRow>)
    requires BelowForkTiers(parent, child, fork, forkMicros, copied, own, t, axis) && files <= parent
    requires Coherent(Inherited(parent, fork, axis))
    requires ResolvesTo(hot, HotSource(t, axis)) && ResolvesTo(cold, ColdUnfenced(t, axis))
    requires ResolvesTo(base, BaseSource(files, fork, axis))
    ensures var v, mid, top := Inherited(parent, fork, axis), BaseSource(files, fork, axis), ColdUnfenced(t, axis);
            Serves(Merge(hot, cold, Some(base), t.snapshot, All), View(v))
            <==> forall r :: r in Rows(v) ==> TopCurrent(t.held, mid, top, v, r)
  {
    var v, mid, top := Inherited(parent, fork, axis), BaseSource(files, fork, axis), ColdUnfenced(t, axis);
    BelowForkSources(parent, child, fork, forkMicros, copied, own, t, axis);
    BelowForkServes(parent, child, fork, forkMicros, copied, own, t, axis, files, hot, cold, base, All);
    FoldTopmost(Merge(hot, cold, Some(base), t.snapshot, All), t.held, mid, top, v);
  }

  /** When the copies hold what the parent's files and the baseline lack, the read below the fork is
      right exactly when the fetched copies are current and so are the parent's straddling rows. */
  lemma BelowForkReadExact(parent: set<Event>, child: set<Event>, fork: int, forkMicros: int, copied: seq<PersistSegment>,
                           own: seq<PersistSegment>, t: Tiers, axis: Axis, files: set<Event>,
                           hot: seq<ResolvedRow>, cold: seq<ResolvedRow>, base: seq<ResolvedRow>)
    requires BelowForkTiers(parent, child, fork, forkMicros, copied, own, t, axis)
    requires JointlyCovered(parent, files, t.held, ColdUnfenced(t, axis), fork, axis) && Coherent(Inherited(parent, fork, axis))
    requires ResolvesTo(hot, HotSource(t, axis)) && ResolvesTo(cold, ColdUnfenced(t, axis))
    requires ResolvesTo(base, BaseSource(files, fork, axis))
    ensures Serves(Merge(hot, cold, Some(base), t.snapshot, All), View(Inherited(parent, fork, axis)))
       <==> FoldCurrent(t.held, BaseSource(files, fork, axis), ColdUnfenced(t, axis), Inherited(parent, fork, axis))
  {
    BelowForkSources(parent, child, fork, forkMicros, copied, own, t, axis);
    BelowForkServes(parent, child, fork, forkMicros, copied, own, t, axis, files, hot, cold, base, All);
    BaseCovers(parent, files, t.held, ColdUnfenced(t, axis), fork, axis);
    FoldExact(Merge(hot, cold, Some(base), t.snapshot, All), t.held, BaseSource(files, fork, axis), ColdUnfenced(t, axis),
              Inherited(parent, fork, axis));
  }

  /** And then it is the replay of the inherited history under every residual. */
  lemma BelowForkReadIsReplay(parent: set<Event>, child: set<Event>, fork: int, forkMicros: int, copied: seq<PersistSegment>,
                              own: seq<PersistSegment>, t: Tiers, axis: Axis, files: set<Event>,
                              hot: seq<ResolvedRow>, cold: seq<ResolvedRow>, base: seq<ResolvedRow>, residual: OutRow -> bool,
                              es: seq<Event>)
    requires BelowForkTiers(parent, child, fork, forkMicros, copied, own, t, axis)
    requires JointlyCovered(parent, files, t.held, ColdUnfenced(t, axis), fork, axis)
    requires Coherent(Inherited(parent, fork, axis)) && History(es, Inherited(parent, fork, axis))
    requires FoldCurrent(t.held, BaseSource(files, fork, axis), ColdUnfenced(t, axis), Inherited(parent, fork, axis))
    requires ResolvesTo(hot, HotSource(t, axis)) && ResolvesTo(cold, ColdUnfenced(t, axis))
    requires ResolvesTo(base, BaseSource(files, fork, axis))
    ensures Serves(Merge(hot, cold, Some(base), t.snapshot, residual), Keep(Replay(es), residual))
  {
    var v := Inherited(parent, fork, axis);
    BelowForkSources(parent, child, fork, forkMicros, copied, own, t, axis);
    BelowForkServes(parent, child, fork, forkMicros, copied, own, t, axis, files, hot, cold, base, residual);
    BaseCovers(parent, files, t.held, ColdUnfenced(t, axis), fork, axis);
    FoldDecides(t.held, BaseSource(files, fork, axis), ColdUnfenced(t, axis), v);
    LayersDecide(t.held, BaseSource(files, fork, axis), ColdUnfenced(t, axis), v);
    ReplayIsView(es, v);
  }

  /** Copies that are everything past one position are current; so are parent files that do not
      straddle the baseline. */
  lemma AboveCutCurrent(held: set<Event>, mid: set<Event>, top: set<Event>, v: set<Event>, cut: int)
    requires Coherent(v) && mid !! held && top == set e | e in v && e.commitSeq > cut
    ensures FoldCurrent(held, mid, top, v)
  {
    forall r | r in Rows(top) ensures r in Rows(v) && Winner(top, r) == Winner(v, r) { CutWinner(v, top, cut, r); }
    assert mid * held == {};
  }

  // ---------------------------------------------------------------- a copied segment over the inherited baseline

  /** A row written and deleted before the parent's snapshot, another written after it and before the fork. */
  predicate DeletedThenMore(u: Event, d: Event, later: Event, fork: int) {
    u.Upsert? && d.Delete? && later.Upsert? && u.row == d.row && u.commitSeq < d.commitSeq < later.commitSeq <= fork
  }

  /** The last run before the fork re-persisted all three.  Its upsert file reaches past the inherited
      baseline `{u, d}` and is fetched, from the child's copy and from the parent; its delete file
      does not. */
  ghost predicate CopiedPlan(u: Event, d: Event, later: Event, fork: int, forkMicros: int, t: Tiers) {
    var parent, axis := {u, d, later}, AsOfSeq(d.commitSeq);
    var copied := [PersistSegment({u, later}, Some(fork))] + [PersistSegment({d}, Some(fork))];
    && BelowForkTiers(parent, {}, fork, forkMicros, copied, [], t, axis) && JointlyCovered(parent, {u, later}, t.held, {u}, fork, axis)
    && HotSource(t, axis) == {} && ColdUnfenced(t, axis) == {u} && BaseSource({u, later}, fork, axis) == {u}
    && Inherited(parent, fork, axis) == {u, d} == t.held
  }

  lemma OneSegment(s: PersistSegment)
    ensures ColdRows([s]) == SegmentRows(s)
  {
    assert s in [s];
  }

  lemma CopiedRows(u: Event, d: Event, later: Event, fork: int)
    requires DeletedThenMore(u, d, later, fork)
    ensures var copied := [PersistSegment({u, later}, Some(fork))] + [PersistSegment({d}, Some(fork))];
            ClampedTo(copied, {u, d, later}, fork) && {u, later} <= ColdRows(copied + []) && ColdRows([]) == {}
  {
    var ups, del := PersistSegment({u, later}, Some(fork)), PersistSegment({d}, Some(fork));
    ColdRowsAppend([ups], [del]);
    assert [ups] + [del] + [] == [ups] + [del];
    OneSegment(ups);
    assert SegmentRows(ups) == {u, later};
  }

  lemma CopiedSources(u: Event, d: Event, later: Event, fork: int)
    requires DeletedThenMore(u, d, later, fork)
    ensures var t, axis := Tiers({}, {u, later}, [], {u, d}, fork), AsOfSeq(d.commitSeq);
            && HotSource(t, axis) == {} && ColdUnfenced(t, axis) == {u} && BaseSource({u, later}, fork, axis) == {u}
            && Inherited({u, d, later}, fork, axis) == {u, d}
  {
  }

  lemma CopiedPlanned(u: Event, d: Event, later: Event, fork: int, forkMicros: int)
    requires DeletedThenMore(u, d, later, fork)
    ensures CopiedPlan(u, d, later, fork, forkMicros, Tiers({}, {u, later}, [], {u, d}, fork))
  {
    CopiedRows(u, d, later, fork);
    CopiedSources(u, d, later, fork);
    ShadowViews(u, d);
    assert {u, d} - {u, d} == {};
  }

  lemma ShadowViews(u: Event, d: Event)
    requires u.Upsert? && d.Delete? && u.row == d.row && u.commitSeq < d.commitSeq
    ensures u.row in Layered({u, d}, {u}, {u}) && Rows({u, d}) == {u.row} && u.row !in View({u, d}) && Coherent({u, d})
  {
    assert Latest({u}, u) && Coherent({u});
    LastDecides({u}, u);
    assert Latest({u, d}, d) && Coherent({u, d});
    LastDecides({u, d}, d);
  }

  lemma CopiedServes(u: Event, d: Event, later: Event, fork: int, forkMicros: int, t: Tiers,
                     hot: seq<ResolvedRow>, cold: seq<ResolvedRow>, base: seq<ResolvedRow>)
    requires CopiedPlan(u, d, later, fork, forkMicros, t) && Coherent({u, d}) && u.row in Layered({u, d}, {u}, {u})
    requires ResolvesTo(hot, {}) && ResolvesTo(cold, {u}) && ResolvesTo(base, {u})
    ensures HasOut(Merge(hot, cold, Some(base), t.snapshot, All), u.row)
  {
    var parent, axis := {u, d, later}, AsOfSeq(d.commitSeq);
    var copied := [PersistSegment({u, later}, Some(fork))] + [PersistSegment({d}, Some(fork))];
    BelowForkServes(parent, {}, fork, forkMicros, copied, [], t, axis, {u, later}, hot, cold, base, All);
    KeepAll(Layered({u, d}, {u}, {u}));
  }

  /** The copied upsert shadows the delete the baseline had folded in, and the read serves the deleted row. */
  lemma CopiedUpsertShadowsDelete(u: Event, d: Event, later: Event, fork: int, forkMicros: int,
                                  hot: seq<ResolvedRow>, cold: seq<ResolvedRow>, base: seq<ResolvedRow>)
    requires DeletedThenMore(u, d, later, fork)
    requires ResolvesTo(hot, {}) && ResolvesTo(cold, {u}) && ResolvesTo(base, {u})
    ensures CopiedPlan(u, d, later, fork, forkMicros, Tiers({}, {u, later}, [], {u, d}, fork))
    ensures HasOut(Merge(hot, cold, Some(base), [], All), u.row) && u.row !in View({u, d})
  {
    CopiedPlanned(u, d, later, fork, forkMicros);
    ShadowViews(u, d);
    CopiedServes(u, d, later, fork, forkMicros, Tiers({}, {u, later}, [], {u, d}, fork), hot, cold, base);
  }
}
