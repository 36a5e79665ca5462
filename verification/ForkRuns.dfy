/** Forks of a branch that is running: the copy step taken in some state of the parent's lifecycle,
    and reads of the child while the parent runs on. */
module ForkRuns {
  import opened Base
  import opened Log
  import opened MergeRead
  import opened TieredRead
  import opened Lifecycle
  import opened Fork

  // ---------------------------------------------------------------- the fork point

  /** A position of the parent and its timestamp.  Later commits may carry the same timestamp. */
  ghost predicate ForkPoint(s: State, fork: int, forkMicros: int) {
    && fork < s.next
    && (forall e :: e in s.log ==> if e.commitSeq <= fork then e.micros <= forkMicros else e.micros >= forkMicros)
  }

  ghost predicate Flushed(s: State, fork: int) { Upto(s.log, fork) <= Cold(s.segments) }

  /** Persisting up to the fork's timestamp leaves everything up to the fork in cold, also when the
      persist watermark is already there and nothing is written. */
  lemma FlushReaches(s: State, t: State, fork: int, forkMicros: int, files: seq<Segment>)
    requires Whole(s) && ForkPoint(s, fork, forkMicros)
    requires Persist(s, t, forkMicros, files)
          || (t == s && forall e :: e in UptoMicros(s.hot, forkMicros) ==> e.micros <= s.persistedAt)
    ensures Flushed(t, fork)
  {
    if Persist(s, t, forkMicros, files) { PersistCopies(s, t, forkMicros, files); }
    forall e | e in Upto(s.log, fork) ensures e in Cold(t.segments) {
      if e !in s.hot { PurgedIsCold(s, e); }
    }
  }

  // ---------------------------------------------------------------- the copy

  /** A child before its first own snapshot: its references, its commits, all still hot, and its
      persist watermark, which starts as that of the copied runs. */
  datatype Child = Child(copied: seq<PersistSegment>, own: seq<PersistSegment>, log: set<Event>, persistedAt: int)

  function References(c: Child): seq<PersistSegment> { c.copied + c.own }

  /** The child adopts a parent snapshot at or below the fork on both axes, or none. */
  ghost predicate Adopted(s: State, fork: int, forkMicros: int, sn: Snap) {
    sn == EMPTY_BASELINE || (sn in s.snaps && sn.w <= fork && sn.cut <= forkMicros)
  }

  /** Some row of the segment is at or below the position. */
  ghost predicate StartsBy(g: Segment, n: int) { exists e :: e in g && e.commitSeq <= n }

  ghost predicate IsCopyOf(c: PersistSegment, g: Segment, fork: int) {
    && c.rows == g && c.maxCommitSeq.Some? && c.maxCommitSeq.value <= fork
    && (forall e :: e in g && e.commitSeq <= fork ==> e.commitSeq <= c.maxCommitSeq.value)
  }

  ghost predicate HasCopy(copied: seq<PersistSegment>, g: Segment, fork: int) {
    exists c :: c in copied && IsCopyOf(c, g, fork)
  }

  /** Only parent segments are copied, each clamped to the fork, and every one with a row past the
      adopted cut and one at or below the fork is. */
  ghost predicate CopiedFrom(s: State, cut: int, fork: int, copied: seq<PersistSegment>) {
    && (forall c :: c in copied ==> c.rows in s.segments && IsCopyOf(c, c.rows, fork))
    && (forall g :: g in s.segments && ReachesPast(g, cut) && StartsBy(g, fork) ==> HasCopy(copied, g, fork))
  }

  ghost predicate ChildOk(c: Child, fork: int, forkMicros: int) {
    && (forall e :: e in c.log ==> e.commitSeq > fork && e.micros >= forkMicros) && ColdRows(c.own) <= c.log
    && (forall r, e :: r in References(c) && e in r.rows ==> e.micros <= c.persistedAt)
  }

  // ---------------------------------------------------------------- the child's plan

  function ChildUpper(c: Child, axis: Axis): int {
    if axis.AsOfMicros? && axis.ts < c.persistedAt then axis.ts else c.persistedAt
  }

  /** Overlap is judged on the whole file range, not on the clamped rows. */
  ghost predicate IsChildFetched(c: Child, cut: int, axis: Axis, r: PersistSegment) {
    && r in References(c) && Overlaps(r.rows, cut, ChildUpper(c, axis))
    && (CommitSeqUpper(axis).Some? ==> StartsBy(r.rows, CommitSeqUpper(axis).value))
  }

  /** A reference is fetched exactly when its file has a row past the cut and one the read sees. */
  lemma ChildFetchedExactly(c: Child, fork: int, forkMicros: int, cut: int, axis: Axis, r: PersistSegment)
    requires ChildOk(c, fork, forkMicros) && r in References(c)
    ensures IsChildFetched(c, cut, axis, r) <==> ReachesPast(r.rows, cut) && HasSeen(r.rows, axis)
  {
    if HasSeen(r.rows, axis) {
      var e :| e in r.rows && Sees(axis, e);
      assert e.micros <= ChildUpper(c, axis);
    }
  }

  ghost function ChildFetched(c: Child, cut: int, axis: Axis): set<Event> {
    set r, e | r in References(c) && IsChildFetched(c, cut, axis, r) && e in SegmentRows(r) :: e
  }

  lemma FetchedIsReferenced(c: Child, cut: int, axis: Axis)
    ensures ChildFetched(c, cut, axis) <= ColdRows(c.copied + c.own)
  {
    forall e | e in ChildFetched(c, cut, axis) ensures e in ColdRows(c.copied + c.own) {
      var r :| r in References(c) && IsChildFetched(c, cut, axis, r) && e in SegmentRows(r);
    }
  }

  /** Every inherited row past the adopted cut that the read sees is fetched from a copy, from that
      cut or from any earlier one. */
  lemma CopyCovers(s: State, adopted: int, fork: int, forkMicros: int, c: Child, cut: int, axis: Axis, e: Event)
    requires Flushed(s, fork) && CopiedFrom(s, adopted, fork, c.copied) && ChildOk(c, fork, forkMicros) && cut <= adopted
    requires e in Inherited(s.log, fork, axis) && e.micros > adopted
    ensures e in ChildFetched(c, cut, axis)
  {
    assert e in Upto(s.log, fork);
    var g :| g in s.segments && e in g;
    assert ReachesPast(g, adopted) && StartsBy(g, fork);
    assert HasCopy(c.copied, g, fork);
    var r :| r in c.copied && IsCopyOf(r, g, fork);
    assert r in References(c) && e in SegmentRows(r);
    assert Overlaps(r.rows, cut, ChildUpper(c, axis));
    assert IsChildFetched(c, cut, axis, r);
  }

  lemma CopiesAreClamped(s: State, cut: int, fork: int, copied: seq<PersistSegment>)
    requires HistoryOk(s) && CopiedFrom(s, cut, fork, copied)
    ensures ClampedTo(copied, s.log, fork)
  {
    forall c | c in copied ensures c.rows <= s.log {
      forall e | e in c.rows ensures e in s.log { assert e in Cold(s.segments); }
    }
  }

  lemma AdoptedOk(s: State, fork: int, forkMicros: int, sn: Snap)
    requires Whole(s) && Adopted(s, fork, forkMicros, sn)
    ensures SnapOk(s, sn) && Complete(s.log, sn)
  {
    PickedOk(s, sn);
    if sn == EMPTY_BASELINE {
      assert UptoMicros(s.log, 0) == {};
    } else {
      var i :| 0 <= i < |s.snaps| && s.snaps[i] == sn;
    }
  }

  lemma CompletePrecedes(log: set<Event>, sn: Snap)
    requires ClockOrder(log) && Complete(log, sn)
    ensures RowsPrecede(sn.held, log - sn.held)
  {
    forall l, h | l in sn.held && h in log - sn.held ensures PosLess(l, h) { assert l.micros < h.micros; }
  }

  // ---------------------------------------------------------------- reads at or above the fork

  /** The planned read: no base arm, the adopted baseline, the fence seeded at the fork. */
  ghost function AtForkTiers(c: Child, sn: Snap, fork: int, axis: Axis): Tiers {
    Tiers(c.log, ChildFetched(c, sn.cut, axis), sn.rows, sn.held, fork)
  }

  /** The read is at or above the fork, and the reader's own writes come after every commit of the child. */
  ghost predicate AboveFork(c: Child, fork: int, forkMicros: int, axis: Axis) {
    && !BelowFork(axis, fork, forkMicros) && (axis.OpenTx? ==> axis.began > fork)
    && (forall o :: o in Own(axis) ==> o.commitSeq > fork && o.micros >= forkMicros && forall e :: e in c.log ==> e.commitSeq < o.commitSeq)
  }

  /** The copy step gives the child what a read above the fork needs of its sources. */
  lemma CopyGivesTiers(s: State, fork: int, forkMicros: int, sn: Snap, c: Child, axis: Axis)
    requires Whole(s) && Flushed(s, fork) && Adopted(s, fork, forkMicros, sn)
    requires CopiedFrom(s, sn.cut, fork, c.copied) && ChildOk(c, fork, forkMicros)
    ensures ForkedTiers(s.log, c.log, fork, c.copied, c.own, AtForkTiers(c, sn, fork, axis), axis)
  {
    AdoptedOk(s, fork, forkMicros, sn);
    CopiesAreClamped(s, sn.cut, fork, c.copied);
    FetchedIsReferenced(c, sn.cut, axis);
    forall e | e in Inherited(s.log, fork, axis) && e !in sn.held ensures e in ChildFetched(c, sn.cut, axis) {
      CopyCovers(s, sn.cut, fork, forkMicros, c, sn.cut, axis, e);
    }
  }

  lemma AdoptedSeen(s: State, fork: int, forkMicros: int, sn: Snap, c: Child, axis: Axis)
    requires Whole(s) && Adopted(s, fork, forkMicros, sn) && ChildOk(c, fork, forkMicros) && AboveFork(c, fork, forkMicros, axis)
    ensures BaselineSeen(AtForkTiers(c, sn, fork, axis), Upto(s.log, fork) + c.log, axis)
  {
    AdoptedOk(s, fork, forkMicros, sn);
    CompletePrecedes(s.log, sn);
  }

  lemma AtForkMonotone(s: State, fork: int, forkMicros: int, sn: Snap, c: Child, axis: Axis, hot: seq<ResolvedRow>, cold: seq<ResolvedRow>)
    requires ForkPoint(s, fork, forkMicros) && ChildOk(c, fork, forkMicros) && AboveFork(c, fork, forkMicros, axis)
    requires ForkedTiers(s.log, c.log, fork, c.copied, c.own, AtForkTiers(c, sn, fork, axis), axis)
    requires ResolvesTo(hot, HotSource(AtForkTiers(c, sn, fork, axis), axis))
    requires ResolvesTo(cold, ColdUnfenced(AtForkTiers(c, sn, fork, axis), axis))
    ensures FenceMonotone(hot, cold)
  {
    var t := AtForkTiers(c, sn, fork, axis);
    ColdRowsAppend(c.copied, c.own);
    ClampedRows(c.copied, s.log, fork);
    forall a, b | a in ColdUnfenced(t, axis) && b in HotSource(t, axis) ensures a.micros <= b.micros { assert a in Upto(s.log, fork); }
    TimesImplyFenceMonotone(hot, cold, HotSource(t, axis), ColdUnfenced(t, axis));
  }

  /** Fork a branch in any state of a run without ties, after the flush.  Whatever the child then
      commits and persists, its planned read at or above the fork serves the parent's history up to
      the fork and then its own exactly when the copied rows the adopted baseline holds are current. */
  lemma ForkedReadExact(states: seq<State>, i: nat, fork: int, forkMicros: int, sn: Snap, c: Child, axis: Axis,
                        hot: seq<ResolvedRow>, cold: seq<ResolvedRow>)
    requires TieFreeRun(states) && i < |states| && ForkPoint(states[i], fork, forkMicros) && Flushed(states[i], fork)
    requires Adopted(states[i], fork, forkMicros, sn) && CopiedFrom(states[i], sn.cut, fork, c.copied)
    requires ChildOk(c, fork, forkMicros) && AboveFork(c, fork, forkMicros, axis) && Coherent(Visible(c.log, axis))
    requires ResolvesTo(hot, HotSource(AtForkTiers(c, sn, fork, axis), axis))
    requires ResolvesTo(cold, ColdUnfenced(AtForkTiers(c, sn, fork, axis), axis))
    ensures var t := AtForkTiers(c, sn, fork, axis);
            Serves(Merge(hot, cold, None, sn.rows, All), View(Inherited(states[i].log, fork, axis) + Visible(c.log, axis)))
            <==> StraddlersCurrent(sn.held, HotSource(t, axis) + ColdSource(t, axis), Straddling(t))
  {
    var s := states[i];
    WholeAlways(states, i);
    CopyGivesTiers(s, fork, forkMicros, sn, c, axis);
    AdoptedSeen(s, fork, forkMicros, sn, c, axis);
    AtForkMonotone(s, fork, forkMicros, sn, c, axis, hot, cold);
    BothCoherent(s, fork, forkMicros, c, axis);
    ClampedReadExact(s.log, c.log, fork, c.copied, c.own, AtForkTiers(c, sn, fork, axis), axis, hot, cold);
  }

  lemma BothCoherent(s: State, fork: int, forkMicros: int, c: Child, axis: Axis)
    requires HistoryOk(s) && ChildOk(c, fork, forkMicros) && AboveFork(c, fork, forkMicros, axis) && Coherent(Visible(c.log, axis))
    ensures Coherent(Inherited(s.log, fork, axis) + Visible(c.log, axis))
  {
  }

  // ---------------------------------------------------------------- reads below the fork

  /** Nothing is lost as the parent runs on, and new commits take new positions. */
  ghost predicate Grows(s: State, t: State) {
    && s.log <= t.log && s.next <= t.next && s.segments <= t.segments && (forall e :: e in t.log && e.commitSeq < s.next ==> e in s.log)
  }

  lemma NextGrows(s: State, t: State)
    requires TieFreeNext(s, t)
    ensures Grows(s, t)
  {
  }

  lemma {:induction false} RunGrows(states: seq<State>, i: nat, j: nat)
    requires TieFreeRun(states) && i <= j < |states|
    ensures Grows(states[i], states[j])
  {
    if i < j {
      RunGrows(states, i, j - 1);
      NextGrows(states[j - 1], states[j]);
    }
  }

  /** The parent's pick for the base arm, from its snapshots at the time of the read. */
  ghost predicate ParentPick(p: State, fork: int, axis: Axis, q: Snap) {
    q == EMPTY_BASELINE || (q in p.snaps && q.w <= Ceiling(fork, axis) && (axis.AsOfMicros? ==> q.cut <= axis.ts))
  }

  ghost predicate IsBaseFetched(p: State, q: Snap, fork: int, axis: Axis, g: Segment) {
    g in p.segments && ReachesPast(g, q.cut) && StartsBy(g, Ceiling(fork, axis))
  }

  /** The parent files of the base arm: past its own pick, from the ceiling down. */
  ghost function BaseFiles(p: State, q: Snap, fork: int, axis: Axis): set<Event> {
    set g, e | g in p.segments && IsBaseFetched(p, q, fork, axis, g) && e in g :: e
  }

  /** The child's own leg serves the read if it has one and the read is past it. */
  ghost predicate OwnLeg(sn: Snap, axis: Axis) {
    sn != EMPTY_BASELINE && (axis.AsOfMicros? ==> sn.cut <= axis.ts) && (CommitSeqUpper(axis).Some? ==> sn.w <= CommitSeqUpper(axis).value)
  }

  /** The child's leg where there is one, else the parent's. */
  ghost function Leg(sn: Snap, q: Snap, axis: Axis): Snap { if OwnLeg(sn, axis) then sn else q }

  ghost function BelowTiers(c: Child, sn: Snap, q: Snap, fork: int, axis: Axis): Tiers {
    var cut := if OwnLeg(sn, axis) then sn.cut else EMPTY_BASELINE.cut;
    Tiers(c.log, ChildFetched(c, cut, axis), Leg(sn, q, axis).rows, Leg(sn, q, axis).held, fork)
  }

  lemma SameInherited(s: State, p: State, fork: int, axis: Axis)
    requires Grows(s, p) && fork < s.next
    ensures Inherited(p.log, fork, axis) == Inherited(s.log, fork, axis)
  {
  }

  lemma LegOk(s: State, p: State, fork: int, forkMicros: int, sn: Snap, q: Snap, axis: Axis)
    requires Whole(s) && Whole(p) && Grows(s, p) && fork < s.next && BelowFork(axis, fork, forkMicros)
    requires Adopted(s, fork, forkMicros, sn) && ParentPick(p, fork, axis, q)
    ensures var leg, v := Leg(sn, q, axis), Inherited(p.log, fork, axis);
            && Serves(leg.rows, View(leg.held)) && leg.held <= v && RowsPrecede(leg.held, v - leg.held)
            && forall e :: e in v && e !in leg.held ==> e.micros > leg.cut
  {
    SameInherited(s, p, fork, axis);
    if OwnLeg(sn, axis) {
      AdoptedOk(s, fork, forkMicros, sn);
      CompletePrecedes(s.log, sn);
    } else {
      PickOk(p, fork, axis, q);
      CompletePrecedes(p.log, q);
    }
  }

  lemma PickOk(p: State, fork: int, axis: Axis, q: Snap)
    requires Whole(p) && ParentPick(p, fork, axis, q)
    ensures SnapOk(p, q) && Complete(p.log, q)
  {
    PickedOk(p, q);
    if q == EMPTY_BASELINE {
      assert UptoMicros(p.log, 0) == {};
    } else {
      var i :| 0 <= i < |p.snaps| && p.snaps[i] == q;
    }
  }

  /** Past its pick, the parent's files hold every inherited row. */
  lemma BaseFilesCover(s: State, p: State, fork: int, axis: Axis, q: Snap, e: Event)
    requires Flushed(s, fork) && Grows(s, p) && e in Inherited(s.log, fork, axis) && e.micros > q.cut
    ensures e in BaseFiles(p, q, fork, axis)
  {
    assert e in Upto(s.log, fork);
    var g :| g in s.segments && e in g;
    assert g in p.segments && ReachesPast(g, q.cut) && StartsBy(g, Ceiling(fork, axis));
    assert IsBaseFetched(p, q, fork, axis, g);
  }

  lemma BaseFilesAreParent(p: State, q: Snap, fork: int, axis: Axis)
    requires HistoryOk(p)
    ensures BaseFiles(p, q, fork, axis) <= p.log
  {
    forall e | e in BaseFiles(p, q, fork, axis) ensures e in p.log {
      var g :| g in p.segments && IsBaseFetched(p, q, fork, axis, g) && e in g;
      assert e in Cold(p.segments);
    }
  }

  /** The child's plan below the fork, while the parent has run on. */
  lemma CopyGivesBelowTiers(s: State, p: State, fork: int, forkMicros: int, sn: Snap, q: Snap, c: Child, axis: Axis)
    requires Whole(s) && Whole(p) && Grows(s, p) && fork < s.next && BelowFork(axis, fork, forkMicros)
    requires Adopted(s, fork, forkMicros, sn) && ParentPick(p, fork, axis, q)
    requires CopiedFrom(s, sn.cut, fork, c.copied) && ChildOk(c, fork, forkMicros)
    ensures BelowForkTiers(p.log, c.log, fork, forkMicros, c.copied, c.own, BelowTiers(c, sn, q, fork, axis), axis)
  {
    LegOk(s, p, fork, forkMicros, sn, q, axis);
    CopiesAreClamped(s, sn.cut, fork, c.copied);
    FetchedIsReferenced(c, if OwnLeg(sn, axis) then sn.cut else EMPTY_BASELINE.cut, axis);
  }

  /** Where the child's leg serves the copies cover what it lacks, else the parent's files do: the
      plan never leaves a hole, also when the parent has snapshotted since. */
  lemma PlanCovers(s: State, p: State, fork: int, forkMicros: int, sn: Snap, q: Snap, c: Child, axis: Axis)
    requires Whole(s) && Whole(p) && Grows(s, p) && fork < s.next && BelowFork(axis, fork, forkMicros) && Flushed(s, fork)
    requires Adopted(s, fork, forkMicros, sn) && ParentPick(p, fork, axis, q)
    requires CopiedFrom(s, sn.cut, fork, c.copied) && ChildOk(c, fork, forkMicros)
    ensures var t := BelowTiers(c, sn, q, fork, axis);
            JointlyCovered(p.log, BaseFiles(p, q, fork, axis), t.held, ColdUnfenced(t, axis), fork, axis)
  {
    var t := BelowTiers(c, sn, q, fork, axis);
    LegOk(s, p, fork, forkMicros, sn, q, axis);
    BaseFilesAreParent(p, q, fork, axis);
    SameInherited(s, p, fork, axis);
    forall e | e in Inherited(s.log, fork, axis) && e !in t.held ensures e in BaseFiles(p, q, fork, axis) || e in ColdUnfenced(t, axis) {
      if OwnLeg(sn, axis) {
        CopyCovers(s, sn.cut, fork, forkMicros, c, sn.cut, axis, e);
      } else {
        BaseFilesCover(s, p, fork, axis, q, e);
      }
    }
  }

  /** Fork in any state of a run without ties and read below the fork in any later one, the parent
      having committed, persisted, snapshotted and purged in between: the planned read is right exactly
      when every fetched copy is current and so is every parent row the baseline holds. */
  lemma BelowForkReadInRun(states: seq<State>, i: nat, j: nat, fork: int, forkMicros: int, sn: Snap, q: Snap, c: Child, axis: Axis,
                           hot: seq<ResolvedRow>, cold: seq<ResolvedRow>, base: seq<ResolvedRow>)
    requires TieFreeRun(states) && i <= j < |states| && ForkPoint(states[i], fork, forkMicros) && Flushed(states[i], fork)
    requires Adopted(states[i], fork, forkMicros, sn) && CopiedFrom(states[i], sn.cut, fork, c.copied) && ChildOk(c, fork, forkMicros)
    requires BelowFork(axis, fork, forkMicros) && ParentPick(states[j], fork, axis, q)
    requires ResolvesTo(hot, HotSource(BelowTiers(c, sn, q, fork, axis), axis))
    requires ResolvesTo(cold, ColdUnfenced(BelowTiers(c, sn, q, fork, axis), axis))
    requires ResolvesTo(base, BaseSource(BaseFiles(states[j], q, fork, axis), fork, axis))
    ensures var t, v := BelowTiers(c, sn, q, fork, axis), Inherited(states[j].log, fork, axis);
            Serves(Merge(hot, cold, Some(base), t.snapshot, All), View(v))
            <==> FoldCurrent(t.held, BaseSource(BaseFiles(states[j], q, fork, axis), fork, axis), ColdUnfenced(t, axis), v)
  {
    var s, p := states[i], states[j];
    WholeAlways(states, i);
    WholeAlways(states, j);
    RunGrows(states, i, j);
    CopyGivesBelowTiers(s, p, fork, forkMicros, sn, q, c, axis);
    PlanCovers(s, p, fork, forkMicros, sn, q, c, axis);
    BelowForkReadExact(p.log, c.log, fork, forkMicros, c.copied, c.own, BelowTiers(c, sn, q, fork, axis), axis,
                       BaseFiles(p, q, fork, axis), hot, cold, base);
  }
}
