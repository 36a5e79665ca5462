/** The snapshot loop's window bookkeeping over whole runs of ticks. */
module Scheduler {
  import opened Base

  type Key = (string, string)

  /** A half-open listing window. */
  datatype Window = Window(lo: int, hi: int)

  datatype Watermarks = Watermarks(lastModified: int, lastPurge: int)

  const ZERO := Watermarks(0, 0)

  /** One visit to a branch: the clock reading, and whether each listing would succeed. */
  datatype Attempt = Attempt(now: int, modifiedOk: bool, agedOk: bool)

  /** A branch's watermarks, with every window listed for it so far and when. */
  datatype History = History(wm: Watermarks, modified: seq<Window>, aged: seq<Window>, readings: seq<int>)

  const FRESH := History(ZERO, [], [], [])

  // ---------------------------------------------------------------- one branch, any run

  /** What one visit does.  A failed listing leaves both watermarks where they were, also when the
      other listing had already succeeded. */
  function Visit(h: History, a: Attempt, grace: int): History {
    var listed := h.modified + (if a.modifiedOk then [Window(h.wm.lastModified, a.now)] else []);
    var upper := a.now - grace;
    var due := upper > h.wm.lastPurge;
    if !a.modifiedOk then h
    else if due && !a.agedOk then h.(modified := listed)
    else if due then History(Watermarks(a.now, upper), listed, h.aged + [Window(h.wm.lastPurge, upper)], h.readings + [a.now])
    else h.(wm := Watermarks(a.now, h.wm.lastPurge), modified := listed)
  }

  function After(run: seq<Attempt>, grace: int): History {
    if run == [] then FRESH else Visit(After(run[..|run| - 1], grace), run[|run| - 1], grace)
  }

  predicate Contains(w: Window, t: int) { w.lo <= t < w.hi }

  ghost predicate Listed(ws: seq<Window>, t: int) { exists i :: 0 <= i < |ws| && Contains(ws[i], t) }

  lemma ListedMore(ws: seq<Window>, w: Window, t: int)
    ensures Listed(ws + [w], t) <==> Listed(ws, t) || Contains(w, t)
  {
    if Listed(ws, t) {
      var i :| 0 <= i < |ws| && Contains(ws[i], t);
      assert Contains((ws + [w])[i], t);
    }
    if Contains(w, t) { assert Contains((ws + [w])[|ws|], t); }
  }

  /** Over every run, with failures anywhere and the clock moving either way, each instant below the
      modified watermark lies in a successfully listed window. */
  lemma {:induction false} ModifiedCovered(run: seq<Attempt>, grace: int, t: int)
    requires 0 <= t < After(run, grace).wm.lastModified
    ensures Listed(After(run, grace).modified, t)
  {
    var n := |run| - 1;
    var h, a := After(run[..n], grace), run[n];
    var w := Window(h.wm.lastModified, a.now);
    ListedMore(h.modified, w, t);
    if t < h.wm.lastModified { ModifiedCovered(run[..n], grace, t); }
  }

  /** Windows laid end to end from zero to `end`, none empty. */
  ghost predicate Tiles(ws: seq<Window>, end: int) {
    && (forall i :: 0 <= i < |ws| ==> ws[i].lo < ws[i].hi)
    && (forall i :: 0 <= i < |ws| - 1 ==> ws[i].hi == ws[i + 1].lo)
    && (if ws == [] then end == 0 else ws[0].lo == 0 && ws[|ws| - 1].hi == end)
  }

  /** Over every run the aged windows tile from zero up to the purge watermark, and each ends at
      the clock reading of its own visit less the grace window. */
  lemma {:induction false} AgedTiles(run: seq<Attempt>, grace: int)
    ensures var h := After(run, grace);
            && Tiles(h.aged, h.wm.lastPurge) && |h.readings| == |h.aged|
            && forall i :: 0 <= i < |h.aged| ==> h.aged[i].hi == h.readings[i] - grace
  {
    if run != [] { AgedTiles(run[..|run| - 1], grace); }
  }

  lemma {:induction false} TilesRise(ws: seq<Window>, end: int, i: nat, j: nat)
    requires Tiles(ws, end) && i < j < |ws|
    ensures ws[i].hi <= ws[j].lo
    decreases j - i
  {
    if i + 1 < j { TilesRise(ws, end, i + 1, j); }
  }

  /** Tiling means: disjoint, and covering exactly `[0, end)`. */
  lemma TilesPartition(ws: seq<Window>, end: int, t: int)
    requires Tiles(ws, end)
    ensures 0 <= t < end <==> Listed(ws, t)
    ensures forall i, j :: 0 <= i < |ws| && 0 <= j < |ws| && Contains(ws[i], t) && Contains(ws[j], t) ==> i == j
  {
    forall i, j | 0 <= i < j < |ws| ensures ws[i].hi <= ws[j].lo { TilesRise(ws, end, i, j); }
    if 0 <= t < end { FindTile(ws, end, t); }
  }

  lemma {:induction false} FindTile(ws: seq<Window>, end: int, t: int)
    requires Tiles(ws, end) && 0 <= t < end
    ensures Listed(ws, t)
  {
    var n := |ws| - 1;
    assert ws[..n] + [ws[n]] == ws;
    ListedMore(ws[..n], ws[n], t);
    if t < ws[n].lo { FindTile(ws[..n], ws[n].lo, t); }
  }

  /** The purge watermark never moves back, and its windows are only ever added to. */
  lemma {:induction false} PurgeNeverBack(run: seq<Attempt>, grace: int, k: nat)
    requires k <= |run|
    ensures After(run[..k], grace).wm.lastPurge <= After(run, grace).wm.lastPurge
    ensures After(run[..k], grace).aged <= After(run, grace).aged
  {
    if k < |run| {
      var n := |run| - 1;
      PurgeNeverBack(run[..n], grace, k);
      assert run[..n][..k] == run[..k];
    } else {
      assert run[..k] == run;
    }
  }

  /** The purge watermark never passes the largest clock reading less the grace window. */
  lemma PurgeWithinGrace(run: seq<Attempt>, grace: int, latest: int)
    requires forall a :: a in run ==> a.now <= latest
    ensures After(run, grace).wm.lastPurge <= if latest - grace < 0 then 0 else latest - grace
  {
    var h := After(run, grace);
    AgedTiles(run, grace);
    if h.aged != [] {
      var last := |h.aged| - 1;
      ReadingsFromRun(run, grace, last);
    }
  }

  lemma {:induction false} ReadingsFromRun(run: seq<Attempt>, grace: int, i: nat)
    requires i < |After(run, grace).readings|
    ensures exists a :: a in run && a.now == After(run, grace).readings[i]
  {
    var n := |run| - 1;
    if i < |After(run[..n], grace).readings| {
      ReadingsFromRun(run[..n], grace, i);
      var a :| a in run[..n] && a.now == After(run[..n], grace).readings[i];
      assert a in run;
    } else {
      assert run[n] in run;
    }
  }

  predicate Fails(h: History, a: Attempt, grace: int) {
    !a.modifiedOk || (!a.agedOk && a.now - grace > h.wm.lastPurge)
  }

  /** A visit that does not fail lists everything since the last one, moves the modified watermark to
      its reading and the purge watermark to its reading less the grace window unless it is past that,
      listing exactly the gap. */
  lemma VisitAdvances(run: seq<Attempt>, a: Attempt, grace: int)
    requires !Fails(After(run, grace), a, grace)
    ensures var h, g, upper := After(run, grace), After(run + [a], grace), a.now - grace;
            && g.wm.lastModified == a.now && g.modified == h.modified + [Window(h.wm.lastModified, a.now)]
            && g.wm.lastPurge == (if upper > h.wm.lastPurge then upper else h.wm.lastPurge)
            && g.aged == h.aged + (if upper > h.wm.lastPurge then [Window(h.wm.lastPurge, upper)] else [])
  {
    assert (run + [a])[..|run|] == run;
  }

  /** A failed one moves neither watermark and lists no aged window. */
  lemma FailureStays(run: seq<Attempt>, a: Attempt, grace: int)
    requires Fails(After(run, grace), a, grace)
    ensures var h, g := After(run, grace), After(run + [a], grace);
            && g.wm == h.wm && g.aged == h.aged
            && g.modified == h.modified + (if a.modifiedOk then [Window(h.wm.lastModified, a.now)] else [])
  {
    assert (run + [a])[..|run|] == run;
  }

  ghost predicate Succeeds(run: seq<Attempt>, i: nat, grace: int)
    requires i < |run|
  {
    !Fails(After(run[..i], grace), run[i], grace)
  }

  /** The watermarks have reached visit `i`: the modified one exactly, if it is the last that did not fail. */
  ghost predicate Reached(run: seq<Attempt>, i: nat, grace: int, wm: Watermarks)
    requires i < |run|
  {
    && wm.lastPurge >= run[i].now - grace
    && ((forall j :: i < j < |run| ==> !Succeeds(run, j, grace)) ==> wm.lastModified == run[i].now)
  }

  /** After any run the modified watermark is the reading of the last visit that did not fail, and the
      purge watermark has reached every such visit's reading less the grace window. */
  lemma {:induction false} WatermarksReached(run: seq<Attempt>, i: nat, grace: int)
    requires i < |run| && Succeeds(run, i, grace)
    ensures Reached(run, i, grace, After(run, grace).wm)
  {
    var n := |run| - 1;
    var before := run[..n];
    assert run == before + [run[n]];
    if Succeeds(run, n, grace) { VisitAdvances(before, run[n], grace); } else { FailureStays(before, run[n], grace); }
    if i < n {
      assert before[..i] == run[..i];
      WatermarksReached(before, i, grace);
      forall j | i < j < n ensures Succeeds(before, j, grace) == Succeeds(run, j, grace) { assert before[..j] == run[..j]; }
    }
  }

  /** A failed visit anywhere in a run leaves no trace in the watermarks and the aged windows of the
      whole run: the branch continues as if it had not been visited. */
  lemma {:induction false} FailureLeavesNoTrace(before: seq<Attempt>, a: Attempt, rest: seq<Attempt>, grace: int)
    requires Fails(After(before, grace), a, grace)
    ensures var h, g := After(before + [a] + rest, grace), After(before + rest, grace);
            h.wm == g.wm && h.aged == g.aged && h.readings == g.readings
    decreases |rest|
  {
    var n := |rest| - 1;
    if rest == [] {
      assert before + [a] + rest == before + [a] && before + rest == before;
      assert (before + [a])[..|before|] == before;
    } else {
      FailureLeavesNoTrace(before, a, rest[..n], grace);
      assert (before + [a] + rest)[..|before| + 1 + n] == before + [a] + rest[..n];
      assert (before + rest)[..|before| + n] == before + rest[..n];
    }
  }

  // ---------------------------------------------------------------- the loop

  /** What the discovery calls of one tick return. */
  datatype Discovered = Discovered(catalogs: Result<seq<(string, Result<seq<(string, Attempt)>>)>>)

  /** The visits of one catalog's branches. */
  function BranchVisits(catalog: string, branches: seq<(string, Attempt)>): seq<(Key, Attempt)> {
    seq(|branches|, i requires 0 <= i < |branches| => ((catalog, branches[i].0), branches[i].1))
  }

  /** Every visit of a tick: a failing discovery call ends it. */
  function Visits(catalogs: seq<(string, Result<seq<(string, Attempt)>>)>): seq<(Key, Attempt)> {
    if catalogs == [] || catalogs[0].1.Err? then []
    else BranchVisits(catalogs[0].0, catalogs[0].1.value) + Visits(catalogs[1..])
  }

  /** The branches of the first `i` catalogs. */
  ghost function BranchesBefore(catalogs: seq<(string, Result<seq<(string, Attempt)>>)>, i: nat): nat
    requires i <= |catalogs|
  {
    if i == 0 then 0 else BranchesBefore(catalogs, i - 1) + (if catalogs[i - 1].1.Ok? then |catalogs[i - 1].1.value| else 0)
  }

  /** Discovery succeeded for the first `i` catalogs. */
  ghost predicate Found(catalogs: seq<(string, Result<seq<(string, Attempt)>>)>, i: nat) {
    i <= |catalogs| && forall h :: 0 <= h < i ==> catalogs[h].1.Ok?
  }

  ghost predicate VisitStands(visits: seq<(Key, Attempt)>, catalogs: seq<(string, Result<seq<(string, Attempt)>>)>, i: nat, j: nat)
    requires i < |catalogs| && Found(catalogs, i + 1) && j < |catalogs[i].1.value|
  {
    var at, branch := BranchesBefore(catalogs, i) + j, catalogs[i].1.value[j];
    at < |visits| && visits[at] == ((catalogs[i].0, branch.0), branch.1)
  }

  /** Every branch of every catalog up to the first failing discovery, in order, and nothing else. */
  ghost predicate VisitsAll(visits: seq<(Key, Attempt)>, catalogs: seq<(string, Result<seq<(string, Attempt)>>)>) {
    && (forall i, j :: 0 <= i < |catalogs| && Found(catalogs, i + 1) && 0 <= j < |catalogs[i].1.value| ==> VisitStands(visits, catalogs, i, j))
    && (forall i: nat :: Found(catalogs, i) && (i == |catalogs| || catalogs[i].1.Err?) ==> |visits| == BranchesBefore(catalogs, i))
  }

  lemma {:induction false} BranchesShift(catalogs: seq<(string, Result<seq<(string, Attempt)>>)>, i: nat)
    requires 0 < i <= |catalogs| && catalogs[0].1.Ok?
    ensures BranchesBefore(catalogs, i) == |catalogs[0].1.value| + BranchesBefore(catalogs[1..], i - 1)
  {
    if i > 1 { BranchesShift(catalogs, i - 1); }
  }

  lemma LaterVisit(catalogs: seq<(string, Result<seq<(string, Attempt)>>)>, i: nat, j: nat)
    requires 0 < i < |catalogs| && Found(catalogs, i + 1) && j < |catalogs[i].1.value| && VisitsAll(Visits(catalogs[1..]), catalogs[1..])
    ensures VisitStands(Visits(catalogs), catalogs, i, j)
  {
    var rest := catalogs[1..];
    assert forall h :: 0 <= h < i ==> rest[h] == catalogs[h + 1];
    assert Found(rest, i) && VisitStands(Visits(rest), rest, i - 1, j);
    BranchesShift(catalogs, i);
  }

  lemma {:induction false} VisitsExact(catalogs: seq<(string, Result<seq<(string, Attempt)>>)>)
    ensures VisitsAll(Visits(catalogs), catalogs)
  {
    if catalogs != [] && catalogs[0].1.Ok? {
      var rest := catalogs[1..];
      VisitsExact(rest);
      forall i, j | 0 <= i < |catalogs| && Found(catalogs, i + 1) && 0 <= j < |catalogs[i].1.value| ensures VisitStands(Visits(catalogs), catalogs, i, j) {
        if i > 0 { LaterVisit(catalogs, i, j); }
      }
      forall i: nat | Found(catalogs, i) && (i == |catalogs| || catalogs[i].1.Err?) ensures |Visits(catalogs)| == BranchesBefore(catalogs, i) {
        assert i > 0 && Found(rest, i - 1);
        BranchesShift(catalogs, i);
      }
    }
  }

  /** One branch's part of a trace. */
  function Of(trace: seq<(Key, Attempt)>, k: Key): seq<Attempt> {
    if trace == [] then []
    else
      var n := |trace| - 1;
      Of(trace[..n], k) + (if trace[n].0 == k then [trace[n].1] else [])
  }

  lemma OfMore(trace: seq<(Key, Attempt)>, visit: (Key, Attempt), k: Key)
    ensures Of(trace + [visit], k) == Of(trace, k) + (if visit.0 == k then [visit.1] else [])
  {
    assert (trace + [visit])[..|trace|] == trace;
  }

  /** A visit advances its own branch's history by one step and no other's. */
  lemma VisitedOne(trace: seq<(Key, Attempt)>, k: Key, a: Attempt, grace: int)
    ensures After(Of(trace + [(k, a)], k), grace) == Visit(After(Of(trace, k), grace), a, grace)
    ensures forall other :: other != k ==> Of(trace + [(k, a)], other) == Of(trace, other)
  {
    forall other | other != k ensures Of(trace + [(k, a)], other) == Of(trace, other) { OfMore(trace, (k, a), other); }
    OfMore(trace, (k, a), k);
    var run := Of(trace, k) + [a];
    assert run[..|run| - 1] == Of(trace, k);
  }

  /** What a visit from these watermarks does, spelled out: whether it succeeds, the windows it lists
      and where it leaves the watermarks. */
  ghost predicate VisitDone(wm: Watermarks, a: Attempt, grace: int, ok: bool, modified: Option<Window>, aged: Option<Window>, after: Watermarks) {
    var upper := a.now - grace;
    && (ok <==> a.modifiedOk && (upper > wm.lastPurge ==> a.agedOk))
    && modified == (if a.modifiedOk then Some(Window(wm.lastModified, a.now)) else None)
    && aged == (if ok && upper > wm.lastPurge then Some(Window(wm.lastPurge, upper)) else None)
    && after == (if ok then Watermarks(a.now, if upper > wm.lastPurge then upper else wm.lastPurge) else wm)
  }

  class SnapshotLoop {
    const grace: int
    var watermarks: map<Key, Watermarks>
    /** Every visit since the start. */
    ghost var trace: seq<(Key, Attempt)>

    function WatermarksOf(k: Key): Watermarks
      reads this
    {
      if k in watermarks then watermarks[k] else ZERO
    }

    /** Each branch's watermarks are those of its own visits, whatever happened to the others. */
    ghost predicate Valid()
      reads this
    {
      forall k :: WatermarksOf(k) == After(Of(trace, k), grace).wm
    }

    constructor (graceWindow: int)
      ensures Valid() && grace == graceWindow && trace == []
    {
      grace, watermarks, trace := graceWindow, map[], [];
    }

    /** List `[last, now)`, purge what it names, advance to `now`. */
    method PurgeModified(wm: Watermarks, a: Attempt) returns (r: Result<Watermarks>, listed: Option<Window>)
      ensures r == if a.modifiedOk then Ok(wm.(lastModified := a.now)) else Err("list modified")
      ensures listed == if a.modifiedOk then Some(Window(wm.lastModified, a.now)) else None
    {
      if !a.modifiedOk { return Err("list modified"), None; }
      return Ok(wm.(lastModified := a.now)), Some(Window(wm.lastModified, a.now));
    }

    /** List `[last, now - grace)` when that is not empty, purge what it names, advance. */
    method PurgeAgedPersisted(wm: Watermarks, a: Attempt) returns (r: Result<Watermarks>, listed: Option<Window>)
      ensures a.now - grace <= wm.lastPurge ==> r == Ok(wm) && listed == None
      ensures a.now - grace > wm.lastPurge && !a.agedOk ==> r.Err? && listed == None
      ensures a.now - grace > wm.lastPurge && a.agedOk ==>
                r == Ok(wm.(lastPurge := a.now - grace)) && listed == Some(Window(wm.lastPurge, a.now - grace))
    {
      var upper := a.now - grace;
      if upper > wm.lastPurge {
        if !a.agedOk { return Err("list persisted"), None; }
        return Ok(wm.(lastPurge := upper)), Some(Window(wm.lastPurge, upper));
      }
      return Ok(wm), None;
    }

    /** Both sweeps, the second from where the first leaves the watermarks. */
    method Sweep(wm: Watermarks, a: Attempt, ghost h: History) returns (r: Result<Watermarks>, modified: Option<Window>, aged: Option<Window>)
      requires h.wm == wm
      ensures VisitDone(wm, a, grace, r.Ok?, modified, aged, if r.Ok? then r.value else wm)
      ensures var g := Visit(h, a, grace);
              && g.wm == (if r.Ok? then r.value else wm)
              && g.modified == h.modified + (if modified.Some? then [modified.value] else [])
              && g.aged == h.aged + (if aged.Some? then [aged.value] else [])
    {
      r, modified := PurgeModified(wm, a);
      aged := None;
      if r.Ok? { r, aged := PurgeAgedPersisted(r.value, a); }
    }

    /** One branch: both sweeps on a copy of its watermarks, written back only when both succeed. */
    method TickBranch(k: Key, a: Attempt) returns (ok: bool, modified: Option<Window>, aged: Option<Window>)
      requires Valid()
      modifies this
      ensures Valid() && trace == old(trace) + [(k, a)]
      ensures forall other :: other != k ==> WatermarksOf(other) == old(WatermarksOf(other))
      ensures var h, g := After(Of(old(trace), k), grace), After(Of(trace, k), grace);
              && g.modified == h.modified + (if modified.Some? then [modified.value] else [])
              && g.aged == h.aged + (if aged.Some? then [aged.value] else [])
      ensures VisitDone(old(WatermarksOf(k)), a, grace, ok, modified, aged, WatermarksOf(k))
    {
      var r: Result<Watermarks>;
      r, modified, aged := Sweep(WatermarksOf(k), a, After(Of(trace, k), grace));
      VisitedOne(trace, k, a, grace);
      trace := trace + [(k, a)];
      ok := r.Ok?;
      if ok { watermarks := watermarks[k := r.value]; }
    }

    /** The branches of one catalog; a failing branch does not stop the next. */
    method TickCatalog(catalog: string, branches: seq<(string, Attempt)>)
      requires Valid()
      modifies this
      ensures Valid() && trace == old(trace) + BranchVisits(catalog, branches)
    {
      ghost var visits := BranchVisits(catalog, branches);
      for j := 0 to |branches|
        invariant Valid() && trace == old(trace) + visits[..j]
      {
        var ok, modified, aged := TickBranch((catalog, branches[j].0), branches[j].1);
        assert visits[..j + 1] == visits[..j] + [visits[j]];
      }
      assert visits[..|branches|] == visits;
    }

    /** One tick over every discovered catalog. */
    method Tick(found: Discovered)
      requires Valid()
      modifies this
      ensures Valid() && old(trace) <= trace
      ensures if found.catalogs.Ok? then VisitsAll(trace[|old(trace)|..], found.catalogs.value) else trace == old(trace)
    {
      if found.catalogs.Err? { return; }
      var catalogs := found.catalogs.value;
      VisitsExact(catalogs);
      assert (old(trace) + Visits(catalogs))[|old(trace)|..] == Visits(catalogs);
      for i := 0 to |catalogs|
        invariant Valid() && trace + Visits(catalogs[i..]) == old(trace) + Visits(catalogs)
      {
        if catalogs[i].1.Err? {
          assert trace == old(trace) + Visits(catalogs);
          return;
        }
        ghost var start := trace;
        assert catalogs[i..][1..] == catalogs[i + 1..];
        TickCatalog(catalogs[i].0, catalogs[i].1.value);
        assert start + Visits(catalogs[i..]) == trace + Visits(catalogs[i + 1..]);
      }
      assert trace == old(trace) + Visits(catalogs);
    }

    /** Any number of ticks: what the run theorems say holds of every branch's watermarks. */
    method RunTicks(ticks: seq<Discovered>)
      requires Valid()
      modifies this
      ensures Valid() && old(trace) <= trace
      ensures forall k, t :: 0 <= t < WatermarksOf(k).lastModified ==> Listed(After(Of(trace, k), grace).modified, t)
      ensures forall k :: Tiles(After(Of(trace, k), grace).aged, WatermarksOf(k).lastPurge)
      ensures forall k, i :: 0 <= i < |Of(trace, k)| && Succeeds(Of(trace, k), i, grace) ==> Reached(Of(trace, k), i, grace, WatermarksOf(k))
    {
      for i := 0 to |ticks|
        invariant Valid() && old(trace) <= trace
      {
        Tick(ticks[i]);
      }
      forall k, t | 0 <= t < WatermarksOf(k).lastModified ensures Listed(After(Of(trace, k), grace).modified, t) {
        ModifiedCovered(Of(trace, k), grace, t);
      }
      forall k, i | 0 <= i < |Of(trace, k)| && Succeeds(Of(trace, k), i, grace) ensures Reached(Of(trace, k), i, grace, WatermarksOf(k)) {
        WatermarksReached(Of(trace, k), i, grace);
      }
      forall k ensures Tiles(After(Of(trace, k), grace).aged, WatermarksOf(k).lastPurge) { AgedTiles(Of(trace, k), grace); }
    }
  }
}
