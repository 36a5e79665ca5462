/** Name resolution during plan building: live lookups, remembered for one build only. */
module Memo {
  import opened Base

  /** A table's resolved metadata. */
  datatype TableInfo = TableInfo(schema: string, primaryKeys: seq<string>, indexes: seq<(string, seq<string>)>)

  /** What a lookup call may bring back: a payload, a confirmed miss in either shape, or a failure. */
  datatype Reply<T> = Found(value: T) | NotFound | NoPayload | Failure(message: string)

  function Answer<T>(r: Reply<T>): Result<Option<T>> {
    match r
    case Found(v) => Ok(Some(v))
    case Failure(m) => Err(m)
    case _ => Ok(None)
  }

  /** The read point sent with every call: the open transaction, or else the pinned frontier. */
  type Snapshot = (Option<string>, Option<int>)

  /** The names visible at one read point. */
  datatype Names = Names(schemas: map<string, string>, tables: map<(string, string), TableInfo>)

  function Get<K, V>(m: map<K, V>, k: K): Option<V> { if k in m then Some(m[k]) else None }

  /** The reply is the truth at `m`, or a failure. */
  predicate Truthful<K, V(==)>(r: Reply<V>, m: map<K, V>, k: K) {
    match r
    case Found(v) => k in m && m[k] == v
    case Failure(_) => true
    case _ => k !in m
  }

  datatype Memo = Memo(schemas: map<string, Option<string>>, tables: map<(string, string), Option<TableInfo>>)

  const EMPTY := Memo(map[], map[])

  // ---------------------------------------------------------------- lookups as values

  datatype Lookup =
    | Table(schema: string, name: string, tableReply: Reply<TableInfo>)
    | TableExist(schema: string, name: string, tableReply: Reply<TableInfo>)
    | Schema(name: string, schemaReply: Reply<string>)

  datatype Outcome = TableIs(t: Result<Option<TableInfo>>) | Exists(b: bool) | SchemaIs(s: Option<string>)

  /** The remembered answer if there is one, else the live one. */
  function Resolve<K, V>(known: map<K, Option<V>>, k: K, reply: Reply<V>): Result<Option<V>> {
    if k in known then Ok(known[k]) else Answer(reply)
  }

  /** Hits and confirmed misses are remembered; failures are not. */
  function Remember<K, V>(known: map<K, Option<V>>, k: K, reply: Reply<V>): map<K, Option<V>> {
    var r := Resolve(known, k, reply);
    if r.Ok? then known[k := r.value] else known
  }

  function OutcomeOf(memo: Memo, l: Lookup): Outcome {
    match l
    case Table(s, n, reply) => TableIs(Resolve(memo.tables, (s, n), reply))
    case TableExist(s, n, reply) =>
      var r := Resolve(memo.tables, (s, n), reply);
      Exists(r.Ok? && r.value.Some?)
    case Schema(n, reply) =>
      var r := Resolve(memo.schemas, n, reply);
      SchemaIs(if r.Ok? then r.value else None)
  }

  function MemoAfter(memo: Memo, l: Lookup): Memo {
    match l
    case Table(s, n, reply) => memo.(tables := Remember(memo.tables, (s, n), reply))
    case TableExist(s, n, reply) => memo.(tables := Remember(memo.tables, (s, n), reply))
    case Schema(n, reply) => memo.(schemas := Remember(memo.schemas, n, reply))
  }

  /** The outcomes of a build's lookups, one after the other. */
  function Outcomes(memo: Memo, ls: seq<Lookup>): seq<Outcome>
    decreases |ls|
  {
    if ls == [] then [] else [OutcomeOf(memo, ls[0])] + Outcomes(MemoAfter(memo, ls[0]), ls[1..])
  }

  // ---------------------------------------------------------------- what a build sees

  predicate TruthfulLookup(l: Lookup, names: Names) {
    match l
    case Table(s, n, reply) => Truthful(reply, names.tables, (s, n))
    case TableExist(s, n, reply) => Truthful(reply, names.tables, (s, n))
    case Schema(n, reply) => Truthful(reply, names.schemas, n)
  }

  predicate Failed(l: Lookup) { if l.Schema? then l.schemaReply.Failure? else l.tableReply.Failure? }

  /** The server's answer at the build's read point; `Failed` lookups may also come out as an error
      or, where the interface has no error, as absent. */
  predicate Right(l: Lookup, o: Outcome, names: Names) {
    match (l, o)
    case (Table(s, n, _), TableIs(t)) => t == Ok(Get(names.tables, (s, n))) || (t.Err? && Failed(l))
    case (TableExist(s, n, _), Exists(b)) => b == ((s, n) in names.tables) || (!b && Failed(l))
    case (Schema(n, _), SchemaIs(r)) => r == Get(names.schemas, n) || (r.None? && Failed(l))
    case _ => false
  }

  /** Every remembered entry is the server's answer. */
  predicate Sound(memo: Memo, names: Names) {
    && (forall k :: k in memo.schemas ==> memo.schemas[k] == Get(names.schemas, k))
    && (forall k :: k in memo.tables ==> memo.tables[k] == Get(names.tables, k))
  }

  lemma StepRight(memo: Memo, l: Lookup, names: Names)
    requires Sound(memo, names) && TruthfulLookup(l, names)
    ensures Right(l, OutcomeOf(memo, l), names) && Sound(MemoAfter(memo, l), names)
  {
  }

  /** In a build whose names do not change, every lookup gets the server's answer. */
  lemma {:induction false} BuildRight(memo: Memo, ls: seq<Lookup>, names: Names, i: nat)
    requires Sound(memo, names) && (forall l :: l in ls ==> TruthfulLookup(l, names)) && i < |ls|
    ensures |Outcomes(memo, ls)| == |ls| && Right(ls[i], Outcomes(memo, ls)[i], names)
    decreases |ls|
  {
    StepRight(memo, ls[0], names);
    if i > 0 {
      BuildRight(MemoAfter(memo, ls[0]), ls[1..], names, i - 1);
    } else if |ls| > 1 {
      BuildRight(MemoAfter(memo, ls[0]), ls[1..], names, 0);
    }
  }

  /** `table` and a `table_exist` that did not fail agree, wherever in the build they stand. */
  lemma TableAndExistAgree(ls: seq<Lookup>, names: Names, i: nat, j: nat)
    requires (forall l :: l in ls ==> TruthfulLookup(l, names)) && i < |ls| && j < |ls|
    requires ls[i].Table? && ls[j].TableExist? && ls[i].schema == ls[j].schema && ls[i].name == ls[j].name && !Failed(ls[j])
    ensures |Outcomes(EMPTY, ls)| == |ls|
    ensures var t, e := Outcomes(EMPTY, ls)[i], Outcomes(EMPTY, ls)[j];
            t.TableIs? && e.Exists? && (t.t.Ok? ==> (e.b <==> t.t.value.Some?))
  {
    BuildRight(EMPTY, ls, names, i);
    BuildRight(EMPTY, ls, names, j);
  }

  predicate SameName(a: Lookup, b: Lookup) { a.Schema? == b.Schema? && a.name == b.name && (!a.Schema? ==> a.schema == b.schema) }

  predicate Knows(memo: Memo, l: Lookup) { if l.Schema? then l.name in memo.schemas else (l.schema, l.name) in memo.tables }

  /** The server's answer, with no allowance for a failed call. */
  predicate Answered(l: Lookup, o: Outcome, names: Names) {
    match (l, o)
    case (Table(s, n, _), TableIs(t)) => t == Ok(Get(names.tables, (s, n)))
    case (TableExist(s, n, _), Exists(b)) => b == ((s, n) in names.tables)
    case (Schema(n, _), SchemaIs(r)) => r == Get(names.schemas, n)
    case _ => false
  }

  lemma {:induction false} KnownIsAnswered(memo: Memo, ls: seq<Lookup>, names: Names, j: nat)
    requires Sound(memo, names) && (forall l :: l in ls ==> TruthfulLookup(l, names)) && j < |ls| && Knows(memo, ls[j])
    ensures |Outcomes(memo, ls)| == |ls| && Answered(ls[j], Outcomes(memo, ls)[j], names)
    decreases |ls|
  {
    BuildRight(memo, ls, names, j);
    StepRight(memo, ls[0], names);
    if j > 0 { KnownIsAnswered(MemoAfter(memo, ls[0]), ls[1..], names, j - 1); }
  }

  /** A name answered once in a build is answered from then on, also where the later call would fail. */
  lemma {:induction false} AnsweredOnceStays(memo: Memo, ls: seq<Lookup>, names: Names, i: nat, j: nat)
    requires Sound(memo, names) && (forall l :: l in ls ==> TruthfulLookup(l, names)) && i < j < |ls|
    requires SameName(ls[i], ls[j]) && !Failed(ls[i])
    ensures |Outcomes(memo, ls)| == |ls| && Answered(ls[j], Outcomes(memo, ls)[j], names)
    decreases |ls|
  {
    BuildRight(memo, ls, names, j);
    StepRight(memo, ls[0], names);
    if i > 0 {
      AnsweredOnceStays(MemoAfter(memo, ls[0]), ls[1..], names, i - 1, j - 1);
    } else {
      KnownIsAnswered(MemoAfter(memo, ls[0]), ls[1..], names, j - 1);
    }
  }

  function MemoAt(memo: Memo, ls: seq<Lookup>): Memo
    decreases |ls|
  {
    if ls == [] then memo else MemoAt(MemoAfter(memo, ls[0]), ls[1..])
  }

  lemma {:induction false} OutcomesMore(memo: Memo, ls: seq<Lookup>, l: Lookup)
    ensures Outcomes(memo, ls + [l]) == Outcomes(memo, ls) + [OutcomeOf(MemoAt(memo, ls), l)]
    ensures MemoAt(memo, ls + [l]) == MemoAfter(MemoAt(memo, ls), l)
    decreases |ls|
  {
    if ls == [] {
      assert ls + [l] == [l];
      assert [l][1..] == [];
    } else {
      OutcomesMore(MemoAfter(memo, ls[0]), ls[1..], l);
      assert (ls + [l])[1..] == ls[1..] + [l];
    }
  }

  lemma {:induction false} OutcomesSplit(memo: Memo, a: seq<Lookup>, b: seq<Lookup>)
    ensures |Outcomes(memo, a)| == |a|
    ensures Outcomes(memo, a + b) == Outcomes(memo, a) + Outcomes(MemoAt(memo, a), b)
    decreases |a|
  {
    if a == [] {
      assert a + b == b;
    } else {
      OutcomesSplit(MemoAfter(memo, a[0]), a[1..], b);
      assert (a + b)[1..] == a[1..] + b;
    }
  }

  lemma FailureNotRemembered(memo: Memo, l: Lookup)
    requires Failed(l)
    ensures MemoAfter(memo, l) == memo
  {
    if l.Schema? {
      assert Remember(memo.schemas, l.name, l.schemaReply) == memo.schemas;
    } else {
      assert Remember(memo.tables, (l.schema, l.name), l.tableReply) == memo.tables;
    }
  }

  /** A failed call anywhere in a build changes no other lookup's outcome: without it the build
      gives the same answers, one fewer. */
  lemma FailedLookupLeavesNoTrace(memo: Memo, before: seq<Lookup>, l: Lookup, rest: seq<Lookup>)
    requires Failed(l)
    ensures var all := Outcomes(memo, before + ([l] + rest));
            |all| == |before| + 1 + |rest| && all[..|before|] + all[|before| + 1..] == Outcomes(memo, before + rest)
  {
    var at := MemoAt(memo, before);
    OutcomesSplit(memo, before, [l] + rest);
    OutcomesSplit(memo, before, rest);
    FailureNotRemembered(at, l);
    assert ([l] + rest)[1..] == rest;
    OutcomesSplit(at, rest, []);
  }

  // ---------------------------------------------------------------- the connection

  /** One plan build: the transaction open at the time, the frontier to pin when there is none, and
      its lookups. */
  datatype Build = Build(openTx: Option<string>, pin: Option<int>, lookups: seq<Lookup>)

  function SnapshotOf(b: Build): Snapshot { (b.openTx, if b.openTx.Some? then None else b.pin) }

  class ConnScope {
    var openTx: Option<string>
    var pinned: Option<int>
    var memo: Option<Memo>

    constructor ()
      ensures openTx == None && pinned == None && memo == None
    {
      openTx, pinned, memo := None, None, None;
    }

    /** The two fields are never both set, and the open transaction wins. */
    function ReadSnapshotFields(): (s: Snapshot)
      reads this
      ensures s.0 == openTx && (s.0.Some? ==> s.1.None?) && (s.0.None? ==> s.1 == pinned)
    {
      (openTx, if openTx.Some? then None else pinned)
    }

    /** The memo to consult: nothing is known outside a build. */
    function Known(): Memo
      reads this
    {
      if memo.Some? then memo.value else EMPTY
    }

    /** `resolved_table_memoized`: the shared kernel of `table` and `table_exist`.  `live` tells
        whether a call was made. */
    method ResolvedTable(schema: string, name: string, reply: Reply<TableInfo>) returns (r: Result<Option<TableInfo>>, live: bool)
      modifies this`memo
      ensures r == Resolve(old(Known()).tables, (schema, name), reply)
      ensures live <==> (schema, name) !in old(Known()).tables
      ensures memo == if old(memo).None? then None else Some(old(memo).value.(tables := Remember(old(memo).value.tables, (schema, name), reply)))
    {
      if memo.Some? && (schema, name) in memo.value.tables {
        var known := memo.value.tables;
        assert known[(schema, name) := known[(schema, name)]] == known;
        return Ok(known[(schema, name)]), false;
      }
      r, live := Answer(reply), true;
      if r.Ok? && memo.Some? { memo := Some(memo.value.(tables := memo.value.tables[(schema, name) := r.value])); }
    }

    /** `schema`: a failed lookup reads as absent and is not remembered. */
    method ResolveSchema(name: string, reply: Reply<string>) returns (r: Option<string>)
      modifies this`memo
      ensures SchemaIs(r) == OutcomeOf(old(Known()), Schema(name, reply))
      ensures memo == if old(memo).None? then None else Some(MemoAfter(old(memo).value, Schema(name, reply)))
    {
      if memo.Some? && name in memo.value.schemas {
        var known := memo.value.schemas;
        assert known[name := known[name]] == known;
        return known[name];
      }
      match Answer(reply) {
        case Ok(found) =>
          if memo.Some? { memo := Some(memo.value.(schemas := memo.value.schemas[name := found])); }
          r := found;
        case Err(_) => r := None;
      }
    }

    /** One lookup, through the provider method it belongs to. */
    method Perform(l: Lookup) returns (o: Outcome)
      modifies this`memo
      ensures o == OutcomeOf(old(Known()), l)
      ensures memo == if old(memo).None? then None else Some(MemoAfter(old(memo).value, l))
    {
      match l {
        case Table(s, n, reply) =>
          var r, _ := ResolvedTable(s, n, reply);
          o := TableIs(r);
        case TableExist(s, n, reply) =>
          if memo.Some? && (s, n) in memo.value.tables {
            var known := memo.value.tables;
            assert known[(s, n) := known[(s, n)]] == known;
            return Exists(known[(s, n)].Some?);
          }
          var r, _ := ResolvedTable(s, n, reply);
          o := Exists(r.Ok? && r.value.Some?);
        case Schema(n, reply) =>
          var r := ResolveSchema(n, reply);
          o := SchemaIs(r);
      }
    }

    /** One build under its two guards: a pin where no transaction is open, and a fresh memo, both
        cleared at the end whatever the cells held before. */
    method RunBuild(b: Build) returns (out: seq<Outcome>, ghost at: Snapshot)
      modifies this
      ensures out == Outcomes(EMPTY, b.lookups)
      ensures at.0 == b.openTx && at.1 == if b.openTx.Some? then None else b.pin
      ensures memo == None && pinned == None
    {
      openTx := b.openTx;
      pinned := b.pin;
      memo := Some(EMPTY);
      at := ReadSnapshotFields();
      out := [];
      for i := 0 to |b.lookups|
        invariant out == Outcomes(EMPTY, b.lookups[..i])
        invariant memo == Some(MemoAt(EMPTY, b.lookups[..i]))
        invariant ReadSnapshotFields() == at
      {
        var o := Perform(b.lookups[i]);
        OutcomesMore(EMPTY, b.lookups[..i], b.lookups[i]);
        assert b.lookups[..i + 1] == b.lookups[..i] + [b.lookups[i]];
        out := out + [o];
      }
      assert b.lookups[..|b.lookups|] == b.lookups;
      memo, pinned := None, None;
    }

    /** Builds one after the other, with any DDL in between: `server(i)` is what exists during build
        `i`.  Each lookup gets the answer at its own build's read point, and each build's outcomes
        are those it would have alone. */
    method RunBuilds(builds: seq<Build>, ghost server: (nat, Snapshot) -> Names) returns (out: seq<seq<Outcome>>)
      requires forall i, l :: 0 <= i < |builds| && l in builds[i].lookups ==> TruthfulLookup(l, server(i, SnapshotOf(builds[i])))
      modifies this
      ensures |out| == |builds|
      ensures forall i :: 0 <= i < |builds| ==> out[i] == Outcomes(EMPTY, builds[i].lookups)
      ensures forall i, j :: 0 <= i < |builds| && 0 <= j < |builds[i].lookups| ==>
                |out[i]| == |builds[i].lookups| && Right(builds[i].lookups[j], out[i][j], server(i, SnapshotOf(builds[i])))
    {
      out := [];
      for i := 0 to |builds|
        invariant |out| == i
        invariant forall k :: 0 <= k < i ==> out[k] == Outcomes(EMPTY, builds[k].lookups)
      {
        var o, _ := RunBuild(builds[i]);
        out := out + [o];
      }
      forall i, j | 0 <= i < |builds| && 0 <= j < |builds[i].lookups|
        ensures |out[i]| == |builds[i].lookups| && Right(builds[i].lookups[j], out[i][j], server(i, SnapshotOf(builds[i])))
      {
        BuildRight(EMPTY, builds[i].lookups, server(i, SnapshotOf(builds[i])), j);
      }
    }
  }
}
