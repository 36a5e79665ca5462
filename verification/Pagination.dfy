/** The page-token protocol: over-fetching server, draining client. */
module Pagination {
  import opened Base
  import opened Numerals

  const I64_MAX: int := 0x7FFF_FFFF_FFFF_FFFF

  function EncodePageToken(offset: int): string { ShowInt(offset) }

  /** Zero for an empty, malformed or out-of-range token. */
  function DecodePageToken(token: string): int {
    if token == [] then 0
    else match ParseInt(token)
      case Some(n) => if -I64_MAX - 1 <= n <= I64_MAX then n else 0
      case None => 0
  }

  lemma TokenRoundTrip(offset: int)
    requires -I64_MAX - 1 <= offset <= I64_MAX
    ensures EncodePageToken(offset) != [] && DecodePageToken(EncodePageToken(offset)) == offset
  {
    ParseShowInt(offset);
    assert offset < 0 ==> |"-" + ShowNat(-offset)| > 0;
  }

  /** The first `pageSize` of an over-fetched list, and a token exactly when something is left. */
  function TakePageAndNextToken<T>(rows: seq<T>, pageSize: nat, offset: int): (seq<T>, Option<string>) {
    (if |rows| > pageSize then rows[..pageSize] else rows,
     if |rows| > pageSize then Some(EncodePageToken(offset + pageSize)) else None)
  }

  /** `LIMIT`/`OFFSET` over an unchanging list; a negative offset is a database error. */
  function Fetch<T>(all: seq<T>, offset: int, limit: nat): Result<seq<T>> {
    if offset < 0 then Err("OFFSET must not be negative")
    else if offset >= |all| then Ok([])
    else if offset + limit >= |all| then Ok(all[offset..])
    else Ok(all[offset..offset + limit])
  }

  /** A requested size of zero or less means the default. */
  function PageSize(requested: int, fallback: nat): nat { if requested > 0 then requested else fallback }

  /** One list call. */
  function Serve<T>(all: seq<T>, requested: int, fallback: nat, token: string): Result<(seq<T>, Option<string>)> {
    var size, offset := PageSize(requested, fallback), DecodePageToken(token);
    match Fetch(all, offset, size + 1)
    case Ok(rows) => Ok(TakePageAndNextToken(rows, size, offset))
    case Err(m) => Err(m)
  }

  /** The token names the offset the next call starts from (the first call's is empty). */
  predicate At(token: string, offset: nat) { token == if offset == 0 then [] else EncodePageToken(offset) }

  lemma PageAt<T>(all: seq<T>, p: nat, offset: nat)
    requires offset <= |all| && p > 0
    ensures Fetch(all, offset, p + 1).Ok?
    ensures TakePageAndNextToken(Fetch(all, offset, p + 1).value, p, offset)
         == if offset + p < |all| then (all[offset..offset + p], Some(EncodePageToken(offset + p))) else (all[offset..], None)
  {
    if offset + p < |all| { assert Fetch(all, offset, p + 1).value[..p] == all[offset..offset + p]; }
  }

  /** A call at an offset inside the list returns the next page and the token of the page after it. */
  lemma ServePage<T>(all: seq<T>, requested: int, fallback: nat, token: string, offset: nat)
    requires |all| <= I64_MAX && fallback > 0 && offset <= |all| && At(token, offset)
    ensures var p := PageSize(requested, fallback);
            var r := Serve(all, requested, fallback, token);
            && r.Ok? && p > 0 && (requested <= 0 ==> p == fallback)
            && (requested > 0 ==> |r.value.0| == if requested < |all| - offset then requested else |all| - offset)
            && (offset + p < |all| ==> r.value.0 == all[offset..offset + p] && r.value.1.Some? && r.value.1.value != [] && At(r.value.1.value, offset + p))
            && (offset + p >= |all| ==> r.value == (all[offset..], None))
  {
    var p := PageSize(requested, fallback);
    TokenRoundTrip(offset);
    if offset + p < |all| { TokenRoundTrip(offset + p); }
    assert DecodePageToken(token) == offset;
    PageAt(all, p, offset);
  }

  /** A token that is not a 64-bit number serves the first page again; one for a negative offset is an error. */
  lemma OddTokens<T>(all: seq<T>, requested: int, fallback: nat, token: string)
    ensures ParseInt(token).None? ==> Serve(all, requested, fallback, token) == Serve(all, requested, fallback, "")
    ensures forall n :: (n < -I64_MAX - 1 || n > I64_MAX) && ParseInt(token) == Some(n) ==> Serve(all, requested, fallback, token) == Serve(all, requested, fallback, "")
    ensures forall n :: -I64_MAX - 1 <= n < 0 && ParseInt(token) == Some(n) ==> Serve(all, requested, fallback, token).Err?
  {
    assert ParseInt("").None?;
  }

  /** Calls needed for `n` rows in pages of `p`: at least one, else `n / p` rounded up. */
  function CallsFor(n: nat, p: nat): nat
    requires p > 0
  {
    if n <= p then 1 else 1 + CallsFor(n - p, p)
  }

  lemma {:induction false} CallsForIsCeiling(n: nat, p: nat)
    requires p > 0
    ensures CallsFor(n, p) == if n == 0 then 1 else (n + p - 1) / p
  {
    if n > p {
      CallsForIsCeiling(n - p, p);
      DivStep(n - 1, p);
    } else if n > 0 {
      DivOne(n - 1, p);
    }
  }

  lemma DivStep(m: nat, p: nat)
    requires p > 0 && m >= p
    ensures (m + p) / p == 1 + (m - p + p) / p
  {
    assert m + p == p * (m / p + 1) + m % p;
    DivUnique(m + p, p, m / p + 1, m % p);
  }

  lemma DivOne(m: nat, p: nat)
    requires m < p
    ensures (m + p) / p == 1
  {
    DivUnique(m + p, p, 1, m);
  }

  lemma DivUnique(x: nat, p: nat, q: nat, r: nat)
    requires p > 0 && r < p && x == p * q + r
    ensures x / p == q
  {
    var d := x / p - q;
    assert x == p * (x / p) + x % p;
    assert p * d == r - x % p;
    MultipleSize(p, d);
  }

  lemma MultipleSize(p: int, d: int)
    requires p > 0
    ensures (d >= 1 ==> p * d >= p) && (d <= -1 ==> p * d <= -p)
  {
  }

  /** Rows in `k` full pages. */
  function FullPages(k: nat, p: nat): nat { if k == 0 then 0 else FullPages(k - 1, p) + p }

  /** One call of a drain that has `offset` rows so far. */
  method CallServer<T>(all: seq<T>, requested: int, fallback: nat, token: string, ghost offset: nat) returns (page: seq<T>, next: Option<string>)
    requires |all| <= I64_MAX && fallback > 0 && offset <= |all| && At(token, offset)
    ensures var p := PageSize(requested, fallback);
            && (offset + p < |all| ==> page == all[offset..offset + p] && next.Some? && next.value != [] && At(next.value, offset + p))
            && (offset + p >= |all| ==> page == all[offset..] && next == None)
  {
    ServePage(all, requested, fallback, token, offset);
    var served := Serve(all, requested, fallback, token);
    page, next := served.value.0, served.value.1;
  }

  lemma Extended<T>(all: seq<T>, i: nat, j: nat)
    requires i <= j <= |all|
    ensures all[..i] + all[i..j] == all[..j] && all[..i] + all[i..] == all
  {
  }

  /** `paginate_all` against the server, where call `k` fails if `fails(k)`: the whole list in order
      after exactly the least number of calls, or the first failure. */
  method PaginateAll<T>(all: seq<T>, requested: int, fallback: nat, fails: nat -> bool) returns (r: Result<seq<T>>, calls: nat)
    requires |all| <= I64_MAX && fallback > 0
    ensures r.Ok? ==> r.value == all && calls == CallsFor(|all|, PageSize(requested, fallback))
    ensures r.Ok? <==> forall k :: 0 <= k < CallsFor(|all|, PageSize(requested, fallback)) ==> !fails(k)
  {
    var out: seq<T>, token := [], "";
    ghost var p := PageSize(requested, fallback);
    ghost var n := 0;
    calls := 0;
    while true
      invariant n <= |all| && out == all[..n] && At(token, n)
      invariant calls + CallsFor(|all| - n, p) == CallsFor(|all|, p)
      invariant forall k :: 0 <= k < calls ==> !fails(k)
      decreases |all| - n
    {
      if fails(calls) { return Err("rpc failed"), calls + 1; }
      var page, next := CallServer(all, requested, fallback, token, n);
      calls := calls + 1;
      Extended(all, n, if n + p < |all| then n + p else |all|);
      out := out + page;
      if next.Some? && next.value != [] {
        token := next.value;
        n := n + p;
      } else {
        return Ok(out), calls;
      }
    }
  }

  /** `paginate_to_exhaustion`: the same drain, keeping what it has at the first failure. */
  method PaginateToExhaustion<T>(all: seq<T>, requested: int, fallback: nat, fails: nat -> bool) returns (out: seq<T>, calls: nat)
    requires |all| <= I64_MAX && fallback > 0
    ensures out <= all
    ensures (forall k :: 0 <= k < CallsFor(|all|, PageSize(requested, fallback)) ==> !fails(k)) ==> out == all
    ensures calls <= CallsFor(|all|, PageSize(requested, fallback))
    ensures out != all ==> calls > 0 && fails(calls - 1) && |out| == FullPages(calls - 1, PageSize(requested, fallback))
  {
    var token := "";
    ghost var p := PageSize(requested, fallback);
    ghost var n := 0;
    out, calls := [], 0;
    while true
      invariant n <= |all| && out == all[..n] && At(token, n)
      invariant calls + CallsFor(|all| - n, p) == CallsFor(|all|, p) && n == FullPages(calls, p)
      decreases |all| - n
    {
      calls := calls + 1;
      if fails(calls - 1) { return; }
      var page, next := CallServer(all, requested, fallback, token, n);
      Extended(all, n, if n + p < |all| then n + p else |all|);
      out := out + page;
      if next.Some? && next.value != [] {
        token := next.value;
        n := n + p;
      } else {
        return;
      }
    }
  }
}
