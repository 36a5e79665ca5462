/** Shared value types and sequence helpers. */
module Base {

  datatype Option<+T> = None | Some(value: T)

  datatype Result<+T> = Ok(value: T) | Err(message: string)

  /** The elements of `s` satisfying `p`, in order. */
  function Filter<T(!new)>(s: seq<T>, p: T -> bool): (r: seq<T>)
    ensures forall x :: x in r <==> x in s && p(x)
    ensures |r| <= |s|
  {
    if s == [] then [] else (if p(s[0]) then [s[0]] else []) + Filter(s[1..], p)
  }

  ghost predicate Rising(at: seq<int>) { forall i, j :: 0 <= i < j < |at| ==> at[i] < at[j] }

  /** The elements of `r` are those of `s` at the rising positions `at`. */
  ghost predicate Picked<T>(r: seq<T>, s: seq<T>, at: seq<int>) {
    |at| == |r| && Rising(at) && forall i :: 0 <= i < |r| ==> 0 <= at[i] < |s| && r[i] == s[at[i]]
  }

  /** `at` lists exactly the positions whose element satisfies `p`. */
  ghost predicate ExactlyAt<T>(s: seq<T>, p: T -> bool, at: seq<int>) {
    forall k :: 0 <= k < |s| ==> (p(s[k]) <==> k in at)
  }

  /** `r` is every element of `s` satisfying `p`, each as often as there and in the same order. */
  ghost predicate Kept<T>(r: seq<T>, s: seq<T>, p: T -> bool) {
    exists at: seq<int> :: Picked(r, s, at) && ExactlyAt(s, p, at)
  }

  lemma PickedMore<T>(r: seq<T>, s: seq<T>, at: seq<int>, x: T)
    requires Picked(r, s, at)
    ensures Picked(r, s + [x], at) && Picked(r + [x], s + [x], at + [|s|]) && |s| !in at
  {
  }

  lemma ExactlyMore<T>(s: seq<T>, p: T -> bool, at: seq<int>, x: T)
    requires ExactlyAt(s, p, at) && |s| !in at
    ensures ExactlyAt(s + [x], p, if p(x) then at + [|s|] else at)
  {
    forall k | 0 <= k < |s| + 1 ensures p((s + [x])[k]) <==> k in if p(x) then at + [|s|] else at {
      if k < |s| { assert (s + [x])[k] == s[k]; }
    }
  }

  lemma KeptSnoc<T>(r: seq<T>, s: seq<T>, p: T -> bool, x: T, more: seq<T>, all: seq<T>)
    requires Kept(r, s, p) && more == (if p(x) then r + [x] else r) && all == s + [x]
    ensures Kept(more, all, p)
  {
    var at: seq<int> :| Picked(r, s, at) && ExactlyAt(s, p, at);
    PickedMore(r, s, at, x);
    ExactlyMore(s, p, at, x);
    assert Picked(more, all, if p(x) then at + [|s|] else at);
  }

  lemma KeptNone<T>(p: T -> bool)
    ensures Kept([], [], p)
  {
    var none: seq<T> := [];
    assert Picked(none, none, []) && ExactlyAt(none, p, []);
  }

  lemma {:induction false} FilterSnoc<T(!new)>(s: seq<T>, p: T -> bool, x: T)
    ensures Filter(s + [x], p) == if p(x) then Filter(s, p) + [x] else Filter(s, p)
  {
    if s != [] {
      FilterSnoc(s[1..], p, x);
      assert (s + [x])[1..] == s[1..] + [x];
    } else {
      assert s + [x] == [x];
    }
  }

  lemma FilterKeepsMore<T(!new)>(front: seq<T>, p: T -> bool, x: T, s: seq<T>)
    requires Kept(Filter(front, p), front, p) && s == front + [x]
    ensures Kept(Filter(s, p), s, p)
  {
    FilterSnoc(front, p, x);
    KeptSnoc(Filter(front, p), front, p, x, Filter(s, p), s);
  }

  lemma {:induction false} FilterKeeps<T(!new)>(s: seq<T>, p: T -> bool)
    ensures Kept(Filter(s, p), s, p)
  {
    if s == [] {
      KeptNone(p);
    } else {
      var front := s[..|s| - 1];
      FilterKeeps(front, p);
      FilterKeepsMore(front, p, s[|s| - 1], s);
    }
  }

  ghost function Mapped<A, B>(s: seq<A>, f: A -> B): (r: seq<B>)
    ensures |r| == |s| && forall i :: 0 <= i < |s| ==> r[i] == f(s[i])
  {
    if s == [] then [] else Mapped(s[..|s| - 1], f) + [f(s[|s| - 1])]
  }

  lemma MappedNext<A, B>(s: seq<A>, f: A -> B, k: nat)
    requires k < |s|
    ensures Mapped(s[..k + 1], f) == Mapped(s[..k], f) + [f(s[k])]
  {
    assert s[..k + 1][..k] == s[..k];
  }
}
