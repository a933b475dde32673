// Searching and sorting, for the modules that do either.
module Sequences {
  /** The position of the first element that fits, or the length when there is none. */
  function IndexWhere<T>(s: seq<T>, fits: T -> bool): (i: nat)
    ensures i <= |s|
    ensures i < |s| ==> fits(s[i])
    ensures forall j | 0 <= j < i :: !fits(s[j])
  {
    if s == [] || fits(s[0]) then 0 else 1 + IndexWhere(s[1..], fits)
  }

  /** A total preorder. */
  ghost predicate Orders<T(!new)>(leq: (T, T) -> bool) {
    && (forall a, b :: leq(a, b) || leq(b, a))
    && forall a, b, c :: leq(a, b) && leq(b, c) ==> leq(a, c)
  }

  ghost predicate Sorted<T>(s: seq<T>, leq: (T, T) -> bool) {
    forall i, j | 0 <= i < j < |s| :: leq(s[i], s[j])
  }

  method Sort<T(!new)>(s: seq<T>, leq: (T, T) -> bool) returns (r: seq<T>)
    requires Orders(leq)
    ensures multiset(r) == multiset(s) && Sorted(r, leq)
  {
    r := [];
    for i := 0 to |s|
      invariant multiset(r) == multiset(s[..i]) && Sorted(r, leq)
    {
      assert s[..i + 1] == s[..i] + [s[i]];
      r := Insert(r, s[i], leq);
    }
    assert s[..|s|] == s;
  }

  method Insert<T(!new)>(r: seq<T>, x: T, leq: (T, T) -> bool) returns (r': seq<T>)
    requires Orders(leq) && Sorted(r, leq)
    ensures Sorted(r', leq) && multiset(r') == multiset(r) + multiset{x}
  {
    var j := |r|;
    while j > 0 && !leq(r[j - 1], x)
      invariant 0 <= j <= |r|
      invariant forall k | j <= k < |r| :: leq(x, r[k])
    {
      j := j - 1;
    }
    assert forall k | 0 <= k < j :: leq(r[k], x) by {
      assert forall k | 0 <= k < j - 1 :: leq(r[k], r[j - 1]);
    }
    InsertKeepsSorted(r, x, j, leq);
    InsertAdds(r, x, j);
    r' := r[..j] + [x] + r[j..];
  }

  lemma {:induction false} InsertKeepsSorted<T>(r: seq<T>, x: T, j: nat, leq: (T, T) -> bool)
    requires Sorted(r, leq) && j <= |r|
    requires forall k | 0 <= k < j :: leq(r[k], x)
    requires forall k | j <= k < |r| :: leq(x, r[k])
    ensures Sorted(r[..j] + [x] + r[j..], leq)
  {
    var s := r[..j] + [x] + r[j..];
    forall a, b | 0 <= a < b < |s|
      ensures leq(s[a], s[b])
    {
      assert s[a] == if a < j then r[a] else if a == j then x else r[a - 1];
      assert s[b] == if b < j then r[b] else if b == j then x else r[b - 1];
    }
  }

  lemma {:induction false} InsertAdds<T>(r: seq<T>, x: T, j: nat)
    requires j <= |r|
    ensures multiset(r[..j] + [x] + r[j..]) == multiset(r) + multiset{x}
  {
    assert r == r[..j] + r[j..];
  }

  lemma {:induction false} ConcatAssociates<T>(a: seq<T>, b: seq<T>, c: seq<T>)
    ensures a + b + c == a + (b + c)
  {
  }
}
