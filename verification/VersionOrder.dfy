/** The order in which the migration search prefers version sequences: a shorter one first, and
    among sequences of one length the lexicographically smaller one. */
module VersionOrder {
  /** `p` and `q` agree before position `k`, and `p` is smaller there. */
  ghost predicate LessAt(p: seq<int>, q: seq<int>, k: nat) {
    && k < |p| && k < |q| && p[k] < q[k]
    && forall i | 0 <= i < k :: p[i] == q[i]
  }

  ghost predicate LexLess(p: seq<int>, q: seq<int>) {
    exists k: nat :: LessAt(p, q, k)
  }

  ghost predicate ShortLex(p: seq<int>, q: seq<int>) {
    || |p| < |q|
    || p == q
    || (|p| == |q| && LexLess(p, q))
  }

  lemma {:induction false} LexTotal(p: seq<int>, q: seq<int>)
    requires |p| == |q|
    ensures p == q || LexLess(p, q) || LexLess(q, p)
  {
    var k: nat := 0;
    while k < |p| && p[k] == q[k]
      invariant k <= |p|
      invariant forall i | 0 <= i < k :: p[i] == q[i]
    {
      k := k + 1;
    }
    assert k == |p| || LessAt(p, q, k) || LessAt(q, p, k);
  }

  lemma {:induction false} LexAsymmetric(p: seq<int>, q: seq<int>)
    ensures !(LexLess(p, q) && LexLess(q, p))
  {
    forall j: nat, k: nat
      ensures !(LessAt(p, q, j) && LessAt(q, p, k))
    {
    }
  }

  lemma {:induction false} LexTransitive(p: seq<int>, q: seq<int>, r: seq<int>)
    requires LexLess(p, q) && LexLess(q, r)
    ensures LexLess(p, r)
  {
    var j: nat :| LessAt(p, q, j);
    var k: nat :| LessAt(q, r, k);
    assert LessAt(p, r, if j < k then j else k);
  }

  /** ShortLex is a total order on version sequences. */
  lemma {:induction false} ShortLexOrder(p: seq<int>, q: seq<int>, r: seq<int>)
    ensures ShortLex(p, q) || ShortLex(q, p)
    ensures ShortLex(p, q) && ShortLex(q, p) ==> p == q
    ensures ShortLex(p, q) && ShortLex(q, r) ==> ShortLex(p, r)
  {
    if |p| == |q| {
      LexTotal(p, q);
      LexAsymmetric(p, q);
    }
    if LexLess(p, q) && LexLess(q, r) {
      LexTransitive(p, q, r);
    }
  }

  /** A common prefix can be added or cancelled. */
  lemma {:induction false} ShortLexPrefix(a: seq<int>, p: seq<int>, q: seq<int>)
    ensures ShortLex(a + p, a + q) <==> ShortLex(p, q)
  {
    if LexLess(p, q) {
      var k: nat :| LessAt(p, q, k);
      assert LessAt(a + p, a + q, |a| + k);
    }
    if LexLess(a + p, a + q) {
      var k: nat :| LessAt(a + p, a + q, k);
      forall i | 0 <= i < k - |a|
        ensures p[i] == q[i]
      {
        assert (a + p)[|a| + i] == (a + q)[|a| + i];
      }
      assert LessAt(p, q, k - |a|);
    }
    if a + p == a + q {
      assert p == (a + p)[|a|..];
      assert q == (a + q)[|a|..];
    }
  }

  /** Extending keeps the order: by anything when the sequences differ, by ordered ends when not. */
  lemma {:induction false} ShortLexExtend(p: seq<int>, x: int, q: seq<int>, y: int)
    requires ShortLex(p, q)
    requires p != q || x <= y
    ensures ShortLex(p + [x], q + [y])
  {
    if p == q && x < y {
      assert LessAt(p + [x], q + [y], |p|);
    } else if p != q && |p| == |q| {
      var k: nat :| LessAt(p, q, k);
      assert LessAt(p + [x], q + [y], k);
    }
  }
}
