/** The schema migration planner and runner: a registry of version edges, a breadth-first search
    for a chain from the stored version to the target, and the loop that runs the chain. */
module SchemaMigration {
  import opened Wrappers
  import opened Decimal
  import opened VersionOrder

  type SchemaVersion = Int64

  /** `apply` names the routine of the step; None is a nil function. */
  datatype Migration = Migration(from: SchemaVersion, to: SchemaVersion, description: string, apply: Option<nat>)

  // ---------------------------------------------------------------- registry

  ghost predicate KeysUnique(reg: set<Migration>) {
    forall a, b | a in reg && b in reg && a.from == b.from && a.to == b.to :: a == b
  }

  ghost predicate Forward(reg: set<Migration>) {
    forall m | m in reg :: m.apply.Some? && m.from < m.to
  }

  ghost predicate Registry(ms: seq<Migration>) {
    && KeysUnique(AsSet(ms))
    && Forward(AsSet(ms))
    && forall m | m in ms :: multiset(ms)[m] == 1
  }

  ghost function AsSet(ms: seq<Migration>): set<Migration> {
    set m | m in ms
  }

  predicate KeyLeq(a: Migration, b: Migration) {
    a.from < b.from || (a.from == b.from && a.to <= b.to)
  }

  ghost predicate SortedByKey(ms: seq<Migration>) {
    forall i, j | 0 <= i < j < |ms| :: KeyLeq(ms[i], ms[j])
  }

  lemma {:induction false} PermutationKeepsRegistry(a: seq<Migration>, b: seq<Migration>)
    requires multiset(a) == multiset(b)
    ensures AsSet(a) == AsSet(b)
    ensures |a| == |b|
    ensures Registry(a) ==> Registry(b)
  {
    assert forall m :: m in a <==> m in multiset(a);
    assert forall m :: m in b <==> m in multiset(b);
    assert |multiset(a)| == |multiset(b)|;
  }

  // ------------------------------------------------------------------ chains

  /** The version reached after the first `i` steps of `p`, starting at `c`. */
  function At(c: int, p: seq<Migration>, i: nat): int
    requires i <= |p|
  {
    if i == 0 then c else p[i - 1].to
  }

  function Tos(p: seq<Migration>): (r: seq<int>)
    ensures |r| == |p|
  {
    seq(|p|, i requires 0 <= i < |p| => p[i].to)
  }

  /** `p` is a contiguous chain of registered migrations that leads from `c` to `t`. */
  ghost predicate IsChain(reg: set<Migration>, c: int, t: int, p: seq<Migration>) {
    && (forall i | 0 <= i < |p| :: p[i] in reg)
    && (p != [] ==> p[0].from == c)
    && (forall i, j | 0 <= i < j < |p| && j == i + 1 :: p[i].to == p[j].from)
    && At(c, p, |p|) == t
  }

  /** `p` is the chain the planner must pick: no chain comes before it in ShortLex order. */
  ghost predicate IsPlan(reg: set<Migration>, c: int, t: int, p: seq<Migration>) {
    && IsChain(reg, c, t, p)
    && forall q | IsChain(reg, c, t, q) :: ShortLex(Tos(p), Tos(q))
  }

  ghost predicate Reachable(reg: set<Migration>, c: int, t: int) {
    exists q :: IsChain(reg, c, t, q)
  }

  lemma {:induction false} ChainConcat(reg: set<Migration>, c: int, v: int, t: int, p: seq<Migration>, q: seq<Migration>)
    requires IsChain(reg, c, v, p) && IsChain(reg, v, t, q)
    ensures IsChain(reg, c, t, p + q)
  {
    var r := p + q;
    forall i | 0 <= i < |r|
      ensures r[i] in reg && r[i].from == At(c, r, i)
    {
      if i < |p| {
        assert r[i] == p[i];
      } else {
        assert r[i] == q[i - |p|] && q[i - |p|].from == At(v, q, i - |p|);
      }
    }
  }

  lemma {:induction false} TosConcat(p: seq<Migration>, q: seq<Migration>)
    ensures Tos(p + q) == Tos(p) + Tos(q)
  {
  }

  lemma {:induction false} ChainPrefix(reg: set<Migration>, c: int, t: int, p: seq<Migration>, k: nat)
    requires IsChain(reg, c, t, p) && k <= |p|
    ensures IsChain(reg, c, At(c, p, k), p[..k])
  {
    var q := p[..k];
    forall i | 0 <= i < |q|
      ensures q[i] in reg && q[i].from == At(c, q, i)
    {
      assert q[i] == p[i];
    }
  }

  lemma {:induction false} ChainSuffix(reg: set<Migration>, c: int, t: int, p: seq<Migration>, k: nat)
    requires IsChain(reg, c, t, p) && k <= |p|
    ensures IsChain(reg, At(c, p, k), t, p[k..])
  {
    var v, q := At(c, p, k), p[k..];
    forall i | 0 <= i < |q|
      ensures q[i] in reg && q[i].from == At(v, q, i)
    {
      assert q[i] == p[k + i];
    }
  }

  lemma {:induction false} TosSplit(p: seq<Migration>, k: nat)
    requires k <= |p|
    ensures p == p[..k] + p[k..] && Tos(p) == Tos(p[..k]) + Tos(p[k..])
  {
  }

  /** Along a chain of forward migrations the version strictly increases and stays at most `t`. */
  lemma {:induction false} ChainIncreases(reg: set<Migration>, c: int, t: int, p: seq<Migration>, i: nat, j: nat)
    requires Forward(reg) && IsChain(reg, c, t, p)
    requires i < j <= |p|
    ensures c <= At(c, p, i) < At(c, p, j) <= t
    decreases j - i, i + |p| - j
  {
    assert p[j - 1].from < p[j - 1].to;
    if i < j - 1 {
      ChainIncreases(reg, c, t, p, i, j - 1);
    }
    RisesTo(reg, c, t, p, 0, i);
    RisesTo(reg, c, t, p, j, |p|);
  }

  lemma {:induction false} RisesTo(reg: set<Migration>, c: int, t: int, p: seq<Migration>, i: nat, j: nat)
    requires Forward(reg) && IsChain(reg, c, t, p)
    requires i <= j <= |p|
    ensures At(c, p, i) <= At(c, p, j)
    decreases j - i
  {
    if i < j {
      assert p[j - 1].from < p[j - 1].to;
      RisesTo(reg, c, t, p, i, j - 1);
    }
  }

  /** Two chains over a registry with unique keys that visit the same versions are the same chain. */
  lemma {:induction false} ChainByVersions(reg: set<Migration>, c: int, t: int, p: seq<Migration>, q: seq<Migration>)
    requires KeysUnique(reg)
    requires IsChain(reg, c, t, p) && IsChain(reg, c, t, q)
    requires Tos(p) == Tos(q)
    ensures p == q
  {
    forall i | 0 <= i < |p|
      ensures p[i] == q[i]
    {
      assert Tos(p)[i] == Tos(q)[i];
      assert i > 0 ==> Tos(p)[i - 1] == Tos(q)[i - 1];
    }
  }

  /** The plan depends only on the set of registered migrations. */
  lemma {:induction false} PlanUnique(reg: set<Migration>, c: int, t: int, p: seq<Migration>, q: seq<Migration>)
    requires KeysUnique(reg)
    requires IsPlan(reg, c, t, p) && IsPlan(reg, c, t, q)
    ensures p == q
  {
    ShortLexOrder(Tos(p), Tos(q), Tos(q));
    ChainByVersions(reg, c, t, p, q);
  }

  /** What remains of a plan is the plan for what remains. */
  lemma {:induction false} PlanSuffix(reg: set<Migration>, c: int, t: int, p: seq<Migration>, k: nat)
    requires IsPlan(reg, c, t, p) && k <= |p|
    ensures IsPlan(reg, At(c, p, k), t, p[k..])
  {
    ChainPrefix(reg, c, t, p, k);
    ChainSuffix(reg, c, t, p, k);
    TosSplit(p, k);
    forall q | IsChain(reg, At(c, p, k), t, q)
      ensures ShortLex(Tos(p[k..]), Tos(q))
    {
      ChainConcat(reg, c, At(c, p, k), t, p[..k], q);
      TosConcat(p[..k], q);
      ShortLexPrefix(Tos(p[..k]), Tos(p[k..]), Tos(q));
    }
  }

  /** The plan against any other chain: it has fewer steps, or as many and the smaller version at the
      first step where the versions differ. */
  lemma {:induction false} PlanIsLeast(reg: set<Migration>, c: int, t: int, p: seq<Migration>, q: seq<Migration>) returns (k: nat)
    requires KeysUnique(reg) && IsPlan(reg, c, t, p) && IsChain(reg, c, t, q) && p != q
    ensures |p| <= |q|
    ensures |p| == |q| ==> k < |p| && p[k].to < q[k].to && forall i | 0 <= i < k :: p[i].to == q[i].to
  {
    k := 0;
    assert ShortLex(Tos(p), Tos(q));
    if |p| == |q| {
      if Tos(p) == Tos(q) {
        ChainByVersions(reg, c, t, p, q);
      }
      k :| LessAt(Tos(p), Tos(q), k);
      forall i | 0 <= i < k
        ensures p[i].to == q[i].to
      {
        assert Tos(p)[i] == Tos(q)[i];
      }
    }
  }
}
