/** Scheduled snapshots: creating one, and pruning the automatic ones beyond the number to keep. */
module Scheduler {
  import Sequences

  datatype Snapshot = Snapshot(name: string, created: int)

  datatype Schedule = Schedule(id: string, keep: int, lastRun: int, nextRun: int)

  predicate IsAuto(s: Snapshot) {
    "auto-" <= s.name
  }

  /** Pool snapshots have unique names. */
  ghost predicate UniqueNames(snaps: seq<Snapshot>) {
    forall i, j | 0 <= i < j < |snaps| :: snaps[i].name != snaps[j].name
  }

  function Autos(snaps: seq<Snapshot>): seq<Snapshot> {
    if snaps == [] then []
    else Autos(snaps[..|snaps| - 1]) + if IsAuto(snaps[|snaps| - 1]) then [snaps[|snaps| - 1]] else []
  }

  function Without(snaps: seq<Snapshot>, names: set<string>): seq<Snapshot> {
    if snaps == [] then []
    else Without(snaps[..|snaps| - 1], names)
         + if snaps[|snaps| - 1].name in names then [] else [snaps[|snaps| - 1]]
  }

  ghost predicate SortedByCreated(snaps: seq<Snapshot>) {
    forall i, j | 0 <= i < j < |snaps| :: snaps[i].created <= snaps[j].created
  }

  /** `order` lists the automatic snapshots, oldest first; equal times may come in any order. */
  ghost predicate IsAgeOrder(order: seq<Snapshot>, snaps: seq<Snapshot>) {
    multiset(order) == multiset(Autos(snaps)) && SortedByCreated(order)
  }

  /** The snapshots that pruning tries to delete: the oldest ones beyond `keep`. */
  function Victims(order: seq<Snapshot>, keep: nat): seq<Snapshot> {
    if |order| > keep then order[..|order| - keep] else []
  }

  function Names(snaps: seq<Snapshot>): set<string> {
    set s | s in snaps :: s.name
  }

  /** The names that are deleted; `deletable` says which deletions succeed. */
  function Deleted(order: seq<Snapshot>, keep: nat, deletable: string -> bool): set<string> {
    DeletedOf(Victims(order, keep), deletable)
  }

  function DeletedOf(victims: seq<Snapshot>, deletable: string -> bool): set<string> {
    set s | s in victims && deletable(s.name) :: s.name
  }

  lemma {:induction false} DeletedNext(order: seq<Snapshot>, k: nat, deletable: string -> bool)
    requires k < |order|
    ensures DeletedOf(order[..k + 1], deletable) ==
            if deletable(order[k].name) then DeletedOf(order[..k], deletable) + {order[k].name}
            else DeletedOf(order[..k], deletable)
  {
    assert order[..k + 1] == order[..k] + [order[k]];
  }

  method SortByCreated(snaps: seq<Snapshot>) returns (r: seq<Snapshot>)
    ensures multiset(r) == multiset(snaps) && SortedByCreated(r)
  {
    r := Sequences.Sort(snaps, (a: Snapshot, b: Snapshot) => a.created <= b.created);
  }

  class Pool {
    var snapshots: seq<Snapshot>
    var schedules: seq<Schedule>

    ghost predicate Valid()
      reads this
    {
      UniqueNames(snapshots)
    }

    constructor (snapshots: seq<Snapshot>, schedules: seq<Schedule>)
      requires UniqueNames(snapshots)
      ensures Valid() && this.snapshots == snapshots && this.schedules == schedules
    {
      this.snapshots, this.schedules := snapshots, schedules;
    }

    /** Deletes the snapshots called `name`, when the deletion succeeds. */
    method DeleteSnapshot(name: string, succeeds: bool)
      requires Valid()
      modifies this`snapshots
      ensures Valid()
      ensures snapshots == if succeeds then Without(old(snapshots), {name}) else old(snapshots)
    {
      if succeeds {
        WithoutIsFilter(snapshots, {name});
        snapshots := Without(snapshots, {name});
      }
    }

    /** `listed` says whether the snapshots could be listed; `order` is the age order that sorting
        came up with. */
    method Prune(keep: nat, listed: bool, deletable: string -> bool) returns (ghost order: seq<Snapshot>)
      requires Valid()
      modifies this`snapshots
      ensures Valid()
      ensures !listed ==> snapshots == old(snapshots)
      ensures listed ==> IsAgeOrder(order, old(snapshots))
                         && snapshots == Without(old(snapshots), Deleted(order, keep, deletable))
    {
      if !listed {
        return [];
      }
      var snaps := snapshots;
      var auto: seq<Snapshot> := [];
      for i := 0 to |snaps|
        invariant auto == Autos(snaps[..i])
      {
        assert snaps[..i + 1][..i] == snaps[..i];
        if IsAuto(snaps[i]) {
          auto := auto + [snaps[i]];
        }
      }
      assert snaps[..|snaps|] == snaps;
      auto := SortByCreated(auto);
      order := auto;
      DeleteOldest(auto, keep, deletable);
    }

    /** The deletion loop. */
    method DeleteOldest(order: seq<Snapshot>, keep: nat, deletable: string -> bool)
      requires Valid()
      modifies this`snapshots
      ensures Valid()
      ensures snapshots == Without(old(snapshots), Deleted(order, keep, deletable))
    {
      var auto := order;
      ghost var k, gone := 0, {};
      WithoutNothing(snapshots);
      while |auto| > keep
        invariant 0 <= k <= |order| && auto == order[k..]
        invariant k > 0 ==> |order| - k >= keep
        invariant gone == DeletedOf(order[..k], deletable)
        invariant Valid() && snapshots == Without(old(snapshots), gone)
        decreases |auto|
      {
        var name := auto[0].name;
        DeleteSnapshot(name, deletable(name));
        WithoutTwice(old(snapshots), gone, {name});
        DeletedNext(order, k, deletable);
        if deletable(name) {
          gone := gone + {name};
        }
        k := k + 1;
        auto := auto[1..];
      }
      assert order[..k] == Victims(order, keep);
    }

    /** The snapshot branch of a run: create, prune, then note the run on the schedule. */
    method RunSnapshot(schedule: Schedule, stamp: string, created: int, creates: bool,
                       listed: bool, deletable: string -> bool, now: int, next: int)
      returns (ghost order: seq<Snapshot>)
      requires Valid()
      requires creates ==> "auto-" + stamp !in Names(snapshots)
      modifies this
      ensures Valid()
      ensures !creates ==> snapshots == old(snapshots) && schedules == old(schedules)
      ensures creates ==>
                var before := old(snapshots) + [Snapshot("auto-" + stamp, created)];
                if schedule.keep > 0 && listed then
                  IsAgeOrder(order, before) && snapshots == Without(before, Deleted(order, schedule.keep, deletable))
                else snapshots == before
      ensures |schedules| == |old(schedules)|
      ensures forall i | 0 <= i < |schedules| ::
                schedules[i] == if creates && old(schedules)[i].id == schedule.id
                                   && (forall j | 0 <= j < i :: old(schedules)[j].id != schedule.id)
                                then old(schedules)[i].(lastRun := now, nextRun := next) else old(schedules)[i]
    {
      order := [];
      if !creates {
        return;
      }
      snapshots := snapshots + [Snapshot("auto-" + stamp, created)];
      if schedule.keep > 0 {
        order := Prune(schedule.keep, listed, deletable);
      }
      for i := 0 to |schedules|
        invariant schedules == old(schedules)
        invariant forall j | 0 <= j < i :: schedules[j].id != schedule.id
      {
        if schedules[i].id == schedule.id {
          schedules := schedules[i := schedules[i].(lastRun := now, nextRun := next)];
          break;
        }
      }
    }
  }

  // ----------------------------------------------------- what pruning leaves

  lemma {:induction false} LastIsNew(snaps: seq<Snapshot>, s: Snapshot)
    requires snaps != [] && UniqueNames(snaps) && s in snaps[..|snaps| - 1]
    ensures s.name != snaps[|snaps| - 1].name
  {
    var i :| 0 <= i < |snaps| - 1 && snaps[..|snaps| - 1][i] == s;
    assert snaps[i] == s;
  }

  lemma {:induction false} SnocUnique(snaps: seq<Snapshot>, s: Snapshot)
    requires UniqueNames(snaps) && forall t | t in snaps :: t.name != s.name
    ensures UniqueNames(snaps + [s])
  {
  }

  lemma {:induction false} WithoutIsFilter(snaps: seq<Snapshot>, names: set<string>)
    ensures forall s :: s in Without(snaps, names) <==> s in snaps && s.name !in names
    ensures UniqueNames(snaps) ==> UniqueNames(Without(snaps, names))
  {
    if snaps != [] {
      var init, last := snaps[..|snaps| - 1], snaps[|snaps| - 1];
      WithoutIsFilter(init, names);
      assert snaps == init + [last];
      if UniqueNames(snaps) {
        forall s | s in init ensures s.name != last.name { LastIsNew(snaps, s); }
        SnocUnique(Without(init, names), last);
      }
    }
  }

  lemma {:induction false} WithoutNothing(snaps: seq<Snapshot>)
    ensures Without(snaps, {}) == snaps
  {
    if snaps != [] {
      WithoutNothing(snaps[..|snaps| - 1]);
      assert snaps == snaps[..|snaps| - 1] + [snaps[|snaps| - 1]];
    }
  }

  lemma {:induction false} WithoutSnoc(snaps: seq<Snapshot>, s: Snapshot, names: set<string>)
    ensures Without(snaps + [s], names) == Without(snaps, names) + if s.name in names then [] else [s]
  {
    assert (snaps + [s])[..|snaps|] == snaps;
  }

  lemma {:induction false} WithoutTwice(snaps: seq<Snapshot>, a: set<string>, b: set<string>)
    ensures Without(Without(snaps, a), b) == Without(snaps, a + b)
  {
    if snaps != [] {
      var init, last := snaps[..|snaps| - 1], snaps[|snaps| - 1];
      WithoutTwice(init, a, b);
      WithoutSnoc(Without(init, a), last, b);
      assert last.name in a ==> Without(snaps, a) == Without(init, a);
    }
  }

  lemma {:induction false} AutosIsFilter(snaps: seq<Snapshot>)
    ensures forall s :: s in Autos(snaps) <==> s in snaps && IsAuto(s)
    ensures UniqueNames(snaps) ==> UniqueNames(Autos(snaps))
  {
    if snaps != [] {
      var init, last := snaps[..|snaps| - 1], snaps[|snaps| - 1];
      AutosIsFilter(init);
      assert snaps == init + [last];
      if UniqueNames(snaps) {
        forall s | s in init ensures s.name != last.name { LastIsNew(snaps, s); }
        SnocUnique(Autos(init), last);
      }
    }
  }

  /** A list has unique names exactly when it has as many names as elements. */
  lemma {:induction false} CountNames(snaps: seq<Snapshot>)
    ensures |Names(snaps)| <= |snaps|
    ensures |Names(snaps)| == |snaps| <==> UniqueNames(snaps)
  {
    if snaps == [] {
      assert Names(snaps) == {};
    } else {
      var init, last := snaps[..|snaps| - 1], snaps[|snaps| - 1];
      CountNames(init);
      assert snaps == init + [last];
      assert Names(snaps) == Names(init) + {last.name};
      if last.name in Names(init) {
        assert Names(snaps) == Names(init);
        var s :| s in init && s.name == last.name;
        if UniqueNames(snaps) {
          LastIsNew(snaps, s);
        }
      } else if UniqueNames(init) {
        SnocUnique(init, last);
      } else {
        var i, j :| 0 <= i < j < |init| && init[i].name == init[j].name;
        assert snaps[i].name == snaps[j].name;
      }
    }
  }

  /** An age order has the same unique names as the automatic snapshots. */
  lemma {:induction false} OrderNames(order: seq<Snapshot>, snaps: seq<Snapshot>)
    requires UniqueNames(snaps) && IsAgeOrder(order, snaps)
    ensures |order| == |Autos(snaps)| && UniqueNames(order)
    ensures forall s :: s in order <==> s in Autos(snaps)
  {
    AutosIsFilter(snaps);
    assert |order| == |multiset(order)|;
    assert |Autos(snaps)| == |multiset(Autos(snaps))|;
    assert forall s :: s in order <==> s in multiset(order);
    assert forall s :: s in Autos(snaps) <==> s in multiset(Autos(snaps));
    assert Names(order) == Names(Autos(snaps));
    CountNames(order);
    CountNames(Autos(snaps));
  }

  /** Whatever the deletions do, only automatic snapshots beyond the kept ones disappear. */
  lemma {:induction false} PruneSpares(snaps: seq<Snapshot>, order: seq<Snapshot>, keep: nat, deletable: string -> bool)
    requires UniqueNames(snaps) && IsAgeOrder(order, snaps)
    ensures var rest := Without(snaps, Deleted(order, keep, deletable));
            && (forall s | s in snaps && !IsAuto(s) :: s in rest)
            && (forall s | s in rest :: s in snaps)
            && (forall s, a | s in snaps && s !in rest && a in rest && IsAuto(a) && deletable(a.name) ::
                  s.created <= a.created)
  {
    var gone := Deleted(order, keep, deletable);
    WithoutIsFilter(snaps, gone);
    OrderNames(order, snaps);
    AutosIsFilter(snaps);
    forall s | s in snaps && s.name in gone
      ensures IsAuto(s) && s in Victims(order, keep)
    {
      var v :| v in Victims(order, keep) && v.name == s.name;
      assert v in order;
      SameName(snaps, s, v);
    }
    forall s, a | s in snaps && s.name in gone && a in snaps && a.name !in gone && IsAuto(a) && deletable(a.name)
      ensures s.created <= a.created
    {
      assert s in Victims(order, keep) && a in order && a !in Victims(order, keep);
      VictimsAreOlder(order, keep, s, a);
    }
  }

  lemma {:induction false} SameName(snaps: seq<Snapshot>, s: Snapshot, t: Snapshot)
    requires UniqueNames(snaps) && s in snaps && t in snaps && s.name == t.name
    ensures s == t
  {
    var i :| 0 <= i < |snaps| && snaps[i] == s;
    var j :| 0 <= j < |snaps| && snaps[j] == t;
  }

  lemma {:induction false} VictimsAreOlder(order: seq<Snapshot>, keep: nat, s: Snapshot, a: Snapshot)
    requires SortedByCreated(order)
    requires s in Victims(order, keep) && a in order && a !in Victims(order, keep)
    ensures s.created <= a.created
  {
    var victims := Victims(order, keep);
    var i :| 0 <= i < |victims| && victims[i] == s;
    var j :| 0 <= j < |order| && order[j] == a;
    assert victims == order[..|victims|];
    assert forall k | 0 <= k < |victims| :: order[k] in victims;
  }

  lemma {:induction false} VictimNames(order: seq<Snapshot>, keep: nat)
    requires UniqueNames(order)
    ensures |Names(Victims(order, keep))| == |Victims(order, keep)|
    ensures Names(Victims(order, keep)) <= Names(order)
  {
    CountNames(Victims(order, keep));
    assert forall v | v in Victims(order, keep) :: v in order;
  }

  lemma {:induction false} NamesLeft(snaps: seq<Snapshot>, order: seq<Snapshot>, gone: set<string>)
    requires UniqueNames(snaps) && IsAgeOrder(order, snaps)
    ensures Names(Autos(Without(snaps, gone))) == Names(order) - gone
    ensures UniqueNames(Autos(Without(snaps, gone)))
  {
    OrderNames(order, snaps);
    WithoutIsFilter(snaps, gone);
    AutosIsFilter(snaps);
    AutosIsFilter(Without(snaps, gone));
    forall n | n in Names(order) - gone
      ensures n in Names(Autos(Without(snaps, gone)))
    {
      var s :| s in order && s.name == n;
      assert s in Autos(Without(snaps, gone));
    }
  }

  /** When every deletion succeeds, exactly min(keep, n) of the n automatic snapshots are left. */
  lemma {:induction false} PruneKeeps(snaps: seq<Snapshot>, order: seq<Snapshot>, keep: nat, deletable: string -> bool)
    requires UniqueNames(snaps) && IsAgeOrder(order, snaps)
    requires forall name: string :: deletable(name)
    ensures var rest := Without(snaps, Deleted(order, keep, deletable));
            |Autos(rest)| == if |Autos(snaps)| < keep then |Autos(snaps)| else keep
  {
    var gone := Deleted(order, keep, deletable);
    OrderNames(order, snaps);
    CountNames(order);
    VictimNames(order, keep);
    NamesLeft(snaps, order, gone);
    CountNames(Autos(Without(snaps, gone)));
    assert gone == Names(Victims(order, keep));
  }

  // ----------------------------------------------------- which snapshots count

  /** A snapshot whose name does not begin with "auto-" survives pruning. */
  lemma {:induction false} ManualSurvives(snaps: seq<Snapshot>, order: seq<Snapshot>, keep: nat, deletable: string -> bool, s: Snapshot)
    requires UniqueNames(snaps) && IsAgeOrder(order, snaps)
    requires s in snaps && (|s.name| < 5 || s.name[..5] != "auto-")
    ensures s in Without(snaps, Deleted(order, keep, deletable))
  {
    assert !IsAuto(s);
    PruneSpares(snaps, order, keep, deletable);
  }

  /** A snapshot that a run makes is one that pruning counts, the newest of them when its time is, and so
      kept whenever any is. */
  lemma {:induction false} MadeCounts(snaps: seq<Snapshot>, order: seq<Snapshot>, stamp: string, created: int, keep: nat,
                   deletable: string -> bool)
    requires forall s | s in snaps :: s.created < created
    requires "auto-" + stamp !in Names(snaps) && UniqueNames(snaps) && keep > 0
    requires IsAgeOrder(order, snaps + [Snapshot("auto-" + stamp, created)])
    ensures var made := Snapshot("auto-" + stamp, created);
            var all := snaps + [made];
            && |Autos(all)| == |Autos(snaps)| + 1 && made in Autos(all)
            && made in Without(all, Deleted(order, keep, deletable))
  {
    var made := Snapshot("auto-" + stamp, created);
    var all := snaps + [made];
    assert all[..|snaps|] == snaps && all[|snaps|] == made;
    assert IsAuto(made);
    SnocUnique(snaps, made);
    OrderNames(order, all);
    AutosIsFilter(all);
    LastSurvives(order, keep, made);
    WithoutIsFilter(all, Deleted(order, keep, deletable));
    forall v | v in Victims(order, keep)
      ensures v.name != made.name
    {
      assert v in order && v in all && v != made;
      if v.name == made.name {
        SameName(all, v, made);
      }
    }
  }

  lemma {:induction false} LastSurvives(order: seq<Snapshot>, keep: nat, made: Snapshot)
    requires keep > 0 && SortedByCreated(order) && UniqueNames(order) && made in order
    requires forall s | s in order && s != made :: s.created < made.created
    ensures made !in Victims(order, keep)
  {
    forall j | 0 <= j < |Victims(order, keep)|
      ensures Victims(order, keep)[j] != made
    {
      var last := order[|order| - 1];
      assert last in order;
      assert order[j].name != last.name && order[j].created <= last.created;
    }
  }

  /** Of the automatic snapshots, oldest first, exactly those go that are not among the last `keep` and
      can be deleted: a failed deletion is not made up for. */
  lemma {:induction false} PruneExactly(snaps: seq<Snapshot>, order: seq<Snapshot>, keep: nat, deletable: string -> bool, i: nat)
    requires UniqueNames(snaps) && IsAgeOrder(order, snaps) && i < |order|
    ensures order[i] in Without(snaps, Deleted(order, keep, deletable)) <==>
              i + keep >= |order| || !deletable(order[i].name)
  {
    var victims := Victims(order, keep);
    OrderNames(order, snaps);
    AutosIsFilter(snaps);
    WithoutIsFilter(snaps, Deleted(order, keep, deletable));
    assert order[i] in order;
    if i + keep < |order| {
      assert victims[i] == order[i];
    } else {
      forall j | 0 <= j < |victims|
        ensures victims[j].name != order[i].name
      {
        assert victims[j] == order[j];
      }
    }
  }
}
