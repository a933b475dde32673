/** Registration, the version file, and MigrateForward. */
module MigrationRunner {
  import opened Wrappers
  import opened Decimal
  import opened SchemaMigration
  import MigrationSearch
  import Sequences

  // ------------------------------------------------------- the version file

  datatype VersionFile = Absent | Unreadable | Contents(text: string)

  datatype Detected = Missing | Failed | Version(v: SchemaVersion)

  function DetectSchemaVersion(file: VersionFile): Detected {
    match file
    case Absent => Missing
    case Unreadable => Failed
    case Contents(text) =>
      match Atoi(text)
      case None => Failed
      case Some(v) => Version(v)
  }

  /** The version a run starts from: an absent file counts as version 0. */
  function Start(file: VersionFile): Option<SchemaVersion> {
    match DetectSchemaVersion(file)
    case Missing => Some(0)
    case Failed => None
    case Version(v) => Some(v)
  }

  // ------------------------------------------------------------ runs, attempts

  /** What becomes of one step. Killed: the process dies before the step begins. WriteFails: the step
      was applied, but the new version did not reach the file. */
  datatype Fate = Done | Killed | ApplyFails | WriteFails

  datatype Attempt = Attempt(step: Migration, fate: Fate)

  datatype Outcome =
    | Migrated
    | BadVersionFile
    | Backward
    | NoPath
    | StepFailed(step: Migration)
    | WriteFailed(step: Migration)
    | Interrupted

  /** `attempts` is one pass over `chain`: in order, ending at the first step that is not Done. */
  ghost predicate IsPass(chain: seq<Migration>, attempts: seq<Attempt>) {
    && |attempts| <= |chain|
    && (forall i | 0 <= i < |attempts| :: attempts[i].step == chain[i])
    && (forall i | 0 <= i < |attempts| - 1 :: attempts[i].fate.Done?)
    && (|attempts| < |chain| ==> attempts != [] && !attempts[|attempts| - 1].fate.Done?)
  }

  ghost predicate FatesOf(attempts: seq<Attempt>, fate: nat -> Fate) {
    forall i: nat | i < |attempts| :: attempts[i].fate == fate(i)
  }

  ghost function PassOutcome(attempts: seq<Attempt>): Outcome {
    if attempts == [] then Migrated
    else
      var a := attempts[|attempts| - 1];
      match a.fate
      case Done => Migrated
      case Killed => Interrupted
      case ApplyFails => StepFailed(a.step)
      case WriteFails => WriteFailed(a.step)
  }

  /** One run of MigrateForward from version `c`: what it attempts and how it ends. */
  ghost predicate IsRun(reg: set<Migration>, c: int, t: int, attempts: seq<Attempt>, outcome: Outcome) {
    if t < c then attempts == [] && outcome == Backward
    else if t == c then attempts == [] && outcome == Migrated
    else if !Reachable(reg, c, t) then attempts == [] && outcome == NoPath
    else
      && outcome == PassOutcome(attempts)
      && exists plan :: plan != [] && IsPlan(reg, c, t, plan) && IsPass(plan, attempts)
  }

  /** The steps whose new version reached the file. */
  ghost function Committed(trace: seq<Attempt>): seq<Migration> {
    if trace == [] then []
    else (if trace[0].fate.Done? then [trace[0].step] else []) + Committed(trace[1..])
  }

  /** The stored version after `trace`, starting from `c`. */
  ghost function VersionAfter(c: int, trace: seq<Attempt>): int {
    At(c, Committed(trace), |Committed(trace)|)
  }

  /** The file holds the decimal text of the version that the last committed step leads to; without one
      it is as it was. */
  ghost predicate Records(file: VersionFile, before: VersionFile, attempts: seq<Attempt>) {
    var done := Committed(attempts);
    if done == [] then file == before else file == Contents(Itoa(done[|done| - 1].to))
  }

  // ------------------------------------------------------------- the registry

  datatype RegisterError = NilApply | NotForward | Duplicate

  method SortByKey(ms: seq<Migration>) returns (r: seq<Migration>)
    ensures multiset(r) == multiset(ms)
    ensures SortedByKey(r)
    ensures forall i, j | 0 <= i < j < |r| :: r[i].from < r[j].from || (r[i].from == r[j].from && r[i].to <= r[j].to)
  {
    r := Sequences.Sort(ms, KeyLeq);
  }

  class Migrator {
    var migrations: seq<Migration>
    var versionFile: VersionFile
    // Every step any run has attempted, oldest first.
    ghost var journal: seq<Attempt>

    ghost predicate Valid()
      reads this
    {
      Registry(migrations)
    }

    constructor (versionFile: VersionFile)
      ensures Valid() && migrations == [] && this.versionFile == versionFile && journal == []
    {
      migrations, this.versionFile, journal := [], versionFile, [];
    }

    method RegisterMigration(m: Migration) returns (r: Result<(), RegisterError>)
      requires Valid()
      modifies this`migrations
      ensures Valid()
      ensures r == if m.apply.None? then Err(NilApply)
                   else if m.from >= m.to then Err(NotForward)
                   else if exists e | e in old(migrations) :: e.from == m.from && e.to == m.to then Err(Duplicate)
                   else Ok(())
      ensures migrations == if r.Ok? then old(migrations) + [m] else old(migrations)
    {
      if m.apply.None? {
        return Err(NilApply);
      }
      if m.from >= m.to {
        return Err(NotForward);
      }
      for i := 0 to |migrations|
        invariant forall e | e in migrations[..i] :: e.from != m.from || e.to != m.to
      {
        if migrations[i].from == m.from && migrations[i].to == m.to {
          return Err(Duplicate);
        }
      }
      assert forall e | e in migrations :: e in migrations[..|migrations|];
      migrations := migrations + [m];
      return Ok(());
    }

    method WriteSchemaVersion(v: SchemaVersion)
      modifies this`versionFile
      ensures versionFile == Contents(Itoa(v)) && DetectSchemaVersion(versionFile) == Version(v)
    {
      AtoiItoa(v);
      versionFile := Contents(Itoa(v));
    }

    /** `fate(i)` says what becomes of the i-th step of this run; `attempts` is what the run adds to
        the journal. */
    method MigrateForward(target: SchemaVersion, fate: nat -> Fate)
      returns (outcome: Outcome, ghost attempts: seq<Attempt>)
      requires Valid()
      modifies this
      ensures Valid()
      ensures multiset(migrations) == multiset(old(migrations))
      ensures journal == old(journal) + attempts
      ensures FatesOf(attempts, fate)
      ensures var file := old(versionFile);
              match if file.Absent? then Some(0) else if file.Unreadable? then None else Atoi(file.text)
              case None => outcome == BadVersionFile && attempts == []
              case Some(v) =>
                && (target < v ==> outcome == Backward && attempts == [])
                && (target == v ==> outcome == Migrated && attempts == [])
                && IsRun(AsSet(migrations), v, target, attempts, outcome)
                && Start(versionFile) == Some(VersionAfter(v, attempts))
      ensures attempts != [] ==>
                var last := attempts[|attempts| - 1];
                match last.fate
                case Done => outcome == Migrated
                case Killed => outcome == Interrupted
                case ApplyFails => outcome == StepFailed(last.step)
                case WriteFails => outcome == WriteFailed(last.step)
      ensures Records(versionFile, old(versionFile), attempts)
    {
      attempts := [];
      var detected := DetectSchemaVersion(versionFile);
      if detected == Failed {
        return BadVersionFile, attempts;
      }
      var current := if detected == Missing then 0 else detected.v;
      if target < current {
        return Backward, attempts;
      }
      if target == current {
        return Migrated, attempts;
      }
      var sorted := SortByKey(migrations);
      PermutationKeepsRegistry(migrations, sorted);
      migrations := sorted;
      var found, dequeues := MigrationSearch.FindPath(migrations, current, target);
      if found == [] {
        return NoPath, attempts;
      }
      outcome, attempts := RunSteps(current, found, fate);
    }

    /** One more run after `runs`, which led from `start` to the stored version. */
    method Restart(target: SchemaVersion, fate: nat -> Fate, ghost start: Option<SchemaVersion>, ghost runs: seq<seq<Attempt>>)
      returns (ghost attempts: seq<Attempt>)
      requires Valid() && Leads(AsSet(migrations), start, target, runs, Start(versionFile))
      modifies this
      ensures Valid() && AsSet(migrations) == AsSet(old(migrations))
      ensures journal == old(journal) + attempts
      ensures Leads(AsSet(migrations), start, target, runs + [attempts], Start(versionFile))
    {
      ghost var before, from := migrations, Start(versionFile);
      var outcome;
      outcome, attempts := MigrateForward(target, fate);
      PermutationKeepsRegistry(before, migrations);
      LeadsSnoc(AsSet(migrations), start, target, runs, from, attempts, outcome, Start(versionFile));
    }

    /** The program is started over and over, and runs to the same target each time; `fates[i]` are the
        fates of the i-th run. */
    method Restarts(target: SchemaVersion, fates: seq<nat -> Fate>) returns (ghost runs: seq<seq<Attempt>>)
      requires Valid()
      modifies this
      ensures Valid()
      ensures AsSet(migrations) == AsSet(old(migrations)) && |runs| == |fates|
      ensures journal == old(journal) + Flatten(runs)
      ensures Leads(AsSet(migrations), Start(old(versionFile)), target, runs, Start(versionFile))
    {
      runs := [];
      for i := 0 to |fates|
        invariant Valid() && AsSet(migrations) == AsSet(old(migrations)) && |runs| == i
        invariant journal == old(journal) + Flatten(runs)
        invariant Leads(AsSet(migrations), Start(old(versionFile)), target, runs, Start(versionFile))
      {
        ghost var attempts := Restart(target, fates[i], Start(old(versionFile)), runs);
        JournalGrows(old(journal), runs, attempts);
        runs := runs + [attempts];
      }
    }

    /** The step loop: apply, then rewrite the stored version. */
    method RunSteps(ghost c: SchemaVersion, chain: seq<Migration>, fate: nat -> Fate)
      returns (outcome: Outcome, ghost attempts: seq<Attempt>)
      requires Start(versionFile) == Some(c)
      modifies this`versionFile, this`journal
      ensures journal == old(journal) + attempts
      ensures Ended(c, chain, attempts, fate, old(versionFile), versionFile, outcome)
    {
      attempts := [];
      for i := 0 to |chain|
        invariant journal == old(journal) + attempts && |attempts| == i
        invariant Underway(c, chain, attempts, fate, old(versionFile), versionFile)
      {
        ghost var before, attempt := attempts, Attempt(chain[i], fate(i));
        Sequences.ConcatAssociates(old(journal), attempts, [attempt]);
        attempts := attempts + [attempt];
        journal := journal + [attempt];
        if fate(i).Done? {
          StepDone(c, chain, before, fate, old(versionFile), versionFile);
          WriteSchemaVersion(chain[i].to);
        } else {
          StepNotDone(c, chain, before, fate, old(versionFile), versionFile);
          match fate(i) {
            case Killed => return Interrupted, attempts;
            case ApplyFails => return StepFailed(chain[i]), attempts;
            case WriteFails => return WriteFailed(chain[i]), attempts;
          }
        }
      }
      AllDone(c, chain, attempts, fate, old(versionFile), versionFile);
      return Migrated, attempts;
    }
  }

  /** Between two steps of a pass over `chain`: every step so far is Done, and the file, which was
      `before`, holds the version the last one leads to. */
  ghost predicate Underway(c: int, chain: seq<Migration>, attempts: seq<Attempt>, fate: nat -> Fate,
                           before: VersionFile, file: VersionFile) {
    && |attempts| <= |chain|
    && (forall k | 0 <= k < |attempts| :: attempts[k] == Attempt(chain[k], Done))
    && FatesOf(attempts, fate)
    && Start(before) == Some(c)
    && file == if attempts == [] then before else Contents(Itoa(chain[|attempts| - 1].to))
  }

  /** What a pass over `chain` leaves. */
  ghost predicate Ended(c: int, chain: seq<Migration>, attempts: seq<Attempt>, fate: nat -> Fate,
                        before: VersionFile, file: VersionFile, outcome: Outcome) {
    && IsPass(chain, attempts) && FatesOf(attempts, fate)
    && outcome == PassOutcome(attempts)
    && Start(file) == Some(VersionAfter(c, attempts))
    && Records(file, before, attempts)
  }

  lemma {:induction false} StepDone(c: int, chain: seq<Migration>, attempts: seq<Attempt>, fate: nat -> Fate,
                 before: VersionFile, file: VersionFile)
    requires Underway(c, chain, attempts, fate, before, file) && |attempts| < |chain| && fate(|attempts|).Done?
    ensures var i := |attempts|;
            Underway(c, chain, attempts + [Attempt(chain[i], fate(i))], fate, before, Contents(Itoa(chain[i].to)))
  {
  }

  /** The file between two steps says what the steps so far record. */
  lemma {:induction false} UnderwayRecords(c: int, chain: seq<Migration>, attempts: seq<Attempt>, fate: nat -> Fate,
                        before: VersionFile, file: VersionFile)
    requires Underway(c, chain, attempts, fate, before, file)
    ensures Committed(attempts) == chain[..|attempts|]
    ensures Records(file, before, attempts) && Start(file) == Some(VersionAfter(c, attempts))
  {
    AllDoneCommits(chain, attempts);
    if attempts != [] {
      AtoiItoa(chain[|attempts| - 1].to);
    }
  }

  /** A step that is not Done ends the pass and leaves the file alone. */
  lemma {:induction false} StepNotDone(c: int, chain: seq<Migration>, attempts: seq<Attempt>, fate: nat -> Fate,
                    before: VersionFile, file: VersionFile)
    requires Underway(c, chain, attempts, fate, before, file) && |attempts| < |chain| && !fate(|attempts|).Done?
    ensures var all := attempts + [Attempt(chain[|attempts|], fate(|attempts|))];
            Ended(c, chain, all, fate, before, file, PassOutcome(all))
  {
    var x := Attempt(chain[|attempts|], fate(|attempts|));
    UnderwayRecords(c, chain, attempts, fate, before, file);
    CommittedSnoc(attempts, x);
    assert Committed(attempts + [x]) == Committed(attempts);
    PassStops(chain, attempts, x);
  }

  lemma {:induction false} PassStops(chain: seq<Migration>, attempts: seq<Attempt>, x: Attempt)
    requires |attempts| < |chain| && x.step == chain[|attempts|] && !x.fate.Done?
    requires forall k | 0 <= k < |attempts| :: attempts[k] == Attempt(chain[k], Done)
    ensures IsPass(chain, attempts + [x])
  {
  }

  lemma {:induction false} AllDone(c: int, chain: seq<Migration>, attempts: seq<Attempt>, fate: nat -> Fate,
                before: VersionFile, file: VersionFile)
    requires Underway(c, chain, attempts, fate, before, file) && |attempts| == |chain|
    ensures Ended(c, chain, attempts, fate, before, file, Migrated)
  {
    UnderwayRecords(c, chain, attempts, fate, before, file);
  }

  lemma {:induction false} CommittedConcat(a: seq<Attempt>, b: seq<Attempt>)
    ensures Committed(a + b) == Committed(a) + Committed(b)
  {
    if a == [] {
      assert a + b == b;
    } else {
      var first := if a[0].fate.Done? then [a[0].step] else [];
      assert (a + b)[0] == a[0] && (a + b)[1..] == a[1..] + b;
      CommittedConcat(a[1..], b);
      assert first + (Committed(a[1..]) + Committed(b)) == first + Committed(a[1..]) + Committed(b);
    }
  }

  lemma {:induction false} CommittedSnoc(a: seq<Attempt>, x: Attempt)
    ensures Committed(a + [x]) == Committed(a) + if x.fate.Done? then [x.step] else []
  {
    CommittedConcat(a, [x]);
    CommittedOne(x);
  }

  // ---------------------------------------------------------- crash and retry

  /** A series of runs to one target, each starting at the version the one before left. */
  ghost predicate Series(reg: set<Migration>, c: int, t: int, runs: seq<seq<Attempt>>)
    decreases |runs|
  {
    runs == [] ||
    ((exists outcome :: IsRun(reg, c, t, runs[0], outcome)) && Series(reg, VersionAfter(c, runs[0]), t, runs[1..]))
  }

  ghost function Flatten(runs: seq<seq<Attempt>>): seq<Attempt> {
    if runs == [] then [] else runs[0] + Flatten(runs[1..])
  }

  lemma {:induction false} FlattenSnoc(runs: seq<seq<Attempt>>, last: seq<Attempt>)
    ensures Flatten(runs + [last]) == Flatten(runs) + last
  {
    if runs == [] {
      assert [last][1..] == [];
    } else {
      assert (runs + [last])[1..] == runs[1..] + [last];
      FlattenSnoc(runs[1..], last);
    }
  }

  lemma {:induction false} JournalGrows(journal: seq<Attempt>, runs: seq<seq<Attempt>>, last: seq<Attempt>)
    ensures journal + Flatten(runs) + last == journal + Flatten(runs + [last])
  {
    FlattenSnoc(runs, last);
    Sequences.ConcatAssociates(journal, Flatten(runs), last);
  }

  /** A further run, from where the series stands, makes the series longer. */
  lemma {:induction false} SeriesSnoc(reg: set<Migration>, c: int, t: int, runs: seq<seq<Attempt>>, last: seq<Attempt>, outcome: Outcome)
    requires Series(reg, c, t, runs) && IsRun(reg, VersionAfter(c, Flatten(runs)), t, last, outcome)
    ensures Series(reg, c, t, runs + [last])
    ensures VersionAfter(c, Flatten(runs + [last])) == VersionAfter(VersionAfter(c, Flatten(runs)), last)
    decreases |runs|
  {
    FlattenSnoc(runs, last);
    VersionAfterConcat(c, Flatten(runs), last);
    if runs == [] {
      assert [last][1..] == [];
    } else {
      VersionAfterConcat(c, runs[0], Flatten(runs[1..]));
      SeriesSnoc(reg, VersionAfter(c, runs[0]), t, runs[1..], last, outcome);
      assert (runs + [last])[1..] == runs[1..] + [last];
    }
  }

  /** The runs lead from one stored version to the other; from an unreadable version file they lead
      nowhere. */
  ghost predicate Leads(reg: set<Migration>, c: Option<SchemaVersion>, t: int, runs: seq<seq<Attempt>>, d: Option<SchemaVersion>) {
    if c.None? then d == None && Flatten(runs) == []
    else Series(reg, c.value, t, runs) && d.Some? && d.value == VersionAfter(c.value, Flatten(runs))
  }

  lemma {:induction false} LeadsSnoc(reg: set<Migration>, c: Option<SchemaVersion>, t: int, runs: seq<seq<Attempt>>,
                  from: Option<SchemaVersion>, last: seq<Attempt>, outcome: Outcome, to: Option<SchemaVersion>)
    requires Leads(reg, c, t, runs, from)
    requires from.None? ==> last == [] && to == None
    requires from.Some? ==> IsRun(reg, from.value, t, last, outcome)
                            && to.Some? && to.value == VersionAfter(from.value, last)
    ensures Leads(reg, c, t, runs + [last], to)
  {
    FlattenSnoc(runs, last);
    if c.Some? {
      SeriesSnoc(reg, c.value, t, runs, last, outcome);
    }
  }

  /** Each attempt is at the first step of `chain` that has not been committed. */
  ghost predicate Resumes(chain: seq<Migration>, trace: seq<Attempt>) {
    forall i | 0 <= i < |trace| ::
      |Committed(trace[..i])| < |chain| && trace[i].step == chain[|Committed(trace[..i])|]
  }

  lemma {:induction false} PassResumes(chain: seq<Migration>, attempts: seq<Attempt>)
    requires IsPass(chain, attempts)
    ensures Resumes(chain, attempts)
  {
    forall i | 0 <= i < |attempts|
      ensures Committed(attempts[..i]) == chain[..i]
    {
      AllDoneCommits(chain, attempts[..i]);
    }
  }

  lemma {:induction false} PassCommits(chain: seq<Migration>, attempts: seq<Attempt>)
    requires IsPass(chain, attempts)
    ensures Committed(attempts) <= chain
    ensures PassOutcome(attempts) == Migrated <==> Committed(attempts) == chain
  {
    if attempts != [] {
      var n, last := |attempts| - 1, attempts[|attempts| - 1];
      AllDoneCommits(chain, attempts[..n]);
      CommittedSnoc(attempts[..n], last);
      assert attempts == attempts[..n] + [last];
      assert chain[..n + 1] == chain[..n] + [chain[n]];
    }
  }

  lemma {:induction false} AllDoneCommits(chain: seq<Migration>, attempts: seq<Attempt>)
    requires |attempts| <= |chain|
    requires forall i | 0 <= i < |attempts| :: attempts[i] == Attempt(chain[i], Done)
    ensures Committed(attempts) == chain[..|attempts|]
  {
    var n := |attempts|;
    if n > 0 {
      AllDoneCommits(chain, attempts[..n - 1]);
      assert attempts == attempts[..n - 1] + [attempts[n - 1]];
      CommittedSnoc(attempts[..n - 1], attempts[n - 1]);
    }
  }

  lemma {:induction false} VersionAfterConcat(c: int, a: seq<Attempt>, b: seq<Attempt>)
    ensures VersionAfter(c, a + b) == VersionAfter(VersionAfter(c, a), b)
  {
    CommittedConcat(a, b);
  }

  lemma {:induction false} ResumesConcat(chain: seq<Migration>, a: seq<Attempt>, b: seq<Attempt>)
    requires Resumes(chain, a)
    requires |Committed(a)| <= |chain| && Resumes(chain[|Committed(a)|..], b)
    ensures Resumes(chain, a + b)
  {
    var k := |Committed(a)|;
    forall i | 0 <= i < |a + b|
      ensures |Committed((a + b)[..i])| < |chain| && (a + b)[i].step == chain[|Committed((a + b)[..i])|]
    {
      if i < |a| {
        assert (a + b)[..i] == a[..i];
      } else {
        assert (a + b)[..i] == a + b[..i - |a|];
        CommittedConcat(a, b[..i - |a|]);
        assert b[i - |a|].step == chain[k..][|Committed(b[..i - |a|])|];
      }
    }
  }

  /** One run of a series makes a pass over the plan, whatever its outcome. */
  lemma {:induction false} RunIsPass(reg: set<Migration>, c: int, t: int, chain: seq<Migration>, attempts: seq<Attempt>, outcome: Outcome)
    requires KeysUnique(reg) && Forward(reg)
    requires IsPlan(reg, c, t, chain)
    requires IsRun(reg, c, t, attempts, outcome)
    ensures IsPass(chain, attempts) && outcome == PassOutcome(attempts)
  {
    RisesTo(reg, c, t, chain, 0, |chain|);
    if c == t {
      if chain != [] { ChainIncreases(reg, c, t, chain, 0, |chain|); }
    } else {
      var plan :| plan != [] && IsPlan(reg, c, t, plan) && IsPass(plan, attempts);
      PlanUnique(reg, c, t, plan, chain);
    }
  }

  /** Where a series stands after `trace`: the committed steps are a prefix of the chain, every attempt
      was at the first uncommitted step, and what remains is the plan for what remains. */
  ghost predicate OnTrack(reg: set<Migration>, c: int, t: int, chain: seq<Migration>, trace: seq<Attempt>) {
    && Resumes(chain, trace)
    && Committed(trace) <= chain
    && IsPlan(reg, VersionAfter(c, trace), t, chain[|Committed(trace)|..])
  }

  lemma {:induction false} PassOnTrack(reg: set<Migration>, c: int, t: int, chain: seq<Migration>, attempts: seq<Attempt>)
    requires IsPlan(reg, c, t, chain) && IsPass(chain, attempts)
    ensures OnTrack(reg, c, t, chain, attempts)
  {
    PassCommits(chain, attempts);
    PassResumes(chain, attempts);
    PlanSuffix(reg, c, t, chain, |Committed(attempts)|);
  }

  lemma {:induction false} RestConcat(chain: seq<Migration>, a: seq<Attempt>, b: seq<Attempt>)
    requires Committed(a) <= chain && Committed(b) <= chain[|Committed(a)|..]
    ensures Committed(a + b) <= chain
    ensures chain[|Committed(a)|..][|Committed(b)|..] == chain[|Committed(a + b)|..]
  {
    CommittedConcat(a, b);
  }

  lemma {:induction false} OnTrackConcat(reg: set<Migration>, c: int, t: int, chain: seq<Migration>, a: seq<Attempt>, b: seq<Attempt>)
    requires OnTrack(reg, c, t, chain, a)
    requires OnTrack(reg, VersionAfter(c, a), t, chain[|Committed(a)|..], b)
    ensures OnTrack(reg, c, t, chain, a + b)
  {
    assert Resumes(chain, a + b) by {
      ResumesConcat(chain, a, b);
    }
    RestConcat(chain, a, b);
    VersionAfterConcat(c, a, b);
  }

  /** Over any series of runs, however they fail, the attempts walk the original chain. */
  lemma {:induction false} CrashRetry(reg: set<Migration>, c: int, t: int, chain: seq<Migration>, runs: seq<seq<Attempt>>)
    requires KeysUnique(reg) && Forward(reg)
    requires IsPlan(reg, c, t, chain)
    requires Series(reg, c, t, runs)
    ensures OnTrack(reg, c, t, chain, Flatten(runs))
    decreases |runs|
  {
    if runs == [] {
      assert chain[0..] == chain;
    } else {
      var outcome :| IsRun(reg, c, t, runs[0], outcome);
      RunIsPass(reg, c, t, chain, runs[0], outcome);
      PassOnTrack(reg, c, t, chain, runs[0]);
      CrashRetry(reg, VersionAfter(c, runs[0]), t, chain[|Committed(runs[0])|..], runs[1..]);
      OnTrackConcat(reg, c, t, chain, runs[0], Flatten(runs[1..]));
    }
  }

  /** Once a run of the series reports success, the committed steps are the original chain in order,
      each of them once, and the stored version is the target. */
  lemma {:induction false} CrashRetryCompletes(reg: set<Migration>, c: int, t: int, chain: seq<Migration>,
                            runs: seq<seq<Attempt>>, last: seq<Attempt>)
    requires KeysUnique(reg) && Forward(reg)
    requires IsPlan(reg, c, t, chain)
    requires Series(reg, c, t, runs)
    requires IsRun(reg, VersionAfter(c, Flatten(runs)), t, last, Migrated)
    ensures Resumes(chain, Flatten(runs) + last)
    ensures Committed(Flatten(runs) + last) == chain
    ensures VersionAfter(c, Flatten(runs) + last) == t
  {
    var trace := Flatten(runs);
    CrashRetry(reg, c, t, chain, runs);
    LastRunCompletes(reg, VersionAfter(c, trace), t, chain[|Committed(trace)|..], last);
    OnTrackConcat(reg, c, t, chain, trace, last);
    CommittedConcat(trace, last);
    VersionAfterConcat(c, trace, last);
  }

  lemma {:induction false} LastRunCompletes(reg: set<Migration>, c: int, t: int, chain: seq<Migration>, last: seq<Attempt>)
    requires KeysUnique(reg) && Forward(reg)
    requires IsPlan(reg, c, t, chain)
    requires IsRun(reg, c, t, last, Migrated)
    ensures OnTrack(reg, c, t, chain, last)
    ensures Committed(last) == chain && VersionAfter(c, last) == t
  {
    RunIsPass(reg, c, t, chain, last, Migrated);
    PassOnTrack(reg, c, t, chain, last);
    PassCommits(chain, last);
  }

  lemma {:induction false} CommittedSoFar(trace: seq<Attempt>, i: nat)
    requires i < |trace|
    ensures Committed(trace[..i + 1]) == Committed(trace[..i]) + Committed([trace[i]])
    ensures Committed(trace[..i + 1]) <= Committed(trace)
  {
    CommittedConcat(trace[..i], [trace[i]]);
    assert trace[..i + 1] == trace[..i] + [trace[i]];
    CommittedConcat(trace[..i + 1], trace[i + 1..]);
    assert trace == trace[..i + 1] + trace[i + 1..];
  }

  lemma {:induction false} PrefixVersions(reg: set<Migration>, c: int, t: int, chain: seq<Migration>, p: seq<Migration>, q: seq<Migration>)
    requires Forward(reg) && IsChain(reg, c, t, chain) && p <= q <= chain
    ensures At(c, q, |q|) <= t
    ensures p != q ==> At(c, p, |p|) < At(c, q, |q|)
  {
    RisesTo(reg, c, t, chain, |q|, |chain|);
    if |p| < |q| {
      ChainIncreases(reg, c, t, chain, |p|, |q|);
    }
  }

  /** The stored version changes only when a step commits; then it strictly increases, and it never
      passes the target. */
  lemma {:induction false} StoredVersionRises(reg: set<Migration>, c: int, t: int, chain: seq<Migration>, trace: seq<Attempt>, i: nat)
    requires Forward(reg) && IsChain(reg, c, t, chain)
    requires Committed(trace) <= chain && i < |trace|
    ensures !trace[i].fate.Done? ==> VersionAfter(c, trace[..i + 1]) == VersionAfter(c, trace[..i])
    ensures trace[i].fate.Done? ==> VersionAfter(c, trace[..i + 1]) > VersionAfter(c, trace[..i])
    ensures VersionAfter(c, trace[..i + 1]) <= t
  {
    CommittedSoFar(trace, i);
    CommittedOne(trace[i]);
    PrefixVersions(reg, c, t, chain, Committed(trace[..i]), Committed(trace[..i + 1]));
  }

  lemma {:induction false} CommittedOne(a: Attempt)
    ensures Committed([a]) == if a.fate.Done? then [a.step] else []
  {
    assert [a][1..] == [];
  }

  lemma {:induction false} SameFatesSameLength(chain: seq<Migration>, a: seq<Attempt>, b: seq<Attempt>, fate: nat -> Fate)
    requires IsPass(chain, a) && IsPass(chain, b)
    requires FatesOf(a, fate) && FatesOf(b, fate)
    ensures |b| <= |a|
  {
    assert a != [] && |a| < |b| ==> b[|a| - 1].fate.Done?;
  }

  /** Registration order never matters: the set of migrations, the versions and the fates of the
      steps decide a whole run. */
  lemma {:induction false} RunDeterministic(reg: set<Migration>, c: int, t: int, fate: nat -> Fate,
                         a: seq<Attempt>, b: seq<Attempt>, x: Outcome, y: Outcome)
    requires KeysUnique(reg)
    requires IsRun(reg, c, t, a, x) && IsRun(reg, c, t, b, y)
    requires FatesOf(a, fate) && FatesOf(b, fate)
    ensures a == b && x == y
  {
    if c < t && Reachable(reg, c, t) {
      var p :| IsPlan(reg, c, t, p) && IsPass(p, a);
      var q :| IsPlan(reg, c, t, q) && IsPass(q, b);
      PlanUnique(reg, c, t, p, q);
      SameFatesSameLength(p, a, b, fate);
      SameFatesSameLength(p, b, a, fate);
    }
  }
}
