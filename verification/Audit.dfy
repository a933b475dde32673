/** The audit log: newest entries first, capped, and trimmed by age. Times are nanoseconds. */
module Audit {
  import opened Wrappers
  import opened Times

  const MAX_ENTRIES := 1000
  const TWO63 := 0x8000_0000_0000_0000
  const TWO64 := 0x1_0000_0000_0000_0000

  datatype Entry = Entry(time: int, user: string, action: string, detail: string, ip: string, ok: bool)

  /** 64-bit two's complement arithmetic. */
  function Wrap64(n: int): int {
    (n + TWO63) % TWO64 - TWO63
  }

  /** The age limit: entries before it are dropped. No limit when the retention is off. */
  function Cutoff(retentionDays: int, now: int): Option<int> {
    if retentionDays > 0 then Some(now + Wrap64(-(retentionDays * DAY))) else None
  }

  /** The cutoff is the retention before now, as long as the duration fits 64 bits. */
  lemma {:induction false} CutoffExact(retentionDays: int, now: int)
    requires 0 < retentionDays < TWO63
    ensures Cutoff(retentionDays, now) == Some(now - retentionDays * 86_400_000_000_000) <==> retentionDays <= 106_751
  {
  }

  function Recorded(e: Entry, stamp: int, anonymizeIP: bool): Entry {
    var stamped := if e.time == ZERO_TIME then e.(time := stamp) else e;
    if anonymizeIP && stamped.ip != "" then stamped.(ip := "0.0.0.0") else stamped
  }

  /** What is recorded: a given time is kept and a missing one is the clock's, and with anonymising on an
      address becomes 0.0.0.0. Nothing else changes. */
  lemma {:induction false} RecordedMeans(e: Entry, stamp: int, anonymizeIP: bool)
    ensures var r := Recorded(e, stamp, anonymizeIP);
            && r.time == (if e.time == -62_135_596_800 * 1_000_000_000 then stamp else e.time)
            && r.ip == (if anonymizeIP && e.ip != "" then "0.0.0.0" else e.ip)
            && r.user == e.user && r.action == e.action && r.detail == e.detail && r.ok == e.ok
  {
  }

  function Take<T>(s: seq<T>, n: nat): seq<T> {
    if |s| > n then s[..n] else s
  }

  /** Drops entries from the old end while they are before the cutoff. */
  function TrimOld(s: seq<Entry>, cutoff: Option<int>): seq<Entry> {
    if cutoff.Some? && s != [] && s[|s| - 1].time < cutoff.value then TrimOld(s[..|s| - 1], cutoff) else s
  }

  class Logger {
    var entries: seq<Entry>
    var retentionDays: int
    var anonymizeIP: bool

    constructor (loaded: seq<Entry>)
      ensures entries == loaded && retentionDays == 0 && !anonymizeIP
    {
      entries, retentionDays, anonymizeIP := loaded, 0, false;
    }

    method SetAnonymizeIP(v: bool)
      modifies this`anonymizeIP
      ensures anonymizeIP == v
    {
      anonymizeIP := v;
    }

    method SetRetentionDays(days: int)
      modifies this`retentionDays
      ensures retentionDays == days
    {
      retentionDays := days;
    }

    /** `stamp` and `now` are the two readings of the clock. */
    method LogEnriched(entry: Entry, stamp: int, now: int)
      modifies this`entries
      ensures entries == TrimOld(Take([Recorded(entry, stamp, anonymizeIP)] + old(entries), MAX_ENTRIES),
                                 Cutoff(retentionDays, now))
    {
      var e := entry;
      if e.time == ZERO_TIME {
        e := e.(time := stamp);
      }
      if anonymizeIP && e.ip != "" {
        e := e.(ip := "0.0.0.0");
      }
      entries := [e] + entries;
      if |entries| > MAX_ENTRIES {
        entries := entries[..MAX_ENTRIES];
      }
      if retentionDays > 0 {
        var cutoff := now + Wrap64(-(retentionDays * DAY));
        TrimBefore(cutoff);
      }
    }

    /** The countdown loop over the old end. */
    method TrimBefore(cutoff: int)
      modifies this`entries
      ensures entries == TrimOld(old(entries), Some(cutoff))
    {
      var n := |entries|;
      assert entries[..n] == entries;
      while n > 0 && entries[n - 1].time < cutoff
        invariant 0 <= n <= |entries|
        invariant TrimOld(entries[..n], Some(cutoff)) == TrimOld(entries, Some(cutoff))
      {
        assert entries[..n][..n - 1] == entries[..n - 1];
        n := n - 1;
      }
      if n < |entries| {
        entries := entries[..n];
      }
    }

    method Recent(n: int) returns (out: seq<Entry>)
      ensures out == if n <= 0 || n > |entries| then entries else entries[..n]
    {
      var count := n;
      if n <= 0 || n > |entries| {
        count := |entries|;
      }
      out := entries[..count];
    }
  }

  // ---------------------------------------------------- the log and its history

  /** One LogEnriched call: the entry as recorded, and the cutoff in force. */
  datatype Event = Event(entry: Entry, cutoff: Option<int>)

  /** The log after a run of calls that starts from an empty log. */
  function Replay(events: seq<Event>): seq<Entry> {
    if events == [] then []
    else
      var last := events[|events| - 1];
      TrimOld(Take([last.entry] + Replay(events[..|events| - 1]), MAX_ENTRIES), last.cutoff)
  }

  /** The same without the cap. */
  function Uncapped(events: seq<Event>): seq<Entry> {
    if events == [] then []
    else
      var last := events[|events| - 1];
      TrimOld([last.entry] + Uncapped(events[..|events| - 1]), last.cutoff)
  }

  /** Every entry ever logged, newest first. */
  function History(events: seq<Event>): seq<Entry> {
    if events == [] then [] else [events[|events| - 1].entry] + History(events[..|events| - 1])
  }

  /** The entries that are not before `cutoff`. */
  function Since(s: seq<Entry>, cutoff: int): seq<Entry> {
    if s == [] then [] else (if s[0].time >= cutoff then [s[0]] else []) + Since(s[1..], cutoff)
  }

  ghost predicate TimesSorted(events: seq<Event>) {
    forall i, j | 0 <= i < j < |events| :: events[i].entry.time <= events[j].entry.time
  }

  /** Newest first. */
  ghost predicate Descending(s: seq<Entry>) {
    forall i, j | 0 <= i < j < |s| :: s[i].time >= s[j].time
  }

  lemma {:induction false} TrimOldIsPrefix(s: seq<Entry>, cutoff: Option<int>)
    ensures TrimOld(s, cutoff) <= s
    ensures cutoff.Some? && TrimOld(s, cutoff) != [] ==> TrimOld(s, cutoff)[|TrimOld(s, cutoff)| - 1].time >= cutoff.value
    ensures forall i | |TrimOld(s, cutoff)| <= i < |s| :: cutoff.Some? && s[i].time < cutoff.value
  {
    if cutoff.Some? && s != [] && s[|s| - 1].time < cutoff.value {
      TrimOldIsPrefix(s[..|s| - 1], cutoff);
    }
  }

  lemma {:induction false} HistoryDescends(events: seq<Event>)
    requires TimesSorted(events)
    ensures |History(events)| == |events|
    ensures forall k | 0 <= k < |events| :: History(events)[k] == events[|events| - 1 - k].entry
    ensures Descending(History(events))
  {
    HistoryLength(events);
  }

  lemma {:induction false} UncappedIsPrefix(events: seq<Event>)
    ensures Uncapped(events) <= History(events)
  {
    if events != [] {
      UncappedIsPrefix(events[..|events| - 1]);
      TrimOldIsPrefix([events[|events| - 1].entry] + Uncapped(events[..|events| - 1]), events[|events| - 1].cutoff);
    }
  }

  lemma {:induction false} TrimOldAt(s: seq<Entry>, cutoff: int, k: nat)
    requires k <= |s|
    requires forall i | 0 <= i < k :: s[i].time >= cutoff
    requires forall i | k <= i < |s| :: s[i].time < cutoff
    ensures TrimOld(s, Some(cutoff)) == s[..k]
  {
    if k < |s| {
      TrimOldAt(s[..|s| - 1], cutoff, k);
    }
  }

  /** On a list that is newest first, trimming by age commutes with the cap. */
  lemma {:induction false} TrimOldCommutes(s: seq<Entry>, cutoff: Option<int>, n: nat)
    requires Descending(s)
    ensures TrimOld(Take(s, n), cutoff) == Take(TrimOld(s, cutoff), n)
  {
    if cutoff.Some? {
      var k := |TrimOld(s, cutoff)|;
      var taken := Take(s, n);
      var kept := if k < |taken| then k else |taken|;
      TrimOldIsPrefix(s, cutoff);
      forall i | 0 <= i < kept
        ensures taken[i].time >= cutoff.value
      {
        assert s[i].time >= s[k - 1].time;
      }
      TrimOldAt(taken, cutoff.value, kept);
      assert taken[..kept] == s[..kept];
    }
  }

  /** The cap never hides what retention would keep: the log is the newest MAX_ENTRIES of the log
      without a cap, however the retention changes along the way. */
  lemma {:induction false} ReplayIsCappedLog(events: seq<Event>)
    requires TimesSorted(events)
    ensures Replay(events) == Take(Uncapped(events), MAX_ENTRIES)
  {
    if events != [] {
      var init, last := events[..|events| - 1], events[|events| - 1];
      ReplayIsCappedLog(init);
      HistoryDescends(events);
      UncappedIsPrefix(init);
      var full := [last.entry] + Uncapped(init);
      assert full <= History(events);
      assert Take([last.entry] + Take(Uncapped(init), MAX_ENTRIES), MAX_ENTRIES) == Take(full, MAX_ENTRIES);
      TrimOldCommutes(full, last.cutoff, MAX_ENTRIES);
    }
  }

  lemma {:induction false} SinceIsPrefix(s: seq<Entry>, k: nat, cutoff: int)
    requires k <= |s|
    requires forall i | 0 <= i < k :: s[i].time >= cutoff
    requires forall i | k <= i < |s| :: s[i].time < cutoff
    ensures Since(s, cutoff) == s[..k]
  {
    if s != [] {
      if k > 0 {
        SinceIsPrefix(s[1..], k - 1, cutoff);
        assert s[..k] == [s[0]] + s[1..][..k - 1];
      } else {
        SinceIsPrefix(s[1..], 0, cutoff);
      }
    }
  }

  /** Cutoffs that never move back, as with a fixed positive retention and a clock that does not. */
  ghost predicate CutoffsRise(events: seq<Event>) {
    && (forall i | 0 <= i < |events| :: events[i].cutoff.Some?)
    && forall i, j | 0 <= i < j < |events| :: events[i].cutoff.value <= events[j].cutoff.value
  }

  /** An entry that the log without a cap has dropped is before the last cutoff. */
  lemma {:induction false} DroppedIsOld(events: seq<Event>, i: nat)
    requires TimesSorted(events) && CutoffsRise(events) && events != []
    requires |Uncapped(events)| <= i < |History(events)|
    ensures History(events)[i].time < events[|events| - 1].cutoff.value
  {
    var init, last := events[..|events| - 1], events[|events| - 1];
    var full := [last.entry] + Uncapped(init);
    TrimOldIsPrefix(full, last.cutoff);
    UncappedIsPrefix(init);
    if i < |full| {
      assert full[i] == History(events)[i];
    } else {
      DroppedIsOld(init, i - 1);
    }
  }

  /** An entry that the log without a cap still holds is not before the last cutoff. */
  lemma {:induction false} HeldIsRecent(events: seq<Event>, i: nat)
    requires TimesSorted(events) && events != [] && events[|events| - 1].cutoff.Some?
    requires i < |Uncapped(events)|
    ensures Uncapped(events)[i].time >= events[|events| - 1].cutoff.value
  {
    var u := Uncapped(events);
    TrimOldIsPrefix([events[|events| - 1].entry] + Uncapped(events[..|events| - 1]), events[|events| - 1].cutoff);
    HistoryDescends(events);
    UncappedIsPrefix(events);
    assert u[i] == History(events)[i] && u[|u| - 1] == History(events)[|u| - 1];
  }

  lemma {:induction false} UncappedKeepsRecent(events: seq<Event>)
    requires TimesSorted(events) && CutoffsRise(events) && events != []
    ensures Uncapped(events) == Since(History(events), events[|events| - 1].cutoff.value)
  {
    var h, k, c := History(events), |Uncapped(events)|, events[|events| - 1].cutoff.value;
    UncappedIsPrefix(events);
    forall i | k <= i < |h|
      ensures h[i].time < c
    {
      DroppedIsOld(events, i);
    }
    forall i | 0 <= i < k
      ensures h[i].time >= c
    {
      HeldIsRecent(events, i);
    }
    SinceIsPrefix(h, k, c);
  }

  /** After each call the log is exactly the latest entries of the whole history, at most MAX_ENTRIES,
      that are not before the cutoff, newest first. */
  lemma {:induction false} LogIsRecentHistory(events: seq<Event>)
    requires TimesSorted(events) && CutoffsRise(events) && events != []
    ensures Replay(events) == Take(Since(History(events), events[|events| - 1].cutoff.value), MAX_ENTRIES)
  {
    ReplayIsCappedLog(events);
    UncappedKeepsRecent(events);
  }

  /** A fixed positive retention and a clock that never goes back give cutoffs that never go back. */
  lemma {:induction false} FixedRetentionRises(events: seq<Event>, retentionDays: int, clock: seq<int>)
    requires retentionDays > 0 && |clock| == |events|
    requires forall i, j | 0 <= i < j < |clock| :: clock[i] <= clock[j]
    requires forall i | 0 <= i < |events| :: events[i].cutoff == Cutoff(retentionDays, clock[i])
    ensures CutoffsRise(events)
  {
  }

  /** Without retention no entry goes but for the cap: the log is the newest 1000 of all. */
  lemma {:induction false} NoRetentionKeepsAll(events: seq<Event>, retentionDays: int, clock: seq<int>)
    requires retentionDays <= 0 && |clock| == |events|
    requires forall i | 0 <= i < |events| :: events[i].cutoff == Cutoff(retentionDays, clock[i])
    ensures Replay(events) == Take(History(events), 1000)
  {
    HistoryLength(events);
    if events != [] {
      var init, last := events[..|events| - 1], events[|events| - 1];
      NoRetentionKeepsAll(init, retentionDays, clock[..|events| - 1]);
      HistoryLength(init);
      if |init| >= 1000 {
        assert ([last.entry] + History(init)[..1000])[..1000] == ([last.entry] + History(init))[..1000];
      }
    }
  }

  lemma {:induction false} HistoryLength(events: seq<Event>)
    ensures |History(events)| == |events|
    ensures forall k | 0 <= k < |events| :: History(events)[k] == events[|events| - 1 - k].entry
  {
    if events != [] {
      HistoryLength(events[..|events| - 1]);
    }
  }

  /** While addresses are anonymised the log holds none. */
  lemma {:induction false} AnonymousLog(events: seq<Event>, given: seq<Entry>, stamps: seq<int>)
    requires |given| == |events| && |stamps| == |events|
    requires forall i | 0 <= i < |events| :: events[i].entry == Recorded(given[i], stamps[i], true)
    ensures forall e | e in Replay(events) :: e.ip == "" || e.ip == "0.0.0.0"
  {
    if events != [] {
      var n := |events| - 1;
      var full := [events[n].entry] + Replay(events[..n]);
      AnonymousLog(events[..n], given[..n], stamps[..n]);
      RecordedMeans(given[n], stamps[n], true);
      TrimOldIsPrefix(Take(full, MAX_ENTRIES), events[n].cutoff);
      assert forall e | e in Replay(events) :: e in full;
    }
  }

  /** The same entry by entry: the log is the newest part of the history, holds no entry before the
      cutoff, and stops only at one that is, at the 1000th, or at the end. */
  lemma {:induction false} LogHolds(events: seq<Event>)
    requires TimesSorted(events) && CutoffsRise(events) && events != []
    ensures var log, all, cutoff := Replay(events), History(events), events[|events| - 1].cutoff.value;
            && log <= all && |log| <= 1000
            && (forall i | 0 <= i < |log| :: log[i].time >= cutoff)
            && (|log| == |all| || |log| == 1000 || all[|log|].time < cutoff)
  {
    var u := Uncapped(events);
    ReplayIsCappedLog(events);
    UncappedIsPrefix(events);
    forall i | 0 <= i < |u|
      ensures u[i].time >= events[|events| - 1].cutoff.value
    {
      HeldIsRecent(events, i);
    }
    if |u| < |History(events)| {
      DroppedIsOld(events, |u|);
    }
  }
}
