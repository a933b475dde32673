/** Alert de-duplication: an alert key stays quiet for an hour after it was last raised. Times are
    nanoseconds; an alert's id is the clock reading it was made from. */
module Monitor {
  import opened Times
  import Sequences

  const MAX_ALERTS := 100
  const RE_ALERT_AFTER := HOUR

  datatype Alert = Alert(id: int, level: string, source: string, disk: string, path: string, message: string, at: int)

  datatype Request = Request(level: string, source: string, disk: string, path: string, message: string, key: string)

  /** The three clock readings of one raise: for the check, for the id, for the time of the alert. */
  datatype Clock = Clock(check: int, id: int, at: int)

  ghost predicate Ticks(c: Clock) {
    c.check <= c.id <= c.at
  }

  datatype State = State(alerts: seq<Alert>, lastSeen: map<string, int>)

  const EMPTY := State([], map[])

  predicate Suppressed(s: State, key: string, check: int) {
    key in s.lastSeen && check - s.lastSeen[key] < RE_ALERT_AFTER
  }

  function NewAlert(r: Request, c: Clock): Alert {
    Alert(c.id, r.level, r.source, r.disk, r.path, r.message, c.at)
  }

  /** The keys seen within twice the quiet time. */
  function Pruned(lastSeen: map<string, int>, now: int): map<string, int> {
    map k | k in lastSeen && now - lastSeen[k] <= 2 * RE_ALERT_AFTER :: lastSeen[k]
  }

  function Cap(alerts: seq<Alert>): seq<Alert> {
    if |alerts| > MAX_ALERTS then alerts[..MAX_ALERTS] else alerts
  }

  function RaiseStep(s: State, r: Request, c: Clock): State {
    if Suppressed(s, r.key, c.check) then s
    else State(Cap([NewAlert(r, c)] + s.alerts), Pruned(s.lastSeen[r.key := c.at], c.at))
  }

  /** The position of the newest alert with the id, or the length when there is none. */
  function Find(alerts: seq<Alert>, id: int): (i: nat)
    ensures i <= |alerts|
    ensures i < |alerts| ==> alerts[i].id == id
    ensures forall j | 0 <= j < i :: alerts[j].id != id
  {
    Sequences.IndexWhere(alerts, (a: Alert) => a.id == id)
  }

  function DismissStep(s: State, id: int): State {
    var i := Find(s.alerts, id);
    if i < |s.alerts| then s.(alerts := s.alerts[..i] + s.alerts[i + 1..]) else s
  }

  class AlertStore {
    var alerts: seq<Alert>
    var lastSeen: map<string, int>

    ghost function View(): State
      reads this
    {
      State(alerts, lastSeen)
    }

    constructor ()
      ensures View() == EMPTY
    {
      alerts, lastSeen := [], map[];
    }

    method Dismiss(id: int)
      modifies this`alerts
      ensures View() == DismissStep(old(View()), id)
    {
      for i := 0 to |alerts|
        invariant alerts == old(alerts)
        invariant forall j | 0 <= j < i :: alerts[j].id != id
      {
        if alerts[i].id == id {
          assert Find(alerts, id) == i;
          alerts := alerts[..i] + alerts[i + 1..];
          return;
        }
      }
    }

    method Raise(r: Request, c: Clock)
      modifies this
      ensures View() == RaiseStep(old(View()), r, c)
    {
      if r.key in lastSeen && c.check - lastSeen[r.key] < RE_ALERT_AFTER {
        return;
      }
      var a := NewAlert(r, c);
      lastSeen := lastSeen[r.key := a.at];
      alerts := [a] + alerts;
      if |alerts| > MAX_ALERTS {
        alerts := alerts[..MAX_ALERTS];
      }
      ghost var seen := lastSeen;
      var todo := lastSeen.Keys;
      while todo != {}
        invariant todo <= lastSeen.Keys <= seen.Keys
        invariant alerts == Cap([a] + old(alerts))
        invariant forall k | k in lastSeen :: lastSeen[k] == seen[k] && (k in todo || a.at - seen[k] <= 2 * RE_ALERT_AFTER)
        invariant forall k | k in seen && k !in lastSeen :: a.at - seen[k] > 2 * RE_ALERT_AFTER
        decreases todo
      {
        var k :| k in todo;
        todo := todo - {k};
        if a.at - lastSeen[k] > 2 * RE_ALERT_AFTER {
          lastSeen := lastSeen - {k};
        }
      }
      assert lastSeen == Pruned(seen, a.at);
    }
  }

  // --------------------------------------------------------- runs and history

  datatype Event = Raise(r: Request, c: Clock) | Dismiss(id: int)

  function Step(s: State, e: Event): State {
    match e
    case Raise(r, c) => RaiseStep(s, r, c)
    case Dismiss(id) => DismissStep(s, id)
  }

  function Replay(events: seq<Event>): State {
    if events == [] then EMPTY else Step(Replay(events[..|events| - 1]), events[|events| - 1])
  }

  datatype Record = Record(key: string, alert: Alert)

  /** An alert of the key was recorded less than the quiet time before `check`. */
  predicate Recent(history: seq<Record>, key: string, check: int) {
    exists i | 0 <= i < |history| :: history[i].key == key && check - history[i].alert.at < RE_ALERT_AFTER
  }

  /** Every alert that should be recorded, oldest first, judged by the full history alone. */
  function History(events: seq<Event>): seq<Record> {
    if events == [] then []
    else
      var h := History(events[..|events| - 1]);
      match events[|events| - 1]
      case Dismiss(_) => h
      case Raise(r, c) => if Recent(h, r.key, c.check) then h else h + [Record(r.key, NewAlert(r, c))]
  }

  /** The clock never goes back, within a raise or between raises. */
  ghost predicate ClockRises(events: seq<Event>) {
    && (forall i | 0 <= i < |events| && events[i].Raise? :: Ticks(events[i].c))
    && forall i, j | 0 <= i < j < |events| && events[i].Raise? && events[j].Raise? :: events[i].c.at <= events[j].c.check
  }

  /** No later than `now`. */
  ghost predicate Before(events: seq<Event>, now: int) {
    forall i | 0 <= i < |events| && events[i].Raise? :: events[i].c.at <= now
  }

  /** What lastSeen knows: the latest record of a key, unless that is older than twice the quiet time. */
  ghost predicate Linked(lastSeen: map<string, int>, history: seq<Record>, now: int) {
    && (forall k | k in lastSeen :: exists i | 0 <= i < |history| :: history[i].key == k && history[i].alert.at == lastSeen[k])
    && (forall i | 0 <= i < |history| && history[i].key in lastSeen :: history[i].alert.at <= lastSeen[history[i].key])
    && (forall i | 0 <= i < |history| && history[i].key !in lastSeen :: now - history[i].alert.at > 2 * RE_ALERT_AFTER)
    && (forall i | 0 <= i < |history| :: history[i].alert.at <= now)
  }

  lemma {:induction false} LinkedDecides(lastSeen: map<string, int>, history: seq<Record>, now: int, s: State, key: string, check: int)
    requires Linked(lastSeen, history, now) && now <= check && s.lastSeen == lastSeen
    ensures Suppressed(s, key, check) <==> Recent(history, key, check)
  {
  }

  lemma {:induction false} LinkedLater(lastSeen: map<string, int>, history: seq<Record>, now: int, later: int)
    requires Linked(lastSeen, history, now) && now <= later
    ensures Linked(lastSeen, history, later)
  {
  }

  lemma {:induction false} LinkedRecord(lastSeen: map<string, int>, history: seq<Record>, now: int, rec: Record)
    requires Linked(lastSeen, history, now) && rec.alert.at == now
    ensures Linked(Pruned(lastSeen[rec.key := now], now), history + [rec], now)
  {
    var seen, h := lastSeen[rec.key := now], history + [rec];
    assert h[|history|] == rec;
    forall k | k in Pruned(seen, now)
      ensures exists i | 0 <= i < |h| :: h[i].key == k && h[i].alert.at == seen[k]
    {
      if k != rec.key {
        var i :| 0 <= i < |history| && history[i].key == k && history[i].alert.at == lastSeen[k];
        assert h[i] == history[i];
      }
    }
    forall i | 0 <= i < |h| && h[i].key !in Pruned(seen, now)
      ensures now - h[i].alert.at > 2 * RE_ALERT_AFTER
    {
      if i < |history| { assert h[i] == history[i]; }
    }
    forall i | 0 <= i < |h| && h[i].key in Pruned(seen, now)
      ensures h[i].alert.at <= seen[h[i].key]
    {
      if i < |history| { assert h[i] == history[i]; }
    }
  }

  lemma {:induction false} ClockRisesPrefix(events: seq<Event>)
    requires ClockRises(events) && events != []
    ensures ClockRises(events[..|events| - 1])
    ensures events[|events| - 1].Raise? ==> Before(events[..|events| - 1], events[|events| - 1].c.check)
  {
  }

  lemma {:induction false} AlwaysLinked(events: seq<Event>, now: int)
    requires ClockRises(events) && Before(events, now)
    ensures Linked(Replay(events).lastSeen, History(events), now)
  {
    if events != [] {
      var init, last := events[..|events| - 1], events[|events| - 1];
      ClockRisesPrefix(events);
      match last
      case Dismiss(_) =>
        AlwaysLinked(init, now);
      case Raise(r, c) =>
        AlwaysLinked(init, c.check);
        var s, h := Replay(init), History(init);
        LinkedDecides(s.lastSeen, h, c.check, s, r.key, c.check);
        LinkedLater(s.lastSeen, h, c.check, c.at);
        if Recent(h, r.key, c.check) {
          LinkedLater(s.lastSeen, h, c.at, now);
        } else {
          LinkedRecord(s.lastSeen, h, c.at, Record(r.key, NewAlert(r, c)));
          LinkedLater(Replay(events).lastSeen, History(events), c.at, now);
        }
    }
  }

  /** De-duplication by the pruned map agrees with the full history: a raise is suppressed exactly
      when an alert of its key was recorded less than the quiet time before. */
  lemma {:induction false} DedupRefinesHistory(events: seq<Event>, key: string, check: int)
    requires ClockRises(events) && Before(events, check)
    ensures Suppressed(Replay(events), key, check) <==> Recent(History(events), key, check)
  {
    AlwaysLinked(events, check);
    LinkedDecides(Replay(events).lastSeen, History(events), check, Replay(events), key, check);
  }

  // ------------------------------------------------------------ the alert list

  /** `at` holds the history positions of the shown alerts, newest first. */
  ghost predicate Listed(alerts: seq<Alert>, history: seq<Record>, at: seq<nat>) {
    && |at| == |alerts| <= MAX_ALERTS
    && (forall i | 0 <= i < |at| :: IsRecord(alerts[i], history, at[i]))
    && Descending(at)
  }

  ghost predicate IsRecord(a: Alert, history: seq<Record>, p: nat) {
    p < |history| && a == history[p].alert
  }

  ghost predicate Descending(at: seq<nat>) {
    forall i, j | 0 <= i < j < |at| :: at[i] > at[j]
  }

  /** A record that is not shown was dismissed or has at least MAX_ALERTS newer ones. */
  ghost predicate Complete(n: nat, at: seq<nat>, gone: set<nat>) {
    forall h: nat | h < n :: h in at || h in gone || n - h > MAX_ALERTS
  }

  lemma {:induction false} DescendingCons(n: nat, at: seq<nat>)
    requires Descending(at) && forall i | 0 <= i < |at| :: at[i] < n
    ensures Descending(CapPositions([n] + at))
  {
    var full := [n] + at;
    forall i, j | 0 <= i < j < |full|
      ensures full[i] > full[j]
    {
      assert full[j] == at[j - 1];
      if i > 0 { assert full[i] == at[i - 1]; }
    }
  }

  lemma {:induction false} ListedRaise(alerts: seq<Alert>, history: seq<Record>, at: seq<nat>, rec: Record)
    requires Listed(alerts, history, at)
    ensures Listed(Cap([rec.alert] + alerts), history + [rec], CapPositions([|history|] + at))
  {
    forall i | 0 <= i < |at|
      ensures at[i] < |history|
    {
      assert IsRecord(alerts[i], history, at[i]);
    }
    DescendingCons(|history|, at);
    var alerts', at' := Cap([rec.alert] + alerts), CapPositions([|history|] + at);
    forall i | 0 <= i < |at'|
      ensures IsRecord(alerts'[i], history + [rec], at'[i])
    {
      if i > 0 {
        assert alerts'[i] == alerts[i - 1] && at'[i] == at[i - 1];
        assert IsRecord(alerts[i - 1], history, at[i - 1]);
      }
    }
  }

  function CapPositions(at: seq<nat>): seq<nat> {
    if |at| > MAX_ALERTS then at[..MAX_ALERTS] else at
  }

  lemma {:induction false} CompleteRaise(n: nat, at: seq<nat>, gone: set<nat>)
    requires Complete(n, at, gone) && Descending(at) && forall i | 0 <= i < |at| :: at[i] < n
    ensures Complete(n + 1, CapPositions([n] + at), gone)
  {
    var full, capped := [n] + at, CapPositions([n] + at);
    forall h: nat | h < n + 1
      ensures h in capped || h in gone || n + 1 - h > MAX_ALERTS
    {
      if h == n {
        assert capped[0] == h;
      } else if h in at {
        var i :| 0 <= i < |at| && at[i] == h;
        assert full[i + 1] == h;
        if i + 1 < |capped| {
          assert capped[i + 1] == h;
        } else {
          DescendingGap(full, n + 1, i + 1);
        }
      }
    }
  }

  /** The k-th of strictly descending numbers below n is at most n - 1 - k. */
  lemma {:induction false} DescendingGap(at: seq<nat>, n: nat, k: nat)
    requires k < |at| && at[0] < n
    requires Descending(at)
    ensures at[k] + k < n
  {
    if k > 0 {
      DescendingGap(at, n, k - 1);
      assert at[k - 1] > at[k];
    }
  }

  lemma {:induction false} ListedDismiss(s: State, history: seq<Record>, at: seq<nat>, id: int)
    requires Listed(s.alerts, history, at)
    ensures Listed(DismissStep(s, id).alerts, history, Drop(at, Find(s.alerts, id)))
  {
    var i := Find(s.alerts, id);
    var alerts', at' := DismissStep(s, id).alerts, Drop(at, i);
    forall j | 0 <= j < |at'|
      ensures IsRecord(alerts'[j], history, at'[j])
    {
      var k := if j < i then j else j + 1;
      if i < |at| {
        assert alerts'[j] == s.alerts[k] && at'[j] == at[k];
        assert IsRecord(s.alerts[k], history, at[k]);
      }
    }
    DescendingDrop(at, i);
  }

  /** Without the i-th position, if there is one. */
  function Drop(at: seq<nat>, i: nat): seq<nat> {
    if i < |at| then at[..i] + at[i + 1..] else at
  }

  lemma {:induction false} DescendingDrop(at: seq<nat>, i: nat)
    requires Descending(at)
    ensures Descending(Drop(at, i))
  {
    var at' := Drop(at, i);
    if i < |at| {
      forall a, b | 0 <= a < b < |at'|
        ensures at'[a] > at'[b]
      {
        assert at'[a] == at[if a < i then a else a + 1];
        assert at'[b] == at[if b < i then b else b + 1];
      }
    }
  }

  lemma {:induction false} CompleteDismiss(n: nat, at: seq<nat>, gone: set<nat>, i: nat)
    requires Complete(n, at, gone) && i < |at|
    ensures Complete(n, Drop(at, i), gone + {at[i]})
  {
    var at' := Drop(at, i);
    forall h: nat | h < n && h in at && h != at[i]
      ensures h in at'
    {
      var j :| 0 <= j < |at| && at[j] == h;
      assert at'[if j < i then j else j - 1] == h;
    }
  }

  /** Each record in `gone` was named by a dismissal that came after it. */
  ghost predicate Dismissed(events: seq<Event>, history: seq<Record>, gone: set<nat>) {
    forall h | h in gone :: h < |history| && DismissedAfter(events, history[h].alert.id, h)
  }

  /** The id was dismissed at a time when the h-th record had been made. */
  ghost predicate DismissedAfter(events: seq<Event>, id: int, h: nat) {
    exists k | 0 <= k < |events| :: events[k] == Dismiss(id) && h < |History(events[..k])|
  }

  lemma {:induction false} DismissedLater(events: seq<Event>, history: seq<Record>, gone: set<nat>, e: Event, more: seq<Record>)
    requires Dismissed(events, history, gone)
    ensures Dismissed(events + [e], history + more, gone)
  {
    forall h | h in gone
      ensures DismissedAfter(events + [e], (history + more)[h].alert.id, h)
    {
      var k :| 0 <= k < |events| && events[k] == Dismiss(history[h].alert.id) && h < |History(events[..k])|;
      assert (events + [e])[k] == events[k] && (events + [e])[..k] == events[..k];
    }
  }

  /** After any run the list shows recorded alerts, newest first, at most MAX_ALERTS of them; a record
      is missing only if its id was dismissed after it was made, or it has at least MAX_ALERTS newer records. */
  lemma {:induction false} ListShowsHistory(events: seq<Event>) returns (at: seq<nat>, gone: set<nat>)
    requires ClockRises(events)
    ensures Listed(Replay(events).alerts, History(events), at)
    ensures Complete(|History(events)|, at, gone)
    ensures Dismissed(events, History(events), gone)
  {
    if events == [] {
      at, gone := [], {};
    } else {
      var init, last := events[..|events| - 1], events[|events| - 1];
      var s, h := Replay(init), History(init);
      ClockRisesPrefix(events);
      at, gone := ListShowsHistory(init);
      assert events == init + [last];
      match last
      case Dismiss(id) =>
        at, gone := AfterDismiss(init, s, h, at, gone, id);
      case Raise(r, c) =>
        DedupRefinesHistory(init, r.key, c.check);
        if Recent(h, r.key, c.check) {
          DismissedLater(init, h, gone, last, []);
          assert h + [] == h;
        } else {
          at := AfterRaise(init, s, h, at, gone, last, Record(r.key, NewAlert(r, c)));
        }
    }
  }

  lemma {:induction false} AfterDismiss(init: seq<Event>, s: State, h: seq<Record>, at: seq<nat>, gone: set<nat>, id: int)
    returns (at': seq<nat>, gone': set<nat>)
    requires h == History(init)
    requires Listed(s.alerts, h, at) && Complete(|h|, at, gone) && Dismissed(init, h, gone)
    ensures Listed(DismissStep(s, id).alerts, h, at') && Complete(|h|, at', gone')
    ensures Dismissed(init + [Dismiss(id)], h, gone')
  {
    var i := Find(s.alerts, id);
    DismissedLater(init, h, gone, Dismiss(id), []);
    assert h + [] == h;
    ListedDismiss(s, h, at, id);
    at', gone' := Drop(at, i), gone;
    if i < |at| {
      CompleteDismiss(|h|, at, gone, i);
      gone' := gone + {at[i]};
      assert (init + [Dismiss(id)])[|init|] == Dismiss(id) && (init + [Dismiss(id)])[..|init|] == init;
      assert IsRecord(s.alerts[i], h, at[i]);
    }
  }

  lemma {:induction false} AfterRaise(init: seq<Event>, s: State, h: seq<Record>, at: seq<nat>, gone: set<nat>, e: Event, rec: Record)
    returns (at': seq<nat>)
    requires Listed(s.alerts, h, at) && Complete(|h|, at, gone) && Dismissed(init, h, gone)
    ensures Listed(Cap([rec.alert] + s.alerts), h + [rec], at') && Complete(|h + [rec]|, at', gone)
    ensures Dismissed(init + [e], h + [rec], gone)
  {
    DismissedLater(init, h, gone, e, [rec]);
    ListedRaise(s.alerts, h, at, rec);
    forall i | 0 <= i < |at|
      ensures at[i] < |h|
    {
      assert IsRecord(s.alerts[i], h, at[i]);
    }
    CompleteRaise(|h|, at, gone);
    at' := CapPositions([|h|] + at);
  }

  // ------------------------------------------------------- what one call does

  /** A raise within an hour of the last alert of its key does nothing. Any other puts an alert with
      these fields before the newest 99, notes its time under the key, and forgets the keys that have
      been quiet for more than two hours. */
  lemma {:induction false} RaiseDoes(s: State, level: string, source: string, disk: string, path: string, message: string,
                  key: string, c: Clock)
    ensures var t := RaiseStep(s, Request(level, source, disk, path, message, key), c);
            if key in s.lastSeen && c.check - s.lastSeen[key] < 3_600_000_000_000 then t == s
            else
              && |t.alerts| == (if |s.alerts| < 100 then |s.alerts| + 1 else 100)
              && (var a := t.alerts[0];
                  && a.id == c.id && a.at == c.at && a.level == level && a.source == source
                  && a.disk == disk && a.path == path && a.message == message)
              && t.alerts[1..] == s.alerts[..|t.alerts| - 1]
              && (forall k | k != key ::
                    k in t.lastSeen <==> k in s.lastSeen && c.at - s.lastSeen[k] <= 7_200_000_000_000)
              && (forall k | k != key && k in t.lastSeen :: t.lastSeen[k] == s.lastSeen[k])
              && key in t.lastSeen && t.lastSeen[key] == c.at
  {
  }

  /** Dismissing removes the newest alert with the id, if there is one; the rest stays in order, and a
      key stays quiet as long as before. */
  lemma {:induction false} DismissDoes(s: State, id: int, i: nat)
    requires i < |s.alerts| && s.alerts[i].id == id && forall j | 0 <= j < i :: s.alerts[j].id != id
    ensures DismissStep(s, id) == State(s.alerts[..i] + s.alerts[i + 1..], s.lastSeen)
  {
  }

  lemma {:induction false} DismissUnknown(s: State, id: int)
    requires forall j | 0 <= j < |s.alerts| :: s.alerts[j].id != id
    ensures DismissStep(s, id) == s
  {
  }
}
