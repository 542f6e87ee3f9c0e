/**
 The entry breakpoint: set up at the first loaded module that has an entry point, hit once, and
 forgotten when all breakpoints are deleted.
 */
module EntryPoints {
  import opened Options

  /** The token of no method. */
  const NIL := 0x0600_0000

  /** What two function breakpoints are compared by. */
  datatype Spot = Spot(file: string, token: int, offset: int)

  datatype State = State(stop: bool, token: int, breakpoint: Option<Spot>)

  const START := State(false, NIL, None)

  /** What happens to it: the setting, a loaded module with the token of its entry point or none,
      a stop at a function breakpoint, and a detach. */
  datatype Event = Setting(stop: bool) | Loaded(file: string, token: int) | Stopped(at: Spot) | Cleared

  /** Whether a stop is the one at the entry point. */
  predicate AtEntry(s: State, at: Spot) {
    s.stop && s.breakpoint == Some(at)
  }

  function Next(s: State, e: Event): State {
    match e
    case Setting(stop) => s.(stop := stop)
    case Loaded(file, token) =>
      if !s.stop || s.token != NIL || token == NIL then s
      else s.(token := token, breakpoint := Some(Spot(file, token, 0)))
    case Stopped(at) => if AtEntry(s, at) then s.(breakpoint := None) else s
    case Cleared => s.(token := NIL, breakpoint := None)
  }

  function Run(s: State, events: seq<Event>): State {
    if events == [] then s else Next(Run(s, events[..|events| - 1]), events[|events| - 1])
  }

  /** Event `i` is reported as a stop at the entry point. */
  predicate ReportedAt(events: seq<Event>, i: nat)
    requires i < |events|
  {
    events[i].Stopped? && AtEntry(Run(START, events[..i]), events[i].at)
  }

  /** The setting after the events: the last one made, or off. */
  ghost predicate SettingOn(events: seq<Event>) {
    exists i :: 0 <= i < |events| && events[i] == Setting(true) && forall j | i < j < |events| :: !events[j].Setting?
  }

  lemma {:induction false} SettingExact(events: seq<Event>)
    ensures Run(START, events).stop <==> SettingOn(events)
  {
    if events != [] {
      var n := |events| - 1;
      SettingExact(events[..n]);
      assert forall i | 0 <= i < n :: events[..n][i] == events[i];
      if !events[n].Setting? && SettingOn(events[..n]) {
        var i :| 0 <= i < n && events[..n][i] == Setting(true) && forall j | i < j < n :: !events[..n][j].Setting?;
        assert events[i] == Setting(true);
      }
      if events[n] == Setting(true) { assert SettingOn(events); }
    }
  }

  /** A module with an entry point is loaded while the setting is on. */
  ghost predicate Offers(events: seq<Event>, i: nat) {
    i < |events| && events[i].Loaded? && events[i].token != 0x0600_0000 && SettingOn(events[..i])
  }

  /** Nothing is cleared between two events. */
  ghost predicate Uncleared(events: seq<Event>, i: int, k: nat)
    requires -1 <= i && k <= |events|
  {
    forall j | i < j < k :: events[j] != Cleared
  }

  /** Such a load was made, and nothing cleared since. */
  ghost predicate Taken(events: seq<Event>, k: nat)
    requires k <= |events|
  {
    exists i: nat :: i < k && Offers(events, i) && Uncleared(events, i, k)
  }

  /** The entry breakpoint is set up by event `i`: the first such load since the last clearing; and
      nothing was cleared or reported after it. */
  ghost predicate SetUpAt(events: seq<Event>, i: nat, at: Spot) {
    && Offers(events, i) && events[i] == Loaded(at.file, at.token) && at.offset == 0 && !Taken(events, i)
    && forall j | i < j < |events| :: events[j] != Cleared && !ReportedAt(events, j)
  }

  lemma OffersBefore(events: seq<Event>, n: nat, i: nat)
    requires i < n <= |events|
    ensures Offers(events[..n], i) == Offers(events, i)
  {
    assert events[..n][..i] == events[..i];
  }

  lemma TakenBefore(events: seq<Event>, n: nat, k: nat)
    requires k <= n <= |events|
    ensures Taken(events[..n], k) == Taken(events, k)
  {
    if i: nat :| i < k && Offers(events[..n], i) && Uncleared(events[..n], i, k) {
      OffersBefore(events, n, i);
      assert forall j | i < j < k :: events[..n][j] == events[j];
      assert Uncleared(events, i, k);
    }
    if i: nat :| i < k && Offers(events, i) && Uncleared(events, i, k) {
      OffersBefore(events, n, i);
      assert Uncleared(events[..n], i, k);
    }
  }

  lemma TakenNext(events: seq<Event>, k: nat)
    requires k < |events|
    ensures Taken(events, k + 1) <==> Offers(events, k) || (events[k] != Cleared && Taken(events, k))
  {
    if Offers(events, k) { assert Uncleared(events, k, k + 1); }
    if i: nat :| i < k && Offers(events, i) && Uncleared(events, i, k) && events[k] != Cleared {
      assert Uncleared(events, i, k + 1);
    }
    if i: nat :| i < k + 1 && Offers(events, i) && Uncleared(events, i, k + 1) && i < k {
      assert Uncleared(events, i, k);
    }
  }

  /** The token is that of no method exactly when no such load was made since the last clearing. */
  lemma {:induction false} TokenExact(events: seq<Event>)
    ensures Run(START, events).token != NIL <==> Taken(events, |events|)
  {
    if events != [] {
      var n := |events| - 1;
      TokenExact(events[..n]);
      TakenBefore(events, n, n);
      TakenNext(events, n);
      SettingExact(events[..n]);
    }
  }

  lemma SetUpSnoc(events: seq<Event>, i: nat, at: Spot)
    requires events != [] && i < |events| - 1
    ensures SetUpAt(events, i, at) <==>
      && SetUpAt(events[..|events| - 1], i, at)
      && events[|events| - 1] != Cleared && !ReportedAt(events, |events| - 1)
  {
    var n := |events| - 1;
    OffersBefore(events, n, i);
    TakenBefore(events, n, i);
    forall j | i < j < n ensures events[..n][j] == events[j] && ReportedAt(events[..n], j) == ReportedAt(events, j) {
      assert events[..n][..j] == events[..j];
    }
  }

  lemma SetUpNext(events: seq<Event>, at: Spot)
    requires events != []
    ensures var n := |events| - 1;
      (exists i: nat :: SetUpAt(events, i, at)) <==>
      SetUpAt(events, n, at)
      || ((exists i: nat :: SetUpAt(events[..n], i, at)) && events[n] != Cleared && !ReportedAt(events, n))
  {
    var n := |events| - 1;
    forall i: nat | i < n
      ensures SetUpAt(events, i, at) <==> SetUpAt(events[..n], i, at) && events[n] != Cleared && !ReportedAt(events, n)
    {
      SetUpSnoc(events, i, at);
    }
  }

  /** Over every run: the entry breakpoint stands exactly where it was set up. */
  lemma {:induction false} StandingExact(events: seq<Event>, at: Spot)
    ensures Run(START, events).breakpoint == Some(at) <==> exists i: nat :: SetUpAt(events, i, at)
    decreases |events|
  {
    if events != [] {
      var n := |events| - 1;
      StandingExact(events[..n], at);
      BeforeLast(events);
      StandingKept(events, at);
      SetUpNext(events, at);
    }
  }

  lemma BeforeLast(events: seq<Event>)
    requires events != []
    ensures var n := |events| - 1;
      var s := Run(START, events[..n]);
      && (s.token != NIL <==> Taken(events, n)) && (s.stop <==> SettingOn(events[..n]))
      && (s.breakpoint.Some? ==> s.token != NIL)
  {
    var n := |events| - 1;
    TokenExact(events[..n]);
    TakenBefore(events, n, n);
    SettingExact(events[..n]);
    StandingToken(events[..n]);
  }

  lemma {:induction false} StandingToken(events: seq<Event>)
    ensures Run(START, events).breakpoint.Some? ==> Run(START, events).token != NIL
  {
    if events != [] { StandingToken(events[..|events| - 1]); }
  }

  /** What the last event does to a standing breakpoint. */
  lemma StandingKept(events: seq<Event>, at: Spot)
    requires events != []
    requires var s := Run(START, events[..|events| - 1]);
      && (s.token != NIL <==> Taken(events, |events| - 1)) && (s.stop <==> SettingOn(events[..|events| - 1]))
      && (s.breakpoint.Some? ==> s.token != NIL)
    ensures var n := |events| - 1;
      Run(START, events).breakpoint == Some(at) <==>
        || SetUpAt(events, n, at)
        || (Run(START, events[..n]).breakpoint == Some(at) && events[n] != Cleared && !ReportedAt(events, n))
  {
  }

  /** A stop is reported as the entry exactly when the setting is on and the breakpoint stands there. */
  lemma ReportedExact(events: seq<Event>, i: nat, at: Spot)
    requires i < |events| && events[i] == Stopped(at)
    ensures ReportedAt(events, i) <==> SettingOn(events[..i]) && exists k: nat :: SetUpAt(events[..i], k, at)
  {
    SettingExact(events[..i]);
    StandingExact(events[..i], at);
  }

  /** Between two clearings at most one stop is reported as the entry. */
  lemma EntryOnce(events: seq<Event>, i: nat, j: nat)
    requires i < j < |events| && ReportedAt(events, i) && ReportedAt(events, j)
    ensures exists k | i < k < j :: events[k] == Cleared
  {
    if forall k | i < k < j :: events[k] != Cleared {
      StaysUsed(events, i, j);
      assert false;
    }
  }

  /** Once reported, the token stays and the breakpoint is gone, until a clearing. */
  lemma {:induction false} StaysUsed(events: seq<Event>, i: nat, j: nat)
    requires i < j < |events| && ReportedAt(events, i) && forall k | i < k < j :: events[k] != Cleared
    ensures var s := Run(START, events[..j]); s.token != NIL && s.breakpoint == None
    decreases j
  {
    if j == i + 1 {
      StandingExact(events[..i], events[i].at);
      TokenExact(events[..i]);
      assert events[..j][..i] == events[..i];
    } else {
      StaysUsed(events, i, j - 1);
      assert events[..j][..j - 1] == events[..j - 1];
    }
  }
}
