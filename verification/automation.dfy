/** The automation session's single-view limit (`automation_views_limit_reached`
    with its `create-web-view` and `will-close` handlers in main.c): the launcher
    owns one browser view and hands it to at most one automation client at a time. */
module Automation {
  import opened Wrappers

  /** The handler state: whether the one view is currently handed out. */
  datatype Session = Session(limitReached: bool)

  /** The flag starts clear. */
  const Initial: Session := Session(false)

  /** `create-web-view`: hands out `view` when the flag is clear and sets it;
      while it is set, refuses with NULL and leaves it set. */
  function CreateWebView<V>(s: Session, view: V): (r: (Option<V>, Session))
    ensures r.0.Some? <==> !s.limitReached
    ensures r.0.Some? ==> r.0.value == view
    ensures r.1.limitReached
  {
    if s.limitReached then (None, s)
    else (Some(view), Session(true))
  }

  /** `will-close`: clears the flag. */
  function WillClose(s: Session): (r: Session)
    ensures !r.limitReached
  {
    Session(false)
  }

  /** The two signals the session may emit. */
  datatype Event = Create | Close

  /** Replays a sequence of signals from `s`: the final state, and for each event
      whether it handed the view out (a Close never does). */
  function Run(s: Session, events: seq<Event>): (r: (Session, seq<bool>))
    ensures |r.1| == |events|
    ensures forall i :: 0 <= i < |events| && r.1[i] ==> events[i] == Create
  {
    if |events| == 0 then (s, [])
    else
      var (mid, granted) := Run(s, events[..|events| - 1]);
      match events[|events| - 1]
      case Create =>
        var (view, next) := CreateWebView(mid, ());
        (next, granted + [view.Some?])
      case Close => (WillClose(mid), granted + [false])
  }

  /** Reference reading of the flag: some Create occurs after the last Close. */
  ghost predicate Attached(events: seq<Event>) {
    exists k :: 0 <= k < |events| && events[k] == Create && Close !in events[k + 1..]
  }

  /** Replaying from the initial state, the flag is set exactly when a view is
      attached in the reference sense. */
  lemma {:induction false} RunFlagIsAttached(events: seq<Event>)
    ensures Run(Initial, events).0.limitReached <==> Attached(events)
  {
    if |events| > 0 {
      var n := |events| - 1;
      if events[n] == Create {
        assert events[n + 1..] == [];
      } else {
        forall k | 0 <= k < n
          ensures !(events[k] == Create && Close !in events[k + 1..])
        {
          assert events[k + 1..][n - k - 1] == Close;
        }
      }
    }
  }

  /** Replaying is compositional: the grants for a prefix are kept. */
  lemma {:induction false} RunPrefix(events: seq<Event>, m: nat)
    requires m <= |events|
    ensures Run(Initial, events[..m]).1 == Run(Initial, events).1[..m]
    decreases |events|
  {
    if m < |events| {
      var n := |events| - 1;
      assert events[..n][..m] == events[..m];
      RunPrefix(events[..n], m);
    } else {
      assert events[..m] == events;
    }
  }

  /** A Create hands the view out exactly when no view is attached before it. */
  lemma RunGrants(events: seq<Event>, i: nat)
    requires i < |events|
    ensures Run(Initial, events).1[i] <==> events[i] == Create && !Attached(events[..i])
  {
    RunPrefix(events, i + 1);
    RunFlagIsAttached(events[..i]);
    assert events[..i + 1][..i] == events[..i];
  }

  /** The single-view limit: between any two successful Creates there is a Close,
      so no second view is ever handed out while one is attached. */
  lemma AtMostOneAttached(events: seq<Event>, i: nat, j: nat)
    requires i < j < |events|
    requires Run(Initial, events).1[i] && Run(Initial, events).1[j]
    ensures Close in events[i + 1..j]
  {
    RunGrants(events, i);
    RunGrants(events, j);
    var before := events[..j];
    assert before[i] == Create;
    assert before[i + 1..] == events[i + 1..j];
  }

  /** After a Close the next Create always succeeds. */
  lemma CloseReenablesCreate(s: Session)
    ensures CreateWebView(WillClose(s), ()).0.Some?
  {
  }
}
