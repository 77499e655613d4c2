/** The Widevine opt-in of a tab: which events prompt, and how often. */
module DrmTab {
  import opened Prelude

  datatype Platform = Android | Linux | Desktop

  datatype Event =
    | Navigation(mainFrame: bool, sameDocument: bool)
    | AccessRequest(enabled: bool, ask: bool)                           // with the answers of the two preferences
    | ComponentEvent(updated: bool, isWidevine: bool, tabActive: bool)

  datatype State = State(widevineRequested: bool, permissionRequested: bool, observing: bool)

  datatype Reaction = Nothing | OptIn(forRestart: bool) | RestartPrompt | Reload

  predicate Resets(e: Event) {
    e.Navigation? && e.mainFrame && !e.sameDocument
  }

  /** A request for which the preferences allow the prompt. */
  predicate Asks(e: Event) {
    e.AccessRequest? && !e.enabled && e.ask
  }

  predicate Handled(s: State, e: Event) {
    s.observing && e.ComponentEvent? && e.updated && e.isWidevine
  }

  function Initial(p: Platform, registered: bool): State {
    State(false, false, p != Android && !registered)
  }

  function Next(s: State, e: Event): State {
    match e
    case Navigation(_, _) => if Resets(e) then s.(widevineRequested := false, permissionRequested := false) else s
    case AccessRequest(_, _) =>
      s.(widevineRequested := true, permissionRequested := s.permissionRequested || Asks(e))
    case ComponentEvent(_, _, _) => if Handled(s, e) then s.(observing := false) else s
  }

  function React(p: Platform, s: State, e: Event): Reaction {
    if Asks(e) && !s.permissionRequested then OptIn(p == Android)
    else if Handled(s, e) && s.widevineRequested then
      if p == Linux then RestartPrompt else if e.tabActive then Reload else Nothing
    else Nothing
  }

  function After(s: State, trace: seq<Event>): State {
    if trace == [] then s else Next(After(s, trace[..|trace| - 1]), trace[|trace| - 1])
  }

  // ---------------------------------------------------------------- properties of every trace

  /** An earlier request of the same page already had its prompt. */
  ghost predicate AskedSinceReset(trace: seq<Event>) {
    BegunLast(trace, Asks, Resets)
  }

  /** The permission flag stands exactly for a prompt since the last navigation away, and implies a request. */
  lemma {:induction false} PermissionExactly(p: Platform, registered: bool, trace: seq<Event>)
    ensures var s := After(Initial(p, registered), trace);
            && (s.permissionRequested <==> AskedSinceReset(trace))
            && (s.permissionRequested ==> s.widevineRequested)
  {
    if trace != [] {
      var n := |trace| - 1;
      PermissionExactly(p, registered, trace[..n]);
      BegunLastSnoc(trace[..n], trace[n], Asks, Resets);
      assert trace == trace[..n] + [trace[n]];
    }
  }

  predicate OptsInAt(p: Platform, registered: bool, trace: seq<Event>, k: nat)
    requires k < |trace|
  {
    React(p, After(Initial(p, registered), trace[..k]), trace[k]).OptIn?
  }

  /** Between two opt-in prompts the main frame has navigated to another document. */
  lemma ResetBetweenPrompts(p: Platform, registered: bool, trace: seq<Event>, m: nat, n: nat)
    requires m < n < |trace| && OptsInAt(p, registered, trace, m) && OptsInAt(p, registered, trace, n)
    ensures exists k :: m < k < n && Resets(trace[k])
  {
    PermissionExactly(p, registered, trace[..n]);
    assert Asks(trace[..n][m]);
    var k :| m < k < n && Resets(trace[..n][k]);
    assert Resets(trace[k]);
  }

  function OptIns(p: Platform, registered: bool, trace: seq<Event>): nat {
    if trace == [] then 0
    else OptIns(p, registered, trace[..|trace| - 1])
         + if React(p, After(Initial(p, registered), trace[..|trace| - 1]), trace[|trace| - 1]).OptIn? then 1 else 0
  }

  function Navigations(trace: seq<Event>): nat {
    if trace == [] then 0
    else Navigations(trace[..|trace| - 1]) + if Resets(trace[|trace| - 1]) then 1 else 0
  }

  lemma {:induction false} OptInsBounded(p: Platform, registered: bool, trace: seq<Event>)
    ensures OptIns(p, registered, trace) <= 1 + Navigations(trace)
    ensures !After(Initial(p, registered), trace).permissionRequested ==>
              OptIns(p, registered, trace) <= Navigations(trace)
  {
    if trace != [] {
      OptInsBounded(p, registered, trace[..|trace| - 1]);
    }
  }

  /** The arrival of the component is reacted to at most once in the life of a tab, and never on Android. */
  lemma {:induction false} HandledOnce(p: Platform, registered: bool, trace: seq<Event>, m: nat, n: nat)
    requires m < n <= |trace| && Handled(After(Initial(p, registered), trace[..m]), trace[m])
    ensures !After(Initial(p, registered), trace[..n]).observing
    ensures p != Android && !registered
  {
    if n == m + 1 {
      assert trace[..n][..m] == trace[..m];
      StopsObserving(p, registered, trace[..m]);
    } else {
      HandledOnce(p, registered, trace, m, n - 1);
      assert trace[..n][..n - 1] == trace[..n - 1];
    }
  }

  lemma {:induction false} StopsObserving(p: Platform, registered: bool, trace: seq<Event>)
    ensures After(Initial(p, registered), trace).observing ==> Initial(p, registered).observing
  {
    if trace != [] {
      StopsObserving(p, registered, trace[..|trace| - 1]);
    }
  }

  // ---------------------------------------------------------------- when the browser is asked for something

  /** A request since the main frame last went to another document. */
  ghost predicate RequestedSinceReset(trace: seq<Event>) {
    BegunLast(trace, (e: Event) => e.AccessRequest?, Resets)
  }

  /** The request flag stands for a request since the last navigation away, and only arrivals end the observing. */
  lemma {:induction false} FlagsExactly(p: Platform, registered: bool, trace: seq<Event>)
    ensures var s := After(Initial(p, registered), trace);
            && (s.widevineRequested <==> RequestedSinceReset(trace))
            && (s.observing <==> p != Android && !registered && forall e :: e in trace ==> !Arrives(e))
  {
    if trace != [] {
      var n := |trace| - 1;
      FlagsExactly(p, registered, trace[..n]);
      BegunLastSnoc(trace[..n], trace[n], (e: Event) => e.AccessRequest?, Resets);
      assert trace == trace[..n] + [trace[n]];
      assert forall e :: e in trace <==> e in trace[..n] || e == trace[n];
      assert forall s :: Handled(s, trace[n]) <==> s.observing && Arrives(trace[n]);
    }
  }

  /** The Widevine component has been updated. */
  predicate Arrives(e: Event) {
    e == ComponentEvent(true, true, true) || e == ComponentEvent(true, true, false)
  }

  /**
    What each event of a trace asks of the browser: the first request of a page that may be prompted for asks for
    the opt-in, for a restart on Android alone; the first arrival of a component that was not registered, while
    its page has requested it, asks for a restart on Linux, and elsewhere off Android for a reload if the tab is
    the active one; nothing else asks for anything.
   */
  lemma ReactionsExactly(p: Platform, registered: bool, before: seq<Event>, e: Event)
    ensures var r := React(p, After(Initial(p, registered), before), e);
            var prompts := e == AccessRequest(false, true) && !AskedSinceReset(before);
            var arrives := p != Android && !registered && Arrives(e) && (forall d :: d in before ==> !Arrives(d))
                           && RequestedSinceReset(before);
            && (r == OptIn(true) <==> prompts && p == Android)
            && (r == OptIn(false) <==> prompts && p != Android)
            && (r == RestartPrompt <==> arrives && p == Linux)
            && (r == Reload <==> arrives && p == Desktop && e.tabActive)
  {
    PermissionExactly(p, registered, before);
    FlagsExactly(p, registered, before);
  }

  // ---------------------------------------------------------------- the tab helper

  class MisesDrmTabHelper {
    const platform: Platform
    var isPermissionRequested: bool
    var isWidevineRequested: bool
    var observing: bool
    var reactions: seq<Reaction>  // the prompts and reloads asked of the browser

    function Now(): State
      reads this
    {
      State(isWidevineRequested, isPermissionRequested, observing)
    }

    constructor (platform: Platform, registered: bool)
      ensures this.platform == platform && Now() == Initial(platform, registered) && reactions == []
    {
      this.platform := platform;
      isPermissionRequested, isWidevineRequested := false, false;
      observing := platform != Android && !registered;
      reactions := [];
    }

    function Log(r: Reaction): seq<Reaction> {
      if r == Nothing then [] else [r]
    }

    method DidStartNavigation(mainFrame: bool, sameDocument: bool)
      modifies this
      ensures Now() == Next(old(Now()), Navigation(mainFrame, sameDocument)) && reactions == old(reactions)
    {
      if !mainFrame || sameDocument {
        return;
      }
      isWidevineRequested := false;
      isPermissionRequested := false;
    }

    function ShouldShowWidevineOptIn(enabled: bool, ask: bool): bool
      reads this
    {
      if enabled || !ask then false else isWidevineRequested
    }

    method OnWidevineKeySystemAccessRequest(enabled: bool, ask: bool)
      modifies this
      ensures Now() == Next(old(Now()), AccessRequest(enabled, ask))
      ensures reactions == old(reactions) + Log(React(platform, old(Now()), AccessRequest(enabled, ask)))
    {
      isWidevineRequested := true;
      var forRestart := platform == Android;
      if ShouldShowWidevineOptIn(enabled, ask) && !isPermissionRequested {
        isPermissionRequested := true;
        reactions := reactions + [OptIn(forRestart)];
      }
    }

    /** Delivered only while the tab observes the updater. */
    method OnEvent(updated: bool, isWidevine: bool, tabActive: bool)
      requires observing && platform != Android
      modifies this
      ensures Now() == Next(old(Now()), ComponentEvent(updated, isWidevine, tabActive))
      ensures reactions
           == old(reactions) + Log(React(platform, old(Now()), ComponentEvent(updated, isWidevine, tabActive)))
    {
      if updated && isWidevine {
        if isWidevineRequested {
          if platform == Linux {
            reactions := reactions + [RestartPrompt];
          } else if tabActive {
            reactions := reactions + [Reload];
          }
        }
        observing := false;
      }
    }
  }
}
