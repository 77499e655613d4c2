/**
  The Solana accounts a tab reports as connected, kept per frame, and the provider delegates that change
  them as their frames and pages come and go.
 */
module WalletConnections {
  import opened Prelude

  type FrameId = nat
  type Account = string
  type Connections = map<FrameId, set<Account>>

  predicate Connected(c: Connections, frame: FrameId, account: Account) {
    frame in c && account in c[frame]
  }

  // ---------------------------------------------------------------- event traces

  datatype Event =
    | Add(frame: FrameId, account: Account)
    | Remove(frame: FrameId, account: Account)
    | Clear(frame: FrameId)

  function Step(c: Connections, e: Event): Connections {
    match e
    case Add(f, a) => c[f := (if f in c then c[f] else {}) + {a}]
    case Remove(f, a) => if f in c then c[f := c[f] - {a}] else c
    case Clear(f) => c - {f}
  }

  function Run(trace: seq<Event>): Connections {
    if trace == [] then map[] else Step(Run(trace[..|trace| - 1]), trace[|trace| - 1])
  }

  predicate Adds(e: Event, frame: FrameId, account: Account) {
    e == Add(frame, account)
  }

  predicate Drops(e: Event, frame: FrameId, account: Account) {
    e == Remove(frame, account) || e == Clear(frame)
  }

  /** The latest event that concerns the pair is its addition. */
  ghost predicate AddedLast(trace: seq<Event>, frame: FrameId, account: Account) {
    BegunLast(trace, (e: Event) => Adds(e, frame, account), (e: Event) => Drops(e, frame, account))
  }

  /** A pair is connected after any trace exactly when the latest event about it is its addition. */
  lemma {:induction false} ConnectedExactly(trace: seq<Event>, frame: FrameId, account: Account)
    ensures Connected(Run(trace), frame, account) <==> AddedLast(trace, frame, account)
  {
    if trace != [] {
      var n := |trace| - 1;
      ConnectedExactly(trace[..n], frame, account);
      BegunLastSnoc(trace[..n], trace[n],
                    (e: Event) => Adds(e, frame, account), (e: Event) => Drops(e, frame, account));
      assert trace == trace[..n] + [trace[n]];
    }
  }

  predicate SameFor(c: Connections, d: Connections, frame: FrameId) {
    (frame in c <==> frame in d) && (frame in c ==> c[frame] == d[frame])
  }

  lemma StepFor(c: Connections, d: Connections, e: Event, frame: FrameId)
    requires SameFor(c, d, frame)
    ensures SameFor(Step(c, e), if e.frame == frame then Step(d, e) else d, frame)
  {
  }

  function OnFrame(trace: seq<Event>, frame: FrameId): seq<Event> {
    Filter(trace, (e: Event) => e.frame == frame)
  }

  /** What a frame is connected to depends on its own events alone. */
  lemma {:induction false} FramesIndependent(trace: seq<Event>, frame: FrameId)
    ensures SameFor(Run(trace), Run(OnFrame(trace, frame)), frame)
  {
    if trace != [] {
      var n := |trace| - 1;
      var own := OnFrame(trace[..n], frame);
      FramesIndependent(trace[..n], frame);
      assert trace == trace[..n] + [trace[n]];
      FilterSnoc(trace[..n], trace[n], (e: Event) => e.frame == frame);
      StepFor(Run(trace[..n]), Run(own), trace[n], frame);
      assert (own + [trace[n]])[..|own|] == own;
    }
  }

  // ---------------------------------------------------------------- the tab helper

  class BraveWalletTabHelper {
    var solanaConnectedAccounts: Connections

    method AddSolanaConnectedAccount(id: FrameId, account: Account)
      modifies this
      ensures solanaConnectedAccounts == Step(old(solanaConnectedAccounts), Add(id, account))
    {
      var connectionSet: set<Account> := {};
      if id in solanaConnectedAccounts {
        connectionSet := solanaConnectedAccounts[id];
      }
      connectionSet := connectionSet + {account};
      solanaConnectedAccounts := solanaConnectedAccounts[id := connectionSet];
    }

    method RemoveSolanaConnectedAccount(id: FrameId, account: Account)
      modifies this
      ensures solanaConnectedAccounts == Step(old(solanaConnectedAccounts), Remove(id, account))
    {
      if id !in solanaConnectedAccounts {
        return;
      }
      var connectionSet := solanaConnectedAccounts[id];
      connectionSet := connectionSet - {account};
      solanaConnectedAccounts := solanaConnectedAccounts[id := connectionSet];
    }

    method IsSolanaAccountConnected(id: FrameId, account: Account) returns (connected: bool)
      ensures connected == Connected(solanaConnectedAccounts, id, account)
    {
      if id !in solanaConnectedAccounts {
        return false;
      }
      var connectionSet := solanaConnectedAccounts[id];
      connected := account in connectionSet;
    }

    method ClearSolanaConnectedAccounts(id: FrameId)
      modifies this
      ensures solanaConnectedAccounts == Step(old(solanaConnectedAccounts), Clear(id))
    {
      solanaConnectedAccounts := solanaConnectedAccounts - {id};
    }
  }

  // ---------------------------------------------------------------- the delegates

  class WebContents {
    const helper: BraveWalletTabHelper?
  }

  /** The helper a delegate reaches: none once its web contents are gone. */
  class BraveWalletProviderDelegate {
    const hostId: FrameId
    var webContents: WebContents?

    function Helper(): BraveWalletTabHelper?
      reads this
    {
      if webContents == null then null else webContents.helper
    }

    method AddSolanaConnectedAccount(account: Account)
      modifies Helper()
      ensures Helper() != null ==>
                Helper().solanaConnectedAccounts == Step(old(Helper().solanaConnectedAccounts), Add(hostId, account))
    {
      if Helper() != null {
        Helper().AddSolanaConnectedAccount(hostId, account);
      }
    }

    method RemoveSolanaConnectedAccount(account: Account)
      modifies Helper()
      ensures Helper() != null ==>
                Helper().solanaConnectedAccounts == Step(old(Helper().solanaConnectedAccounts), Remove(hostId, account))
    {
      if Helper() != null {
        Helper().RemoveSolanaConnectedAccount(hostId, account);
      }
    }

    method IsSolanaAccountConnected(account: Account) returns (connected: bool)
      ensures connected <==> Helper() != null && Connected(Helper().solanaConnectedAccounts, hostId, account)
    {
      if Helper() == null {
        return false;
      }
      connected := Helper().IsSolanaAccountConnected(hostId, account);
    }

    method WebContentsDestroyed()
      modifies this
      ensures webContents == null
    {
      webContents := null;
    }

    /** Only the delegate's own frame matters; observers are not notified once their web contents are gone. */
    method RenderFrameHostChanged(oldHost: Option<FrameId>)
      requires oldHost == Some(hostId) ==> webContents != null
      modifies Helper()
      ensures Helper() != null ==>
                Helper().solanaConnectedAccounts
                == if oldHost == Some(hostId) then Step(old(Helper().solanaConnectedAccounts), Clear(hostId))
                   else old(Helper().solanaConnectedAccounts)
    {
      if oldHost != Some(hostId) {
        return;
      }
      if Helper() != null {
        Helper().ClearSolanaConnectedAccounts(hostId);
      }
    }

    method PrimaryPageChanged()
      modifies Helper()
      ensures Helper() != null ==>
                Helper().solanaConnectedAccounts == Step(old(Helper().solanaConnectedAccounts), Clear(hostId))
    {
      if Helper() != null {
        Helper().ClearSolanaConnectedAccounts(hostId);
      }
    }
  }

  function LiveHosts(delegates: seq<BraveWalletProviderDelegate>, helper: BraveWalletTabHelper): set<FrameId>
    reads delegates
  {
    set d | d in delegates && d.Helper() == helper :: d.hostId
  }

  /** The page change told to every delegate, in any order: exactly the frames of live delegates are cleared. */
  method NotifyPrimaryPageChanged(delegates: seq<BraveWalletProviderDelegate>, helper: BraveWalletTabHelper)
    requires forall d :: d in delegates ==> d.Helper() == helper || d.Helper() == null
    modifies helper
    ensures helper.solanaConnectedAccounts == old(helper.solanaConnectedAccounts) - old(LiveHosts(delegates, helper))
    ensures forall d, account :: d in delegates && d.Helper() == helper ==>
              !Connected(helper.solanaConnectedAccounts, d.hostId, account)
  {
    for n := 0 to |delegates|
      invariant helper.solanaConnectedAccounts
             == old(helper.solanaConnectedAccounts) - old(LiveHosts(delegates[..n], helper))
    {
      assert delegates[..n + 1] == delegates[..n] + [delegates[n]];
      if delegates[n].webContents != null {
        delegates[n].PrimaryPageChanged();
      }
    }
    assert delegates[..|delegates|] == delegates;
  }

  // ---------------------------------------------------------------- several delegates on one tab

  /** What the delegates of a tab are asked or told; they share its helper, and several may have one frame. */
  datatype TabEvent =
    | Connect(delegate: nat, account: Account)
    | Disconnect(delegate: nat, account: Account)
    | HostReplaced(host: FrameId)
    | PageChanged
    | ContentsDestroyed

  datatype Tab = Tab(connections: Connections, alive: bool)

  function TabStep(hosts: seq<FrameId>, t: Tab, e: TabEvent): Tab {
    if !t.alive then t
    else match e
      case Connect(d, a) => if d < |hosts| then t.(connections := Step(t.connections, Add(hosts[d], a))) else t
      case Disconnect(d, a) => if d < |hosts| then t.(connections := Step(t.connections, Remove(hosts[d], a))) else t
      case HostReplaced(h) => if h in hosts then t.(connections := Step(t.connections, Clear(h))) else t
      case PageChanged => t.(connections := t.connections - HostSet(hosts))
      case ContentsDestroyed => t.(alive := false)
  }

  function HostSet(hosts: seq<FrameId>): set<FrameId> {
    set h | h in hosts
  }

  function TabRun(hosts: seq<FrameId>, trace: seq<TabEvent>): Tab {
    if trace == [] then Tab(map[], true)
    else TabStep(hosts, TabRun(hosts, trace[..|trace| - 1]), trace[|trace| - 1])
  }

  /** Some delegate of the frame connects the account. */
  predicate Begins(hosts: seq<FrameId>, e: TabEvent, frame: FrameId, account: Account) {
    e.Connect? && e.delegate < |hosts| && hosts[e.delegate] == frame && e.account == account
  }

  /** Some delegate of the frame disconnects the account, or is told that its frame or page is gone. */
  predicate Ends(hosts: seq<FrameId>, e: TabEvent, frame: FrameId, account: Account) {
    match e
    case Disconnect(d, a) => d < |hosts| && hosts[d] == frame && a == account
    case HostReplaced(h) => h == frame && h in hosts
    case PageChanged => frame in hosts
    case _ => false
  }

  /** The latest event that concerns the frame and the account, through whichever delegate, connects it. */
  ghost predicate ConnectedLast(hosts: seq<FrameId>, trace: seq<TabEvent>, frame: FrameId, account: Account) {
    BegunLast(trace, (e: TabEvent) => Begins(hosts, e, frame, account),
              (e: TabEvent) => Ends(hosts, e, frame, account))
  }

  /**
    After any trace of delegate events a delegate reports an account as connected exactly when the web contents
    still live and the latest event that concerns its frame and the account, through whichever delegate, is a
    connection.
   */
  lemma {:induction false} ReportedExactly(hosts: seq<FrameId>, trace: seq<TabEvent>, d: nat, account: Account)
    requires d < |hosts|
    ensures var t := TabRun(hosts, trace);
            && (t.alive <==> ContentsDestroyed !in trace)
            && (t.alive && Connected(t.connections, hosts[d], account) <==>
                ContentsDestroyed !in trace && ConnectedLast(hosts, trace, hosts[d], account))
  {
    if trace != [] {
      var n := |trace| - 1;
      ReportedExactly(hosts, trace[..n], d, account);
      BegunLastSnoc(trace[..n], trace[n], (e: TabEvent) => Begins(hosts, e, hosts[d], account),
                    (e: TabEvent) => Ends(hosts, e, hosts[d], account));
      assert trace == trace[..n] + [trace[n]];
    }
  }

  function Hosts(delegates: seq<BraveWalletProviderDelegate>): seq<FrameId> {
    seq(|delegates|, n requires 0 <= n < |delegates| => delegates[n].hostId)
  }

  /** While the web contents live, every delegate reaches this helper through them; afterwards none does. */
  ghost predicate Attached(delegates: seq<BraveWalletProviderDelegate>, helper: BraveWalletTabHelper, alive: bool)
    reads delegates
  {
    forall d :: d in delegates ==>
      if alive then d.webContents != null && d.webContents.helper == helper else d.webContents == null
  }

  /** One event is delivered to the delegates it concerns. */
  method Deliver(delegates: seq<BraveWalletProviderDelegate>, helper: BraveWalletTabHelper, e: TabEvent, alive: bool)
      returns (after: bool)
    requires Attached(delegates, helper, alive)
    modifies helper, delegates
    ensures Attached(delegates, helper, after)
    ensures Tab(helper.solanaConnectedAccounts, after)
         == TabStep(Hosts(delegates), Tab(old(helper.solanaConnectedAccounts), alive), e)
  {
    after := alive;
    match e {
      case Connect(d, account) =>
        if d < |delegates| {
          delegates[d].AddSolanaConnectedAccount(account);
        }
      case Disconnect(d, account) =>
        if d < |delegates| {
          delegates[d].RemoveSolanaConnectedAccount(account);
        }
      case HostReplaced(host) =>
        if alive {
          NotifyRenderFrameHostChanged(delegates, helper, host);
        }
      case PageChanged =>
        if alive {
          NotifyPrimaryPageChanged(delegates, helper);
          assert LiveHosts(delegates, helper) == HostSet(Hosts(delegates)) by {
            HostsAreLive(delegates, helper);
          }
        }
      case ContentsDestroyed =>
        for n := 0 to |delegates|
          invariant forall k :: 0 <= k < n ==> delegates[k].webContents == null
          invariant helper.solanaConnectedAccounts == old(helper.solanaConnectedAccounts)
        {
          delegates[n].WebContentsDestroyed();
        }
        after := false;
    }
  }

  lemma HostsAreLive(delegates: seq<BraveWalletProviderDelegate>, helper: BraveWalletTabHelper)
    requires Attached(delegates, helper, true)
    ensures LiveHosts(delegates, helper) == HostSet(Hosts(delegates))
  {
    var hosts := Hosts(delegates);
    forall h | h in LiveHosts(delegates, helper) ensures h in hosts {
      var d :| d in delegates && d.Helper() == helper && d.hostId == h;
      var n :| 0 <= n < |delegates| && delegates[n] == d;
      assert hosts[n] == h;
    }
    forall h | h in hosts ensures h in LiveHosts(delegates, helper) {
      var n :| 0 <= n < |hosts| && hosts[n] == h;
      assert delegates[n] in delegates;
    }
  }

  method NotifyRenderFrameHostChanged(delegates: seq<BraveWalletProviderDelegate>, helper: BraveWalletTabHelper,
                                      host: FrameId)
    requires Attached(delegates, helper, true)
    modifies helper
    ensures helper.solanaConnectedAccounts
         == if host in Hosts(delegates) then Step(old(helper.solanaConnectedAccounts), Clear(host))
            else old(helper.solanaConnectedAccounts)
  {
    for n := 0 to |delegates|
      invariant helper.solanaConnectedAccounts
             == if host in Hosts(delegates)[..n] then Step(old(helper.solanaConnectedAccounts), Clear(host))
                else old(helper.solanaConnectedAccounts)
    {
      assert Hosts(delegates)[..n + 1] == Hosts(delegates)[..n] + [delegates[n].hostId];
      delegates[n].RenderFrameHostChanged(Some(host));
    }
    assert Hosts(delegates)[..|delegates|] == Hosts(delegates);
  }
}
