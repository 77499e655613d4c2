/** The policy template: platform support added to Chromium's policies, and policies of our own with new ids. */
module PolicyTemplate {
  import opened Prelude

  datatype Policy = Policy(name: string, id: int, supportedOn: Option<seq<string>>)

  /** The names that are fixed on every pass, whatever they support already. */
  datatype FixLists = FixLists(android: set<string>, ios: set<string>)

  const MISES_FIXES := FixLists(
    {"CloudExtensionRequestEnabled", "BlockExternalExtensions", "ChromeAppsWebViewPermissiveBehaviorAllowed",
     "ExtensionAllowInsecureUpdates", "ExtensionAllowedTypes",
     "ExtensionExtendedBackgroundLifetimeForPortConnectionsToUrls", "ExtensionInstallAllowlist",
     "ExtensionInstallBlocklist", "ExtensionInstallForcelist", "ExtensionInstallSources",
     "ExtensionManifestV2Availability", "ExtensionSettings", "ExtensionUnpublishedAvailability",
     "AllowDeletingBrowserHistory", "AllowFileSelectionDialogs", "AutoLaunchProtocolsFromOrigins",
     "AutoOpenFileTypes", "BrowserGuestModeEnabled", "BrowserThemeColor", "DefaultDownloadDirectory",
     "DeveloperToolsAvailability", "DeveloperToolsDisabled", "DiskCacheDir", "DownloadDirectory",
     "FullscreenAllowed", "HeadlessMode", "ManagedAccountsSigninRestriction", "NTPCustomBackgroundEnabled",
     "WebAppSettings", "Startup-RestoreOnStartup", "RestoreOnStartup", "ExtensionDeveloperModeSettings"},
    {"FullscreenAllowed", "IsolatedAppsDeveloperModeAllowed", "DefaultMidiSetting", "MidiAllowedForUrls",
     "MidiBlockedForUrls", "CloudProfileReportingEnabled"})

  const ANDROID := "android:112-"
  const IOS := "ios:120-"

  // ---------------------------------------------------------------- fixing policies

  predicate AnyStartsWith(platforms: seq<string>, prefix: string) {
    exists p :: p in platforms && prefix <= p
  }

  /** Named in the list, or supported on every desktop or on the Mac while nothing is said about iOS. */
  predicate NeedsIOS(p: Policy, fix: FixLists) {
    || p.name in fix.ios
    || (&& p.supportedOn.Some?
        && !AnyStartsWith(p.supportedOn.value, "ios")
        && (AnyStartsWith(p.supportedOn.value, "chrome.*:") || AnyStartsWith(p.supportedOn.value, "chrome.mac:")))
  }

  function Supports(p: Policy, platform: string): Policy {
    p.(supportedOn := Some((if p.supportedOn.Some? then p.supportedOn.value else []) + [platform]))
  }

  /** None is the KeyError of a policy in the Android list without a list of platforms. */
  function FixOne(p: Policy, fix: FixLists): Option<Policy> {
    if p.name in fix.android && p.supportedOn.None? then None
    else
      var q := if p.name in fix.android then Supports(p, ANDROID) else p;
      Some(if NeedsIOS(q, fix) then Supports(q, IOS) else q)
  }

  ghost predicate Mentions(p: Policy, prefix: string) {
    p.supportedOn.Some? && exists k :: 0 <= k < |p.supportedOn.value| && prefix <= p.supportedOn.value[k]
  }

  lemma MentionsExactly(p: Policy, prefix: string)
    ensures Mentions(p, prefix) <==> p.supportedOn.Some? && AnyStartsWith(p.supportedOn.value, prefix)
  {
    if Mentions(p, prefix) {
      var k :| 0 <= k < |p.supportedOn.value| && prefix <= p.supportedOn.value[k];
      assert p.supportedOn.value[k] in p.supportedOn.value;
    }
    if p.supportedOn.Some? && AnyStartsWith(p.supportedOn.value, prefix) {
      var platform :| platform in p.supportedOn.value && prefix <= platform;
      var k :| 0 <= k < |p.supportedOn.value| && p.supportedOn.value[k] == platform;
    }
  }

  /** What a pass adds: Android for the policies listed for it, and after that iOS. */
  ghost function Gained(p: Policy, fix: FixLists): seq<string> {
    (if p.name in fix.android then ["android:112-"] else [])
    + (if p.name in fix.ios || (!Mentions(p, "ios") && (Mentions(p, "chrome.*:") || Mentions(p, "chrome.mac:")))
       then ["ios:120-"] else [])
  }

  /**
    A pass fails on an Android-listed policy without platforms, and otherwise appends Android to those of an
    Android-listed policy, and then iOS to those of one that is iOS-listed, or is for all desktops or the Mac and
    says nothing about iOS. It changes nothing else.
   */
  lemma FixOneExactly(p: Policy, fix: FixLists)
    ensures FixOne(p, fix) ==
            if p.name in fix.android && p.supportedOn == None then None
            else if Gained(p, fix) == [] then Some(p)
            else if p.supportedOn == None then Some(Policy(p.name, p.id, Some(Gained(p, fix))))
            else Some(Policy(p.name, p.id, Some(p.supportedOn.value + Gained(p, fix))))
  {
    MentionsExactly(p, "ios");
    MentionsExactly(p, "chrome.*:");
    MentionsExactly(p, "chrome.mac:");
    if p.supportedOn.Some? {
      AndroidApart(p.supportedOn.value);
      Associative(p.supportedOn.value, [ANDROID], [IOS]);
    }
    assert [] + [IOS] == [IOS] && [ANDROID] + [] == [ANDROID];
  }

  lemma AndroidApart(platforms: seq<string>)
    ensures AnyStartsWith(platforms + [ANDROID], "ios") == AnyStartsWith(platforms, "ios")
    ensures AnyStartsWith(platforms + [ANDROID], "chrome.*:") == AnyStartsWith(platforms, "chrome.*:")
    ensures AnyStartsWith(platforms + [ANDROID], "chrome.mac:") == AnyStartsWith(platforms, "chrome.mac:")
  {
    AnyStartsWithSnoc(platforms, ANDROID, "ios");
    AnyStartsWithSnoc(platforms, ANDROID, "chrome.*:");
    AnyStartsWithSnoc(platforms, ANDROID, "chrome.mac:");
    assert ANDROID[0] == 'a' && "ios"[0] == 'i' && "chrome.*:"[0] == 'c' && "chrome.mac:"[0] == 'c';
  }

  ghost predicate Fixable(ps: seq<Policy>, fix: FixLists) {
    forall p :: p in ps ==> FixOne(p, fix).Some?
  }

  function FixAll(ps: seq<Policy>, fix: FixLists): seq<Policy>
    requires Fixable(ps, fix)
  {
    seq(|ps|, i requires 0 <= i < |ps| => FixOne(ps[i], fix).value)
  }

  lemma AnyStartsWithSnoc(platforms: seq<string>, platform: string, prefix: string)
    ensures AnyStartsWith(platforms + [platform], prefix) <==> AnyStartsWith(platforms, prefix) || prefix <= platform
  {
    var all := platforms + [platform];
    assert all[|platforms|] == platform && platform in all;
    if AnyStartsWith(platforms, prefix) {
      var p :| p in platforms && prefix <= p;
      assert p in all;
    }
  }

  /** A second pass leaves a policy as the first one made it exactly when it is named in neither list. */
  lemma SecondPassExactly(p: Policy, fix: FixLists)
    requires FixOne(p, fix).Some?
    ensures var q := FixOne(p, fix).value;
            && q.name == p.name && q.id == p.id && FixOne(q, fix).Some?
            && (FixOne(q, fix) == Some(q) <==> p.name !in fix.android && p.name !in fix.ios)
  {
    var q := FixOne(p, fix).value;
    if p.name !in fix.android && NeedsIOS(p, fix) && p.supportedOn.Some? {
      assert "ios" <= IOS;
      AnyStartsWithSnoc(p.supportedOn.value, IOS, "ios");
    }
    if p.name in fix.android {
      assert |FixOne(q, fix).value.supportedOn.value| > |q.supportedOn.value|;
    }
    if p.name in fix.ios {
      assert |FixOne(q, fix).value.supportedOn.value| > (if q.supportedOn.Some? then |q.supportedOn.value| else 0);
    }
  }

  // ---------------------------------------------------------------- our own policies

  datatype Template = Template(policies: seq<Policy>, highestId: int)

  function Tor(id: int): Policy {
    Policy("TorDisabled", id, Some(["chrome.win:78-", "chrome.mac:93-", "chrome.linux:93-"]))
  }

  function Ipfs(id: int): Policy {
    Policy("IPFSEnabled", id, Some(["chrome.*:87-", ANDROID, IOS]))
  }

  /** The first new id is two above the recorded one, while the record moves by the number of policies. */
  function AddMises(t: Template, fix: FixLists): Template
    requires Fixable(t.policies, fix)
  {
    Template(FixAll(t.policies, fix) + [Tor(t.highestId + 2), Ipfs(t.highestId + 3)], t.highestId + 2)
  }

  ghost predicate DistinctIds(ps: seq<Policy>) {
    forall i, j :: 0 <= i < j < |ps| ==> ps[i].id != ps[j].id
  }

  ghost predicate IdsUpTo(ps: seq<Policy>, limit: int) {
    forall p :: p in ps ==> p.id <= limit
  }

  ghost predicate Consistent(t: Template) {
    DistinctIds(t.policies) && IdsUpTo(t.policies, t.highestId + 1)
  }

  /** One application keeps ids distinct exactly when the two new ones are unused. */
  lemma AddMisesDistinctExactly(t: Template, fix: FixLists)
    requires Fixable(t.policies, fix) && DistinctIds(t.policies)
    ensures DistinctIds(AddMises(t, fix).policies)
       <==> forall p :: p in t.policies ==> p.id != t.highestId + 2 && p.id != t.highestId + 3
  {
    var n := |t.policies|;
    var after := AddMises(t, fix).policies;
    FixAllKeepsIds(t.policies, fix);
    assert after[n] == Tor(t.highestId + 2) && after[n + 1] == Ipfs(t.highestId + 3);
    assert forall k :: 0 <= k < n ==> after[k].id == t.policies[k].id;
    if DistinctIds(after) {
      forall p | p in t.policies ensures p.id != t.highestId + 2 && p.id != t.highestId + 3 {
        var k :| 0 <= k < n && t.policies[k] == p;
        assert after[k].id == p.id;
      }
    }
  }

  lemma FixAllKeepsIds(ps: seq<Policy>, fix: FixLists)
    requires Fixable(ps, fix)
    ensures forall k :: 0 <= k < |ps| ==> FixAll(ps, fix)[k].id == ps[k].id
    ensures Fixable(FixAll(ps, fix), fix)
  {
    forall k | 0 <= k < |ps| ensures FixAll(ps, fix)[k].id == ps[k].id && FixOne(FixAll(ps, fix)[k], fix).Some? {
      SecondPassExactly(ps[k], fix);
    }
  }

  /**
    An application keeps the ids distinct and at most one above the record, and the next one can be made.
    It never leaves them at most the record itself.
   */
  lemma AddMisesConsistent(t: Template, fix: FixLists)
    requires Fixable(t.policies, fix) && Consistent(t)
    ensures var after := AddMises(t, fix);
            && Consistent(after) && Fixable(after.policies, fix)
            && !IdsUpTo(after.policies, after.highestId)
  {
    var n := |t.policies|;
    var after := AddMises(t, fix);
    FixAllKeepsIds(t.policies, fix);
    AddMisesDistinctExactly(t, fix);
    assert after.policies[n + 1] == Ipfs(t.highestId + 3);
    forall p | p in after.policies ensures p.id <= after.highestId + 1 && FixOne(p, fix).Some? {
      var k :| 0 <= k < |after.policies| && after.policies[k] == p;
      if k < n {
        assert FixAll(t.policies, fix)[k] in FixAll(t.policies, fix) && t.policies[k] in t.policies;
      }
    }
  }

  /** Any number of applications, started from a consistent template that can be fixed. */
  function AddMisesTimes(t: Template, fix: FixLists, times: nat): (r: Template)
    requires Fixable(t.policies, fix) && Consistent(t)
    ensures Fixable(r.policies, fix) && Consistent(r)
    ensures |r.policies| == |t.policies| + 2 * times && r.highestId == t.highestId + 2 * times
    ensures forall k :: 0 <= k < |t.policies| ==> r.policies[k].id == t.policies[k].id
    ensures times > 0 ==> !IdsUpTo(r.policies, r.highestId)
  {
    if times == 0 then t
    else
      var before := AddMisesTimes(t, fix, times - 1);
      AddMisesConsistent(before, fix);
      FixAllKeepsIds(before.policies, fix);
      AddMises(before, fix)
  }

  /** With the repository's own lists the Tor policy gains iOS on the first pass and nothing later. */
  lemma TorSettles(id: int)
    ensures Tor(id) == Policy("TorDisabled", id, Some(["chrome.win:78-", "chrome.mac:93-", "chrome.linux:93-"]))
    ensures FixOne(Tor(id), MISES_FIXES) == Some(Supports(Tor(id), "ios:120-"))
    ensures FixOne(Supports(Tor(id), "ios:120-"), MISES_FIXES) == Some(Supports(Tor(id), "ios:120-"))
  {
    var tor := Tor(id).supportedOn.value;
    assert tor[1] in tor && "chrome.mac:" <= tor[1];
    forall p | p in tor ensures !("ios" <= p) {
      assert p[0] == 'c' && "ios"[0] == 'i';
    }
    SecondPassExactly(Tor(id), MISES_FIXES);
  }

  /** The IPFS policy, which names iOS from the start, is left as it is. */
  lemma IpfsSettled(id: int)
    ensures FixOne(Ipfs(id), MISES_FIXES) == Some(Ipfs(id))
  {
    assert IOS in Ipfs(id).supportedOn.value && "ios" <= IOS;
  }

  // ---------------------------------------------------------------- the same, changing the template in place

  method NeedFixForIOS(policy: Policy, fix: FixLists) returns (need: bool)
    ensures need <==> NeedsIOS(policy, fix)
  {
    if policy.name in fix.ios {
      return true;
    }
    if policy.supportedOn.None? {
      return false;
    }
    var platforms := policy.supportedOn.value;
    var ios := ScanFor(platforms, "ios");
    if ios {
      return false;
    }
    var everywhere := ScanFor(platforms, "chrome.*:");
    if everywhere {
      return true;
    }
    need := ScanFor(platforms, "chrome.mac:");
  }

  method ScanFor(platforms: seq<string>, prefix: string) returns (found: bool)
    ensures found <==> AnyStartsWith(platforms, prefix)
  {
    for n := 0 to |platforms|
      invariant forall k :: 0 <= k < n ==> !(prefix <= platforms[k])
    {
      if prefix <= platforms[n] {
        assert platforms[n] in platforms;
        return true;
      }
    }
    found := false;
  }

  class TemplateFile {
    var policyDefinitions: seq<Policy>
    var highestIdCurrentlyUsed: int

    function Now(): Template
      reads this
    {
      Template(policyDefinitions, highestIdCurrentlyUsed)
    }

    /** False stands for the KeyError. */
    method FixPolicies(fix: FixLists) returns (ok: bool)
      modifies this
      ensures ok <==> Fixable(old(policyDefinitions), fix)
      ensures ok ==> policyDefinitions == FixAll(old(policyDefinitions), fix)
      ensures highestIdCurrentlyUsed == old(highestIdCurrentlyUsed)
    {
      ghost var before := policyDefinitions;
      for n := 0 to |policyDefinitions|
        invariant |policyDefinitions| == |before| && highestIdCurrentlyUsed == old(highestIdCurrentlyUsed)
        invariant forall k :: 0 <= k < n ==> FixOne(before[k], fix) == Some(policyDefinitions[k])
        invariant forall k :: n <= k < |before| ==> policyDefinitions[k] == before[k]
      {
        var policy := policyDefinitions[n];
        if policy.name in fix.android {
          if policy.supportedOn.None? {
            assert before[n] in before;
            return false;
          }
          policy := Supports(policy, ANDROID);
        }
        var needed := NeedFixForIOS(policy, fix);
        if needed {
          policy := Supports(policy, IOS);
        }
        policyDefinitions := policyDefinitions[n := policy];
      }
      ok := true;
    }

    method AddMisesPolicies(fix: FixLists) returns (ok: bool)
      modifies this
      ensures ok <==> Fixable(old(policyDefinitions), fix)
      ensures ok ==> Now() == AddMises(old(Now()), fix)
      ensures ok ==> var n, highest := |old(policyDefinitions)|, old(highestIdCurrentlyUsed);
                     && |policyDefinitions| == n + 2 && highestIdCurrentlyUsed == highest + 2
                     && policyDefinitions[n].name == "TorDisabled" && policyDefinitions[n].id == highest + 2
                     && policyDefinitions[n + 1].name == "IPFSEnabled" && policyDefinitions[n + 1].id == highest + 3
    {
      var highestId := highestIdCurrentlyUsed;
      ok := FixPolicies(fix);
      if !ok {
        return;
      }
      ghost var fixed := policyDefinitions;
      var added := [Tor(0), Ipfs(1)];
      var nextId := highestId + 1;
      for n := 0 to |added|
        invariant nextId == highestId + 1 + n && highestIdCurrentlyUsed == highestId
        invariant policyDefinitions == fixed + [Tor(highestId + 2), Ipfs(highestId + 3)][..n]
      {
        nextId := nextId + 1;
        policyDefinitions := policyDefinitions + [added[n].(id := nextId)];
      }
      highestIdCurrentlyUsed := highestId + |added|;
    }
  }
}
