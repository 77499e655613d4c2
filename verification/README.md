# Verified models of the browser core's algorithms

Dafny 4.11 models of the parts of this repository that have real state, loops or arithmetic, with proofs of
what they promise. `dafny verify dfyconfig.toml` checks everything.

| file | models |
|---|---|
| `Prelude.dfy` | options, filtering of sequences |
| `Utf8.dfy` | UTF-8 decoding and encoding (sections 3 and 4 of RFC 3629, section 3.9 of the Unicode Standard); the salt count and the key repair of the legacy Crypto Wallets import |
| `WalletImport.dfy` | the legacy password, the vault and keyring decisions of the wallet importer |
| `Bisect.dfy` | the release bisector, its version lookup and its release filter |
| `ScopedBlocks.dfy` | the context managers that patch attributes and `sys.path`, as a language of nested blocks that may raise |
| `FeatureSwitches.dfy` | merging of `--enable-features` and `--disable-features` |
| `PresubmitOverrides.dfy` | layered presubmit checks, and the patching of the output API that forces errors |
| `PresubmitFiles.dfy` | the per-check file filter, around programs that may read, write, raise and call it again |
| `WalletConnections.dfy` | the connected Solana accounts of a tab and the delegates that change them |
| `DrmTab.dfy` | the Widevine opt-in of a tab |
| `TestReport.dfy` | the choice of a test iteration and the counts of the xunit report |
| `PolicyTemplate.dfy` | fixing policies and adding our own |

Code that updates state is modelled by methods and classes, each proved against a function; the theorems are
lemmas about those functions. Library calls (cryptography, Base64, JSON and regular expressions), the user's
answers and the filesystem are parameters. The theorems hold for whatever these return, with one exception:
`WalletImport.LegacyPasswordShape` assumes that HKDF fills the buffer it is given.

## What the proofs found

- For any history between a working left and a failing right end, the bisector reports a working release exactly
  when every release works that is tested on the way to the right end; the positions tested on that way depend
  on the two ends alone (`Bisect.RightPath`). With a single switch its report is the first broken release exactly
  when the release before the right end fails, so it is wrong exactly when the first broken release is the right
  end (`Bisect.BisectLoop`, `Bisect.RightEndMissed`). A range of fewer than three releases leaves `test_index`
  unassigned (`Bisect.TwoReleasesUntested`). The attempt count it returns is one too high whenever the loop ends
  at its guard instead of inside its body (`Bisect.RightEndMissed` has an input).
- The comment at `browser/brave_wallet/external_wallets_importer.cc:88-96` says that the character count of the
  salt is JavaScript's `salt.length`. It is so exactly when the salt is the encoding of scalar values below
  U+10000 (`Utf8.CountIsJsLength`); one emoji is counted once and has length two (`Utf8.CountBelowJsLength`).
- The importer's callback is run exactly once, except that a negative `hashLen`, keyrings that are no list and a
  first decisive keyring that is no dictionary end the process before it (`WalletImport.CallbackExactlyOnce`,
  `WalletImport.NegativeHashLenNeverAnswers`).
- `override_scope_function` restores by truth value, so a callable whose truth value is false stays wrapped
  (`ScopedBlocks.FunctionRestoredExactly`, `ScopedBlocks.FalseCallableStaysWrapped`).
- What a new helper reads after any run of feature-switch calls is known exactly (`FeatureSwitches.RunReads`): the
  pieces of the disabled names, and of the enabled names those pieces that are not among them; a list with a name
  that is not ASCII reads as empty, and the enable switch keeps its old value while no name is enabled. The sets
  are the same exactly when every name is ASCII, without commas, not empty, and without white space at its ends
  (`FeatureSwitches.RunAgrees`). An enabled name without such defects can be lost too: exactly when its list has a
  name that is not ASCII, or the disabled list has none and has the name among its pieces
  (`FeatureSwitches.NameSurvivesExactly`). Enabling `a` and disabling `a,b` reads back as `a` and `b` disabled
  (`FeatureSwitches.CleanNameLost`).
- 985000 characters is the exact snippet length from which a failed iteration can be preferred to a successful
  one (`TestReport.SuccessPreferredExactly`).
- `highest_id_currently_used` is never an upper bound of the ids after our policies have been added: they reach
  one above it, which still keeps all ids distinct over any number of applications
  (`PolicyTemplate.AddMisesConsistent`).
- A second pass of `FixPolicies` changes a policy exactly when it is named in one of the two lists
  (`PolicyTemplate.SecondPassExactly`).

## Model

| member | source | states |
|---|---|---|
| Utf8.ReadUnicodeCharacter | browser/brave_wallet/external_wallets_importer.cc:100-101 | the index comes back on the last byte of the part that starts there, and the call succeeds exactly for an encoded scalar value |
| Utf8.CountCharacters | browser/brave_wallet/external_wallets_importer.cc:97-103 | the loop counts the decodable parts of the salt, never more than its bytes |
| Utf8.CountOfEncoding | browser/brave_wallet/external_wallets_importer.cc:88-103 | on well-formed text the count is the number of scalar values |
| Utf8.CountIsJsLength | browser/brave_wallet/external_wallets_importer.cc:88-103 | the salt's count equals the UTF-16 length of the string it decodes to iff the salt encodes scalars below U+10000, and is smaller otherwise |
| Utf8.CountBelowJsLength | browser/brave_wallet/external_wallets_importer.cc:88-103 | a concrete salt with count 1 and length 2 |
| Utf8.RepairKey | browser/brave_wallet/external_wallets_importer.cc:125-134 | the loop writes the encoding of every decoded part, with U+FFFD for ill-formed ones |
| Utf8.MaximalSubpart | browser/brave_wallet/external_wallets_importer.cc:127-131 | a part is ill-formed iff no encoding is a prefix of the rest, and is then the longest prefix that starts an encoding, or one byte |
| Utf8.DecodeEncode | browser/brave_wallet/external_wallets_importer.cc:125-134 | decoding inverts encoding, whatever bytes follow |
| Utf8.RepairPrefix | browser/brave_wallet/external_wallets_importer.cc:121-134 | well-formed text in front is copied unchanged and does not affect the repair of the rest |
| Utf8.RepairCorrect | browser/brave_wallet/external_wallets_importer.cc:121-134 | the repair is well-formed for every byte string, is the identity iff its input is well-formed, and is idempotent |
| Utf8.RepairLength | browser/brave_wallet/external_wallets_importer.cc:125-134 | n bytes become between n and 3n bytes |
| Utf8.RepairIllFormed | browser/brave_wallet/external_wallets_importer.cc:125-134 | an ill-formed part becomes the bytes EF BF BD, and what follows it is repaired by itself |
| Utf8.EncodeOneExactly | browser/brave_wallet/external_wallets_importer.cc:133-133 | what is written for a scalar value: the shortest of the four forms, whose bits put together are the value |
| Utf8.JsLengthExactly | browser/brave_wallet/external_wallets_importer.cc:88-96 | the length that the count stands for is that of the UTF-16 text the salt decodes to |
| WalletImport.CountedPrefix | browser/brave_wallet/external_wallets_importer.cc:97-108 | the salt bytes given to argon2 are a prefix of the salt as long as its count |
| WalletImport.GetLegacyCryptoWalletsPassword | browser/brave_wallet/external_wallets_importer.cc:58-137 | the derived password, empty on every failure, aborting for a negative hashLen |
| WalletImport.ReadLegacyInputs | browser/brave_wallet/external_wallets_importer.cc:61-86 | the lookups, one after another, find the inputs of the specification |
| WalletImport.LegacyInputsExactly | browser/brave_wallet/external_wallets_importer.cc:61-86 | inputs are found iff each field is present, an integer, and the type is 2, and the salt is a string |
| WalletImport.LegacyPasswordShape | browser/brave_wallet/external_wallets_importer.cc:58-137 | exactly when no password is derived, and that a derived one is well-formed and of hashLen to 3 hashLen bytes |
| WalletImport.DerivedExactly | browser/brave_wallet/external_wallets_importer.cc:58-137 | a password is derived iff it is the repair of the key that HKDF makes of what argon2 makes of the stored time, memory, length and counted salt and of the given password |
| WalletImport.LeadingBytesLongest | browser/brave_wallet/external_wallets_importer.cc:377-384 | a mnemonic list is read up to its first item that is no integer, each integer truncated to a byte |
| WalletImport.ExternalWalletsImporter.ReadByteList | browser/brave_wallet/external_wallets_importer.cc:376-384 | the loop reads exactly that longest prefix |
| WalletImport.FirstDecisiveDecides | browser/brave_wallet/external_wallets_importer.cc:361-398 | neither the entries before nor those after the first decisive keyring influence the outcome |
| WalletImport.ExternalWalletsImporter.ScanKeyrings | browser/brave_wallet/external_wallets_importer.cc:359-411 | the scan with its early returns and its break gives the decided answer, whose fields SuccessMeaning tells |
| WalletImport.ExternalWalletsImporter.GetMnemonic | browser/brave_wallet/external_wallets_importer.cc:279-412 | the callback receives the decided answer |
| WalletImport.ExternalWalletsImporter.GetImportInfo | browser/brave_wallet/external_wallets_importer.cc:200-227 | the callback receives the decided answer for every storage value and password, once unless the process ends |
| WalletImport.ExternalWalletsImporter.ReadVault | browser/brave_wallet/external_wallets_importer.cc:291-357 | the stages, one after another, give the result of the specification |
| WalletImport.OpenVaultExactly | browser/brave_wallet/external_wallets_importer.cc:291-357 | the vault opens iff it holds ciphertext that decrypts to JSON; the password is blamed iff it holds ciphertext that does not decrypt; every other failure is the JSON's |
| WalletImport.SuccessExactly | browser/brave_wallet/external_wallets_importer.cc:200-412 | a request succeeds iff the vault opens to a list whose first decisive entry is an HD key tree with a mnemonic |
| WalletImport.SuccessMeaning | browser/brave_wallet/external_wallets_importer.cc:200-412 | each field of a successful answer, read off the storage and the decrypted keyrings: mnemonic, account count and legacy flag; other answers have empty fields |
| WalletImport.OpenedExactly | browser/brave_wallet/external_wallets_importer.cc:205-357 | the keyrings are found iff the given or the derived password, whichever applies, decrypts the stored ciphertext to JSON text for them |
| WalletImport.ErrorMeaning | browser/brave_wallet/external_wallets_importer.cc:205-354 | internal errors come before initialization or without a derived password, password errors from an empty password or ciphertext that does not decrypt |
| WalletImport.CallbackExactlyOnce | browser/brave_wallet/external_wallets_importer.cc:200-412 | one answer, or none in exactly three cases |
| WalletImport.NegativeHashLenNeverAnswers | browser/brave_wallet/external_wallets_importer.cc:105-105 | a concrete storage for which no callback is ever run |
| Bisect.BisectLoop | script/build-bisect.py:375-407 | for any history between a working left and a failing right end: a broken release after a working one is found; which position is reported, and that it is a working release exactly when all releases on the path to the right end work; at most log2(span)+1 tests, none repeated; with a single switch, exactly when the report is right |
| Bisect.RightEndMissed | script/build-bisect.py:378-407 | a concrete history in which a working release is reported and one test too many is counted |
| Bisect.TwoReleasesUntested | script/build-bisect.py:378-407 | a concrete range for which nothing is tested |
| Bisect.TestBoundHalves | script/build-bisect.py:378-405 | halving the span of untested releases lowers the bound on further tests by at least one |
| Bisect.TestBoundExact | script/build-bisect.py:378-405 | the bound on the tests is pinned between the powers of two around the span |
| Bisect.Log2Exact | script/build-bisect.py:378-405 | the bound is the binary logarithm |
| Bisect.FindFirstBrokenVersion | script/build-bisect.py:326-407 | every exit, exactly when it is taken, the reported position and the attempt count, for every combination of known good and bad versions; a working release is reported exactly when all releases on the path to the right end work |
| Bisect.EndsInRange | script/build-bisect.py:331-349 | both ends of the searched range lie in the list |
| Bisect.EndsExact | script/build-bisect.py:305-349 | a good version starts the range at itself or at the first release of its block, a bad one ends it at itself or at the last release of its block, and otherwise the end of the list is taken |
| Bisect.LessExactly | script/build-bisect.py:430-430 | the order of the releases is decided by the first part in which two of them differ |
| Bisect.NearestIndexExact | script/build-bisect.py:305-323 | a present version is found where it stands, an absent one stands for the first or last release of its major.minor, or the default |
| Bisect.BlockContiguous | script/build-bisect.py:312-323 | releases that share major.minor are adjacent in the sorted list |
| Bisect.FilterReleases | script/build-bisect.py:95-134 | exactly the three-part releases with an installer, of the branch and of the channel if these are given, are kept, in order and still sorted |
| ScopedBlocks.Runtime.Run | script/override_utils.py:71-129 | running nested blocks in place has the effect of the semantic function, for normal and exceptional endings |
| ScopedBlocks.Runtime.OverrideScopeFunction | script/override_utils.py:71-103 | the function context manager, with its finally block |
| ScopedBlocks.Runtime.OverrideScopeVariable | script/override_utils.py:105-129 | the variable context manager, with its finally block |
| ScopedBlocks.Runtime.SysPath | script/import_inline.py:58-74 | the path context manager, with its finally block |
| ScopedBlocks.LookupsRestored | script/override_utils.py:71-129 | after every program and every exception, each attribute not written directly has its old value or is absent again |
| ScopedBlocks.PatchingIsScoping | script/override_utils.py:71-129 | every program that writes no attribute itself reads the same values and ends the same way as if overrides were bindings visible in the bodies of their blocks alone |
| ScopedBlocks.FunctionLeft | script/override_utils.py:79-103 | what any function override leaves, whatever its body does to the name |
| ScopedBlocks.FunctionSeen | script/override_utils.py:79-100 | the body sees a wrapper around the new function and the original, bound iff the original is a method |
| ScopedBlocks.VariableSeen | script/override_utils.py:117-124 | the body sees the new value |
| ScopedBlocks.PathSeen | script/import_inline.py:59-68 | the body has the directory inserted in the path, unless it was there before |
| ScopedBlocks.OverridesRefused | script/override_utils.py:74-119 | an override of what is missing or not callable raises before its body, and a false condition leaves the body alone |
| ScopedBlocks.InsertPlaces | script/import_inline.py:63-66 | where the entry stands for no position and for positions within the list, beyond it, and negative ones |
| ScopedBlocks.FunctionRestoredExactly | script/override_utils.py:79-103 | where the body does not write the name itself, a function override is undone iff the original is not a callable with a false truth value |
| ScopedBlocks.FalseCallableStaysWrapped | script/override_utils.py:101-103 | a concrete scope that is not restored |
| ScopedBlocks.PathRestored | script/import_inline.py:58-74 | `sys.path` is the same list after every nesting, with any positions, repeated paths and exceptions |
| ScopedBlocks.UndoInsert | script/import_inline.py:61-74 | undoing the insertion of an absent path at any position gives the list back |
| FeatureSwitches.PrintParse | app/mises_command_line_helper.cc:30-40 | printing a list in any order and parsing it is the identity iff all its names are clean |
| FeatureSwitches.NamesClean | app/mises_command_line_helper.cc:30-40 | parsing yields only trimmed, non-empty, comma-free names |
| FeatureSwitches.NamesExactly | app/mises_command_line_helper.cc:30-40 | a name is parsed iff it is clean and stands between the commas with nothing but white space around it |
| FeatureSwitches.SplitJoins | app/mises_command_line_helper.cc:36-37 | the text is cut at all of its commas and nothing is lost |
| FeatureSwitches.ParsedExactly | app/mises_command_line_helper.cc:15-57 | name by name, what a new helper reads from the two switches |
| FeatureSwitches.FirstMentionDecides | app/mises_command_line_helper.cc:42-79 | over any run of calls a feature's status is fixed by its first mention; the two sets are disjoint and only grow |
| FeatureSwitches.PrintPieces | app/mises_command_line_helper.cc:30-96 | a list printed in any order is parsed as the union of what its names are parsed as |
| FeatureSwitches.CleanExactly | app/mises_command_line_helper.cc:30-40 | a name is parsed as itself iff it is clean |
| FeatureSwitches.RunReads | app/mises_command_line_helper.cc:15-96 | what a new helper reads after every call of any run, whatever names its calls have |
| FeatureSwitches.NameSurvivesExactly | app/mises_command_line_helper.cc:15-96 | name by name, when a disabled and when an enabled feature is still so for a new helper |
| FeatureSwitches.CleanNameLost | app/mises_command_line_helper.cc:65-96 | a concrete call after which a clean enabled name is read as disabled |
| FeatureSwitches.NewHelperAgrees | app/mises_command_line_helper.cc:65-96 | what a new helper reads after one call, and that it is the same sets iff all their names are clean and ASCII |
| FeatureSwitches.RunAgrees | app/mises_command_line_helper.cc:65-96 | after every call of any run a new helper has the same sets iff all their names are clean and ASCII |
| FeatureSwitches.CommaSplitsName | app/mises_command_line_helper.cc:65-96 | a concrete call after which a new helper reads two features for one |
| FeatureSwitches.MisesCommandLineHelper.constructor | app/mises_command_line_helper.cc:15-18 | a new helper holds what the command line says, disabling first |
| FeatureSwitches.MisesCommandLineHelper.ParseCSV | app/mises_command_line_helper.cc:30-40 | the parsed names are added to the set |
| FeatureSwitches.MisesCommandLineHelper.Parse | app/mises_command_line_helper.cc:42-57 | the erasing loop removes exactly the enabled names that are also disabled |
| FeatureSwitches.MisesCommandLineHelper.AppendFeatures | app/mises_command_line_helper.cc:65-84 | the merged sets do not depend on iteration order, and non-empty ones are written back |
| FeatureSwitches.MisesCommandLineHelper.AppendCSV | app/mises_command_line_helper.cc:86-96 | every element of the set is printed once, separated by commas |
| PresubmitOverrides.NoopAbsorbs | script/chromium_presubmit_overrides.py:44-46 | a layered check reports as many messages as its original in the context its layers make, and none iff a no-op is among them or the original reports none |
| PresubmitOverrides.ForceErrorDecides | script/chromium_presubmit_overrides.py:182-192 | a check with forced errors runs as if warnings were errors, whatever the other layers |
| PresubmitOverrides.ForceErrorPatches | script/chromium_presubmit_overrides.py:182-187 | that flag is a scoped patch of the output API: the check reads the error class for the warning, a missing attribute raises, and the API reads the same afterwards |
| PresubmitOverrides.StackLayers | script/override_utils.py:28-37 | layers nest with the last installed outermost |
| PresubmitOverrides.ConfiguredChecks | script/chromium_presubmit_overrides.py:82-192 | disabled checks stay empty and forced ones stay forced under every later wrapper |
| PresubmitOverrides.AppliedChecks | script/chromium_presubmit_overrides.py:241-249 | the same once the first check has been wrapped as well |
| PresubmitOverrides.GlobalRuns | script/chromium_presubmit_overrides.py:82-249 | which context each global check that is not disabled runs its original in: by its name, by the configuration, and by being the first |
| PresubmitOverrides.CannedRuns | script/chromium_presubmit_overrides.py:120-192 | the same for the canned checks, whose check for patch formatting has its messages reworded |
| PresubmitOverrides.FirstCheckExactly | script/chromium_presubmit_overrides.py:73-78 | the first key that starts with Check and is callable, and failure iff there is none |
| PresubmitOverrides.InstalledSnoc | script/override_utils.py:13-41 | one more override wraps its own entry once more and leaves every other entry alone |
| PresubmitOverrides.CheckScope.OverrideFunction | script/override_utils.py:13-41 | a missing function raises, a false condition changes nothing |
| PresubmitOverrides.CheckScope.OverrideCheck | script/chromium_presubmit_overrides.py:52-69 | a missing check changes nothing |
| PresubmitOverrides.CheckScope.ApplyGenericCheckOverrides | script/chromium_presubmit_overrides.py:178-192 | every entry becomes its own composition of the configured layers |
| PresubmitOverrides.CheckScope.OverrideGlobalChecks | script/chromium_presubmit_overrides.py:82-116 | the same for the global checks, with their two wrappers on top |
| PresubmitOverrides.CheckScope.OverrideCannedChecks | script/chromium_presubmit_overrides.py:120-167 | the same for the canned checks, with theirs |
| PresubmitOverrides.CheckScope.Apply | script/chromium_presubmit_overrides.py:241-249 | the first check gets the outermost layer, and a scope without one raises |
| PresubmitFiles.Change.GetCheckNames | script/chromium_presubmit_overrides.py:200-209 | exactly the check functions on the stack below the runner |
| PresubmitFiles.Change.GetFilesToSkip | script/chromium_presubmit_overrides.py:213-217 | exactly the patterns of those checks, in any iteration order |
| PresubmitFiles.Change.FileFilter | script/chromium_presubmit_overrides.py:226-231 | a file is kept iff no pattern matches its path |
| PresubmitFiles.Change.AffectedFiles | script/chromium_presubmit_overrides.py:219-238 | the original, which may read, write, raise and call again, runs with the filtered list, which is put back afterwards |
| PresubmitFiles.Change.FilterFiles | script/chromium_presubmit_overrides.py:221-233 | the loops compute the files that no check on the stack skips, in their order |
| PresubmitFiles.ReadsAreFiltered | script/chromium_presubmit_overrides.py:219-238 | at every depth of nested calls and after every exception a read shows the files that no enclosing stack skips, and the list ends as it began |
| PresubmitFiles.CallFilters | script/chromium_presubmit_overrides.py:219-238 | the same for a whole call; its list is put back even if the original writes it |
| PresubmitFiles.VisibleTwice | script/chromium_presubmit_overrides.py:219-238 | filtering for two stacks is filtering for both at once |
| PresubmitFiles.ShownExactly | script/chromium_presubmit_overrides.py:213-231 | a file is shown iff no pattern listed for a check on the stack matches its path with backslashes replaced by slashes |
| PresubmitFiles.StackNamesExactly | script/chromium_presubmit_overrides.py:200-209 | the names are those of the checks below the runner, and frames above it do not matter |
| PresubmitFiles.CallsAreOverrides | script/chromium_presubmit_overrides.py:235-238 | the filtered calls are variable-override blocks of ScopedBlocks: run as such they read the same lists and end the same way, and the attribute reads as before |
| WalletConnections.ConnectedExactly | browser/brave_wallet/brave_wallet_tab_helper.cc:36-68 | after any trace a pair is connected iff the latest event about it is its addition |
| WalletConnections.FramesIndependent | browser/brave_wallet/brave_wallet_tab_helper.cc:36-68 | a frame's accounts depend on its own events alone |
| WalletConnections.BraveWalletTabHelper.AddSolanaConnectedAccount | browser/brave_wallet/brave_wallet_tab_helper.cc:36-44 | takes the addition step |
| WalletConnections.BraveWalletTabHelper.RemoveSolanaConnectedAccount | browser/brave_wallet/brave_wallet_tab_helper.cc:46-54 | takes the removal step |
| WalletConnections.BraveWalletTabHelper.IsSolanaAccountConnected | browser/brave_wallet/brave_wallet_tab_helper.cc:56-63 | reports the pair's connection |
| WalletConnections.BraveWalletTabHelper.ClearSolanaConnectedAccounts | browser/brave_wallet/brave_wallet_tab_helper.cc:65-68 | takes the clearing step |
| WalletConnections.BraveWalletProviderDelegate.AddSolanaConnectedAccount | browser/brave_wallet/brave_wallet_provider_delegate_impl.cc:230-238 | adds for the delegate's own frame while its web contents live |
| WalletConnections.BraveWalletProviderDelegate.RemoveSolanaConnectedAccount | browser/brave_wallet/brave_wallet_provider_delegate_impl.cc:240-248 | removes for the delegate's own frame while its web contents live |
| WalletConnections.BraveWalletProviderDelegate.IsSolanaAccountConnected | browser/brave_wallet/brave_wallet_provider_delegate_impl.cc:250-260 | reports no connection without web contents or helper |
| WalletConnections.BraveWalletProviderDelegate.RenderFrameHostChanged | browser/brave_wallet/brave_wallet_provider_delegate_impl.cc:266-276 | clears only when the delegate's own frame is replaced |
| WalletConnections.BraveWalletProviderDelegate.PrimaryPageChanged | browser/brave_wallet/brave_wallet_provider_delegate_impl.cc:278-285 | clears the delegate's own frame |
| WalletConnections.NotifyPrimaryPageChanged | browser/brave_wallet/brave_wallet_provider_delegate_impl.cc:278-285 | once every delegate is told, exactly the frames of live delegates have no connection left |
| WalletConnections.ReportedExactly | browser/brave_wallet/brave_wallet_provider_delegate_impl.cc:230-285 | over every trace of connections, replaced frames, page changes and destroyed contents, with several delegates on one tab, an account is reported iff the contents live and the latest event about its frame and account is a connection |
| WalletConnections.Deliver | browser/brave_wallet/brave_wallet_provider_delegate_impl.cc:230-285 | delivering an event to the delegates it concerns takes that step |
| WalletConnections.NotifyRenderFrameHostChanged | browser/brave_wallet/brave_wallet_provider_delegate_impl.cc:266-276 | told to every delegate, a replaced frame is cleared iff some delegate has it |
| DrmTab.PermissionExactly | browser/mises_drm_tab_helper.cc:89-111 | over every trace the permission flag stands for a prompt since the last navigation, and implies a request |
| DrmTab.ResetBetweenPrompts | browser/mises_drm_tab_helper.cc:89-111 | between two opt-in prompts the main frame navigates to another document |
| DrmTab.OptInsBounded | browser/mises_drm_tab_helper.cc:89-111 | opt-in prompts are at most one more than those navigations |
| DrmTab.HandledOnce | browser/mises_drm_tab_helper.cc:113-133 | the component's arrival is reacted to at most once |
| DrmTab.ReactionsExactly | browser/mises_drm_tab_helper.cc:50-133 | after every trace and on each platform, exactly when an event asks for the opt-in, a restart or a reload |
| DrmTab.FlagsExactly | browser/mises_drm_tab_helper.cc:50-133 | the request flag stands for a request since the last navigation, and observing ends with the arrival alone |
| DrmTab.MisesDrmTabHelper.constructor | browser/mises_drm_tab_helper.cc:50-60 | the updater is observed only off Android and while the component is not registered |
| DrmTab.MisesDrmTabHelper.DidStartNavigation | browser/mises_drm_tab_helper.cc:89-97 | takes the navigation step |
| DrmTab.MisesDrmTabHelper.OnWidevineKeySystemAccessRequest | browser/mises_drm_tab_helper.cc:99-111 | takes the request step and prompts when it says so |
| DrmTab.MisesDrmTabHelper.OnEvent | browser/mises_drm_tab_helper.cc:113-133 | takes the component step with the reaction of each platform |
| TestReport.PicksEarliestBest | script/json2xunit.py:26-39 | the picked iteration is the first of those with the highest score |
| TestReport.PreferredExactly | script/json2xunit.py:29-38 | which of two iterations scores higher: 2500 characters a marker, three times that for the announcement of the test, success above all |
| TestReport.SuccessPreferredExactly | script/json2xunit.py:29-39 | a success is always picked iff failed snippets stay below 985000 characters |
| TestReport.RSplitAtLast | script/json2xunit.py:49-50 | the suite and the case are what stands before and after the last delimiter |
| TestReport.JudgeExactly | script/json2xunit.py:48-62 | the verdict of a test is the success of its earliest best iteration, under the suite before its last delimiter |
| TestReport.RaisesExactly | script/json2xunit.py:39-50 | a test raises iff it has no iteration or its name no delimiter |
| TestReport.TalliedBump | script/json2xunit.py:53-66 | counting one more test keeps every suite's counts and both totals right |
| TestReport.Transform | script/json2xunit.py:42-77 | fails iff some test raises; otherwise every suite has one row with its own counts, in the order of first appearance, and the totals count every test and every failure once, a failure being an unsuccessful earliest best iteration |
| PolicyTemplate.SecondPassExactly | script/policy_source_helper.py:55-84 | a second pass changes nothing iff the policy is named in neither list |
| PolicyTemplate.FixOneExactly | script/policy_source_helper.py:55-84 | which platforms a pass appends to which policies, and when it fails |
| PolicyTemplate.TorSettles | script/policy_source_helper.py:11-53 | with the repository's lists the Tor policy gains iOS once |
| PolicyTemplate.IpfsSettled | script/policy_source_helper.py:11-53 | with the repository's lists the IPFS policy is left alone |
| PolicyTemplate.NeedFixForIOS | script/policy_source_helper.py:55-70 | the three loops decide whether iOS is to be added |
| PolicyTemplate.TemplateFile.FixPolicies | script/policy_source_helper.py:74-84 | the pass over all policies, failing exactly on an Android-listed policy without platforms |
| PolicyTemplate.TemplateFile.AddMisesPolicies | script/policy_source_helper.py:88-142 | the fixed policies followed by ours, with their new ids and the new record |
| PolicyTemplate.AddMisesDistinctExactly | script/policy_source_helper.py:134-142 | one application keeps ids distinct iff the two new ids are unused |
| PolicyTemplate.AddMisesConsistent | script/policy_source_helper.py:134-142 | ids stay distinct and at most one above the record, and exceed the record |
| PolicyTemplate.AddMisesTimes | script/policy_source_helper.py:88-142 | the same over any number of applications, with old ids kept and two policies added by each |

## Left out

- Bisect.NearestIndexExact: assumes release numbers without leading zeros and compares parts as numbers, because the script sorts by number but compares text; releases are assumed sorted without repetition.
- Bisect.FindFirstBrokenVersion: the user's answer is a function of the release, so answers that change between two tests of one release are not modelled; only the left end can be tested twice, once before the loop and once in it.
- WalletImport.CallbackExactlyOnce: does not model resource exhaustion; a very large positive `hashLen` can end the process at the allocation of the two buffers.
- WalletImport.ExternalWalletsImporter.GetImportInfo: the reply of the thread pool is a direct call, and a reply dropped because the importer is gone is not modelled.
- PresubmitOverrides.CheckScope.OverrideFunction: the scope is one dictionary; lookups through a class are modelled in ScopedBlocks.
- PresubmitOverrides.NoopAbsorbs: what a layer other than the error-forcing one does to its check is only a change of the context the check runs in; message rewording is a parameter.
- ScopedBlocks.LookupsRestored: attributes are plain dictionary entries; properties and slots are not modelled, and path names are taken as already normalized.
- TestReport.PicksEarliestBest: the pattern class `\w` is modelled for ASCII text.
- The sort of the releases by the bisector, whose result is the order of `Bisect.LessExactly` under Python 2, which the script is written for (it calls `raw_input`).
- `override_method`, which installs permanently as `override_function` does, and `get_gn_arg`, which reads a file.
- Permission requests, origins, visibility and panels of the provider delegate: calls into code that is not part of this model.
- XML text, escaping and times of the report; `FixPolicyData`, which adds the same policies without ids.
- Argon2, HKDF, PBKDF2, AES, Base64, JSON parsing, downloads, GitHub and git: parameters or left out.
