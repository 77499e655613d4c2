/** The presubmit overrides: checks wrapped in layers inside a scope. */
module PresubmitOverrides {
  import opened Prelude

  import S = ScopedBlocks

  // ---------------------------------------------------------------- layered checks

  datatype Layer = Noop | ForceError | IncludeGuards | AllFiles | PatchFormat | ChangedPylint | ModifyInput

  datatype Check = Original(id: nat) | Wrapped(layer: Layer, inner: Check)

  datatype Entry = Function(check: Check) | NotCallable

  type Scope = map<string, Entry>

  /** What the layers change for the check they wrap, for as long as it runs. */
  datatype Context = Context(
    warningsAreErrors: bool, guardsPrefixed: bool, filesUnfiltered: bool,
    patchFormatFlags: bool, changedFilesOnly: bool, inputModified: bool)

  function Enter(layer: Layer, c: Context): Context {
    match layer
    case Noop => c
    case ForceError => c.(warningsAreErrors := true)
    case IncludeGuards => c.(guardsPrefixed := true)
    case AllFiles => c.(filesUnfiltered := true)
    case PatchFormat => c.(patchFormatFlags := true)
    case ChangedPylint => c.(changedFilesOnly := true)
    case ModifyInput => c.(inputModified := true)
  }

  type Message = string

  /** The original checks and the replacement of message text. */
  datatype World = World(run: (nat, Context) -> seq<Message>, reword: Message -> Message)

  function Reword(ms: seq<Message>, w: World): seq<Message> {
    seq(|ms|, i requires 0 <= i < |ms| => w.reword(ms[i]))
  }

  function Eval(check: Check, c: Context, w: World): seq<Message> {
    match check
    case Original(id) => w.run(id, c)
    case Wrapped(Noop, _) => []
    case Wrapped(PatchFormat, inner) => Reword(Eval(inner, Enter(PatchFormat, c), w), w)
    case Wrapped(layer, inner) => Eval(inner, Enter(layer, c), w)
  }

  function Layers(check: Check): seq<Layer> {
    match check
    case Original(_) => []
    case Wrapped(layer, inner) => [layer] + Layers(inner)
  }

  function Core(check: Check): nat {
    match check
    case Original(id) => id
    case Wrapped(_, inner) => Core(inner)
  }

  function EnterAll(layers: seq<Layer>, c: Context): Context {
    if layers == [] then c else EnterAll(layers[1..], Enter(layers[0], c))
  }

  /** A check reports nothing exactly when a no-op is among its layers or its original reports nothing. */
  lemma {:induction false} NoopAbsorbs(check: Check, c: Context, w: World)
    ensures |Eval(check, c, w)|
         == if Noop in Layers(check) then 0 else |w.run(Core(check), EnterAll(Layers(check), c))|
  {
    if check.Wrapped? && !check.layer.Noop? {
      NoopAbsorbs(check.inner, Enter(check.layer, c), w);
    }
  }

  /** The context with the flags of all the given layers. */
  function Flags(c: Context, layers: set<Layer>): Context {
    Context(c.warningsAreErrors || ForceError in layers, c.guardsPrefixed || IncludeGuards in layers,
            c.filesUnfiltered || AllFiles in layers, c.patchFormatFlags || PatchFormat in layers,
            c.changedFilesOnly || ChangedPylint in layers, c.inputModified || ModifyInput in layers)
  }

  function AsSet(layers: seq<Layer>): set<Layer> {
    set layer | layer in layers
  }

  lemma AsSetConcat(a: seq<Layer>, b: seq<Layer>)
    ensures AsSet(a + b) == AsSet(a) + AsSet(b)
  {
  }

  lemma FlagsTwice(c: Context, layer: Layer, more: set<Layer>)
    ensures Flags(Enter(layer, c), more) == Flags(c, {layer} + more)
  {
  }

  /** Every layer sets its own flag of the context, and no other. */
  lemma {:induction false} EnterAllExactly(layers: seq<Layer>, c: Context)
    ensures EnterAll(layers, c) == Flags(c, AsSet(layers))
    decreases layers
  {
    if layers == [] {
      assert AsSet(layers) == {};
    } else {
      EnterAllExactly(layers[1..], Enter(layers[0], c));
      FlagsTwice(c, layers[0], AsSet(layers[1..]));
      assert AsSet(layers) == {layers[0]} + AsSet(layers[1..]);
    }
  }

  /** Only the layer for patch formatting rewords what the check it wraps reports. */
  lemma {:induction false} EvalRuns(check: Check, c: Context, w: World)
    requires Noop !in Layers(check) && PatchFormat !in Layers(check)
    ensures Eval(check, c, w) == w.run(Core(check), EnterAll(Layers(check), c))
  {
    if check.Wrapped? {
      EvalRuns(check.inner, Enter(check.layer, c), w);
    }
  }

  lemma EnterForced(layer: Layer, c: Context)
    ensures Enter(layer, c.(warningsAreErrors := true)) == Enter(layer, c).(warningsAreErrors := true)
  {
  }

  /** Once a layer forces errors, the check runs as if warnings were errors to begin with. */
  lemma {:induction false} ForceErrorDecides(check: Check, c: Context, w: World)
    requires ForceError in Layers(check)
    ensures Eval(check, c, w) == Eval(check, c.(warningsAreErrors := true), w)
  {
    match check
    case Wrapped(ForceError, _) =>
    case Wrapped(Noop, _) =>
    case Wrapped(layer, inner) =>
      EnterForced(layer, c);
      ForceErrorDecides(inner, Enter(layer, c), w);
  }

  // ---------------------------------------------------------------- forcing errors by patching the output API

  const WARNING := "PresubmitPromptWarning"

  /**
    A layered check as a program over the attributes of the output API. The layer that forces errors binds the
    warning to the error class for the check it wraps; `bodies` gives the original checks.
   */
  function AsProgram(check: Check, bodies: nat -> S.Stmt, error: S.Value): S.Stmt {
    match check
    case Original(id) => bodies(id)
    case Wrapped(Noop, _) => S.Skip
    case Wrapped(ForceError, inner) => S.WithVariable(WARNING, error, true, true, AsProgram(inner, bodies, error))
    case Wrapped(_, inner) => AsProgram(inner, bodies, error)
  }

  lemma {:induction false} ProgramScoped(check: Check, bodies: nat -> S.Stmt, error: S.Value, e: S.State)
    requires Noop !in Layers(check) && S.WriteFree(bodies(Core(check)))
    ensures S.WriteFree(AsProgram(check, bodies, error))
    ensures S.Scoped(AsProgram(check, bodies, error), e)
         == if ForceError !in Layers(check) then S.Scoped(bodies(Core(check)), e)
            else if e.Get(WARNING).None? then S.Observed([], false)
            else S.Scoped(bodies(Core(check)), e.Set(WARNING, error))
  {
    if check.Wrapped? && !check.layer.Noop? {
      ProgramScoped(check.inner, bodies, error, e);
      ProgramScoped(check.inner, bodies, error, e.Set(WARNING, error));
      assert e.Set(WARNING, error).Set(WARNING, error) == e.Set(WARNING, error);
    }
  }

  lemma {:induction false} ProgramSound(check: Check, bodies: nat -> S.Stmt, error: S.Value, functions: set<string>)
    requires S.SoundProgram(bodies(Core(check)), functions) && (WARNING in functions ==> S.Restorable(error))
    ensures S.SoundProgram(AsProgram(check, bodies, error), functions)
  {
    match check
    case Original(_) =>
    case Wrapped(Noop, _) =>
    case Wrapped(_, inner) => ProgramSound(inner, bodies, error, functions);
  }

  /**
    A check whose context says that warnings are errors runs with the warning patched to the error class, as
    often as that is forced, and raises if the output API has no such attribute; either way the API reads the
    same afterwards. Without the flag it runs unpatched.
   */
  lemma ForceErrorPatches(check: Check, bodies: nat -> S.Stmt, error: S.Value, output: S.State,
                          functions: set<string>, c: Context)
    requires Noop !in Layers(check) && S.WriteFree(bodies(Core(check))) && !c.warningsAreErrors
    requires S.Sound(output, functions) && S.SoundProgram(bodies(Core(check)), functions)
    requires WARNING in functions ==> S.Restorable(error)
    ensures var r := S.Exec(AsProgram(check, bodies, error), output);
            && S.Same(r.state, output)
            && S.Agrees(r, if !EnterAll(Layers(check), c).warningsAreErrors then S.Scoped(bodies(Core(check)), output)
                           else if output.Get("PresubmitPromptWarning").None? then S.Observed([], false)
                           else S.Scoped(bodies(Core(check)), output.Set("PresubmitPromptWarning", error)))
  {
    EnterAllExactly(Layers(check), c);
    ProgramScoped(check, bodies, error, output);
    ProgramSound(check, bodies, error, functions);
    S.PatchingIsScoping(AsProgram(check, bodies, error), output, output, functions);
    S.RunLeavesSame(AsProgram(check, bodies, error), output, output, functions);
  }

  // ---------------------------------------------------------------- installing layers

  predicate Callable(scope: Scope, name: string) {
    name in scope && scope[name].Function?
  }

  datatype Install = Install(name: string, layer: Layer)

  function Stack(check: Check, layers: seq<Layer>): Check
    decreases layers
  {
    if layers == [] then check else Stack(Wrapped(layers[0], check), layers[1..])
  }

  function LayersFor(installs: seq<Install>, name: string): seq<Layer> {
    if installs == [] then []
    else (if installs[0].name == name then [installs[0].layer] else []) + LayersFor(installs[1..], name)
  }

  /** The scope after a list of overrides, told name by name: each entry becomes its own nested composition. */
  ghost predicate Installed(scope: Scope, installs: seq<Install>, after: Scope) {
    && after.Keys == scope.Keys
    && forall name :: name in scope ==>
         after[name] == if scope[name].Function? then Function(Stack(scope[name].check, LayersFor(installs, name)))
                        else NotCallable
  }

  /** The layers of a composition, outermost first, are the installed ones in reverse. */
  lemma {:induction false} StackLayers(check: Check, layers: seq<Layer>)
    ensures Core(Stack(check, layers)) == Core(check)
    ensures |Layers(Stack(check, layers))| == |layers| + |Layers(check)|
    ensures forall k :: 0 <= k < |layers| ==> Layers(Stack(check, layers))[k] == layers[|layers| - 1 - k]
    ensures Layers(Stack(check, layers))[|layers|..] == Layers(check)
    decreases layers
  {
    if layers != [] {
      StackLayers(Wrapped(layers[0], check), layers[1..]);
      var all := Layers(Stack(check, layers));
      assert all[|layers| - 1] == all[|layers| - 1..][0];
      assert all[|layers|..] == all[|layers| - 1..][1..];
    }
  }

  lemma {:induction false} StackMembers(check: Check, layers: seq<Layer>, layer: Layer)
    ensures layer in Layers(Stack(check, layers)) <==> layer in layers || layer in Layers(check)
    decreases layers
  {
    if layers != [] {
      StackMembers(Wrapped(layers[0], check), layers[1..], layer);
    }
  }

  lemma {:induction false} StackSnoc(check: Check, layers: seq<Layer>, layer: Layer)
    ensures Stack(check, layers + [layer]) == Wrapped(layer, Stack(check, layers))
    decreases layers
  {
    if layers != [] {
      StackSnoc(Wrapped(layers[0], check), layers[1..], layer);
      assert (layers + [layer])[1..] == layers[1..] + [layer];
    }
  }

  lemma {:induction false} LayersForConcat(a: seq<Install>, b: seq<Install>, name: string)
    ensures LayersFor(a + b, name) == LayersFor(a, name) + LayersFor(b, name)
  {
    if a == [] {
      assert a + b == b;
    } else {
      var head: seq<Layer> := if a[0].name == name then [a[0].layer] else [];
      LayersForConcat(a[1..], b, name);
      assert (a + b)[1..] == a[1..] + b;
      Associative(head, LayersFor(a[1..], name), LayersFor(b, name));
    }
  }

  lemma {:induction false} LayersForMember(installs: seq<Install>, name: string, layer: Layer)
    ensures layer in LayersFor(installs, name) <==> Install(name, layer) in installs
  {
    if installs != [] {
      LayersForMember(installs[1..], name, layer);
    }
  }

  /** One more override takes an installed scope to an installed scope. */
  lemma InstalledSnoc(scope: Scope, installs: seq<Install>, before: Scope, install: Install, after: Scope)
    requires Installed(scope, installs, before)
    requires after == if Callable(before, install.name)
                      then before[install.name := Function(Wrapped(install.layer, before[install.name].check))]
                      else before
    ensures Installed(scope, installs + [install], after)
  {
    forall name | name in scope
      ensures after[name] == if scope[name].Function?
                             then Function(Stack(scope[name].check, LayersFor(installs + [install], name)))
                             else NotCallable
    {
      LayersForConcat(installs, [install], name);
      if name == install.name && scope[name].Function? {
        assert LayersFor([install], name) == [install.layer];
        StackSnoc(scope[name].check, LayersFor(installs, name), install.layer);
      } else {
        assert LayersFor(installs, name) + [] == LayersFor(installs, name);
      }
    }
  }

  lemma InstalledLayer(scope: Scope, installs: seq<Install>, after: Scope, name: string, layer: Layer)
    requires Installed(scope, installs, after) && Callable(scope, name) && Install(name, layer) in installs
    ensures layer in Layers(after[name].check)
  {
    var layers := LayersFor(installs, name);
    LayersForMember(installs, name, layer);
    StackLayers(scope[name].check, layers);
    var k :| 0 <= k < |layers| && layers[k] == layer;
    assert Layers(after[name].check)[|layers| - 1 - k] == layer;
  }

  function Named(names: seq<string>, layer: Layer): seq<Install> {
    seq(|names|, i requires 0 <= i < |names| => Install(names[i], layer))
  }

  /** The lists of the configuration that concern one scope. */
  datatype Config = Config(disabled: seq<string>, forced: seq<string>)

  function GenericInstalls(config: Config): seq<Install> {
    Named(config.disabled, Noop) + Named(config.forced, ForceError)
  }

  function GlobalInstalls(config: Config): seq<Install> {
    GenericInstalls(config)
    + [Install("CheckForIncludeGuards", IncludeGuards), Install("CheckMPArchApiUsage", AllFiles)]
  }

  function CannedInstalls(config: Config): seq<Install> {
    GenericInstalls(config)
    + [Install("CheckPatchFormatted", PatchFormat), Install("GetPylint", ChangedPylint)]
  }

  /**
    Whatever is installed on top of the configured lists, a disabled check keeps reporting nothing, and a
    check with forced errors runs as if warnings were errors.
   */
  lemma ConfiguredChecks(scope: Scope, config: Config, more: seq<Install>, after: Scope,
                         name: string, c: Context, w: World)
    requires Installed(scope, GenericInstalls(config) + more, after) && Callable(scope, name)
    ensures Callable(after, name)
    ensures name in config.disabled ==> Eval(after[name].check, c, w) == []
    ensures name in config.forced ==>
              Eval(after[name].check, c, w) == Eval(after[name].check, c.(warningsAreErrors := true), w)
  {
    var installs := GenericInstalls(config) + more;
    var check := after[name].check;
    if name in config.disabled {
      var k :| 0 <= k < |config.disabled| && config.disabled[k] == name;
      assert installs[k] == Install(name, Noop);
      InstalledLayer(scope, installs, after, name, Noop);
      NoopAbsorbs(check, c, w);
    }
    if name in config.forced {
      var k :| 0 <= k < |config.forced| && config.forced[k] == name;
      assert installs[|config.disabled| + k] == Install(name, ForceError);
      InstalledLayer(scope, installs, after, name, ForceError);
      ForceErrorDecides(check, c, w);
    }
  }

  /** So it is after all the overrides of Apply, whichever check came first and is wrapped last. */
  lemma AppliedChecks(scope: Scope, config: Config, last: seq<Install>, after: Scope,
                      name: string, c: Context, w: World)
    requires Installed(scope, GlobalInstalls(config) + last, after) && Callable(scope, name)
    ensures Callable(after, name)
    ensures name in config.disabled ==> Eval(after[name].check, c, w) == []
    ensures name in config.forced ==>
              Eval(after[name].check, c, w) == Eval(after[name].check, c.(warningsAreErrors := true), w)
  {
    var own := [Install("CheckForIncludeGuards", IncludeGuards), Install("CheckMPArchApiUsage", AllFiles)];
    Associative(GenericInstalls(config), own, last);
    ConfiguredChecks(scope, config, own + last, after, name, c, w);
  }

  /** The first key, in the order of the dictionary, that names a callable check. */
  function FirstCheckName(keys: seq<string>, scope: Scope): Option<string> {
    if keys == [] then None
    else if "Check" <= keys[0] && Callable(scope, keys[0]) then Some(keys[0])
    else FirstCheckName(keys[1..], scope)
  }

  // ---------------------------------------------------------------- what every check runs in

  /** The name is the first of the keys that starts like a check and is callable. */
  ghost predicate IsFirstCheck(keys: seq<string>, scope: Scope, name: string) {
    exists i :: 0 <= i < |keys| && keys[i] == name && LooksLikeCheck(name, scope)
                && forall j :: 0 <= j < i ==> !LooksLikeCheck(keys[j], scope)
  }

  predicate LooksLikeCheck(name: string, scope: Scope) {
    |name| >= 5 && name[..5] == "Check" && name in scope && scope[name] != NotCallable
  }

  lemma {:induction false} FirstCheckExactly(keys: seq<string>, scope: Scope)
    ensures forall name :: FirstCheckName(keys, scope) == Some(name) <==> IsFirstCheck(keys, scope, name)
    ensures FirstCheckName(keys, scope).None? <==> forall key :: key in keys ==> !LooksLikeCheck(key, scope)
  {
    if keys != [] {
      FirstCheckExactly(keys[1..], scope);
      assert LooksLikeCheck(keys[0], scope) <==> "Check" <= keys[0] && Callable(scope, keys[0]);
      forall name ensures FirstCheckName(keys, scope) == Some(name) <==> IsFirstCheck(keys, scope, name) {
        if !LooksLikeCheck(keys[0], scope) {
          FirstCheckTail(keys, scope, name);
        }
      }
    }
  }

  lemma FirstCheckTail(keys: seq<string>, scope: Scope, name: string)
    requires keys != [] && !LooksLikeCheck(keys[0], scope)
    ensures IsFirstCheck(keys, scope, name) <==> IsFirstCheck(keys[1..], scope, name)
  {
    var rest := keys[1..];
    if IsFirstCheck(rest, scope, name) {
      var i :| 0 <= i < |rest| && rest[i] == name && LooksLikeCheck(name, scope)
               && forall j :: 0 <= j < i ==> !LooksLikeCheck(rest[j], scope);
      assert keys[i + 1] == name && forall j :: 1 <= j < i + 1 ==> keys[j] == rest[j - 1];
    }
    if IsFirstCheck(keys, scope, name) {
      var i :| 0 <= i < |keys| && keys[i] == name && LooksLikeCheck(name, scope)
               && forall j :: 0 <= j < i ==> !LooksLikeCheck(keys[j], scope);
      assert i > 0;
      assert rest[i - 1] == name && forall j :: 0 <= j < i - 1 ==> rest[j] == keys[j + 1];
    }
  }

  const PLAIN := Context(false, false, false, false, false, false)

  lemma StackRuns(id: nat, layers: seq<Layer>, c: Context, w: World)
    requires Noop !in AsSet(layers) && PatchFormat !in AsSet(layers)
    ensures Eval(Stack(Original(id), layers), c, w) == w.run(id, Flags(c, AsSet(layers)))
  {
    var check := Stack(Original(id), layers);
    StackLayers(Original(id), layers);
    forall layer ensures layer in Layers(check) <==> layer in layers {
      StackMembers(Original(id), layers, layer);
    }
    EvalRuns(check, c, w);
    EnterAllExactly(Layers(check), c);
    assert AsSet(Layers(check)) == AsSet(layers);
  }

  function If(condition: bool, layer: Layer): set<Layer> {
    if condition then {layer} else {}
  }

  lemma TwoLayers(first: Install, second: Install, name: string)
    ensures AsSet(LayersFor([first, second], name))
         == If(name == first.name, first.layer) + If(name == second.name, second.layer)
  {
    assert [first, second][1..] == [second] && LayersFor([second][1..], name) == [];
  }

  lemma GenericLayers(config: Config, name: string)
    ensures AsSet(LayersFor(GenericInstalls(config), name))
         == If(name in config.disabled, Noop) + If(name in config.forced, ForceError)
  {
    var installs := GenericInstalls(config);
    forall layer ensures layer in LayersFor(installs, name) <==> Install(name, layer) in installs {
      LayersForMember(installs, name, layer);
    }
    forall k | 0 <= k < |config.disabled| ensures Install(config.disabled[k], Noop) in installs {
      assert installs[k] == Install(config.disabled[k], Noop);
    }
    forall k | 0 <= k < |config.forced| ensures Install(config.forced[k], ForceError) in installs {
      assert installs[|config.disabled| + k] == Install(config.forced[k], ForceError);
    }
  }

  lemma GlobalLayers(config: Config, last: seq<Install>, name: string)
    requires |last| <= 1
    ensures AsSet(LayersFor(GlobalInstalls(config) + last, name))
         == If(name in config.disabled, Noop) + If(name in config.forced, ForceError)
            + If(name == "CheckForIncludeGuards", IncludeGuards) + If(name == "CheckMPArchApiUsage", AllFiles)
            + if last != [] then If(name == last[0].name, last[0].layer) else {}
  {
    var a, b := Install("CheckForIncludeGuards", IncludeGuards), Install("CheckMPArchApiUsage", AllFiles);
    var generic, own := LayersFor(GenericInstalls(config), name), LayersFor([a, b], name);
    LayersForConcat(GenericInstalls(config) + [a, b], last, name);
    LayersForConcat(GenericInstalls(config), [a, b], name);
    AsSetConcat(generic + own, LayersFor(last, name));
    AsSetConcat(generic, own);
    GenericLayers(config, name);
    TwoLayers(a, b, name);
    if last != [] {
      assert last == [last[0]] && LayersFor([last[0]][1..], name) == [];
    }
  }

  /**
    After Apply every global check that is not disabled runs its original. The include guard check runs it with
    prefixed paths, the API usage check with all files, and the first check with the modified input, each of
    them and every other check with warnings as errors exactly if that is configured.
   */
  lemma GlobalRuns(scope: Scope, config: Config, keys: seq<string>, last: seq<Install>, after: Scope,
                   name: string, id: nat, w: World)
    requires Installed(scope, GlobalInstalls(config) + last, after)
    requires var first := FirstCheckName(keys, scope);
             last == if first.Some? then [Install(first.value, ModifyInput)] else []
    requires name in scope && scope[name] == Function(Original(id)) && name !in config.disabled
    ensures name in after && after[name].Function?
    ensures Eval(after[name].check, PLAIN, w)
         == w.run(id, Context(name in config.forced, name == "CheckForIncludeGuards", name == "CheckMPArchApiUsage",
                              false, false, IsFirstCheck(keys, scope, name)))
  {
    FirstCheckExactly(keys, scope);
    GlobalStackRuns(config, last, name, id, w);
  }

  lemma GlobalStackRuns(config: Config, last: seq<Install>, name: string, id: nat, w: World)
    requires name !in config.disabled && |last| <= 1 && forall i :: i in last ==> i.layer == ModifyInput
    ensures var context := Context(name in config.forced, name == "CheckForIncludeGuards",
                                   name == "CheckMPArchApiUsage", false, false, last != [] && last[0].name == name);
            Eval(Stack(Original(id), LayersFor(GlobalInstalls(config) + last, name)), PLAIN, w) == w.run(id, context)
  {
    GlobalLayers(config, last, name);
    StackRuns(id, LayersFor(GlobalInstalls(config) + last, name), PLAIN, w);
  }

  /**
    Likewise for the canned checks: the check for patch formatting runs with its own flags and has its messages
    reworded, and the Pylint check runs on the changed files only.
   */
  lemma CannedRuns(scope: Scope, config: Config, after: Scope, name: string, id: nat, w: World)
    requires Installed(scope, CannedInstalls(config), after)
    requires name in scope && scope[name] == Function(Original(id)) && name !in config.disabled
    ensures name in after && after[name].Function?
    ensures var reported := Eval(after[name].check, PLAIN, w);
            var messages := w.run(id, Context(name in config.forced, false, false,
                                              name == "CheckPatchFormatted", name == "GetPylint", false));
            && |reported| == |messages|
            && forall k :: 0 <= k < |messages| ==>
                 reported[k] == if name == "CheckPatchFormatted" then w.reword(messages[k]) else messages[k]
  {
    if name == "CheckPatchFormatted" {
      PatchFormattedRuns(config, id, w);
    } else {
      OtherCannedRuns(config, name, id, w);
    }
  }

  lemma PatchFormattedRuns(config: Config, id: nat, w: World)
    requires "CheckPatchFormatted" !in config.disabled
    ensures var layers := LayersFor(CannedInstalls(config), "CheckPatchFormatted");
            var context := Context("CheckPatchFormatted" in config.forced, false, false, true, false, false);
            Eval(Stack(Original(id), layers), PLAIN, w) == Reword(w.run(id, context), w)
  {
    var name := "CheckPatchFormatted";
    var a, b := Install("CheckPatchFormatted", PatchFormat), Install("GetPylint", ChangedPylint);
    var generic := LayersFor(GenericInstalls(config), name);
    LayersForConcat(GenericInstalls(config), [a, b], name);
    assert [a, b][1..] == [b] && LayersFor([b][1..], name) == [] && |b.name| != |name|;
    assert LayersFor([a, b], name) == [PatchFormat];
    GenericLayers(config, name);
    StackSnoc(Original(id), generic, PatchFormat);
    StackRuns(id, generic, Enter(PatchFormat, PLAIN), w);
  }

  lemma CannedLayers(config: Config, name: string)
    ensures AsSet(LayersFor(CannedInstalls(config), name))
         == If(name in config.disabled, Noop) + If(name in config.forced, ForceError)
            + If(name == "CheckPatchFormatted", PatchFormat) + If(name == "GetPylint", ChangedPylint)
  {
    var a, b := Install("CheckPatchFormatted", PatchFormat), Install("GetPylint", ChangedPylint);
    LayersForConcat(GenericInstalls(config), [a, b], name);
    AsSetConcat(LayersFor(GenericInstalls(config), name), LayersFor([a, b], name));
    GenericLayers(config, name);
    TwoLayers(a, b, name);
  }

  lemma OtherCannedRuns(config: Config, name: string, id: nat, w: World)
    requires name !in config.disabled && name != "CheckPatchFormatted"
    ensures var context := Context(name in config.forced, false, false, false, name == "GetPylint", false);
            Eval(Stack(Original(id), LayersFor(CannedInstalls(config), name)), PLAIN, w) == w.run(id, context)
  {
    CannedLayers(config, name);
    StackRuns(id, LayersFor(CannedInstalls(config), name), PLAIN, w);
  }

  class CheckScope {
    var entries: Scope

    /** override_function: false stands for the NameError; a false condition changes nothing. */
    method OverrideFunction(name: string, layer: Layer, condition: bool) returns (ok: bool)
      modifies this
      ensures ok == Callable(old(entries), name)
      ensures entries == if ok && condition
                         then old(entries)[name := Function(Wrapped(layer, old(entries)[name].check))]
                         else old(entries)
    {
      if !Callable(entries, name) {
        return false;
      }
      var original := entries[name].check;
      var wrapped := if condition then Wrapped(layer, original) else original;
      entries := entries[name := Function(wrapped)];
      ok := true;
    }

    /** override_check: a missing check only causes a warning. */
    method OverrideCheck(name: string, layer: Layer)
      modifies this
      ensures entries == if Callable(old(entries), name)
                         then old(entries)[name := Function(Wrapped(layer, old(entries)[name].check))]
                         else old(entries)
    {
      if Callable(entries, name) {
        var _ := OverrideFunction(name, layer, true);
      }
    }

    /** One override after another, as the decorators and loops of the source install them. */
    method OverrideChecks(names: seq<string>, layer: Layer, ghost scope: Scope, ghost installs: seq<Install>)
      requires Installed(scope, installs, entries)
      modifies this
      ensures Installed(scope, installs + Named(names, layer), entries)
    {
      assert installs + Named([], layer) == installs;
      for n := 0 to |names|
        invariant Installed(scope, installs + Named(names[..n], layer), entries)
      {
        ghost var before := entries;
        OverrideCheck(names[n], layer);
        InstalledSnoc(scope, installs + Named(names[..n], layer), before, Install(names[n], layer), entries);
        assert installs + Named(names[..n + 1], layer)
            == installs + Named(names[..n], layer) + [Install(names[n], layer)];
      }
      assert names[..|names|] == names;
    }

    method ApplyGenericCheckOverrides(config: Config)
      modifies this
      ensures Installed(old(entries), GenericInstalls(config), entries)
    {
      ghost var scope := entries;
      OverrideChecks(config.disabled, Noop, scope, []);
      assert [] + Named(config.disabled, Noop) == Named(config.disabled, Noop);
      OverrideChecks(config.forced, ForceError, scope, Named(config.disabled, Noop));
    }

    method OverrideGlobalChecks(config: Config)
      modifies this
      ensures Installed(old(entries), GlobalInstalls(config), entries)
    {
      ghost var scope := entries;
      ApplyGenericCheckOverrides(config);
      InstallTwo(Install("CheckForIncludeGuards", IncludeGuards), Install("CheckMPArchApiUsage", AllFiles),
                 scope, GenericInstalls(config));
    }

    method OverrideCannedChecks(config: Config)
      modifies this
      ensures Installed(old(entries), CannedInstalls(config), entries)
    {
      ghost var scope := entries;
      ApplyGenericCheckOverrides(config);
      InstallTwo(Install("CheckPatchFormatted", PatchFormat), Install("GetPylint", ChangedPylint),
                 scope, GenericInstalls(config));
    }

    method InstallTwo(first: Install, second: Install, ghost scope: Scope, ghost installs: seq<Install>)
      requires Installed(scope, installs, entries)
      modifies this
      ensures Installed(scope, installs + [first, second], entries)
    {
      ghost var before := entries;
      OverrideCheck(first.name, first.layer);
      InstalledSnoc(scope, installs, before, first, entries);
      ghost var middle := entries;
      OverrideCheck(second.name, second.layer);
      InstalledSnoc(scope, installs + [first], middle, second, entries);
      assert installs + [first] + [second] == installs + [first, second];
    }

    /** Apply: the first check found afterwards gets the outermost layer; without one a LookupError is raised. */
    method Apply(keys: seq<string>, config: Config) returns (ok: bool)
      modifies this
      ensures ok == FirstCheckName(keys, old(entries)).Some?
      ensures var last := if ok then [Install(FirstCheckName(keys, old(entries)).value, ModifyInput)] else [];
              Installed(old(entries), GlobalInstalls(config) + last, entries)
    {
      ghost var scope := entries;
      OverrideGlobalChecks(config);
      SameFirstCheck(keys, scope, GlobalInstalls(config), entries);
      var first := FirstCheckName(keys, entries);
      if first.None? {
        assert GlobalInstalls(config) + [] == GlobalInstalls(config);
        return false;
      }
      ghost var before := entries;
      OverrideCheck(first.value, ModifyInput);
      InstalledSnoc(scope, GlobalInstalls(config), before, Install(first.value, ModifyInput), entries);
      ok := true;
    }
  }

  lemma {:induction false} SameFirstCheck(keys: seq<string>, scope: Scope, installs: seq<Install>, after: Scope)
    requires Installed(scope, installs, after)
    ensures FirstCheckName(keys, after) == FirstCheckName(keys, scope)
  {
    if keys != [] {
      SameFirstCheck(keys[1..], scope, installs, after);
      assert Callable(after, keys[0]) <==> Callable(scope, keys[0]);
    }
  }
}
