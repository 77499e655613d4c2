/**
  The per-check file filter: while a presubmit check runs, the list of affected files is replaced by those
  that no check on the stack skips.
 */
module PresubmitFiles {
  import opened Prelude

  import S = ScopedBlocks

  const RUNNER := "_run_check_function"

  /** Regular expressions are parameters: which functions are checks, and which paths a pattern matches. */
  datatype FilterConfig = FilterConfig(
    isCheck: string -> bool, skips: map<string, seq<string>>, matches: (string, string) -> bool)

  /** The check functions on the stack below the runner; frames are listed from the innermost outwards. */
  ghost predicate OnStack(frames: seq<string>, cfg: FilterConfig, name: string) {
    cfg.isCheck(name) && exists k :: 0 <= k < |frames| && frames[k] == name && RUNNER !in frames[..k + 1]
  }

  ghost function StackNames(frames: seq<string>, cfg: FilterConfig): set<string> {
    set name | name in frames && OnStack(frames, cfg, name)
  }

  function Slashes(path: string): string {
    seq(|path|, i requires 0 <= i < |path| => if path[i] == '\\' then '/' else path[i])
  }

  /** Every pattern that the configuration lists for one of the names. */
  function Patterns(names: set<string>, cfg: FilterConfig): set<string> {
    set name, p | name in names && name in cfg.skips && p in cfg.skips[name] :: p
  }

  predicate Shown(file: string, names: set<string>, cfg: FilterConfig) {
    forall p :: p in Patterns(names, cfg) ==> !cfg.matches(p, Slashes(file))
  }

  function Visible(files: seq<string>, names: set<string>, cfg: FilterConfig): seq<string> {
    Filter(files, file => Shown(file, names, cfg))
  }

  /** The path with every backslash replaced by a slash. */
  ghost predicate IsLocalPath(path: string, local: string) {
    && |local| == |path|
    && forall k :: 0 <= k < |path| ==> local[k] == if path[k] == '\\' then '/' else path[k]
  }

  /** A file is shown exactly when no pattern that is listed for one of the names matches its local path. */
  lemma ShownExactly(file: string, local: string, names: set<string>, cfg: FilterConfig)
    requires IsLocalPath(file, local)
    ensures Shown(file, names, cfg) <==>
            forall name, p :: name in names && name in cfg.skips && p in cfg.skips[name] ==> !cfg.matches(p, local)
  {
    assert Slashes(file) == local;
    forall name, p | name in names && name in cfg.skips && p in cfg.skips[name] ensures p in Patterns(names, cfg) {
    }
  }

  /** The names are those of the checks among the frames up to the runner, and all there are if it is not called. */
  lemma StackNamesExactly(below: seq<string>, above: seq<string>, cfg: FilterConfig)
    requires "_run_check_function" !in below
    ensures var checks := set name | name in below && cfg.isCheck(name);
            StackNames(below, cfg) == checks && StackNames(below + ["_run_check_function"] + above, cfg) == checks
  {
    StackNamesBelow(below, [], cfg);
    assert below + [] == below;
    StackNamesBelow(below, [RUNNER] + above, cfg);
    Associative(below, [RUNNER], above);
  }

  lemma StackNamesBelow(below: seq<string>, rest: seq<string>, cfg: FilterConfig)
    requires RUNNER !in below && (rest == [] || rest[0] == RUNNER)
    ensures StackNames(below + rest, cfg) == set name | name in below && cfg.isCheck(name)
  {
    var frames, n := below + rest, |below|;
    assert frames[..n] == below;
    forall name | cfg.isCheck(name) ensures name in below <==> OnStack(frames, cfg, name) {
      StackPrefix(frames, n, cfg, name);
    }
  }

  /** A nested call filters what an outer one has left: together they apply the names of both. */
  lemma {:induction false} VisibleTwice(files: seq<string>, outer: set<string>, inner: set<string>, cfg: FilterConfig)
    ensures Visible(Visible(files, outer, cfg), inner, cfg) == Visible(files, outer + inner, cfg)
  {
    if files != [] {
      VisibleTwice(files[1..], outer, inner, cfg);
      var file, rest := files[0], Visible(files[1..], outer, cfg);
      assert Patterns(outer + inner, cfg) == Patterns(outer, cfg) + Patterns(inner, cfg);
      assert Shown(file, outer + inner, cfg) <==> Shown(file, outer, cfg) && Shown(file, inner, cfg);
      if Shown(file, outer, cfg) {
        assert ([file] + rest)[1..] == rest;
      } else {
        assert [] + rest == rest;
      }
    }
  }

  // ---------------------------------------------------------------- what the original may do

  /** A call of AffectedFiles from a given stack, or any program around such calls. */
  datatype Program =
    | Read                                                  // the list of affected files
    | IfListed(file: string, yes: Program, no: Program)
    | Write(files: seq<string>)
    | Raise
    | Seq(first: Program, second: Program)
    | Try(body: Program, handler: Program)
    | Call(frames: seq<string>, original: Program)

  /** The list afterwards, the lists read on the way, and whether the program ended without an exception. */
  datatype Ran = Ran(files: seq<string>, log: seq<seq<string>>, ok: bool) {
    function After(before: seq<seq<string>>): Ran {
      this.(log := before + log)
    }
  }

  ghost function Exec(c: Program, files: seq<string>, cfg: FilterConfig): Ran {
    match c
    case Read => Ran(files, [files], true)
    case IfListed(file, yes, no) => if file in files then Exec(yes, files, cfg) else Exec(no, files, cfg)
    case Write(other) => Ran(other, [], true)
    case Raise => Ran(files, [], false)
    case Seq(first, second) =>
      var r := Exec(first, files, cfg);
      if r.ok then Exec(second, r.files, cfg).After(r.log) else r
    case Try(body, handler) =>
      var r := Exec(body, files, cfg);
      if r.ok then r else Exec(handler, r.files, cfg).After(r.log)
    case Call(frames, original) =>
      Exec(original, Visible(files, StackNames(frames, cfg), cfg), cfg).(files := files)
  }

  predicate Writes(c: Program) {
    match c
    case IfListed(_, yes, no) => Writes(yes) || Writes(no)
    case Write(_) => true
    case Seq(first, second) => Writes(first) || Writes(second)
    case Try(body, handler) => Writes(body) || Writes(handler)
    case Call(_, original) => Writes(original)
    case _ => false
  }

  /**
    The intended meaning: `files` never changes, and a read shows the files that none of `names` skips, the
    names of every stack that encloses it.
   */
  ghost function Filtered(c: Program, files: seq<string>, names: set<string>, cfg: FilterConfig): Ran
    requires !Writes(c)
  {
    match c
    case Read => Ran(files, [Visible(files, names, cfg)], true)
    case IfListed(file, yes, no) =>
      if file in Visible(files, names, cfg) then Filtered(yes, files, names, cfg)
      else Filtered(no, files, names, cfg)
    case Raise => Ran(files, [], false)
    case Seq(first, second) =>
      var r := Filtered(first, files, names, cfg);
      if r.ok then Filtered(second, files, names, cfg).After(r.log) else r
    case Try(body, handler) =>
      var r := Filtered(body, files, names, cfg);
      if r.ok then r else Filtered(handler, files, names, cfg).After(r.log)
    case Call(frames, original) => Filtered(original, files, names + StackNames(frames, cfg), cfg)
  }

  /**
    Replacing the list and putting it back implements the filter: at every depth and after every exception a
    read shows the files that no enclosing stack skips, and the list ends as it began.
   */
  lemma {:induction false} ReadsAreFiltered(c: Program, files: seq<string>, names: set<string>, cfg: FilterConfig)
    requires !Writes(c)
    ensures var visible := Visible(files, names, cfg);
            && Exec(c, visible, cfg) == Filtered(c, files, names, cfg).(files := visible)
            && Filtered(c, files, names, cfg).files == files
  {
    match c
    case IfListed(_, yes, no) =>
      ReadsAreFiltered(yes, files, names, cfg);
      ReadsAreFiltered(no, files, names, cfg);
    case Seq(first, second) =>
      ReadsAreFiltered(first, files, names, cfg);
      ReadsAreFiltered(second, files, names, cfg);
    case Try(body, handler) =>
      ReadsAreFiltered(body, files, names, cfg);
      ReadsAreFiltered(handler, files, names, cfg);
    case Call(frames, original) =>
      VisibleTwice(files, names, StackNames(frames, cfg), cfg);
      ReadsAreFiltered(original, files, names + StackNames(frames, cfg), cfg);
    case _ =>
  }

  /** So it is for a whole call, whose list afterwards is the one before whatever the original does to it. */
  lemma CallFilters(frames: seq<string>, original: Program, files: seq<string>, cfg: FilterConfig)
    ensures Exec(Call(frames, original), files, cfg).files == files
    ensures !Writes(original) ==>
              Exec(Call(frames, original), files, cfg) == Filtered(original, files, StackNames(frames, cfg), cfg)
  {
    if !Writes(original) {
      ReadsAreFiltered(original, files, StackNames(frames, cfg), cfg);
    }
  }

  // ---------------------------------------------------------------- the same with override_scope_variable

  const FILES := "_affected_files"

  /** A list of files as the value of an attribute; `code` numbers the lists. */
  function AsValue(files: seq<string>, code: seq<string> -> int): S.Value {
    S.Plain(code(files), true)
  }

  /** The program as it runs from `files`, every call of AffectedFiles being an override of the attribute. */
  ghost function AsOverrides(c: Program, files: seq<string>, cfg: FilterConfig, code: seq<string> -> int): S.Stmt
    requires !Writes(c)
  {
    match c
    case Read => S.Read(FILES)
    case IfListed(file, yes, no) => AsOverrides(if file in files then yes else no, files, cfg, code)
    case Raise => S.Raise
    case Seq(first, second) => S.Seq(AsOverrides(first, files, cfg, code), AsOverrides(second, files, cfg, code))
    case Try(body, handler) => S.Try(AsOverrides(body, files, cfg, code), AsOverrides(handler, files, cfg, code))
    case Call(frames, original) =>
      var shown := Visible(files, StackNames(frames, cfg), cfg);
      S.WithVariable(FILES, AsValue(shown, code), true, true, AsOverrides(original, shown, cfg, code))
  }

  function AsSeen(log: seq<seq<string>>, code: seq<string> -> int): seq<S.Seen> {
    seq(|log|, n requires 0 <= n < |log| => S.Attribute(Some(AsValue(log[n], code))))
  }

  lemma {:induction false} OverridesScoped(c: Program, files: seq<string>, cfg: FilterConfig,
                                           code: seq<string> -> int, e: S.State)
    requires !Writes(c) && e.Get(FILES) == Some(AsValue(files, code))
    ensures var stmt, r := AsOverrides(c, files, cfg, code), Exec(c, files, cfg);
            && S.WriteFree(stmt) && S.SoundProgram(stmt, {})
            && S.Scoped(stmt, e) == S.Observed(AsSeen(r.log, code), r.ok)
  {
    ListKept(c, files, cfg);
    match c
    case IfListed(file, yes, no) => OverridesScoped(if file in files then yes else no, files, cfg, code, e);
    case Seq(first, second) =>
      ListKept(first, files, cfg);
      OverridesScoped(first, files, cfg, code, e);
      OverridesScoped(second, files, cfg, code, e);
      SeenAfter(Exec(first, files, cfg).log, Exec(second, files, cfg).log, code);
    case Try(body, handler) =>
      ListKept(body, files, cfg);
      OverridesScoped(body, files, cfg, code, e);
      OverridesScoped(handler, files, cfg, code, e);
      SeenAfter(Exec(body, files, cfg).log, Exec(handler, files, cfg).log, code);
    case Call(frames, original) =>
      var shown := Visible(files, StackNames(frames, cfg), cfg);
      OverridesScoped(original, shown, cfg, code, e.Set(FILES, AsValue(shown, code)));
    case _ =>
  }

  lemma SeenAfter(a: seq<seq<string>>, b: seq<seq<string>>, code: seq<string> -> int)
    ensures AsSeen(a + b, code) == AsSeen(a, code) + AsSeen(b, code)
  {
  }

  lemma ListKept(c: Program, files: seq<string>, cfg: FilterConfig)
    requires !Writes(c)
    ensures Exec(c, files, cfg).files == files
  {
    AllShown(files, {}, cfg);
    ReadsAreFiltered(c, files, {}, cfg);
  }

  /**
    The calls are override_scope_variable blocks: run as such, on any object with the attribute, they read the
    same lists, end the same way, and leave an object that reads as before.
   */
  lemma CallsAreOverrides(c: Program, files: seq<string>, cfg: FilterConfig, code: seq<string> -> int, s: S.State)
    requires !Writes(c) && s.Get("_affected_files") == Some(AsValue(files, code))
    ensures var ran, r := S.Exec(AsOverrides(c, files, cfg, code), s), Exec(c, files, cfg);
            ran.seen == AsSeen(r.log, code) && ran.ok == r.ok && S.Same(ran.state, s)
  {
    var stmt := AsOverrides(c, files, cfg, code);
    OverridesScoped(c, files, cfg, code, s);
    S.PatchingIsScoping(stmt, s, s, {});
    S.RunLeavesSame(stmt, s, s, {});
  }

  // ---------------------------------------------------------------- the wrapped method

  class Change {
    var affectedFiles: seq<string>
    var log: seq<seq<string>>  // the lists that have been read

    static method GetCheckNames(frames: seq<string>, cfg: FilterConfig) returns (names: set<string>)
      ensures names == StackNames(frames, cfg)
    {
      names := {};
      var n := 0;
      while n < |frames| && frames[n] != RUNNER
        invariant n <= |frames| && RUNNER !in frames[..n]
        invariant forall name :: name in names <==> cfg.isCheck(name) && name in frames[..n]
      {
        if cfg.isCheck(frames[n]) {
          names := names + {frames[n]};
        }
        assert frames[..n + 1] == frames[..n] + [frames[n]];
        n := n + 1;
      }
      forall name | cfg.isCheck(name) ensures name in frames[..n] <==> OnStack(frames, cfg, name) {
        StackPrefix(frames, n, cfg, name);
      }
    }

    /** The names come from a set, in whatever order it is iterated in. */
    static method GetFilesToSkip(names: set<string>, cfg: FilterConfig) returns (patterns: seq<string>)
      ensures forall p :: p in patterns <==> p in Patterns(names, cfg)
    {
      patterns := [];
      var ahead := names;
      while ahead != {}
        invariant ahead <= names
        invariant forall p :: p in patterns <==> p in Patterns(names - ahead, cfg)
      {
        var name :| name in ahead;
        assert names - (ahead - {name}) == (names - ahead) + {name};
        assert Patterns((names - ahead) + {name}, cfg) == Patterns(names - ahead, cfg) + Patterns({name}, cfg);
        ahead := ahead - {name};
        patterns := patterns + (if name in cfg.skips then cfg.skips[name] else []);
      }
      assert names - ahead == names;
    }

    static method FileFilter(file: string, patterns: seq<string>, cfg: FilterConfig) returns (keep: bool)
      ensures keep <==> forall p :: p in patterns ==> !cfg.matches(p, Slashes(file))
    {
      var localPath := Slashes(file);
      for n := 0 to |patterns|
        invariant forall p :: p in patterns[..n] ==> !cfg.matches(p, localPath)
      {
        if cfg.matches(patterns[n], localPath) {
          return false;
        }
        assert patterns[..n + 1] == patterns[..n] + [patterns[n]];
      }
      assert patterns[..|patterns|] == patterns;
      keep := true;
    }

    /** The list as the running checks may see it. */
    method FilterFiles(frames: seq<string>, cfg: FilterConfig) returns (shown: seq<string>)
      ensures shown == Visible(affectedFiles, StackNames(frames, cfg), cfg)
    {
      var names := GetCheckNames(frames, cfg);
      var patterns := GetFilesToSkip(names, cfg);
      shown := affectedFiles;
      ghost var keep := (file: string) => Shown(file, names, cfg);
      if patterns != [] {
        shown := [];
        for n := 0 to |affectedFiles|
          invariant shown == Filter(affectedFiles[..n], keep)
        {
          var kept := FileFilter(affectedFiles[n], patterns, cfg);
          assert kept <==> keep(affectedFiles[n]);
          FilterSnoc(affectedFiles[..n], affectedFiles[n], keep);
          assert affectedFiles[..n + 1] == affectedFiles[..n] + [affectedFiles[n]];
          if kept {
            shown := shown + [affectedFiles[n]];
          }
        }
        assert affectedFiles[..|affectedFiles|] == affectedFiles;
      } else {
        AllShown(affectedFiles, names, cfg);
      }
    }

    /** AffectedFiles: the original runs with the filtered list, which is put back however it ends. */
    method AffectedFiles(frames: seq<string>, original: Program, cfg: FilterConfig) returns (ok: bool)
      modifies this
      ensures Ran(affectedFiles, log, ok)
           == Exec(Call(frames, original), old(affectedFiles), cfg).After(old(log))
      decreases original, 1
    {
      var shown := FilterFiles(frames, cfg);
      var originalValue := affectedFiles;
      affectedFiles := shown;
      ok := Run(original, cfg);
      affectedFiles := originalValue;
    }

    method Run(c: Program, cfg: FilterConfig) returns (ok: bool)
      modifies this
      ensures Ran(affectedFiles, log, ok) == Exec(c, old(affectedFiles), cfg).After(old(log))
      decreases c, 0
    {
      match c {
        case Read =>
          log := log + [affectedFiles];
          ok := true;
        case IfListed(file, yes, no) =>
          if file in affectedFiles {
            ok := Run(yes, cfg);
          } else {
            ok := Run(no, cfg);
          }
        case Write(files) =>
          affectedFiles := files;
          ok := true;
        case Raise =>
          ok := false;
        case Seq(first, second) =>
          ok := Run(first, cfg);
          if ok {
            ok := Run(second, cfg);
          }
        case Try(body, handler) =>
          ok := Run(body, cfg);
          if !ok {
            ok := Run(handler, cfg);
          }
        case Call(frames, original) =>
          ok := AffectedFiles(frames, original, cfg);
      }
    }
  }

  lemma RunnerBefore(frames: seq<string>, n: nat, k: nat)
    requires k < |frames| && (n < |frames| ==> frames[n] == RUNNER)
    ensures n <= k ==> RUNNER in frames[..k + 1]
  {
    if n <= k {
      assert frames[..k + 1][n] == RUNNER;
    }
  }

  lemma StackPrefix(frames: seq<string>, n: nat, cfg: FilterConfig, name: string)
    requires n <= |frames| && RUNNER !in frames[..n] && (n < |frames| ==> frames[n] == RUNNER) && cfg.isCheck(name)
    ensures name in frames[..n] <==> OnStack(frames, cfg, name)
  {
    if name in frames[..n] {
      var k :| 0 <= k < n && frames[k] == name;
      assert forall x :: x in frames[..k + 1] ==> x in frames[..n];
    }
    if OnStack(frames, cfg, name) {
      var k :| 0 <= k < |frames| && frames[k] == name && RUNNER !in frames[..k + 1];
      RunnerBefore(frames, n, k);
    }
  }

  lemma {:induction false} AllShown(files: seq<string>, names: set<string>, cfg: FilterConfig)
    requires Patterns(names, cfg) == {}
    ensures Visible(files, names, cfg) == files
  {
    if files != [] {
      AllShown(files[1..], names, cfg);
    }
  }
}
