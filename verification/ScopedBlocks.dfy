/**
  Scoped overrides: context managers that patch an attribute of a scope or an entry of sys.path and undo
  the patch in a finally block. A scope looks attributes up in its own dictionary first and in that of its
  class second. Programs nest the context managers with ordinary statements and may raise anywhere.
 */
module ScopedBlocks {
  import opened Prelude

  // ---------------------------------------------------------------- values and scopes

  datatype Value =
    | NoneValue
    | Plain(id: int, truthy: bool)
    | Callable(id: int, bound: bool, truthy: bool)
    | Wrapper(newFunction: Value, original: Value, bound: bool)  // what override_scope_function installs

  predicate IsCallable(v: Value) {
    v.Callable? || v.Wrapper?
  }

  predicate IsMethod(v: Value) {
    IsCallable(v) && v.bound
  }

  predicate Truthy(v: Value) {
    match v
    case NoneValue => false
    case Plain(_, t) => t
    case Callable(_, _, t) => t
    case Wrapper(_, _, _) => true
  }

  type Attributes = map<string, Value>

  datatype State = State(klass: Attributes, instance: Attributes, path: seq<string>) {
    /** hasattr and getattr in one. */
    function Get(name: string): Option<Value> {
      if name in instance then Some(instance[name])
      else if name in klass then Some(klass[name])
      else None
    }

    /** getattr(scope, name, None) */
    function Lookup(name: string): Value {
      if Get(name).Some? then Get(name).value else NoneValue
    }

    function Set(name: string, v: Value): State {
      this.(instance := instance[name := v])
    }

    function Without(name: string): State {
      this.(instance := instance - {name})
    }
  }

  // ---------------------------------------------------------------- sys.path as a list

  /** list.insert, with list.append for an absent position; negative and large positions are clamped. */
  function Insert(xs: seq<string>, position: Option<int>, p: string): seq<string> {
    var n := match position
             case None => |xs|
             case Some(k) => if k > |xs| then |xs| else if k >= 0 then k else if k + |xs| >= 0 then k + |xs| else 0;
    xs[..n] + [p] + xs[n..]
  }

  /** `ys` is `xs` with `p` in front of what stood at position `n`. */
  ghost predicate InsertedAt(xs: seq<string>, p: string, n: int, ys: seq<string>) {
    0 <= n <= |xs| && |ys| == |xs| + 1 && ys[n] == p && ys[..n] == xs[..n] && ys[n + 1..] == xs[n..]
  }

  /**
    Without a position the entry comes last. A position within the list is where it stands afterwards; a larger
    one is the end. A negative position is the number of entries that follow it, as far as there are so many.
   */
  lemma InsertPlaces(xs: seq<string>, position: Option<int>, p: string)
    ensures var ys := Insert(xs, position, p);
            match position
            case None => ys == xs + [p]
            case Some(k) =>
              && (0 <= k <= |xs| ==> InsertedAt(xs, p, k, ys))
              && (k > |xs| ==> ys == xs + [p])
              && (-|xs| <= k < 0 ==> InsertedAt(xs, p, |xs| + k, ys) && |ys[|xs| + k + 1..]| == -k)
              && (k < -|xs| ==> ys == [p] + xs)
  {
    assert xs[..|xs|] + [p] + xs[|xs|..] == xs + [p];
    assert xs[..0] + [p] + xs[0..] == [p] + xs;
  }

  /** list.remove */
  function RemoveFirst(xs: seq<string>, p: string): seq<string>
    requires p in xs
  {
    if xs[0] == p then xs[1..] else [xs[0]] + RemoveFirst(xs[1..], p)
  }

  /** The finally block of sys_path; None when it raises. */
  function Undo(xs: seq<string>, p: string): Option<seq<string>> {
    if xs == [] then None
    else if xs[|xs| - 1] == p then Some(xs[..|xs| - 1])
    else if p in xs then Some(RemoveFirst(xs, p))
    else None
  }

  lemma {:induction false} RemoveInserted(a: seq<string>, p: string, b: seq<string>)
    requires p !in a
    ensures RemoveFirst(a + [p] + b, p) == a + b
  {
    var xs := a + [p] + b;
    assert xs[|a|] == p;
    if a == [] {
      assert xs[1..] == b == a + b;
    } else {
      assert xs[1..] == a[1..] + [p] + b;
      RemoveInserted(a[1..], p, b);
    }
  }

  lemma UndoInsert(xs: seq<string>, position: Option<int>, p: string)
    requires p !in xs
    ensures Undo(Insert(xs, position, p), p) == Some(xs)
  {
    var n :| 0 <= n <= |xs| && Insert(xs, position, p) == xs[..n] + [p] + xs[n..];
    UndoAt(xs, n, p);
  }

  lemma UndoAt(xs: seq<string>, n: nat, p: string)
    requires p !in xs && n <= |xs|
    ensures Undo(xs[..n] + [p] + xs[n..], p) == Some(xs)
  {
    var a, b := xs[..n], xs[n..];
    var ys := a + [p] + b;
    assert ys[n] == p;
    if b == [] {
      assert ys[..|ys| - 1] == a == xs;
    } else {
      assert ys[|ys| - 1] == b[|b| - 1] == xs[|xs| - 1];
      RemoveInserted(a, p, b);
      assert a + b == xs;
    }
  }

  // ---------------------------------------------------------------- programs

  datatype Stmt =
    | Skip
    | Raise
    | Seq(first: Stmt, second: Stmt)
    | Try(body: Stmt, handler: Stmt)
    | Branch(name: string, yes: Stmt, no: Stmt)  // on the truth of an attribute
    | Read(name: string)                         // hasattr and getattr
    | ReadPath                                   // sys.path
    | Assign(name: string, value: Value)
    | Delete(name: string)
    | WithVariable(name: string, value: Value, failIfNotFound: bool, condition: bool, body: Stmt)
    | WithFunction(name: string, value: Value, condition: bool, body: Stmt)
    | WithPath(dir: string, position: Option<int>, body: Stmt)

  /** What a program gets to see of the scope and of sys.path while it runs. */
  datatype Seen = Attribute(value: Option<Value>) | Path(dirs: seq<string>)

  datatype Result = Result(state: State, seen: seq<Seen>, ok: bool) {
    function After(before: seq<Seen>): Result {
      this.(seen := before + seen)
    }
  }

  function Exec(c: Stmt, s: State): Result {
    match c
    case Skip => Result(s, [], true)
    case Raise => Result(s, [], false)
    case Seq(first, second) =>
      var r := Exec(first, s);
      if r.ok then Exec(second, r.state).After(r.seen) else r
    case Try(body, handler) =>
      var r := Exec(body, s);
      if r.ok then r else Exec(handler, r.state).After(r.seen)
    case Branch(name, yes, no) =>
      if Truthy(s.Lookup(name)) then Exec(yes, s) else Exec(no, s)
    case Read(name) => Result(s, [Attribute(s.Get(name))], true)
    case ReadPath => Result(s, [Path(s.path)], true)
    case Assign(name, v) => Result(s.Set(name, v), [], true)
    case Delete(name) => if name in s.instance then Result(s.Without(name), [], true) else Result(s, [], false)
    case WithVariable(name, v, failIfNotFound, condition, body) =>
      if !condition then Exec(body, s)
      else if failIfNotFound && s.Get(name).None? then Result(s, [], false)
      else LeaveVariable(name, s.Get(name), Exec(body, s.Set(name, v)))
    case WithFunction(name, f, condition, body) =>
      if !condition then Exec(body, s)
      else LeaveFunction(name, s.Lookup(name),
                         if IsCallable(s.Lookup(name)) then Exec(body, EnterFunction(s, name, f))
                         else Result(s, [], false))
    case WithPath(dir, position, body) =>
      if dir in s.path then Exec(body, s)
      else LeavePath(dir, Exec(body, s.(path := Insert(s.path, position, dir))))
  }

  function EnterFunction(s: State, name: string, f: Value): State {
    s.Set(name, Wrapper(f, s.Lookup(name), IsMethod(s.Lookup(name))))
  }

  function LeaveVariable(name: string, original: Option<Value>, r: Result): Result {
    if original.Some? then r.(state := r.state.Set(name, original.value))
    else if name in r.state.instance then r.(state := r.state.Without(name))
    else r.(ok := false)
  }

  function LeaveFunction(name: string, original: Value, r: Result): Result {
    if Truthy(original) then r.(state := r.state.Set(name, original)) else r
  }

  function LeavePath(dir: string, r: Result): Result {
    match Undo(r.state.path, dir)
    case Some(path) => r.(state := r.state.(path := path))
    case None => r.(ok := false)
  }

  // ---------------------------------------------------------------- the same, changing the scope in place

  class Runtime {
    const klass: Attributes
    var instance: Attributes
    var path: seq<string>
    var seen: seq<Seen>  // what the program has read so far

    function Now(): State
      reads this
    {
      State(klass, instance, path)
    }

    /** The run from `before` so far amounts to `r`. */
    ghost predicate Reached(before: seq<Seen>, r: Result, ok: bool)
      reads this
    {
      Now() == r.state && seen == before + r.seen && ok == r.ok
    }

    method SetAttr(name: string, v: Value)
      modifies this`instance
      ensures Now() == old(Now()).Set(name, v)
    {
      instance := instance[name := v];
    }

    method DelAttr(name: string) returns (ok: bool)
      modifies this`instance
      ensures ok == (name in old(instance))
      ensures Now() == if ok then old(Now()).Without(name) else old(Now())
    {
      ok := name in instance;
      if ok {
        instance := instance - {name};
      }
    }

    /** Runs a program; false stands for leaving it with an exception. */
    method Run(c: Stmt) returns (ok: bool)
      modifies this
      ensures Reached(old(seen), Exec(c, old(Now())), ok)
      decreases c, 0
    {
      match c {
        case Skip =>
          ok := true;
        case Raise =>
          ok := false;
        case Seq(first, second) =>
          ok := Run(first);
          if ok {
            ok := Run(second);
          }
        case Try(body, handler) =>
          ok := Run(body);
          if !ok {
            ok := Run(handler);
          }
        case Branch(name, yes, no) =>
          if Truthy(Now().Lookup(name)) {
            ok := Run(yes);
          } else {
            ok := Run(no);
          }
        case Read(name) =>
          seen := seen + [Attribute(Now().Get(name))];
          ok := true;
        case ReadPath =>
          seen := seen + [Path(path)];
          ok := true;
        case Assign(name, v) =>
          SetAttr(name, v);
          ok := true;
        case Delete(name) =>
          ok := DelAttr(name);
        case WithVariable(_, _, _, _, _) =>
          ok := OverrideScopeVariable(c.name, c.value, c.failIfNotFound, c.condition, c.body);
        case WithFunction(_, _, _, _) =>
          ok := OverrideScopeFunction(c.name, c.value, c.condition, c.body);
        case WithPath(_, _, _) =>
          ok := SysPath(c.dir, c.position, c.body);
      }
    }

    method OverrideScopeVariable(name: string, v: Value, failIfNotFound: bool, condition: bool, body: Stmt)
        returns (ok: bool)
      modifies this
      ensures Reached(old(seen), Exec(WithVariable(name, v, failIfNotFound, condition, body), old(Now())), ok)
      decreases body, 1
    {
      if !condition {
        ok := Run(body);
        return;
      }
      var original := Now().Get(name);
      if failIfNotFound && original.None? {
        return false;
      }
      ghost var left := Exec(body, Now().Set(name, v));
      SetAttr(name, v);
      ok := Run(body);
      assert Reached(old(seen), left, ok);
      if original.Some? {
        SetAttr(name, original.value);
      } else {
        var deleted := DelAttr(name);
        ok := ok && deleted;
      }
      assert Reached(old(seen), LeaveVariable(name, original, left), ok);
    }

    method OverrideScopeFunction(name: string, f: Value, condition: bool, body: Stmt) returns (ok: bool)
      modifies this
      ensures Reached(old(seen), Exec(WithFunction(name, f, condition, body), old(Now())), ok)
      decreases body, 1
    {
      if !condition {
        ok := Run(body);
        return;
      }
      var original := Now().Lookup(name);
      ghost var left := Result(Now(), [], false);
      ok := false;
      if IsCallable(original) {
        left := Exec(body, EnterFunction(Now(), name, f));
        SetAttr(name, Wrapper(f, original, IsMethod(original)));
        assert Now() == EnterFunction(old(Now()), name, f);
        ok := Run(body);
      }
      assert Reached(old(seen), left, ok);
      if Truthy(original) {
        SetAttr(name, original);
      }
      assert Reached(old(seen), LeaveFunction(name, original, left), ok);
    }

    method SysPath(dir: string, position: Option<int>, body: Stmt) returns (ok: bool)
      modifies this
      ensures Reached(old(seen), Exec(WithPath(dir, position, body), old(Now())), ok)
      decreases body, 1
    {
      var pathExists := dir in path;
      if !pathExists {
        path := Insert(path, position, dir);
      }
      ok := Run(body);
      if !pathExists {
        if path == [] {
          ok := false;
        } else if path[|path| - 1] == dir {
          path := path[..|path| - 1];
        } else if dir in path {
          path := RemoveFirst(path, dir);
        } else {
          ok := false;
        }
      }
    }
  }

  // ---------------------------------------------------------------- restoration

  /** sys.path comes back as the same list from every program, however the blocks nest and wherever it raises. */
  lemma {:induction false} PathRestored(c: Stmt, s: State)
    ensures Exec(c, s).state.path == s.path
  {
    match c
    case Skip =>
    case Raise =>
    case Seq(first, second) =>
      PathRestored(first, s);
      PathRestored(second, Exec(first, s).state);
    case Try(body, handler) =>
      PathRestored(body, s);
      PathRestored(handler, Exec(body, s).state);
    case Branch(_, yes, no) =>
      PathRestored(yes, s);
      PathRestored(no, s);
    case Read(_) =>
    case ReadPath =>
    case Assign(_, _) =>
    case Delete(_) =>
    case WithVariable(name, v, _, _, body) =>
      PathRestored(body, s);
      PathRestored(body, s.Set(name, v));
    case WithFunction(name, f, _, body) =>
      PathRestored(body, s);
      PathRestored(body, EnterFunction(s, name, f));
    case WithPath(dir, position, body) =>
      PathRestored(body, s);
      if dir !in s.path {
        PathRestored(body, s.(path := Insert(s.path, position, dir)));
        UndoInsert(s.path, position, dir);
      }
  }

  /** The attributes a program writes directly, outside every active override of the same attribute. */
  function Exposed(c: Stmt): set<string> {
    match c
    case Skip => {}
    case Raise => {}
    case Seq(first, second) => Exposed(first) + Exposed(second)
    case Try(body, handler) => Exposed(body) + Exposed(handler)
    case Branch(_, yes, no) => Exposed(yes) + Exposed(no)
    case Read(_) => {}
    case ReadPath => {}
    case Assign(name, _) => {name}
    case Delete(name) => {name}
    case WithVariable(name, _, _, condition, body) => Exposed(body) - (if condition then {name} else {})
    case WithFunction(name, _, condition, body) => Exposed(body) - (if condition then {name} else {})
    case WithPath(_, _, body) => Exposed(body)
  }

  /** override_scope_function restores by truth value, so a callable that is false is not put back. */
  predicate Restorable(v: Value) {
    IsCallable(v) ==> Truthy(v)
  }

  /** Every value that the names in `functions` have in the scope is restorable. */
  ghost predicate Sound(s: State, functions: set<string>) {
    forall n :: n in functions ==>
      (n in s.klass ==> Restorable(s.klass[n])) && (n in s.instance ==> Restorable(s.instance[n]))
  }

  /** The program overrides functions only under names in `functions`, and gives those restorable values. */
  predicate SoundProgram(c: Stmt, functions: set<string>) {
    match c
    case Skip => true
    case Raise => true
    case Seq(first, second) => SoundProgram(first, functions) && SoundProgram(second, functions)
    case Try(body, handler) => SoundProgram(body, functions) && SoundProgram(handler, functions)
    case Branch(_, yes, no) => SoundProgram(yes, functions) && SoundProgram(no, functions)
    case Read(_) => true
    case ReadPath => true
    case Assign(name, v) => name in functions ==> Restorable(v)
    case Delete(_) => true
    case WithVariable(name, v, _, _, body) =>
      (name in functions ==> Restorable(v)) && SoundProgram(body, functions)
    case WithFunction(name, _, _, body) => name in functions && SoundProgram(body, functions)
    case WithPath(_, _, body) => SoundProgram(body, functions)
  }

  /** What a run leaves alone: the class, the values of every attribute outside `touched`, and soundness. */
  ghost predicate Keeps(s: State, t: State, touched: set<string>, functions: set<string>) {
    && t.klass == s.klass
    && Sound(t, functions)
    && forall n :: n !in touched ==> t.Get(n) == s.Get(n)
  }

  lemma LeaveVariableKeeps(s: State, name: string, v: Value, r: Result, touched: set<string>, functions: set<string>)
    requires Sound(s, functions) && Keeps(s.Set(name, v), r.state, touched, functions)
    ensures Keeps(s, LeaveVariable(name, s.Get(name), r).state, touched - {name}, functions)
  {
  }

  /** Also when the original is not callable, for which the block is left before its body runs. */
  lemma LeaveFunctionKeeps(s: State, name: string, w: Value, r: Result, touched: set<string>, functions: set<string>)
    requires Sound(s, functions) && name in functions && Keeps(s.Set(name, w), r.state, touched, functions)
    ensures IsCallable(s.Lookup(name)) ==>
              Keeps(s, LeaveFunction(name, s.Lookup(name), r).state, touched - {name}, functions)
    ensures Keeps(s, LeaveFunction(name, s.Lookup(name), Result(s, [], false)).state, {}, functions)
  {
  }

  /**
    Every attribute that the program does not write directly has the same value after any run as before it,
    or is absent again; an exception at any depth changes nothing about this.
   */
  lemma {:induction false} LookupsRestored(c: Stmt, s: State, functions: set<string>)
    requires Sound(s, functions) && SoundProgram(c, functions)
    ensures Keeps(s, Exec(c, s).state, Exposed(c), functions)
  {
    match c
    case Skip =>
    case Raise =>
    case Seq(first, second) =>
      LookupsRestored(first, s, functions);
      LookupsRestored(second, Exec(first, s).state, functions);
    case Try(body, handler) =>
      LookupsRestored(body, s, functions);
      LookupsRestored(handler, Exec(body, s).state, functions);
    case Branch(_, yes, no) =>
      LookupsRestored(yes, s, functions);
      LookupsRestored(no, s, functions);
    case Read(_) =>
    case ReadPath =>
    case Assign(_, _) =>
    case Delete(_) =>
    case WithVariable(name, v, _, condition, body) =>
      if !condition {
        LookupsRestored(body, s, functions);
      } else {
        LookupsRestored(body, s.Set(name, v), functions);
        LeaveVariableKeeps(s, name, v, Exec(body, s.Set(name, v)), Exposed(body), functions);
      }
    case WithFunction(name, f, condition, body) =>
      if !condition {
        LookupsRestored(body, s, functions);
      } else {
        var entered := EnterFunction(s, name, f);
        LookupsRestored(body, entered, functions);
        LeaveFunctionKeeps(s, name, entered.instance[name], Exec(body, entered), Exposed(body), functions);
      }
    case WithPath(dir, position, body) =>
      LookupsRestored(body, s, functions);
      LookupsRestored(body, s.(path := Insert(s.path, position, dir)), functions);
  }

  // ---------------------------------------------------------------- patching implements scoping

  /** The program writes no attribute directly. */
  predicate WriteFree(c: Stmt) {
    match c
    case Seq(first, second) => WriteFree(first) && WriteFree(second)
    case Try(body, handler) => WriteFree(body) && WriteFree(handler)
    case Branch(_, yes, no) => WriteFree(yes) && WriteFree(no)
    case Assign(_, _) => false
    case Delete(_) => false
    case WithVariable(_, _, _, _, body) => WriteFree(body)
    case WithFunction(_, _, _, body) => WriteFree(body)
    case WithPath(_, _, body) => WriteFree(body)
    case _ => true
  }

  datatype Observed = Observed(seen: seq<Seen>, ok: bool) {
    function After(before: seq<Seen>): Observed {
      this.(seen := before + seen)
    }
  }

  /**
    The intended meaning of the blocks: an override is a binding for its body, passed down with the
    environment `e`. Nothing is written, so there is nothing to undo.
   */
  function Scoped(c: Stmt, e: State): Observed
    requires WriteFree(c)
  {
    match c
    case Skip => Observed([], true)
    case Raise => Observed([], false)
    case Seq(first, second) =>
      var r := Scoped(first, e);
      if r.ok then Scoped(second, e).After(r.seen) else r
    case Try(body, handler) =>
      var r := Scoped(body, e);
      if r.ok then r else Scoped(handler, e).After(r.seen)
    case Branch(name, yes, no) => if Truthy(e.Lookup(name)) then Scoped(yes, e) else Scoped(no, e)
    case Read(name) => Observed([Attribute(e.Get(name))], true)
    case ReadPath => Observed([Path(e.path)], true)
    case WithVariable(name, v, failIfNotFound, condition, body) =>
      if !condition then Scoped(body, e)
      else if failIfNotFound && e.Get(name).None? then Observed([], false)
      else Scoped(body, e.Set(name, v))
    case WithFunction(name, f, condition, body) =>
      if !condition then Scoped(body, e)
      else if IsCallable(e.Lookup(name)) then Scoped(body, EnterFunction(e, name, f))
      else Observed([], false)
    case WithPath(dir, position, body) =>
      if dir in e.path then Scoped(body, e) else Scoped(body, e.(path := Insert(e.path, position, dir)))
  }

  /** The two states cannot be told apart by reading. */
  ghost predicate Same(s: State, e: State) {
    s.path == e.path && forall n :: s.Get(n) == e.Get(n)
  }

  lemma SameBound(s: State, e: State, name: string, v: Value, path: seq<string>)
    requires Same(s, e)
    ensures Same(s.Set(name, v), e.Set(name, v)) && Same(s.(path := path), e.(path := path))
  {
    forall n
      ensures s.Set(name, v).Get(n) == e.Set(name, v).Get(n)
      ensures s.(path := path).Get(n) == e.(path := path).Get(n)
    {
      assert s.Get(n) == e.Get(n);
    }
  }

  lemma {:induction false} WriteFreeExposesNothing(c: Stmt)
    requires WriteFree(c)
    ensures Exposed(c) == {}
  {
    match c
    case Seq(first, second) =>
      WriteFreeExposesNothing(first);
      WriteFreeExposesNothing(second);
    case Try(body, handler) =>
      WriteFreeExposesNothing(body);
      WriteFreeExposesNothing(handler);
    case Branch(_, yes, no) =>
      WriteFreeExposesNothing(yes);
      WriteFreeExposesNothing(no);
    case WithVariable(_, _, _, _, body) => WriteFreeExposesNothing(body);
    case WithFunction(_, _, _, body) => WriteFreeExposesNothing(body);
    case WithPath(_, _, body) => WriteFreeExposesNothing(body);
    case _ =>
  }

  /** A run leaves a state that reads like the one before it. */
  lemma RunLeavesSame(c: Stmt, s: State, e: State, functions: set<string>)
    requires WriteFree(c) && Sound(s, functions) && SoundProgram(c, functions) && Same(s, e)
    ensures Same(Exec(c, s).state, e) && Sound(Exec(c, s).state, functions)
  {
    WriteFreeExposesNothing(c);
    LookupsRestored(c, s, functions);
    PathRestored(c, s);
  }

  /** The observations of a run are those of the scoped meaning. */
  ghost predicate Agrees(r: Result, o: Observed) {
    r.seen == o.seen && r.ok == o.ok
  }

  /**
    Patching the scope and undoing it implements scoping: every program that writes no attribute itself reads
    the same values, and ends the same way, as if overrides were bindings that only its blocks' bodies can see.
   */
  lemma {:induction false} PatchingIsScoping(c: Stmt, s: State, e: State, functions: set<string>)
    requires WriteFree(c) && Sound(s, functions) && SoundProgram(c, functions) && Same(s, e)
    ensures Agrees(Exec(c, s), Scoped(c, e))
  {
    match c
    case Seq(first, second) =>
      PatchingIsScoping(first, s, e, functions);
      RunLeavesSame(first, s, e, functions);
      PatchingIsScoping(second, Exec(first, s).state, e, functions);
    case Try(body, handler) =>
      PatchingIsScoping(body, s, e, functions);
      RunLeavesSame(body, s, e, functions);
      PatchingIsScoping(handler, Exec(body, s).state, e, functions);
    case Branch(_, yes, no) =>
      PatchingIsScoping(yes, s, e, functions);
      PatchingIsScoping(no, s, e, functions);
    case WithVariable(name, v, _, condition, body) =>
      if condition {
        SameBound(s, e, name, v, s.path);
        PatchingIsScoping(body, s.Set(name, v), e.Set(name, v), functions);
        VariableStaysSet(body, s, name, v, functions);
      } else {
        PatchingIsScoping(body, s, e, functions);
      }
    case WithFunction(name, f, condition, body) =>
      if condition {
        SameBound(s, e, name, EnterFunction(s, name, f).instance[name], s.path);
        assert s.Get(name) == e.Get(name);
        PatchingIsScoping(body, EnterFunction(s, name, f), EnterFunction(e, name, f), functions);
      } else {
        PatchingIsScoping(body, s, e, functions);
      }
    case WithPath(dir, position, body) =>
      var path := Insert(s.path, position, dir);
      if dir in s.path {
        PatchingIsScoping(body, s, e, functions);
      } else {
        SameBound(s, e, "", NoneValue, path);
        PatchingIsScoping(body, s.(path := path), e.(path := path), functions);
        PathRestored(body, s.(path := path));
        UndoInsert(s.path, position, dir);
      }
    case _ =>
  }

  /** An attribute that was absent is still there to be deleted when the body of its override ends. */
  lemma VariableStaysSet(body: Stmt, s: State, name: string, v: Value, functions: set<string>)
    requires WriteFree(body) && SoundProgram(body, functions) && Sound(s.Set(name, v), functions)
    ensures s.Get(name).None? ==> name in Exec(body, s.Set(name, v)).state.instance
  {
    WriteFreeExposesNothing(body);
    LookupsRestored(body, s.Set(name, v), functions);
    assert Exec(body, s.Set(name, v)).state.Get(name) == Some(v);
  }

  // ---------------------------------------------------------------- what the blocks show and when they refuse

  lemma ThenRead(before: Stmt, name: string, s: State)
    requires Exec(before, s).ok
    ensures var r := Exec(before, s);
            && Exec(Seq(before, Read(name)), s) == Result(r.state, r.seen + [Attribute(r.state.Get(name))], true)
            && Exec(Seq(before, ReadPath), s) == Result(r.state, r.seen + [Path(r.state.path)], true)
  {
    assert Exec(Read(name), Exec(before, s).state).ok && Exec(ReadPath, Exec(before, s).state).ok;
  }

  /**
    Wherever the body of a function override reads the name, after any statements that do not write it, it sees a
    wrapper around the new function and the original, which is bound exactly if the original is a method.
   */
  lemma FunctionSeen(s: State, name: string, f: Value, before: Stmt, functions: set<string>)
    requires s.Get(name).Some? && (s.Get(name).value.Callable? || s.Get(name).value.Wrapper?)
    requires var w := Wrapper(f, s.Get(name).value, s.Get(name).value.bound);
             && Sound(s.Set(name, w), functions) && SoundProgram(before, functions) && name !in Exposed(before)
             && Exec(before, s.Set(name, w)).ok
    ensures var w := Wrapper(f, s.Get(name).value, s.Get(name).value.bound);
            var r := Exec(WithFunction(name, f, true, Seq(before, Read(name))), s);
            r.ok && r.seen == Exec(before, s.Set(name, w)).seen + [Attribute(Some(w))]
  {
    var w := Wrapper(f, s.Get(name).value, s.Get(name).value.bound);
    LookupsRestored(before, s.Set(name, w), functions);
    assert Exec(before, s.Set(name, w)).state.Get(name) == Some(w);
    ThenRead(before, name, s.Set(name, w));
  }

  /** A block that is entered shows what its body shows, and ends as it does if there is something to undo. */
  lemma VariableBody(s: State, name: string, v: Value, failIfNotFound: bool, body: Stmt)
    requires s.Get(name).Some? || (!failIfNotFound && name in Exec(body, s.Set(name, v)).state.instance)
    ensures var r := Exec(WithVariable(name, v, failIfNotFound, true, body), s);
            var inner := Exec(body, s.Set(name, v));
            r.ok == inner.ok && r.seen == inner.seen
  {
  }

  /** So does the body of a variable override with the new value, the attribute being there or not required. */
  lemma VariableSeen(s: State, name: string, v: Value, failIfNotFound: bool, before: Stmt, functions: set<string>)
    requires s.Get(name).Some? || !failIfNotFound
    requires Sound(s.Set(name, v), functions) && SoundProgram(before, functions) && name !in Exposed(before)
    requires Exec(before, s.Set(name, v)).ok
    ensures var r := Exec(WithVariable(name, v, failIfNotFound, true, Seq(before, Read(name))), s);
            r.ok && r.seen == Exec(before, s.Set(name, v)).seen + [Attribute(Some(v))]
  {
    LookupsRestored(before, s.Set(name, v), functions);
    assert Exec(before, s.Set(name, v)).state.Get(name) == Some(v);
    ThenRead(before, name, s.Set(name, v));
    VariableBody(s, name, v, failIfNotFound, Seq(before, Read(name)));
  }

  /** The body of a path block has the directory inserted in the path, unless it was there before. */
  lemma PathSeen(s: State, dir: string, position: Option<int>, before: Stmt)
    ensures dir in s.path ==> Exec(WithPath(dir, position, before), s) == Exec(before, s)
    ensures var t := s.(path := Insert(s.path, position, dir));
            dir !in s.path && Exec(before, t).ok ==>
              var r := Exec(WithPath(dir, position, Seq(before, ReadPath)), s);
              r.ok && r.seen == Exec(before, t).seen + [Path(t.path)]
  {
    var t := s.(path := Insert(s.path, position, dir));
    if dir !in s.path && Exec(before, t).ok {
      PathRestored(before, t);
      ThenRead(before, "", t);
      UndoInsert(s.path, position, dir);
    }
  }

  /**
    An override of what is missing, or of a function that is not callable, raises without running its body, and
    the scope reads as before; one with a false condition is its body alone.
   */
  lemma OverridesRefused(s: State, name: string, v: Value, failIfNotFound: bool, body: Stmt)
    ensures s.Get(name).None? && failIfNotFound ==>
              Exec(WithVariable(name, v, failIfNotFound, true, body), s) == Result(s, [], false)
    ensures s.Get(name).None? || s.Get(name).value.NoneValue? || s.Get(name).value.Plain? ==>
              var r := Exec(WithFunction(name, v, true, body), s);
              !r.ok && r.seen == [] && Same(r.state, s)
    ensures Exec(WithVariable(name, v, failIfNotFound, false, body), s) == Exec(body, s)
    ensures Exec(WithFunction(name, v, false, body), s) == Exec(body, s)
  {
  }

  // ---------------------------------------------------------------- when a function is not put back

  /** What any function override leaves: the original if it is restorable, else whatever its body ends with. */
  lemma FunctionLeft(s: State, name: string, f: Value, body: Stmt)
    ensures var after := Exec(WithFunction(name, f, true, body), s).state.Get(name);
            after == if Restorable(s.Lookup(name)) then s.Get(name)
                     else Exec(body, EnterFunction(s, name, f)).state.Get(name)
  {
  }

  /**
    A function override whose body does not itself write the name puts the original back exactly when the
    original is not a callable with a false truth value.
   */
  lemma FunctionRestoredExactly(s: State, name: string, f: Value, body: Stmt, functions: set<string>)
    requires name !in Exposed(body) && SoundProgram(body, functions)
    requires Sound(EnterFunction(s, name, f), functions)
    ensures Exec(WithFunction(name, f, true, body), s).state.Get(name) == s.Get(name)
       <==> !(s.Lookup(name).Callable? && !s.Lookup(name).truthy)
  {
    FunctionLeft(s, name, f, body);
    LookupsRestored(body, EnterFunction(s, name, f), functions);
    var original := s.Lookup(name);
    assert Wrapper(f, original, IsMethod(original)) != original;
  }

  /** A callable object whose truth value is false stays wrapped after the block. */
  lemma FalseCallableStaysWrapped()
    ensures var s := State(map[], map["f" := Callable(0, false, false)], []);
            Exec(WithFunction("f", Callable(1, false, true), true, Skip), s).state.Lookup("f")
            == Wrapper(Callable(1, false, true), Callable(0, false, false), false)
  {
  }
}
