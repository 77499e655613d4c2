/**
  The merging of feature switches: comma-separated lists on the command line, the defaults a program adds
  to them, and the lists written back.
 */
module FeatureSwitches {
  import opened Prelude

  // ---------------------------------------------------------------- comma-separated lists

  predicate IsWhitespace(c: char) {
    c in {' ', '\t', '\n', '\r', 0x0B as char, 0x0C as char}
  }

  function TrimLeft(s: string): string {
    if s != "" && IsWhitespace(s[0]) then TrimLeft(s[1..]) else s
  }

  function TrimRight(s: string): string {
    if s != "" && IsWhitespace(s[|s| - 1]) then TrimRight(s[..|s| - 1]) else s
  }

  function Trim(s: string): string {
    TrimRight(TrimLeft(s))
  }

  function Split(s: string): (pieces: seq<string>)
    ensures pieces != []
  {
    if s == "" then [""]
    else if s[0] == ',' then [""] + Split(s[1..])
    else var rest := Split(s[1..]); [[s[0]] + rest[0]] + rest[1..]
  }

  /** base::SplitString with TRIM_WHITESPACE and SPLIT_WANT_NONEMPTY, collected into a set. */
  function Names(value: string): set<string> {
    set piece | piece in Split(value) && Trim(piece) != "" :: Trim(piece)
  }

  function Print(order: seq<string>): string {
    if order == [] then ""
    else if |order| == 1 then order[0]
    else order[0] + "," + Print(order[1..])
  }

  function Elements(order: seq<string>): set<string> {
    set name | name in order
  }

  lemma ElementsSnoc(order: seq<string>, n: nat)
    requires n < |order|
    ensures Elements(order[..n + 1]) == Elements(order[..n]) + {order[n]}
  {
    assert order[..n + 1] == order[..n] + [order[n]];
  }

  /** A name that parsing leaves as it is. */
  predicate Clean(name: string) {
    name != "" && ',' !in name && !IsWhitespace(name[0]) && !IsWhitespace(name[|name| - 1])
  }

  predicate Ascii(s: string) {
    forall c :: c in s ==> c < 0x80 as char
  }

  /** The names that each of the given names is parsed as. */
  function Pieces(names: set<string>): set<string> {
    set name, piece | name in names && piece in Names(name) :: piece
  }

  /** A space, or a tab, a line break or a feed, which are the characters from tab to carriage return. */
  predicate IsBlank(c: char) {
    c == ' ' || '\t' <= c <= '\r'
  }

  ghost predicate Blank(s: string) {
    forall c :: c in s ==> IsBlank(c)
  }

  lemma {:induction false} TrimLeftCuts(s: string) returns (a: string)
    ensures Blank(a) && s == a + TrimLeft(s)
    ensures TrimLeft(s) != "" ==> !IsWhitespace(TrimLeft(s)[0])
  {
    a := "";
    if s != "" && IsWhitespace(s[0]) {
      var rest := TrimLeftCuts(s[1..]);
      a := [s[0]] + rest;
      assert s == [s[0]] + s[1..];
    }
  }

  lemma {:induction false} TrimRightCuts(s: string) returns (b: string)
    ensures Blank(b) && s == TrimRight(s) + b
    ensures TrimRight(s) != "" ==> !IsWhitespace(TrimRight(s)[|TrimRight(s)| - 1])
  {
    b := "";
    if s != "" && IsWhitespace(s[|s| - 1]) {
      var n := |s| - 1;
      var rest := TrimRightCuts(s[..n]);
      b := rest + [s[n]];
      assert s == s[..n] + [s[n]];
    }
  }

  /** Trimming cuts white space off both ends, and what is left has none there. */
  lemma TrimCuts(s: string) returns (a: string, b: string)
    ensures Blank(a) && Blank(b) && s == a + Trim(s) + b
    ensures var t := Trim(s); t != "" ==> !IsBlank(t[0]) && !IsBlank(t[|t| - 1])
  {
    a := TrimLeftCuts(s);
    b := TrimRightCuts(TrimLeft(s));
    Associative(a, Trim(s), b);
    if Trim(s) != "" {
      assert TrimLeft(s)[0] == Trim(s)[0];
    }
  }

  lemma {:induction false} TrimLeftBlank(a: string, t: string)
    requires Blank(a)
    ensures TrimLeft(a + t) == TrimLeft(t)
  {
    if a == "" {
      assert a + t == t;
    } else {
      assert a[0] in a && (forall c :: c in a[1..] ==> c in a) && (a + t)[1..] == a[1..] + t;
      TrimLeftBlank(a[1..], t);
    }
  }

  lemma {:induction false} TrimRightBlank(t: string, b: string)
    requires Blank(b)
    ensures TrimRight(t + b) == TrimRight(t)
  {
    if b == "" {
      assert t + b == t;
    } else {
      var n := |b| - 1;
      assert b[n] in b && (forall c :: c in b[..n] ==> c in b) && (t + b)[..|t| + n] == t + b[..n];
      TrimRightBlank(t, b[..n]);
    }
  }

  /** White space around a clean name is trimmed away. */
  lemma TrimBlanks(a: string, name: string, b: string)
    requires Blank(a) && Blank(b) && Clean(name)
    ensures Trim(a + name + b) == name
  {
    Associative(a, name, b);
    TrimLeftBlank(a, name + b);
    assert (name + b)[0] == name[0];
    TrimRightBlank(name, b);
  }

  lemma TrimClean(s: string)
    requires ',' !in s && Trim(s) != ""
    ensures Clean(Trim(s)) && forall c :: c in Trim(s) ==> c in s
  {
    var t := TrimLeft(s);
    var _ := TrimLeftCuts(s);
    var _ := TrimRightCuts(t);
    PrefixClean(t, TrimRight(t));
  }

  lemma PrefixClean(t: string, p: string)
    requires p != "" && p <= t && ',' !in t && !IsWhitespace(t[0]) && !IsWhitespace(p[|p| - 1])
    ensures Clean(p) && forall c :: c in p ==> c in t
  {
  }

  lemma {:induction false} SplitChars(s: string, piece: string)
    requires piece in Split(s)
    ensures forall c :: c in piece ==> c in s && c != ','
  {
    if s != "" {
      var rest := Split(s[1..]);
      forall p | p in rest ensures forall c :: c in p ==> c in s && c != ',' {
        SplitChars(s[1..], p);
      }
      if s[0] != ',' {
        assert s[0] in s && rest[0] in rest;
        assert piece == [s[0]] + rest[0] || piece in rest;
      }
    }
  }

  /** Parsing never yields a name that it would change, and takes all characters from the text. */
  lemma NamesClean(value: string)
    ensures forall name :: name in Names(value) ==> Clean(name) && (Ascii(value) ==> Ascii(name))
  {
    forall name | name in Names(value) ensures Clean(name) && (Ascii(value) ==> Ascii(name)) {
      var piece :| piece in Split(value) && Trim(piece) != "" && name == Trim(piece);
      SplitChars(value, piece);
      TrimClean(piece);
    }
  }

  lemma {:induction false} SplitOne(name: string)
    requires ',' !in name
    ensures Split(name) == [name]
  {
    if name != "" {
      assert name[0] in name;
      SplitOne(name[1..]);
      assert name == [name[0]] + name[1..];
    }
  }

  /** The names are exactly the clean texts that stand, with any white space around them, between the commas. */
  lemma NamesExactly(value: string, name: string)
    ensures name in Names(value) <==>
            Clean(name) && exists a, b :: Blank(a) && Blank(b) && a + name + b in Split(value)
  {
    NamesClean(value);
    if name in Names(value) {
      var piece :| piece in Split(value) && Trim(piece) != "" && name == Trim(piece);
      var a, b := TrimCuts(piece);
      assert a + name + b in Split(value);
    }
    if a, b :| Clean(name) && Blank(a) && Blank(b) && a + name + b in Split(value) {
      TrimBlanks(a, name, b);
    }
  }

  /** Splitting cuts a text at all of its commas: the pieces have none and make up the text when joined by them. */
  lemma {:induction false} SplitJoins(s: string)
    ensures Print(Split(s)) == s && forall piece :: piece in Split(s) ==> ',' !in piece
  {
    forall piece | piece in Split(s) ensures ',' !in piece {
      SplitChars(s, piece);
    }
    if s != "" {
      var rest := Split(s[1..]);
      SplitJoins(s[1..]);
      assert s == [s[0]] + s[1..];
      if s[0] == ',' {
        assert ([""] + rest)[1..] == rest;
      } else {
        assert ([[s[0]] + rest[0]] + rest[1..])[1..] == rest[1..];
      }
    }
  }

  lemma {:induction false} SplitConcat(s: string, rest: string)
    ensures Split(s + "," + rest) == Split(s) + Split(rest)
  {
    var t := s + "," + rest;
    if s == "" {
      assert t[1..] == rest;
    } else {
      assert t[0] == s[0] && t[1..] == s[1..] + "," + rest;
      SplitConcat(s[1..], rest);
    }
  }

  lemma NamesConcat(s: string, rest: string)
    ensures Names(s + "," + rest) == Names(s) + Names(rest)
  {
    SplitConcat(s, rest);
  }

  /** A name is clean exactly when it is parsed as itself. */
  lemma CleanExactly(name: string)
    ensures Clean(name) <==> Names(name) == {name}
  {
    if Clean(name) {
      SplitOne(name);
      assert Trim(name) == name;
    }
    if Names(name) == {name} {
      NamesClean(name);
      assert name in Names(name);
    }
  }

  /** A list printed in any order is parsed as the pieces of its elements. */
  lemma {:induction false} PrintPieces(order: seq<string>)
    ensures Names(Print(order)) == Pieces(Elements(order))
  {
    if order == [] {
      assert Split("") == [""] && Trim("") == "";
    } else {
      assert Elements(order) == {order[0]} + Elements(order[1..]);
      assert Pieces(Elements(order)) == Names(order[0]) + Pieces(Elements(order[1..]));
      if |order| > 1 {
        PrintPieces(order[1..]);
        NamesConcat(order[0], Print(order[1..]));
      }
    }
  }

  lemma PiecesOfClean(names: set<string>)
    ensures Pieces(names) == names <==> forall name :: name in names ==> Clean(name)
  {
    forall name | name in names ensures Clean(name) <==> Names(name) == {name} {
      CleanExactly(name);
    }
    if Pieces(names) == names {
      forall name | name in names ensures Clean(name) {
        var whole :| whole in names && name in Names(whole);
        NamesClean(whole);
      }
    }
  }

  /** Printing a list in any order and parsing it gives its names back exactly when all of them are clean. */
  lemma PrintParse(order: seq<string>)
    ensures Names(Print(order)) == Elements(order) <==> forall name :: name in order ==> Clean(name)
  {
    PrintPieces(order);
    PiecesOfClean(Elements(order));
    assert forall name :: name in order <==> name in Elements(order);
  }

  lemma AsciiConcat(s: string, rest: string)
    ensures Ascii(s + "," + rest) <==> Ascii(s) && Ascii(rest)
  {
    var all := s + "," + rest;
    assert forall c :: c in all <==> c in s || c == ',' || c in rest;
  }

  lemma {:induction false} PrintAscii(order: seq<string>)
    ensures Ascii(Print(order)) <==> forall name :: name in order ==> Ascii(name)
  {
    if |order| == 1 {
      assert order == [order[0]];
    } else if |order| > 1 {
      PrintAscii(order[1..]);
      AsciiConcat(order[0], Print(order[1..]));
      assert forall name :: name in order <==> name == order[0] || name in order[1..];
    }
  }

  lemma {:induction false} PrintSnoc(order: seq<string>, name: string)
    ensures Print(order + [name]) == if order == [] then name else Print(order) + "," + name
  {
    if |order| >= 1 {
      PrintSnoc(order[1..], name);
      assert (order + [name])[1..] == order[1..] + [name];
    }
  }

  // ---------------------------------------------------------------- features and mentions

  const ENABLE := "enable-features"
  const DISABLE := "disable-features"

  type Switches = map<string, string>

  /** GetSwitchValueASCII: an absent value and one that is not ASCII read as empty. */
  function ValueOf(switches: Switches, key: string): (value: string)
    ensures Ascii(value)
  {
    if key in switches && Ascii(switches[key]) then switches[key] else ""
  }

  datatype Features = Features(enabled: set<string>, disabled: set<string>)

  /** What a new helper reads off a command line. */
  function Parsed(switches: Switches): Features {
    var disabled := Names(ValueOf(switches, DISABLE));
    Features(Names(ValueOf(switches, ENABLE)) - disabled, disabled)
  }

  /** The switch has an ASCII value with the name, and perhaps white space around it, between its commas. */
  ghost predicate Listed(switches: Switches, key: string, name: string) {
    && key in switches && (forall c :: c in switches[key] ==> c as int < 128)
    && exists a, b :: Blank(a) && Blank(b) && a + name + b in Split(switches[key])
  }

  /** What a new helper reads, name by name. */
  lemma ParsedExactly(switches: Switches, name: string)
    ensures name in Parsed(switches).disabled <==> Clean(name) && Listed(switches, "disable-features", name)
    ensures name in Parsed(switches).enabled <==>
            Clean(name) && Listed(switches, "enable-features", name) && !Listed(switches, "disable-features", name)
  {
    NamesExactly(ValueOf(switches, ENABLE), name);
    NamesExactly(ValueOf(switches, DISABLE), name);
    NothingListed(name);
  }

  lemma NothingListed(name: string)
    ensures name !in Names("")
  {
    assert Split("") == [""] && Trim("") == "";
  }

  /** One mention of features: the command line itself, or one call with its two arguments. */
  datatype Mention = Mention(enabled: set<string>, disabled: set<string>)

  function Merge(f: Features, m: Mention): Features {
    var disabled := f.disabled + (m.disabled - f.enabled);
    Features(f.enabled + (m.enabled - disabled), disabled)
  }

  function MergeAll(f: Features, ms: seq<Mention>): Features
    decreases ms
  {
    if ms == [] then f else MergeAll(Merge(f, ms[0]), ms[1..])
  }

  datatype Status = Unmentioned | Enabled | Disabled

  /** The first mention decides, disabling within one mention. */
  function StatusOf(ms: seq<Mention>, name: string): Status {
    if ms == [] then Unmentioned
    else if name in ms[0].disabled then Disabled
    else if name in ms[0].enabled then Enabled
    else StatusOf(ms[1..], name)
  }

  function CommandLineMention(switches: Switches): Mention {
    Mention(Names(ValueOf(switches, ENABLE)), Names(ValueOf(switches, DISABLE)))
  }

  lemma {:induction false} MergeDecides(f: Features, ms: seq<Mention>, name: string)
    requires f.enabled !! f.disabled
    ensures var g := MergeAll(f, ms);
            && g.enabled !! g.disabled && f.enabled <= g.enabled && f.disabled <= g.disabled
            && (name !in f.enabled + f.disabled ==>
                (name in g.enabled <==> StatusOf(ms, name) == Enabled)
                && (name in g.disabled <==> StatusOf(ms, name) == Disabled))
    decreases ms
  {
    if ms != [] {
      MergeDecides(Merge(f, ms[0]), ms[1..], name);
    }
  }

  /** Over any run of calls a feature's status is that of its first mention, the command line coming first. */
  lemma FirstMentionDecides(switches: Switches, calls: seq<Mention>, name: string)
    ensures var g := MergeAll(Parsed(switches), calls);
            var status := StatusOf([CommandLineMention(switches)] + calls, name);
            && (name in g.enabled <==> status == Enabled)
            && (name in g.disabled <==> status == Disabled)
            && Parsed(switches).enabled <= g.enabled && Parsed(switches).disabled <= g.disabled
  {
    MergeDecides(Parsed(switches), calls, name);
    assert ([CommandLineMention(switches)] + calls)[1..] == calls;
  }

  /** The switches after a merge has been written back in some iteration orders. */
  ghost predicate WrittenBack(before: Switches, f: Features, after: Switches) {
    exists middle :: Rewritten(before, ENABLE, f.enabled, middle) && Rewritten(middle, DISABLE, f.disabled, after)
  }

  /** The new value of one switch: the printed names, or the old value when there are none. */
  ghost predicate Rewritten(before: Switches, key: string, names: set<string>, after: Switches) {
    if names == {} then after == before else Printed(before, key, names, after)
  }

  ghost predicate Printed(before: Switches, key: string, names: set<string>, after: Switches) {
    exists text :: Lists(text, names) && after == before[key := text]
  }

  ghost predicate Lists(text: string, names: set<string>) {
    exists order: seq<string> :: Enumerates(order, names) && text == Print(order)
  }

  ghost predicate Enumerates(order: seq<string>, names: set<string>) {
    |order| == |names| && Elements(order) == names
  }

  /** What is read of a printed set of names: their pieces, or nothing if one of them is not ASCII. */
  function ReadBack(names: set<string>): set<string> {
    if forall name :: name in names ==> Ascii(name) then Pieces(names) else {}
  }

  /** A name that survives being written and read. */
  predicate Writable(name: string) {
    Clean(name) && Ascii(name)
  }

  lemma ReadBackWritable(names: set<string>)
    ensures ReadBack(names) == names <==> forall name :: name in names ==> Writable(name)
  {
    PiecesOfClean(names);
  }

  /** Where a set is printed its names are read back as far as they can be; elsewhere the old value stays. */
  lemma WrittenBackValues(before: Switches, f: Features, after: Switches)
    requires WrittenBack(before, f, after)
    ensures if f.enabled == {} then ValueOf(after, ENABLE) == ValueOf(before, ENABLE)
            else Names(ValueOf(after, ENABLE)) == ReadBack(f.enabled)
    ensures if f.disabled == {} then ValueOf(after, DISABLE) == ValueOf(before, DISABLE)
            else Names(ValueOf(after, DISABLE)) == ReadBack(f.disabled)
  {
    var middle :| Rewritten(before, ENABLE, f.enabled, middle) && Rewritten(middle, DISABLE, f.disabled, after);
    RewrittenValue(before, ENABLE, f.enabled, middle, DISABLE);
    RewrittenValue(middle, DISABLE, f.disabled, after, ENABLE);
  }

  lemma RewrittenValue(before: Switches, key: string, names: set<string>, after: Switches, other: string)
    requires Rewritten(before, key, names, after) && |other| != |key|
    ensures ValueOf(after, other) == ValueOf(before, other)
    ensures if names == {} then ValueOf(after, key) == ValueOf(before, key)
            else Names(ValueOf(after, key)) == ReadBack(names)
  {
    if names != {} {
      var text :| Lists(text, names) && after == before[key := text];
      ListsReadBack(text, names);
    }
  }

  lemma ListsReadBack(text: string, names: set<string>)
    requires Lists(text, names)
    ensures Names(if Ascii(text) then text else "") == ReadBack(names)
  {
    var order :| Enumerates(order, names) && text == Print(order);
    PrintPieces(order);
    PrintPieces([]);
    PrintAscii(order);
    assert forall name :: name in order <==> name in Elements(order);
  }

  /** One more element printed: the separator is wanted exactly when it is not the first. */
  lemma EnumeratesSnoc(order: seq<string>, values: set<string>, ahead: set<string>, it: string)
    requires ahead <= values && it in ahead && Enumerates(order, values - ahead)
    ensures Enumerates(order + [it], values - (ahead - {it}))
    ensures Print(order + [it]) == if ahead == values then it else Print(order) + "," + it
  {
    PrintSnoc(order, it);
    assert Elements(order + [it]) == Elements(order) + {it};
    assert values - (ahead - {it}) == (values - ahead) + {it};
    assert order == [] <==> values - ahead == {};
  }

  lemma {:induction false} MergeAllSnoc(f: Features, ms: seq<Mention>, m: Mention)
    ensures MergeAll(f, ms + [m]) == Merge(MergeAll(f, ms), m)
    decreases ms
  {
    if ms == [] {
      assert [m][1..] == [];
    } else {
      MergeAllSnoc(Merge(f, ms[0]), ms[1..], m);
      assert (ms + [m])[1..] == ms[1..] + [m];
    }
  }

  /** The switches of a run: each call writes back what has been merged so far. */
  ghost predicate IsRun(states: seq<Switches>, calls: seq<Mention>) {
    && |states| == |calls| + 1
    && forall k :: 0 <= k < |calls| ==>
         WrittenBack(states[k], MergeAll(Parsed(states[0]), calls[..k + 1]), states[k + 1])
  }

  /** The sets grow from call to call, and a switch whose set is still empty has its first value. */
  lemma {:induction false} EmptyLeavesSwitch(states: seq<Switches>, calls: seq<Mention>, n: nat)
    requires IsRun(states, calls) && n <= |calls|
    ensures var g := MergeAll(Parsed(states[0]), calls[..n]);
            && (g.enabled == {} ==> ValueOf(states[n], ENABLE) == ValueOf(states[0], ENABLE))
            && (g.disabled == {} ==> ValueOf(states[n], DISABLE) == ValueOf(states[0], DISABLE))
  {
    if n > 0 {
      EmptyLeavesSwitch(states, calls, n - 1);
      assert calls[..n] == calls[..n - 1] + [calls[n - 1]];
      MergeAllSnoc(Parsed(states[0]), calls[..n - 1], calls[n - 1]);
      WrittenBackValues(states[n - 1], MergeAll(Parsed(states[0]), calls[..n]), states[n]);
    }
  }

  /** What is left in the enable switch of a run: the old value while there is nothing to print. */
  function EnabledRead(first: Switches, g: Features): set<string> {
    if g.enabled == {} then Names(ValueOf(first, ENABLE)) else ReadBack(g.enabled)
  }

  /**
    After any run of calls, whatever names they have, this is what a new helper on the command line reads: the
    pieces of the disabled names, and of the enabled ones those that are not among them.
   */
  lemma RunReads(states: seq<Switches>, calls: seq<Mention>, n: nat)
    requires IsRun(states, calls) && n <= |calls|
    ensures var g := MergeAll(Parsed(states[0]), calls[..n]);
            Parsed(states[n]) == Features(EnabledRead(states[0], g) - ReadBack(g.disabled), ReadBack(g.disabled))
  {
    var g := MergeAll(Parsed(states[0]), calls[..n]);
    if n == 0 {
      FirstReads(states[0]);
    } else {
      MergeDecides(Parsed(states[0]), calls[..n], "");
      EmptyLeavesSwitch(states, calls, n);
      WrittenBackValues(states[n - 1], g, states[n]);
      assert g.disabled == {} ==> ReadBack(g.disabled) == {};
    }
  }

  lemma FirstReads(first: Switches)
    ensures var g := Parsed(first);
            g == Features(EnabledRead(first, g) - ReadBack(g.disabled), ReadBack(g.disabled))
  {
    ParsedWritable(first);
    ReadBackWritable(Parsed(first).enabled);
    ReadBackWritable(Parsed(first).disabled);
  }

  lemma ParsedWritable(switches: Switches)
    ensures forall name :: name in Parsed(switches).enabled + Parsed(switches).disabled ==> Writable(name)
  {
    NamesClean(ValueOf(switches, ENABLE));
    NamesClean(ValueOf(switches, DISABLE));
  }

  /** So a new helper has the very sets of this one exactly when all the names in them are writable. */
  lemma RunAgrees(states: seq<Switches>, calls: seq<Mention>, n: nat)
    requires IsRun(states, calls) && n <= |calls|
    ensures var g := MergeAll(Parsed(states[0]), calls[..n]);
            Parsed(states[n]) == g <==> forall name :: name in g.enabled + g.disabled ==> Writable(name)
  {
    var g := MergeAll(Parsed(states[0]), calls[..n]);
    RunReads(states, calls, n);
    ParsedWritable(states[n]);
    MergeDecides(Parsed(states[0]), calls[..n], "");
    ReadBackWritable(g.enabled);
    ReadBackWritable(g.disabled);
    if Parsed(states[n]) == g {
      assert forall name :: name in g.enabled + g.disabled ==> Writable(name);
    }
  }

  /**
    Name by name: a disabled feature stays disabled exactly when its name is clean and no disabled name hides the
    list by not being ASCII; an enabled one stays enabled exactly when the same holds of the enabled names and
    no disabled name that is read has it among its pieces.
   */
  lemma NameSurvivesExactly(states: seq<Switches>, calls: seq<Mention>, n: nat, name: string)
    requires IsRun(states, calls) && n <= |calls|
    ensures var g, read := MergeAll(Parsed(states[0]), calls[..n]), Parsed(states[n]);
            && (name in g.disabled ==>
                (name in read.disabled <==> Clean(name) && forall d :: d in g.disabled ==> Ascii(d)))
            && (name in g.enabled ==>
                (name in read.enabled <==>
                 Clean(name) && (forall e :: e in g.enabled ==> Ascii(e)) && name !in ReadBack(g.disabled)))
  {
    var g := MergeAll(Parsed(states[0]), calls[..n]);
    RunReads(states, calls, n);
    ParsedWritable(states[n]);
    CleanExactly(name);
    var read := Parsed(states[n]);
    assert name in read.enabled || name in read.disabled ==> name in read.enabled + read.disabled;
    assert Clean(name) && name in g.disabled ==> name in Pieces(g.disabled);
    assert Clean(name) && name in g.enabled ==> name in Pieces(g.enabled);
  }

  /** The same for a single call. */
  lemma NewHelperAgrees(before: Switches, m: Mention, after: Switches)
    requires WrittenBack(before, Merge(Parsed(before), m), after)
    ensures var g := Merge(Parsed(before), m);
            && Parsed(after) == Features(EnabledRead(before, g) - ReadBack(g.disabled), ReadBack(g.disabled))
            && (Parsed(after) == g <==> forall name :: name in g.enabled + g.disabled ==> Writable(name))
  {
    assert [m][..1] == [m] && [m][1..] == [];
    RunReads([before, after], [m], 1);
    RunAgrees([before, after], [m], 1);
  }

  lemma WriteBoth(e: string, d: string)
    ensures WrittenBack(map[], Features({e}, {d}), map[ENABLE := e, DISABLE := d])
  {
    var before: Switches := map[];
    var middle := before[ENABLE := e];
    assert |ENABLE| != |DISABLE|;
    assert Enumerates([e], {e}) && Print([e]) == e && Enumerates([d], {d}) && Print([d]) == d;
    assert Lists(e, {e}) && Lists(d, {d});
    assert Rewritten(before, ENABLE, {e}, middle);
    assert Rewritten(middle, DISABLE, {d}, map[ENABLE := e, DISABLE := d]);
  }

  lemma CommaPieces()
    ensures Names("a,b") == {"a", "b"} && Names("a") == {"a"} && Ascii("a") && Ascii("a,b")
  {
    NamesConcat("a", "b");
    assert "a" + "," + "b" == "a,b";
    CleanExactly("a");
    CleanExactly("b");
  }

  lemma WriteEnabled(e: string)
    ensures WrittenBack(map[], Features({e}, {}), map[ENABLE := e])
  {
    var before: Switches := map[];
    var after := before[ENABLE := e];
    assert Enumerates([e], {e}) && Print([e]) == e;
    assert Lists(e, {e});
    assert Rewritten(before, ENABLE, {e}, after);
    assert Rewritten(after, DISABLE, {}, after);
  }

  /** Enabling "a,b" alone is written as two names, and a new helper reads two features instead of one. */
  lemma CommaSplitsName()
    ensures var g := Merge(Parsed(map[]), Mention({"a,b"}, {}));
            && g == Features({"a,b"}, {})
            && WrittenBack(map[], g, map[ENABLE := "a,b"])
            && Parsed(map[ENABLE := "a,b"]) == Features({"a", "b"}, {})
  {
    assert Names("") == {} by {
      PrintPieces([]);
    }
    CommaPieces();
    WriteEnabled("a,b");
    assert |ENABLE| != |DISABLE|;
  }

  /**
    One call on an empty command line that enables "a" and disables "a,b": the helper holds both, and a new
    helper reads "a" and "b" as disabled and nothing as enabled, so the clean name is lost.
   */
  lemma CleanNameLost()
    ensures var g := Merge(Parsed(map[]), Mention({"a"}, {"a,b"}));
            var after: Switches := map[ENABLE := "a", DISABLE := "a,b"];
            && g == Features({"a"}, {"a,b"})
            && WrittenBack(map[], g, after)
            && Parsed(after) == Features({}, {"a", "b"})
  {
    ParsedEmpty();
    CommaPieces();
    WriteBoth("a", "a,b");
    ParsedBoth("a", "a,b");
  }

  lemma ParsedBoth(e: string, d: string)
    requires Ascii(e) && Ascii(d)
    ensures Parsed(map[ENABLE := e, DISABLE := d]) == Features(Names(e) - Names(d), Names(d))
  {
    assert |ENABLE| != |DISABLE|;
  }

  lemma ParsedEmpty()
    ensures Parsed(map[]) == Features({}, {})
  {
    PrintPieces([]);
  }

  // ---------------------------------------------------------------- the helper

  class CommandLine {
    var switches: Switches

    method AppendSwitchASCII(key: string, value: string)
      modifies this
      ensures switches == old(switches)[key := value]
    {
      switches := switches[key := value];
    }
  }

  class MisesCommandLineHelper {
    const commandLine: CommandLine
    var enabledFeatures: set<string>
    var disabledFeatures: set<string>

    function Current(): Features
      reads this
    {
      Features(enabledFeatures, disabledFeatures)
    }

    constructor (commandLine: CommandLine)
      ensures this.commandLine == commandLine && Current() == Parsed(commandLine.switches)
    {
      this.commandLine := commandLine;
      enabledFeatures, disabledFeatures := {}, {};
      new;
      Parse();
    }

    method ParseCSV(value: string, dest: set<string>) returns (filled: set<string>)
      ensures filled == dest + Names(value)
    {
      if value == "" {
        PrintPieces([]);
        return dest;
      }
      filled := dest;
      var pieces := Split(value);
      for n := 0 to |pieces|
        invariant filled == dest + set k | 0 <= k < n && Trim(pieces[k]) != "" :: Trim(pieces[k])
      {
        if Trim(pieces[n]) != "" {
          filled := filled + {Trim(pieces[n])};
        }
      }
      assert Names(value) == set k | 0 <= k < |pieces| && Trim(pieces[k]) != "" :: Trim(pieces[k]);
    }

    method Parse()
      requires enabledFeatures == disabledFeatures == {}
      modifies this
      ensures Current() == Parsed(commandLine.switches)
    {
      enabledFeatures := ParseCSV(ValueOf(commandLine.switches, ENABLE), enabledFeatures);
      disabledFeatures := ParseCSV(ValueOf(commandLine.switches, DISABLE), disabledFeatures);
      ghost var listed := enabledFeatures;
      var ahead := enabledFeatures;
      while ahead != {}
        invariant ahead <= enabledFeatures <= listed
        invariant enabledFeatures == ahead + (listed - ahead - disabledFeatures)
        invariant commandLine.switches == old(commandLine.switches)
        invariant disabledFeatures == Names(ValueOf(commandLine.switches, DISABLE))
      {
        var it :| it in ahead;
        ahead := ahead - {it};
        if it in disabledFeatures {
          enabledFeatures := enabledFeatures - {it};
        }
      }
    }

    /** The arguments are given in the order the two sets are iterated in. */
    method AppendFeatures(enabled: seq<string>, disabled: seq<string>)
      modifies this, commandLine
      ensures Current() == Merge(old(Current()), Mention(Elements(enabled), Elements(disabled)))
      ensures WrittenBack(old(commandLine.switches), Current(), commandLine.switches)
    {
      AddDefaults(enabled, disabled);
      if enabledFeatures != {} {
        AppendCSV(ENABLE, enabledFeatures);
      }
      assert Rewritten(old(commandLine.switches), ENABLE, enabledFeatures, commandLine.switches);
      if disabledFeatures != {} {
        AppendCSV(DISABLE, disabledFeatures);
      }
    }

    method AddDefaults(enabled: seq<string>, disabled: seq<string>)
      modifies this
      ensures Current() == Merge(old(Current()), Mention(Elements(enabled), Elements(disabled)))
    {
      for n := 0 to |disabled|
        invariant enabledFeatures == old(enabledFeatures)
        invariant disabledFeatures == old(disabledFeatures) + (Elements(disabled[..n]) - enabledFeatures)
      {
        ElementsSnoc(disabled, n);
        if disabled[n] !in enabledFeatures {
          disabledFeatures := disabledFeatures + {disabled[n]};
        }
      }
      assert disabled[..|disabled|] == disabled;
      ghost var allDisabled := disabledFeatures;
      for n := 0 to |enabled|
        invariant disabledFeatures == allDisabled
        invariant enabledFeatures == old(enabledFeatures) + (Elements(enabled[..n]) - disabledFeatures)
      {
        ElementsSnoc(enabled, n);
        if enabled[n] !in disabledFeatures {
          enabledFeatures := enabledFeatures + {enabled[n]};
        }
      }
      assert enabled[..|enabled|] == enabled;
    }

    /** The set is printed in whatever order it happens to be iterated in. */
    method AppendCSV(key: string, values: set<string>)
      modifies commandLine
      ensures Printed(old(commandLine.switches), key, values, commandLine.switches)
    {
      var text := "";
      ghost var order: seq<string> := [];
      var ahead := values;
      while ahead != {}
        invariant ahead <= values && Enumerates(order, values - ahead) && text == Print(order)
        invariant commandLine.switches == old(commandLine.switches)
      {
        var it :| it in ahead;
        if ahead != values {
          text := text + ",";
        }
        text := text + it;
        EnumeratesSnoc(order, values, ahead, it);
        order := order + [it];
        ahead := ahead - {it};
      }
      assert values - ahead == values;
      assert Lists(text, values);
      commandLine.AppendSwitchASCII(key, text);
    }
  }
}
