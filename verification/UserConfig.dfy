/** Reading and editing a configuration package (cva6/util/user_config.py). */
module UserConfig {
  import opened Wrappers

  /** A line by the pattern it matches. `text` is the part that an edit replaces: the value of a
      `localparam`, or the value of a field without its type cast. */
  datatype Line =
    | Param(prefix: string, name: string, separator: string, text: string, suffix: string)
    | Cfg(prefix: string, name: string, separator: string, cast: Option<string>, text: string, suffix: string)
    | Other(raw: string)

  /** A field value as `find_casting` splits it. */
  datatype Value = Value(cast: Option<string>, text: string)

  type Params = map<string, string>
  type Index = map<string, nat>

  // ---- parse ----

  function ParamsOf(lines: seq<Line>, n: nat): Params
    requires n <= |lines|
  {
    if n == 0 then map[]
    else if lines[n - 1].Param? then ParamsOf(lines, n - 1)[lines[n - 1].name := lines[n - 1].text]
    else ParamsOf(lines, n - 1)
  }

  function ParamIndex(lines: seq<Line>, n: nat): Index
    requires n <= |lines|
  {
    if n == 0 then map[]
    else if lines[n - 1].Param? then ParamIndex(lines, n - 1)[lines[n - 1].name := n - 1]
    else ParamIndex(lines, n - 1)
  }

  function ConfigOf(lines: seq<Line>, n: nat): map<string, Value>
    requires n <= |lines|
  {
    if n == 0 then map[]
    else if lines[n - 1].Cfg? then
      ConfigOf(lines, n - 1)[lines[n - 1].name := Value(lines[n - 1].cast, lines[n - 1].text)]
    else ConfigOf(lines, n - 1)
  }

  function ConfigIndex(lines: seq<Line>, n: nat): Index
    requires n <= |lines|
  {
    if n == 0 then map[]
    else if lines[n - 1].Cfg? then ConfigIndex(lines, n - 1)[lines[n - 1].name := n - 1]
    else ConfigIndex(lines, n - 1)
  }

  datatype Parsed = Parsed(params: Params, config: map<string, Value>, iParams: Index, iConfig: Index)

  function ParsedOf(lines: seq<Line>): Parsed {
    var n := |lines|;
    Parsed(ParamsOf(lines, n), ConfigOf(lines, n), ParamIndex(lines, n), ConfigIndex(lines, n))
  }

  /** Both calls of `parse`, with and without `get_index`. */
  method Parse(lines: seq<Line>) returns (p: Parsed)
    ensures p == ParsedOf(lines)
  {
    var params: Params, config: map<string, Value> := map[], map[];
    var iParams: Index, iConfig: Index := map[], map[];
    for i := 0 to |lines|
      invariant params == ParamsOf(lines, i) && iParams == ParamIndex(lines, i)
      invariant config == ConfigOf(lines, i) && iConfig == ConfigIndex(lines, i)
    {
      match lines[i]
      case Param(_, name, _, text, _) =>
        params, iParams := params[name := text], iParams[name := i];
      case Cfg(_, name, _, cast, text, _) =>
        config, iConfig := config[name := Value(cast, text)], iConfig[name := i];
      case Other(_) =>
    }
    p := Parsed(params, config, iParams, iConfig);
  }

  /** The dictionary and the index agree: an entry comes from the last line of that name. */
  lemma {:induction false} ParamAt(lines: seq<Line>, n: nat, name: string)
    requires n <= |lines|
    ensures name in ParamsOf(lines, n) <==> name in ParamIndex(lines, n)
    ensures name in ParamIndex(lines, n) ==>
              var i := ParamIndex(lines, n)[name];
              i < n && lines[i].Param? && lines[i].name == name && ParamsOf(lines, n)[name] == lines[i].text
    ensures forall j :: 0 <= j < n && lines[j].Param? && lines[j].name == name ==>
              name in ParamIndex(lines, n) && j <= ParamIndex(lines, n)[name]
  {
    if n > 0 {
      ParamAt(lines, n - 1, name);
    }
  }

  lemma {:induction false} ConfigAt(lines: seq<Line>, n: nat, name: string)
    requires n <= |lines|
    ensures name in ConfigOf(lines, n) <==> name in ConfigIndex(lines, n)
    ensures name in ConfigIndex(lines, n) ==>
              var i := ConfigIndex(lines, n)[name];
              && i < n && lines[i].Cfg? && lines[i].name == name
              && ConfigOf(lines, n)[name] == Value(lines[i].cast, lines[i].text)
    ensures forall j :: 0 <= j < n && lines[j].Cfg? && lines[j].name == name ==>
              name in ConfigIndex(lines, n) && j <= ConfigIndex(lines, n)[name]
  {
    if n > 0 {
      ConfigAt(lines, n - 1, name);
    }
  }

  // ---- find_root_def ----

  datatype Root = Root(name: string, value: string) | Diverges

  /** The end of the chain of references that starts at parameter `name`; `Diverges` when it comes
      back to a parameter already visited. */
  function FindRoot(name: string, params: Params, unvisited: set<string>): Root
    requires name in params
    decreases |unvisited|
  {
    if name !in unvisited then Diverges
    else if params[name] in params then FindRoot(params[name], params, unvisited - {name})
    else Root(name, params[name])
  }

  function RootOf(name: string, params: Params): Root
    requires name in params
  {
    FindRoot(name, params, params.Keys)
  }

  /** The value after n steps of the chase, which stays put once it has left the parameters. */
  function Hops(name: string, params: Params, n: nat): string
    decreases n
  {
    if n == 0 || name !in params then name else Hops(params[name], params, n - 1)
  }

  /** The chain from `name` passes through x, or ends there. */
  ghost predicate Reaches(name: string, params: Params, x: string) {
    exists n: nat :: Hops(name, params, n) == x
  }

  lemma {:induction false} RootEnds(name: string, params: Params, unvisited: set<string>)
    requires name in params && FindRoot(name, params, unvisited).Root?
    ensures var r := FindRoot(name, params, unvisited);
            r.name in params && params[r.name] == r.value && r.value !in params
    ensures var r := FindRoot(name, params, unvisited);
            Reaches(name, params, r.name) && Reaches(name, params, r.value)
    decreases |unvisited|
  {
    var next := params[name];
    if next in params {
      RootEnds(next, params, unvisited - {name});
      var r := FindRoot(next, params, unvisited - {name});
      ReachesNext(name, params, r.name);
      ReachesNext(name, params, r.value);
    } else {
      assert Hops(name, params, 0) == name && Hops(name, params, 1) == next;
    }
  }

  lemma {:induction false} ReachesNext(name: string, params: Params, x: string)
    requires name in params && Reaches(params[name], params, x)
    ensures Reaches(name, params, x)
  {
    var n: nat :| Hops(params[name], params, n) == x;
    assert Hops(name, params, n + 1) == x;
  }

  lemma {:induction false} Leaves(name: string, params: Params, e: string)
    requires e !in params && Reaches(name, params, e)
    ensures exists n: nat :: Hops(name, params, n) !in params
  {
    var n: nat :| Hops(name, params, n) == e;
    assert Hops(name, params, n) !in params;
  }

  lemma {:induction false} ClosedNeverLeaves(name: string, params: Params, s: set<string>, n: nat)
    requires name in s && s <= params.Keys && forall x :: x in s ==> params[x] in s
    ensures Hops(name, params, n) in s
    decreases n
  {
    if n > 0 {
      ClosedNeverLeaves(params[name], params, s, n - 1);
    }
  }

  lemma {:induction false} DivergesForever(name: string, params: Params, unvisited: set<string>, n: nat)
    requires name in params && FindRoot(name, params, unvisited).Diverges?
    requires forall x :: x in params.Keys - unvisited ==> params[x] == name || params[x] in params.Keys - unvisited
    ensures Hops(name, params, n) in params
    decreases |unvisited|
  {
    if name !in unvisited {
      ClosedNeverLeaves(name, params, params.Keys - unvisited, n);
    } else if n > 0 {
      DivergesForever(params[name], params, unvisited - {name}, n - 1);
    }
  }

  /** The `while` loop of `find_root_def` ends exactly when the chain does not come back. */
  lemma {:induction false} TerminatesIff(name: string, params: Params)
    requires name in params
    ensures RootOf(name, params).Root? <==> exists n: nat :: Hops(name, params, n) !in params
  {
    if RootOf(name, params).Root? {
      RootEnds(name, params, params.Keys);
      Leaves(name, params, RootOf(name, params).value);
    } else {
      forall n: nat
        ensures Hops(name, params, n) in params
      {
        DivergesForever(name, params, params.Keys, n);
      }
    }
  }

  method FindRootDef(name: string, params: Params) returns (root: Option<(string, string)>)
    requires name in params ==> RootOf(name, params).Root?
    ensures root.None? <==> name !in params
    ensures root.Some? ==> RootOf(name, params) == Root(root.value.0, root.value.1)
  {
    if name !in params {
      return None;
    }
    var current, value := name, params[name];
    ghost var unvisited := params.Keys;
    while value in params
      invariant current in params && value == params[current]
      invariant FindRoot(current, params, unvisited) == RootOf(name, params)
      decreases |unvisited|
    {
      unvisited := unvisited - {current};
      current := value;
      value := params[current];
    }
    return Some((current, value));
  }

  // ---- get_config ----

  /** `evaluate` without the conversion to Python values, which depends on nothing else. */
  function Evaluate(p: Parsed, name: string): Value
    requires name in p.config
  {
    var v := p.config[name];
    if v.text !in p.params then v
    else
      match RootOf(v.text, p.params)
      case Root(_, value) => Value(v.cast, value)
      case Diverges => v
  }

  ghost predicate Acyclic(params: Params) {
    forall name :: name in params ==> RootOf(name, params).Root?
  }

  // ---- derive_config ----

  /** A change as given: `*` or `+` may come before the name. */
  datatype Change = Change(name: string, value: string)

  predicate DefaultMode(c: Change) {
    c.name != "" && c.name[0] != '*' && c.name[0] != '+'
  }

  /** The line that a change of this name edits; `None` for the exceptions on unknown names. */
  function Slot(p: Parsed, name: string): Option<nat> {
    if name == "" then None
    else if name[0] == '*' then
      if name[1..] in p.config && name[1..] in p.iConfig then Some(p.iConfig[name[1..]]) else None
    else if name[0] == '+' then
      if name[1..] in p.iParams then Some(p.iParams[name[1..]]) else None
    else DefaultSlot(p, name)
  }

  function DefaultSlot(p: Parsed, name: string): Option<nat> {
    if name !in p.config then None
    else if p.config[name].text in p.params then
      match RootOf(p.config[name].text, p.params)
      case Root(root, _) => if root in p.iParams then Some(p.iParams[root]) else None
      case Diverges => None
    else if name in p.iConfig then Some(p.iConfig[name]) else None
  }

  function WithText(line: Line, text: string): (r: Line)
    requires !line.Other?
    ensures (r.Param? <==> line.Param?) && !r.Other? && r.text == text
    ensures r.prefix == line.prefix && r.name == line.name && r.separator == line.separator && r.suffix == line.suffix
    ensures line.Cfg? ==> r.cast == line.cast
  {
    line.(text := text)
  }

  /** The lines after the first n changes, all of them located in the original lines. */
  function Edited(lines: seq<Line>, changes: seq<Change>, n: nat): Option<seq<Line>>
    requires n <= |changes|
  {
    if n == 0 then Some(lines)
    else
      var before := Edited(lines, changes, n - 1);
      var slot := Slot(ParsedOf(lines), changes[n - 1].name);
      if before.None? || slot.None? then None
      else
        var ls, i := before.value, slot.value;
        if i < |ls| && !ls[i].Other? then Some(ls[i := WithText(ls[i], changes[n - 1].value)]) else None
  }

  /** The value that the last of the first n changes to edit line i gave it. */
  function LastWrite(p: Parsed, changes: seq<Change>, n: nat, i: nat): Option<string>
    requires n <= |changes|
  {
    if n == 0 then None
    else if Slot(p, changes[n - 1].name) == Some(i) then Some(changes[n - 1].value)
    else LastWrite(p, changes, n - 1, i)
  }

  function Rewritten(line: Line, text: Option<string>): Line {
    if line.Other? || text.None? then line else WithText(line, text.value)
  }

  predicate SameButText(a: Line, b: Line) {
    b == a || (!a.Other? && !b.Other? && b == WithText(a, b.text))
  }

  /** A line keeps everything but its text, and that only changes where a change wrote. */
  lemma {:induction false} EditedLines(lines: seq<Line>, changes: seq<Change>, n: nat, i: nat)
    requires n <= |changes| && i < |lines| && Edited(lines, changes, n).Some?
    ensures |Edited(lines, changes, n).value| == |lines|
    ensures Edited(lines, changes, n).value[i] ==
            Rewritten(lines[i], LastWrite(ParsedOf(lines), changes, n, i))
  {
    if n > 0 {
      EditedLines(lines, changes, n - 1, i);
    }
  }

  lemma {:induction false} Writer(p: Parsed, changes: seq<Change>, n: nat, i: nat) returns (j: nat)
    requires n <= |changes| && LastWrite(p, changes, n, i).Some?
    ensures j < n && Slot(p, changes[j].name) == Some(i)
    ensures LastWrite(p, changes, n, i) == Some(changes[j].value)
  {
    if Slot(p, changes[n - 1].name) == Some(i) {
      j := n - 1;
    } else {
      j := Writer(p, changes, n - 1, i);
    }
  }

  method ReplaceCfg(lines: array<Line>, p: Parsed, name: string, value: string)
    requires name in p.config && name in p.iConfig
    requires p.iConfig[name] < lines.Length && lines[p.iConfig[name]].Cfg?
    modifies lines
    ensures var i := p.iConfig[name];
            var l := old(lines[i]);
            lines[..] ==
            old(lines[..])[i := Cfg(l.prefix, l.name, l.separator, p.config[name].cast, value, l.suffix)]
  {
    var i := p.iConfig[name];
    lines[i] := lines[i].(cast := p.config[name].cast, text := value);
  }

  method ReplaceParam(lines: array<Line>, p: Parsed, name: string, value: string)
    requires name in p.iParams
    requires p.iParams[name] < lines.Length && lines[p.iParams[name]].Param?
    modifies lines
    ensures var i := p.iParams[name];
            var l := old(lines[i]);
            lines[..] == old(lines[..])[i := Param(l.prefix, l.name, l.separator, value, l.suffix)]
  {
    var i := p.iParams[name];
    lines[i] := WithText(lines[i], value);
  }

  /** The chain of references that a field starts, if any, ends. */
  ghost predicate HasRoot(p: Parsed, field: string) {
    field in p.config && p.config[field].text in p.params ==> RootOf(p.config[field].text, p.params).Root?
  }

  /** The chase that a change starts ends; otherwise the script would never return. */
  ghost predicate ChaseEnds(p: Parsed, c: Change) {
    DefaultMode(c) ==> HasRoot(p, c.name)
  }

  /** One turn of the loop in `derive_config`; `done` is false when the name is unknown. */
  method ApplyChange(lines: array<Line>, ghost original: seq<Line>, p: Parsed, c: Change) returns (done: bool)
    requires p == ParsedOf(original) && ChaseEnds(p, c)
    requires |original| == lines.Length
    requires forall i :: 0 <= i < lines.Length ==> SameButText(original[i], lines[i])
    modifies lines
    ensures done <==> Slot(p, c.name).Some?
    ensures !done ==> lines[..] == old(lines[..])
    ensures done ==>
              var i := Slot(p, c.name).value;
              && i < lines.Length && !old(lines[i]).Other?
              && lines[..] == old(lines[..])[i := WithText(old(lines[i]), c.value)]
  {
    if c.name == "" {
      return false;
    }
    var name := if c.name[0] == '*' || c.name[0] == '+' then c.name[1..] else c.name;
    var n := |original|;
    ParamAt(original, n, name);
    ConfigAt(original, n, name);
    if c.name[0] == '+' {
      if name !in p.iParams {
        return false;
      }
      ReplaceParam(lines, p, name, c.value);
      return true;
    }
    if name !in p.config {
      return false;
    }
    if c.name[0] != '*' {
      var root := FindRootDef(p.config[name].text, p.params);
      if root.Some? {
        RootEnds(p.config[name].text, p.params, p.params.Keys);
        ParamAt(original, n, root.value.0);
        ReplaceParam(lines, p, root.value.0, c.value);
        return true;
      }
    }
    ReplaceCfg(lines, p, name, c.value);
    return true;
  }

  method DeriveConfig(input: seq<Line>, changes: seq<Change>) returns (output: Option<seq<Line>>)
    requires forall j :: 0 <= j < |changes| ==> ChaseEnds(ParsedOf(input), changes[j])
    ensures output == Edited(input, changes, |changes|)
  {
    var lines := new Line[|input|](i requires 0 <= i < |input| => input[i]);
    var p := Parse(input);
    assert lines[..] == input;
    for n := 0 to |changes|
      invariant Edited(input, changes, n) == Some(lines[..])
    {
      forall i | 0 <= i < |input|
        ensures SameButText(input[i], lines[i])
      {
        EditedLines(input, changes, n, i);
        assert lines[i] == lines[..][i];
      }
      var done := ApplyChange(lines, input, p, changes[n]);
      if !done {
        StaysFailed(input, changes, n + 1, |changes|);
        return None;
      }
    }
    return Some(lines[..]);
  }

  lemma {:induction false} StaysFailed(lines: seq<Line>, changes: seq<Change>, m: nat, n: nat)
    requires m <= n <= |changes| && Edited(lines, changes, m).None?
    ensures Edited(lines, changes, n).None?
  {
    if m < n {
      StaysFailed(lines, changes, m, n - 1);
    }
  }

  // ---- put, then get ----

  /** Nothing but texts differs. */
  ghost predicate SameShape(a: seq<Line>, b: seq<Line>) {
    |a| == |b| && forall i :: 0 <= i < |a| ==> SameButText(a[i], b[i])
  }

  lemma {:induction false} SameShapeSameIndex(a: seq<Line>, b: seq<Line>, n: nat)
    requires SameShape(a, b) && n <= |a|
    ensures ParamIndex(a, n) == ParamIndex(b, n) && ConfigIndex(a, n) == ConfigIndex(b, n)
  {
    if n > 0 {
      SameShapeSameIndex(a, b, n - 1);
    }
  }

  /** Where two sets of parameters differ, both values are no parameter names. */
  ghost predicate DifferAtRoots(p: Params, q: Params) {
    && p.Keys == q.Keys
    && forall x :: x in p ==> p[x] == q[x] || (p[x] !in p && q[x] !in p)
  }

  /** Then every chain still ends at the same parameter. */
  lemma {:induction false} SameRoot(name: string, p: Params, q: Params, unvisited: set<string>)
    requires name in p && DifferAtRoots(p, q)
    ensures match FindRoot(name, p, unvisited)
            case Diverges => FindRoot(name, q, unvisited) == Diverges
            case Root(r, _) => r in q && FindRoot(name, q, unvisited) == Root(r, q[r])
    decreases |unvisited|
  {
    if name in unvisited && p[name] in p {
      SameRoot(p[name], p, q, unvisited - {name});
    }
  }

  /** The new values are no parameter names, and every change is in the default mode. */
  ghost predicate PlainChanges(lines: seq<Line>, changes: seq<Change>) {
    forall j :: 0 <= j < |changes| ==> DefaultMode(changes[j]) && changes[j].value !in ParsedOf(lines).params
  }

  lemma {:induction false} EditedShape(lines: seq<Line>, changes: seq<Change>, n: nat)
    requires n <= |changes| && Edited(lines, changes, n).Some?
    ensures SameShape(lines, Edited(lines, changes, n).value)
    ensures var p, q := ParsedOf(lines), ParsedOf(Edited(lines, changes, n).value);
            p.iParams == q.iParams && p.iConfig == q.iConfig
  {
    var ls := Edited(lines, changes, n).value;
    if lines == [] {
      EditedLength(lines, changes, n);
    }
    forall i | 0 <= i < |lines|
      ensures |ls| == |lines| && SameButText(lines[i], ls[i])
    {
      EditedLines(lines, changes, n, i);
    }
    SameShapeSameIndex(lines, ls, |lines|);
  }

  lemma {:induction false} EditedLength(lines: seq<Line>, changes: seq<Change>, n: nat)
    requires n <= |changes| && Edited(lines, changes, n).Some?
    ensures |Edited(lines, changes, n).value| == |lines|
  {
    if n > 0 {
      EditedLength(lines, changes, n - 1);
    }
  }

  /** A parameter's value after the changes. */
  lemma {:induction false} ParamAfter(lines: seq<Line>, changes: seq<Change>, n: nat, x: string)
    requires n <= |changes| && Edited(lines, changes, n).Some?
    ensures var p, q := ParsedOf(lines), ParsedOf(Edited(lines, changes, n).value);
            && (x in p.params <==> x in q.params) && (x in p.params <==> x in p.iParams)
            && (x in p.params ==>
                  q.params[x] == (match LastWrite(p, changes, n, p.iParams[x])
                                  case None => p.params[x]
                                  case Some(v) => v))
  {
    var ls := Edited(lines, changes, n).value;
    EditedShape(lines, changes, n);
    ParamAt(lines, |lines|, x);
    ParamAt(ls, |ls|, x);
    if x in ParsedOf(lines).params {
      EditedLines(lines, changes, n, ParamIndex(lines, |lines|)[x]);
    }
  }

  /** A field's own line after the changes. */
  lemma {:induction false} ConfigAfter(lines: seq<Line>, changes: seq<Change>, n: nat, x: string)
    requires n <= |changes| && Edited(lines, changes, n).Some?
    ensures var p, q := ParsedOf(lines), ParsedOf(Edited(lines, changes, n).value);
            && (x in p.config <==> x in q.config) && (x in p.config <==> x in p.iConfig)
            && (x in p.config ==>
                  q.config[x] == (match LastWrite(p, changes, n, p.iConfig[x])
                                  case None => p.config[x]
                                  case Some(v) => Value(p.config[x].cast, v)))
  {
    var ls := Edited(lines, changes, n).value;
    EditedShape(lines, changes, n);
    ConfigAt(lines, |lines|, x);
    ConfigAt(ls, |ls|, x);
    if x in ParsedOf(lines).config {
      EditedLines(lines, changes, n, ConfigIndex(lines, |lines|)[x]);
    }
  }

  /** Default-mode changes touch parameters only at the ends of chains. */
  lemma {:induction false} OnlyRootsChange(lines: seq<Line>, changes: seq<Change>, n: nat)
    requires n <= |changes| && Edited(lines, changes, n).Some? && PlainChanges(lines, changes)
    ensures DifferAtRoots(ParsedOf(lines).params, ParsedOf(Edited(lines, changes, n).value).params)
  {
    var p, q := ParsedOf(lines), ParsedOf(Edited(lines, changes, n).value);
    forall x
      ensures x in p.params <==> x in q.params
      ensures x in p.params ==>
                p.params[x] == q.params[x] || (p.params[x] !in p.params && q.params[x] !in p.params)
    {
      ParamAfter(lines, changes, n, x);
      if x in p.params && LastWrite(p, changes, n, p.iParams[x]).Some? {
        var j := Writer(p, changes, n, p.iParams[x]);
        WrittenParamIsRoot(lines, changes[j].name, x);
      }
    }
  }

  /** When a default-mode change edits the line of a parameter, that parameter ends a chain. */
  lemma {:induction false} WrittenParamIsRoot(lines: seq<Line>, name: string, x: string)
    requires var p := ParsedOf(lines);
             x in p.params && x in p.iParams && DefaultSlot(p, name) == Some(p.iParams[x])
    ensures var p := ParsedOf(lines);
            && p.params[x] !in p.params && name in p.config && p.config[name].text in p.params
            && RootOf(p.config[name].text, p.params) == Root(x, p.params[x])
  {
    var p := ParsedOf(lines);
    ParamAt(lines, |lines|, x);
    ConfigAt(lines, |lines|, name);
    if p.config[name].text in p.params {
      RootEnds(p.config[name].text, p.params, p.params.Keys);
      ParamAt(lines, |lines|, RootOf(p.config[name].text, p.params).name);
    }
  }

  /** When it edits the line of a field, that field has no root and is the one named. */
  lemma {:induction false} WrittenFieldIsNamed(lines: seq<Line>, name: string, x: string)
    requires var p := ParsedOf(lines);
             x in p.config && x in p.iConfig && DefaultSlot(p, name) == Some(p.iConfig[x])
    ensures name == x && ParsedOf(lines).config[x].text !in ParsedOf(lines).params
  {
    var p := ParsedOf(lines);
    ConfigAt(lines, |lines|, x);
    ConfigAt(lines, |lines|, name);
    if p.config[name].text in p.params {
      ParamAt(lines, |lines|, RootOf(p.config[name].text, p.params).name);
    }
  }

  /** After any list of default-mode changes every field keeps its cast and reads the last value
      written through any field with the same root, or its old value if there is none. */
  lemma {:induction false} PutGet(lines: seq<Line>, changes: seq<Change>, field: string)
    requires PlainChanges(lines, changes) && HasRoot(ParsedOf(lines), field)
    requires Edited(lines, changes, |changes|).Some? && field in ParsedOf(lines).config
    ensures var p, q := ParsedOf(lines), ParsedOf(Edited(lines, changes, |changes|).value);
            && field in q.config && DefaultSlot(p, field).Some?
            && Evaluate(q, field) ==
               (match LastWrite(p, changes, |changes|, DefaultSlot(p, field).value)
                case None => Evaluate(p, field)
                case Some(v) => Value(p.config[field].cast, v))
  {
    var n := |changes|;
    var p, q := ParsedOf(lines), ParsedOf(Edited(lines, changes, n).value);
    var text := p.config[field].text;
    OnlyRootsChange(lines, changes, n);
    ConfigAfter(lines, changes, n, field);
    if LastWrite(p, changes, n, p.iConfig[field]).Some? {
      var j := Writer(p, changes, n, p.iConfig[field]);
      WrittenFieldIsNamed(lines, changes[j].name, field);
    }
    if text in p.params {
      RootEnds(text, p.params, p.params.Keys);
      SameRoot(text, p.params, q.params, p.params.Keys);
      ParamAfter(lines, changes, n, RootOf(text, p.params).name);
    }
  }

  /** `evaluate` returns, with this text. */
  ghost predicate Reads(p: Parsed, field: string, text: string) {
    && field in p.config
    && (p.config[field].text in p.params ==> RootOf(p.config[field].text, p.params).Root?)
    && Evaluate(p, field).text == text
  }

  /** One default-mode change is read back exactly when the new value is no parameter name. */
  lemma {:induction false} ReadBackIff(lines: seq<Line>, c: Change)
    requires DefaultMode(c) && c.name in ParsedOf(lines).config && HasRoot(ParsedOf(lines), c.name)
    ensures Edited(lines, [c], 1).Some?
    ensures Reads(ParsedOf(Edited(lines, [c], 1).value), c.name, c.value) <==> c.value !in ParsedOf(lines).params
  {
    var p := ParsedOf(lines);
    var text := p.config[c.name].text;
    ConfigAt(lines, |lines|, c.name);
    if text in p.params {
      RootEnds(text, p.params, p.params.Keys);
      ParamAt(lines, |lines|, RootOf(text, p.params).name);
    }
    assert Edited(lines, [c], 0) == Some(lines);
    var q := ParsedOf(Edited(lines, [c], 1).value);
    ParamAfter(lines, [c], 1, c.value);
    if c.value in p.params {
      if Reads(q, c.name, c.value) && q.config[c.name].text in q.params {
        RootEnds(q.config[c.name].text, q.params, q.params.Keys);
      }
    } else {
      PutGet(lines, [c], c.name);
      assert LastWrite(p, [c], 1, DefaultSlot(p, c.name).value) == Some(c.value);
      OnlyRootsChange(lines, [c], 1);
      ConfigAfter(lines, [c], 1, c.name);
      if q.config[c.name].text in q.params {
        SameRoot(text, p.params, q.params, p.params.Keys);
      }
    }
  }

  /** Default-mode changes keep every chain of references ending. */
  lemma {:induction false} EditsKeepAcyclic(lines: seq<Line>, changes: seq<Change>, n: nat)
    requires Acyclic(ParsedOf(lines).params) && PlainChanges(lines, changes)
    requires n <= |changes| && Edited(lines, changes, n).Some?
    ensures Acyclic(ParsedOf(Edited(lines, changes, n).value).params)
  {
    var p, q := ParsedOf(lines), ParsedOf(Edited(lines, changes, n).value);
    OnlyRootsChange(lines, changes, n);
    forall x | x in q.params
      ensures RootOf(x, q.params).Root?
    {
      SameRoot(x, p.params, q.params, p.params.Keys);
    }
  }

  // ---- where a chain ends ----

  /** The end of the chain from a text; `None` when it runs in a circle. A text that is no parameter name
      is its own end. */
  function EndOf(text: string, params: Params): Option<string> {
    if text !in params then Some(text)
    else
      match RootOf(text, params)
      case Root(_, value) => Some(value)
      case Diverges => None
  }

  /** The parameter that the chain ends at. */
  function RootName(text: string, params: Params): Option<string> {
    if text in params && RootOf(text, params).Root? then Some(RootOf(text, params).name) else None
  }

  lemma {:induction false} HopsAdd(name: string, params: Params, m: nat, n: nat)
    ensures Hops(name, params, m + n) == Hops(Hops(name, params, m), params, n)
    decreases m
  {
    if m > 0 && name in params {
      HopsAdd(params[name], params, m - 1, n);
    }
  }

  /** Each step goes from a parameter to its value, and nowhere from anything else. */
  lemma {:induction false} HopsStep(name: string, params: Params, n: nat)
    ensures Hops(name, params, 0) == name
    ensures var here := Hops(name, params, n);
            Hops(name, params, n + 1) == if here in params then params[here] else here
  {
    HopsAdd(name, params, n, 1);
    var here := Hops(name, params, n);
    assert here in params ==> Hops(here, params, 1) == params[here];
  }

  /** Once outside the parameters, the chase stays where it is. */
  lemma {:induction false} StaysOut(name: string, params: Params, m: nat, n: nat)
    requires m <= n && Hops(name, params, m) !in params
    ensures Hops(name, params, n) == Hops(name, params, m)
  {
    HopsAdd(name, params, m, n - m);
  }

  lemma {:induction false} OneEnd(name: string, params: Params, e: string, f: string)
    requires e !in params && f !in params && Reaches(name, params, e) && Reaches(name, params, f)
    ensures e == f
  {
    var m: nat :| Hops(name, params, m) == e;
    var n: nat :| Hops(name, params, n) == f;
    StaysOut(name, params, if m <= n then m else n, if m <= n then n else m);
  }

  lemma {:induction false} EndOfIff(name: string, params: Params, e: string)
    ensures EndOf(name, params) == Some(e) <==> e !in params && Reaches(name, params, e)
  {
    if name !in params {
      assert Hops(name, params, 0) == name;
    } else {
      TerminatesIff(name, params);
      if e !in params && Reaches(name, params, e) {
        Leaves(name, params, e);
        RootEnds(name, params, params.Keys);
        OneEnd(name, params, e, RootOf(name, params).value);
      } else if RootOf(name, params).Root? {
        RootEnds(name, params, params.Keys);
      }
    }
  }

  /** A chain has one end, wherever on it one starts. */
  lemma {:induction false} EndAfterHops(name: string, params: Params, m: nat)
    ensures EndOf(name, params) == EndOf(Hops(name, params, m), params)
  {
    var later := Hops(name, params, m);
    if EndOf(name, params).Some? {
      var e := EndOf(name, params).value;
      EndOfIff(name, params, e);
      var n: nat :| Hops(name, params, n) == e;
      HopsAdd(name, params, m, n);
      StaysOut(name, params, n, m + n);
      assert Reaches(later, params, e);
      EndOfIff(later, params, e);
    } else if EndOf(later, params).Some? {
      var e := EndOf(later, params).value;
      EndOfIff(later, params, e);
      var n: nat :| Hops(later, params, n) == e;
      HopsAdd(name, params, m, n);
      assert Reaches(name, params, e);
      EndOfIff(name, params, e);
    }
  }

  // ---- a chain when one parameter changes ----

  lemma {:induction false} SameHops(name: string, params: Params, x: string, value: string, n: nat)
    requires x in params && forall j: nat :: j < n ==> Hops(name, params, j) != x
    ensures Hops(name, params[x := value], n) == Hops(name, params, n)
    decreases n
  {
    if n > 0 && name in params {
      assert Hops(name, params, 0) == name;
      assert forall j: nat :: j < n - 1 ==> Hops(params[name], params, j) == Hops(name, params, j + 1);
      SameHops(params[name], params, x, value, n - 1);
    }
  }

  lemma {:induction false} UntouchedEnd(name: string, params: Params, x: string, value: string)
    requires x in params && !Reaches(name, params, x)
    ensures EndOf(name, params[x := value]) == EndOf(name, params)
  {
    var changed := params[x := value];
    forall e
      ensures Reaches(name, changed, e) <==> Reaches(name, params, e)
    {
      forall n: nat
        ensures Hops(name, changed, n) == Hops(name, params, n)
      {
        SameHops(name, params, x, value, n);
      }
    }
    if EndOf(name, params).Some? {
      EndOfIff(name, params, EndOf(name, params).value);
      EndOfIff(name, changed, EndOf(name, params).value);
    } else if EndOf(name, changed).Some? {
      EndOfIff(name, params, EndOf(name, changed).value);
      EndOfIff(name, changed, EndOf(name, changed).value);
    }
  }

  lemma {:induction false} FirstHop(name: string, params: Params, x: string, n: nat) returns (k: nat)
    requires Hops(name, params, n) == x
    ensures Hops(name, params, k) == x && forall j: nat :: j < k ==> Hops(name, params, j) != x
    decreases n
  {
    if j: nat :| j < n && Hops(name, params, j) == x {
      k := FirstHop(name, params, x, j);
    } else {
      k := n;
    }
  }

  /** A chain that passes through x goes on to the new value. */
  lemma {:induction false} HopsToValue(name: string, params: Params, x: string, value: string) returns (m: nat)
    requires x in params && Reaches(name, params, x)
    ensures m > 0 && Hops(name, params[x := value], m) == value
  {
    var n: nat :| Hops(name, params, n) == x;
    var k := FirstHop(name, params, x, n);
    SameHops(name, params, x, value, k);
    HopsAdd(name, params[x := value], k, 1);
    m := k + 1;
  }

  lemma {:induction false} NeverOut(name: string, params: Params, m: nat, n: nat)
    requires m > 0 && name in params && Hops(name, params, m) == name
    ensures Hops(name, params, n) in params
    decreases n
  {
    if n <= m {
      if Hops(name, params, n) !in params {
        StaysOut(name, params, n, m);
      }
    } else {
      HopsAdd(name, params, m, n - m);
      NeverOut(name, params, m, n - m);
    }
  }

  /** When parameter x gets any new value, a chain through x ends where the chain of the new value ends,
      or runs in a circle when that leads back to x; every other chain ends where it did. */
  lemma {:induction false} Redirected(name: string, params: Params, x: string, value: string)
    requires x in params
    ensures EndOf(name, params[x := value]) ==
            if !Reaches(name, params, x) then EndOf(name, params)
            else if Reaches(value, params, x) then None
            else EndOf(value, params)
  {
    var changed := params[x := value];
    if Reaches(name, params, x) {
      var m := HopsToValue(name, params, x, value);
      EndAfterHops(name, changed, m);
      if Reaches(value, params, x) {
        var k := HopsToValue(value, params, x, value);
        assert value in changed;
        if EndOf(value, changed).Some? {
          EndOfIff(value, changed, EndOf(value, changed).value);
          var n: nat :| Hops(value, changed, n) == EndOf(value, changed).value;
          NeverOut(value, changed, k, n);
        }
      } else {
        UntouchedEnd(value, params, x, value);
      }
    } else {
      UntouchedEnd(name, params, x, value);
    }
  }

  /** The chains through a parameter that ends a chain are those that end there. */
  lemma {:induction false} ReachesRoot(name: string, params: Params, r: string)
    requires r in params && params[r] !in params
    ensures Reaches(name, params, r) <==> RootName(name, params) == Some(r)
  {
    if Reaches(name, params, r) {
      var n: nat :| Hops(name, params, n) == r;
      HopsAdd(name, params, n, 1);
      assert Hops(r, params, 1) == params[r];
      assert Hops(name, params, n + 1) == params[r];
      TerminatesIff(name, params);
      RootEnds(name, params, params.Keys);
      var s := RootOf(name, params).name;
      var k: nat :| Hops(name, params, k) == s;
      HopsAdd(name, params, k, 1);
      assert Hops(s, params, 1) == params[s];
      if n < k {
        StaysOut(name, params, n + 1, k);
      } else if k < n {
        StaysOut(name, params, k + 1, n);
      }
    } else if RootName(name, params) == Some(r) {
      RootEnds(name, params, params.Keys);
    }
  }

  // ---- one change of any mode, to any value ----

  /** What `get_config` returns for a field, as text; `None` when it does not return. */
  function Read(p: Parsed, field: string): (r: Option<Value>)
    requires field in p.config
    ensures r.Some? <==> HasRoot(p, field)
    ensures r.Some? ==> r.value == Evaluate(p, field)
  {
    WithCast(p.config[field].cast, EndOf(p.config[field].text, p.params))
  }

  function WithCast(cast: Option<string>, text: Option<string>): Option<Value> {
    if text == None then None else Some(Value(cast, text.value))
  }

  function AfterOne(lines: seq<Line>, c: Change): Parsed
    requires Edited(lines, [c], 1).Some?
  {
    ParsedOf(Edited(lines, [c], 1).value)
  }

  lemma {:induction false} OneEdit(lines: seq<Line>, c: Change, i: nat)
    requires i < |lines| && !lines[i].Other? && Slot(ParsedOf(lines), c.name) == Some(i)
    ensures Edited(lines, [c], 1).Some?
    ensures forall k: nat :: LastWrite(ParsedOf(lines), [c], 1, k) == if k == i then Some(c.value) else None
  {
    assert Edited(lines, [c], 0) == Some(lines);
    forall k: nat
      ensures LastWrite(ParsedOf(lines), [c], 1, k) == if k == i then Some(c.value) else None
    {
      assert LastWrite(ParsedOf(lines), [c], 0, k) == None;
    }
  }

  lemma {:induction false} ParamEdit(lines: seq<Line>, c: Change, x: string)
    requires var p := ParsedOf(lines); x in p.params && x in p.iParams && Slot(p, c.name) == Some(p.iParams[x])
    ensures Edited(lines, [c], 1).Some?
    ensures var p, q := ParsedOf(lines), AfterOne(lines, c);
            q.params == p.params[x := c.value] && q.config == p.config
  {
    var p := ParsedOf(lines);
    ParamAt(lines, |lines|, x);
    OneEdit(lines, c, p.iParams[x]);
    var q := AfterOne(lines, c);
    forall y
      ensures y in p.params <==> y in q.params
      ensures y in p.params ==> q.params[y] == p.params[x := c.value][y]
    {
      ParamAt(lines, |lines|, y);
      ParamAfter(lines, [c], 1, y);
    }
    assert q.params == p.params[x := c.value];
    forall f
      ensures f in p.config <==> f in q.config
      ensures f in p.config ==> q.config[f] == p.config[f]
    {
      ConfigAt(lines, |lines|, f);
      ConfigAfter(lines, [c], 1, f);
    }
    assert q.config == p.config;
  }

  lemma {:induction false} FieldEdit(lines: seq<Line>, c: Change, field: string)
    requires var p := ParsedOf(lines);
             field in p.config && field in p.iConfig && Slot(p, c.name) == Some(p.iConfig[field])
    ensures Edited(lines, [c], 1).Some?
    ensures var p, q := ParsedOf(lines), AfterOne(lines, c);
            q.params == p.params && q.config == p.config[field := Value(p.config[field].cast, c.value)]
  {
    var p := ParsedOf(lines);
    ConfigAt(lines, |lines|, field);
    OneEdit(lines, c, p.iConfig[field]);
    var q := AfterOne(lines, c);
    forall y
      ensures y in p.params <==> y in q.params
      ensures y in p.params ==> q.params[y] == p.params[y]
    {
      ParamAt(lines, |lines|, y);
      ParamAfter(lines, [c], 1, y);
    }
    assert q.params == p.params;
    var config := p.config[field := Value(p.config[field].cast, c.value)];
    forall f
      ensures f in config <==> f in q.config
      ensures f in config ==> q.config[f] == config[f]
    {
      ConfigAt(lines, |lines|, f);
      ConfigAfter(lines, [c], 1, f);
    }
    assert q.config == config;
  }

  /** `*field` sets that field alone, even when its value was a reference; it then reads the end of the
      chain of the new value. */
  lemma {:induction false} StarSetsOneField(lines: seq<Line>, field: string, value: string, other: string)
    requires field in ParsedOf(lines).config && other in ParsedOf(lines).config
    ensures var p, c := ParsedOf(lines), Change("*" + field, value);
            && Edited(lines, [c], 1).Some? && other in AfterOne(lines, c).config
            && Read(AfterOne(lines, c), other) ==
               if other == field then WithCast(p.config[field].cast, EndOf(value, p.params)) else Read(p, other)
  {
    var c := Change("*" + field, value);
    assert c.name[0] == '*' && c.name[1..] == field;
    ConfigAt(lines, |lines|, field);
    FieldEdit(lines, c, field);
  }

  /** `+x` sets that parameter, and so exactly the fields whose chain passes through it: they read the
      end of the chain of the new value, or for ever when that leads back to x. */
  lemma {:induction false} PlusCutsChains(lines: seq<Line>, x: string, value: string, field: string)
    requires x in ParsedOf(lines).params && field in ParsedOf(lines).config
    ensures var p, c := ParsedOf(lines), Change("+" + x, value);
            && Edited(lines, [c], 1).Some? && field in AfterOne(lines, c).config
            && Read(AfterOne(lines, c), field) ==
               if !Reaches(p.config[field].text, p.params, x) then Read(p, field)
               else if Reaches(value, p.params, x) then None
               else WithCast(p.config[field].cast, EndOf(value, p.params))
  {
    var c := Change("+" + x, value);
    assert c.name[0] == '+' && c.name[1..] == x;
    ParamAt(lines, |lines|, x);
    ParamEdit(lines, c, x);
    Redirected(ParsedOf(lines).config[field].text, ParsedOf(lines).params, x, value);
  }

  /** A default-mode change to any value sets exactly the fields with the root of the field named (or
      that field alone when it has none): they read the end of the chain of the new value, or for ever
      when that chain ends at this very root. */
  lemma {:induction false} DefaultSetsRoot(lines: seq<Line>, c: Change, field: string)
    requires var p := ParsedOf(lines);
             DefaultMode(c) && c.name in p.config && HasRoot(p, c.name) && field in p.config
    ensures Edited(lines, [c], 1).Some? && field in AfterOne(lines, c).config
    ensures var p := ParsedOf(lines);
            var root := RootName(p.config[c.name].text, p.params);
            var hit := if root == None then field == c.name else RootName(p.config[field].text, p.params) == root;
            Read(AfterOne(lines, c), field) ==
            if !hit then Read(p, field)
            else if root.Some? && RootName(c.value, p.params) == root then None
            else WithCast(p.config[field].cast, EndOf(c.value, p.params))
  {
    var p := ParsedOf(lines);
    var text := p.config[c.name].text;
    ConfigAt(lines, |lines|, c.name);
    if text in p.params {
      RootEnds(text, p.params, p.params.Keys);
      var r := RootOf(text, p.params).name;
      ParamAt(lines, |lines|, r);
      ParamEdit(lines, c, r);
      Redirected(p.config[field].text, p.params, r, c.value);
      ReachesRoot(p.config[field].text, p.params, r);
      ReachesRoot(c.value, p.params, r);
    } else {
      FieldEdit(lines, c, c.name);
    }
  }

  // ---- changes of all modes together ----

  /** The new values are no parameter names. */
  ghost predicate PlainValues(lines: seq<Line>, changes: seq<Change>) {
    forall j :: 0 <= j < |changes| ==> changes[j].value !in ParsedOf(lines).params
  }

  /** Some change wrote the line of parameter x. */
  predicate WrittenParam(p: Parsed, changes: seq<Change>, x: string) {
    x in p.iParams && LastWrite(p, changes, |changes|, p.iParams[x]).Some?
  }

  /** The first parameter on the chain from `name` whose line was written. */
  function FirstWritten(name: string, p: Parsed, changes: seq<Change>, unvisited: set<string>): Option<string>
    requires name in p.params
    decreases |unvisited|
  {
    if name !in unvisited then None
    else if WrittenParam(p, changes, name) then Some(name)
    else if p.params[name] in p.params then FirstWritten(p.params[name], p, changes, unvisited - {name})
    else None
  }

  /** The chain from `name` reaches a written parameter after k steps, and none before. */
  ghost predicate FirstWrittenAfter(name: string, p: Parsed, changes: seq<Change>, k: nat) {
    && WrittenParam(p, changes, Hops(name, p.params, k))
    && forall j: nat :: j < k ==> !WrittenParam(p, changes, Hops(name, p.params, j))
  }

  /** It is found when there is one, and then it is the first in the order of the chase; this holds of
      chains that run in a circle, too. */
  lemma {:induction false} FirstWrittenIs(name: string, p: Parsed, changes: seq<Change>, unvisited: set<string>)
    requires name in p.params && p.iParams.Keys == p.params.Keys
    requires forall x :: x in p.params.Keys - unvisited ==>
                           && !WrittenParam(p, changes, x)
                           && (p.params[x] == name || p.params[x] in p.params.Keys - unvisited)
    ensures match FirstWritten(name, p, changes, unvisited)
            case Some(x) => exists k: nat :: FirstWrittenAfter(name, p, changes, k) && Hops(name, p.params, k) == x
            case None => forall k: nat :: !WrittenParam(p, changes, Hops(name, p.params, k))
    decreases |unvisited|
  {
    if name !in unvisited {
      forall k: nat
        ensures !WrittenParam(p, changes, Hops(name, p.params, k))
      {
        ClosedNeverLeaves(name, p.params, p.params.Keys - unvisited, k);
      }
    } else if WrittenParam(p, changes, name) {
      assert Hops(name, p.params, 0) == name && FirstWrittenAfter(name, p, changes, 0);
    } else {
      var next, rest := p.params[name], unvisited - {name};
      if next in p.params {
        FirstWrittenIs(next, p, changes, rest);
      }
      if next in p.params && FirstWritten(next, p, changes, rest).Some? {
        var k: nat :| FirstWrittenAfter(next, p, changes, k) &&
                      Hops(next, p.params, k) == FirstWritten(next, p, changes, rest).value;
        OneHopMore(name, p, changes, k);
      } else {
        forall k: nat
          ensures !WrittenParam(p, changes, Hops(name, p.params, k))
        {
          assert k == 0 || Hops(name, p.params, k) == Hops(next, p.params, k - 1);
        }
      }
    }
  }

  lemma {:induction false} OneHopMore(name: string, p: Parsed, changes: seq<Change>, k: nat)
    requires name in p.params && !WrittenParam(p, changes, name)
    requires FirstWrittenAfter(p.params[name], p, changes, k)
    ensures FirstWrittenAfter(name, p, changes, k + 1)
    ensures Hops(name, p.params, k + 1) == Hops(p.params[name], p.params, k)
  {
    forall j: nat | j < k + 1
      ensures !WrittenParam(p, changes, Hops(name, p.params, j))
    {
      assert j == 0 || Hops(name, p.params, j) == Hops(p.params[name], p.params, j - 1);
    }
  }

  /** The chain ends at its first written parameter, or where it ended before. */
  lemma {:induction false} RootAfter(lines: seq<Line>, changes: seq<Change>, name: string, unvisited: set<string>)
    requires PlainValues(lines, changes) && Edited(lines, changes, |changes|).Some?
    requires name in ParsedOf(lines).params
    ensures var p, q := ParsedOf(lines), ParsedOf(Edited(lines, changes, |changes|).value);
            && name in q.params
            && match FirstWritten(name, p, changes, unvisited)
               case None => FindRoot(name, q.params, unvisited) == FindRoot(name, p.params, unvisited)
               case Some(x) =>
                 && WrittenParam(p, changes, x)
                 && FindRoot(name, q.params, unvisited) ==
                    Root(x, LastWrite(p, changes, |changes|, p.iParams[x]).value)
    decreases |unvisited|
  {
    var n := |changes|;
    var p, q := ParsedOf(lines), ParsedOf(Edited(lines, changes, n).value);
    ParamAfter(lines, changes, n, name);
    ParamAfter(lines, changes, n, q.params[name]);
    if WrittenParam(p, changes, name) {
      var j := Writer(p, changes, n, p.iParams[name]);
    } else if name in unvisited && p.params[name] in p.params {
      RootAfter(lines, changes, p.params[name], unvisited - {name});
    }
  }

  /** What a field reads after changes of all modes: the last value written to its own line, else the
      last value written to the first written parameter on its chain, else its old value. */
  function ReadAfter(p: Parsed, changes: seq<Change>, field: string): Option<string>
    requires field in p.config && field in p.iConfig
  {
    var text := p.config[field].text;
    var own := LastWrite(p, changes, |changes|, p.iConfig[field]);
    if own.Some? || text !in p.params then own
    else
      match FirstWritten(text, p, changes, p.params.Keys)
      case None => None
      case Some(x) => if x in p.iParams then LastWrite(p, changes, |changes|, p.iParams[x]) else None
  }

  lemma {:induction false} MixedPutGet(lines: seq<Line>, changes: seq<Change>, field: string)
    requires PlainValues(lines, changes) && Edited(lines, changes, |changes|).Some?
    requires field in ParsedOf(lines).config
    ensures var p, q := ParsedOf(lines), ParsedOf(Edited(lines, changes, |changes|).value);
            && field in q.config && field in p.iConfig
            && Evaluate(q, field) == (match ReadAfter(p, changes, field)
                                      case None => Evaluate(p, field)
                                      case Some(v) => Value(p.config[field].cast, v))
            && (HasRoot(q, field) <==> ReadAfter(p, changes, field).Some? || HasRoot(p, field))
  {
    var n := |changes|;
    var p, q := ParsedOf(lines), ParsedOf(Edited(lines, changes, n).value);
    var text := p.config[field].text;
    ConfigAfter(lines, changes, n, field);
    ParamAfter(lines, changes, n, q.config[field].text);
    if LastWrite(p, changes, n, p.iConfig[field]).Some? {
      var j := Writer(p, changes, n, p.iConfig[field]);
    } else if text in p.params {
      SameNames(lines, changes);
      RootAfter(lines, changes, text, p.params.Keys);
    }
  }

  lemma {:induction false} SameNames(lines: seq<Line>, changes: seq<Change>)
    requires Edited(lines, changes, |changes|).Some?
    ensures ParsedOf(lines).params.Keys == ParsedOf(Edited(lines, changes, |changes|).value).params.Keys
  {
    forall x
      ensures x in ParsedOf(lines).params <==> x in ParsedOf(Edited(lines, changes, |changes|).value).params
    {
      ParamAfter(lines, changes, |changes|, x);
    }
  }

  /** That value, by the places on the chain: the own line comes first, then the written parameter with
      the fewest steps to it, and there is none exactly when no place was written. */
  lemma {:induction false} ReadAfterIs(lines: seq<Line>, changes: seq<Change>, field: string)
    requires field in ParsedOf(lines).config
    ensures var p := ParsedOf(lines);
            var text := p.config[field].text;
            && field in p.iConfig
            && var own := LastWrite(p, changes, |changes|, p.iConfig[field]);
               var read := ReadAfter(p, changes, field);
               && (own.Some? ==> read == own)
               && (own.None? && read.Some? ==>
                     exists k: nat :: FirstWrittenAfter(text, p, changes, k) &&
                                      read == LastWrite(p, changes, |changes|, p.iParams[Hops(text, p.params, k)]))
               && (own.None? && read.None? ==> forall k: nat :: !WrittenParam(p, changes, Hops(text, p.params, k)))
  {
    var p := ParsedOf(lines);
    var text := p.config[field].text;
    ConfigAt(lines, |lines|, field);
    forall x
      ensures x in p.params <==> x in p.iParams
    {
      ParamAt(lines, |lines|, x);
    }
    if text in p.params {
      FirstWrittenIs(text, p, changes, p.params.Keys);
    } else {
      assert forall k: nat :: Hops(text, p.params, k) == text;
    }
  }

  /** The dictionaries with the last value written to each line. */
  function Overridden(p: Parsed, changes: seq<Change>): Parsed {
    var n := |changes|;
    var params := map x | x in p.params && x in p.iParams ::
                    var w := LastWrite(p, changes, n, p.iParams[x]); if w.Some? then w.value else p.params[x];
    var config := map f | f in p.config && f in p.iConfig ::
                    var w := LastWrite(p, changes, n, p.iConfig[f]);
                    if w.Some? then Value(p.config[f].cast, w.value) else p.config[f];
    Parsed(params, config, p.iParams, p.iConfig)
  }

  /** Parsing what was written is overriding what was parsed, for any list of changes to any values. */
  lemma {:induction false} EditThenParse(lines: seq<Line>, changes: seq<Change>)
    requires Edited(lines, changes, |changes|).Some?
    ensures ParsedOf(Edited(lines, changes, |changes|).value) == Overridden(ParsedOf(lines), changes)
  {
    var n := |changes|;
    var p, q := ParsedOf(lines), ParsedOf(Edited(lines, changes, n).value);
    var o := Overridden(p, changes);
    EditedShape(lines, changes, n);
    forall x
      ensures x in q.params <==> x in o.params
      ensures x in q.params ==> q.params[x] == o.params[x]
    {
      ParamAfter(lines, changes, n, x);
    }
    assert q.params == o.params;
    forall f
      ensures f in q.config <==> f in o.config
      ensures f in q.config ==> q.config[f] == o.config[f]
    {
      ConfigAfter(lines, changes, n, f);
    }
    assert q.config == o.config;
  }

  // ---- which lines are written, and what is left of them ----

  /** Line i is the last one that defines parameter x. */
  ghost predicate DefinesParam(lines: seq<Line>, i: nat, x: string) {
    && i < |lines| && lines[i].Param? && lines[i].name == x
    && forall j :: i < j < |lines| ==> !(lines[j].Param? && lines[j].name == x)
  }

  ghost predicate DefinesField(lines: seq<Line>, i: nat, f: string) {
    && i < |lines| && lines[i].Cfg? && lines[i].name == f
    && forall j :: i < j < |lines| ==> !(lines[j].Cfg? && lines[j].name == f)
  }

  /** A change of this name edits line i: `*` goes to the field, `+` to the parameter, and a plain name
      to the parameter at the end of the field's chain, or to the field when it starts no chain. */
  ghost predicate Edits(lines: seq<Line>, name: string, i: nat) {
    && name != ""
    && if name[0] == '*' then DefinesField(lines, i, name[1..])
       else if name[0] == '+' then DefinesParam(lines, i, name[1..])
       else
         exists k: nat ::
           && DefinesField(lines, k, name)
           && var params := ParsedOf(lines).params;
              if lines[k].text !in params then i == k
              else
                var root := RootName(lines[k].text, params);
                root.Some? && DefinesParam(lines, i, root.value)
  }

  lemma {:induction false} ParamIndexIs(lines: seq<Line>, x: string, i: nat)
    ensures DefinesParam(lines, i, x) <==> x in ParsedOf(lines).iParams && ParsedOf(lines).iParams[x] == i
  {
    ParamAt(lines, |lines|, x);
  }

  lemma {:induction false} FieldIndexIs(lines: seq<Line>, f: string, i: nat)
    ensures DefinesField(lines, i, f) <==> f in ParsedOf(lines).iConfig && ParsedOf(lines).iConfig[f] == i
    ensures DefinesField(lines, i, f) ==>
              f in ParsedOf(lines).config && ParsedOf(lines).config[f] == Value(lines[i].cast, lines[i].text)
  {
    ConfigAt(lines, |lines|, f);
  }

  lemma {:induction false} SlotIs(lines: seq<Line>, name: string, i: nat)
    ensures Slot(ParsedOf(lines), name) == Some(i) <==> Edits(lines, name, i)
  {
    var p := ParsedOf(lines);
    if name != "" && name[0] in {'*', '+'} {
      ConfigAt(lines, |lines|, name[1..]);
      ParamIndexIs(lines, name[1..], i);
      FieldIndexIs(lines, name[1..], i);
    } else if name != "" {
      DefaultSlotIs(lines, name, i);
    }
  }

  lemma {:induction false} DefaultSlotIs(lines: seq<Line>, name: string, i: nat)
    requires name != "" && name[0] !in {'*', '+'}
    ensures DefaultSlot(ParsedOf(lines), name) == Some(i) <==> Edits(lines, name, i)
  {
    var p := ParsedOf(lines);
    ConfigAt(lines, |lines|, name);
    if name in p.config {
      var k, text := p.iConfig[name], p.config[name].text;
      FieldIndexIs(lines, name, k);
      if text in p.params && RootOf(text, p.params).Root? {
        ParamIndexIs(lines, RootOf(text, p.params).name, i);
      }
    }
    forall k: nat
      ensures DefinesField(lines, k, name) ==> name in p.iConfig && p.iConfig[name] == k
    {
      FieldIndexIs(lines, name, k);
    }
  }

  ghost predicate SameParts(a: Line, b: Line) {
    && (a.Param? <==> b.Param?) && (a.Cfg? <==> b.Cfg?)
    && (a.Other? ==> a == b)
    && (!a.Other? ==> a.prefix == b.prefix && a.name == b.name && a.separator == b.separator && a.suffix == b.suffix)
    && (a.Cfg? && b.Cfg? ==> a.cast == b.cast)
  }

  /** Whatever the changes, every line keeps all its parts but its text. */
  lemma {:induction false} LineParts(lines: seq<Line>, changes: seq<Change>, n: nat, i: nat)
    requires n <= |changes| && i < |lines| && Edited(lines, changes, n).Some?
    ensures |Edited(lines, changes, n).value| == |lines|
    ensures SameParts(lines[i], Edited(lines, changes, n).value[i])
  {
    if n > 0 {
      LineParts(lines, changes, n - 1, i);
    }
  }

  /** A line that no change edits stays whole. */
  lemma {:induction false} LineKept(lines: seq<Line>, changes: seq<Change>, n: nat, i: nat)
    requires n <= |changes| && i < |lines| && Edited(lines, changes, n).Some?
    requires forall j :: 0 <= j < n ==> !Edits(lines, changes[j].name, i)
    ensures |Edited(lines, changes, n).value| == |lines| && Edited(lines, changes, n).value[i] == lines[i]
  {
    if n > 0 {
      LineKept(lines, changes, n - 1, i);
      SlotIs(lines, changes[n - 1].name, i);
    }
  }

  /** A line has the text of the last change that edits it. */
  lemma {:induction false} LineWritten(lines: seq<Line>, changes: seq<Change>, n: nat, i: nat, j: nat)
    requires j < n <= |changes| && i < |lines| && Edited(lines, changes, n).Some?
    requires Edits(lines, changes[j].name, i) && forall k :: j < k < n ==> !Edits(lines, changes[k].name, i)
    ensures |Edited(lines, changes, n).value| == |lines|
    ensures !Edited(lines, changes, n).value[i].Other? && Edited(lines, changes, n).value[i].text == changes[j].value
  {
    LineParts(lines, changes, n, i);
    SlotIs(lines, changes[n - 1].name, i);
    if j < n - 1 {
      LineWritten(lines, changes, n - 1, i, j);
    }
  }

  ghost predicate Editable(lines: seq<Line>, name: string) {
    exists i :: Edits(lines, name, i)
  }

  lemma {:induction false} SlotExists(lines: seq<Line>, name: string)
    ensures Slot(ParsedOf(lines), name).Some? <==> Editable(lines, name)
    ensures Slot(ParsedOf(lines), name).Some? ==>
              var i := Slot(ParsedOf(lines), name).value; i < |lines| && !lines[i].Other?
  {
    if Slot(ParsedOf(lines), name).Some? {
      SlotIs(lines, name, Slot(ParsedOf(lines), name).value);
    } else if i: nat :| Edits(lines, name, i) {
      SlotIs(lines, name, i);
    }
  }

  lemma {:induction false} EditedStep(lines: seq<Line>, changes: seq<Change>, n: nat)
    requires 0 < n <= |changes|
    ensures Edited(lines, changes, n).Some? <==>
            Edited(lines, changes, n - 1).Some? && Editable(lines, changes[n - 1].name)
  {
    SlotExists(lines, changes[n - 1].name);
    if Edited(lines, changes, n - 1).Some? && Slot(ParsedOf(lines), changes[n - 1].name).Some? {
      LineParts(lines, changes, n - 1, Slot(ParsedOf(lines), changes[n - 1].name).value);
    }
  }

  ghost predicate AllEditable(lines: seq<Line>, changes: seq<Change>, n: nat)
    requires n <= |changes|
  {
    forall j :: 0 <= j < n ==> Editable(lines, changes[j].name)
  }

  lemma {:induction false} AllEditableNext(lines: seq<Line>, changes: seq<Change>, n: nat)
    requires n < |changes|
    ensures AllEditable(lines, changes, n + 1) <==>
            AllEditable(lines, changes, n) && Editable(lines, changes[n].name)
  {}

  /** The changes are carried out exactly when each of them has a line to edit. */
  lemma {:induction false} EditedIff(lines: seq<Line>, changes: seq<Change>, n: nat)
    requires n <= |changes|
    ensures Edited(lines, changes, n).Some? <==> AllEditable(lines, changes, n)
  {
    if n > 0 {
      EditedIff(lines, changes, n - 1);
      EditedStep(lines, changes, n);
      AllEditableNext(lines, changes, n - 1);
    }
  }
}
