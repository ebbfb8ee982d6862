/** The Renode converter: register dumps become register updates
    (cva6/verif/sim/dv/scripts/renode_log_to_trace_csv.py). */
module RenodeLog {
  import opened Wrappers
  import opened Indices
  import opened PyText
  import opened TraceCsv
  import opened TraceCompare
  import opened Replay

  /** A stripped line; the fields of a dump are those between its commas. */
  datatype Line = Ecall | RegDump(fields: seq<string>) | Other

  // ---- names ----

  const REGISTERS := 32

  function Digit(d: nat): char
    requires d < 10
  {
    (d + '0' as int) as char
  }

  /** The name of register x in a dump. */
  function DumpName(x: nat): string
    requires x < REGISTERS
  {
    if x < 10 then ['X', Digit(x)]
    else if x < 20 then ['X', '1', Digit(x - 10)]
    else if x < 30 then ['X', '2', Digit(x - 20)]
    else ['X', '3', Digit(x - 30)]
  }

  /** The ABI name of register x, as the script's table lists it. */
  function AbiName(x: nat): string
    requires x < REGISTERS
  {
    if x == 0 then "zero" else if x == 1 then "ra" else if x == 2 then "sp"
    else if x == 3 then "gp" else if x == 4 then "tp"
    else if x <= 7 then ['t', Digit(x - 5)]
    else if x <= 9 then ['s', Digit(x - 8)]
    else if x <= 17 then ['a', Digit(x - 10)]
    else if x <= 25 then ['s', Digit(x - 16)]
    else if x <= 27 then ['s', '1', Digit(x - 26)]
    else ['t', Digit(x - 25)]
  }

  /** The two columns of the script's table. */
  function DumpNames(): (names: seq<string>)
    ensures |names| == 32
  {
    seq(REGISTERS, x requires 0 <= x < REGISTERS => DumpName(x))
  }

  function AbiNames(): (names: seq<string>)
    ensures |names| == 32
  {
    seq(REGISTERS, x requires 0 <= x < REGISTERS => AbiName(x))
  }

  lemma {:induction false} DumpNamesAre()
    ensures DumpNames() == ["X0", "X1", "X2", "X3", "X4", "X5", "X6", "X7", "X8", "X9", "X10", "X11", "X12", "X13",
                            "X14", "X15", "X16", "X17", "X18", "X19", "X20", "X21", "X22", "X23", "X24", "X25", "X26",
                            "X27", "X28", "X29", "X30", "X31"]
  {}

  lemma {:induction false} AbiNamesAre()
    ensures AbiNames() == ["zero", "ra", "sp", "gp", "tp", "t0", "t1", "t2", "s0", "s1", "a0", "a1", "a2", "a3", "a4",
                           "a5", "a6", "a7", "s2", "s3", "s4", "s5", "s6", "s7", "s8", "s9", "s10", "s11", "t3", "t4",
                           "t5", "t6"]
  {}

  lemma {:induction false} NamesAre(x: nat)
    requires x < 32
    ensures DumpNames()[x] == DumpName(x) && AbiNames()[x] == AbiName(x)
  {}

  ghost function AbiIndex(s: string): int {
    if |s| == 4 then 0
    else if |s| == 3 then 26 + (s[2] as int - '0' as int)
    else if |s| != 2 then -1
    else
      var d := s[1] as int - '0' as int;
      if s[1] == 'a' then 1
      else if s[1] == 'p' then (if s[0] == 's' then 2 else if s[0] == 'g' then 3 else 4)
      else if s[0] == 't' then (if d <= 2 then 5 + d else 25 + d)
      else if s[0] == 's' then (if d <= 1 then 8 + d else 16 + d)
      else 10 + d
  }

  lemma {:induction false} AbiNamesDiffer(x: nat, y: nat)
    requires x < REGISTERS && y < REGISTERS && AbiName(x) == AbiName(y)
    ensures x == y
  {
    AbiIndexed(x);
    AbiIndexed(y);
  }

  lemma {:induction false} AbiIndexed(x: nat)
    requires x < REGISTERS
    ensures AbiIndex(AbiName(x)) == x && ':' !in AbiName(x)
  {}

  // ---- one dump ----

  /** The dictionary of a dump: names and values alternate, and a later pair wins. `None` when a
      name has no value (`IndexError`). */
  function Pairs(fields: seq<string>, i: nat, regs: Gprs): Option<Gprs>
    requires i <= |fields|
    decreases |fields| - i
  {
    if i == |fields| then Some(regs)
    else if i + 1 == |fields| then None
    else Pairs(fields, i + 2, regs[fields[i] := fields[i + 1]])
  }

  /** The value behind the last name r of the pairs up to field n. */
  function LastPair(fields: seq<string>, n: nat, r: string): Option<string>
    requires n <= |fields| / 2
  {
    if n == 0 then None
    else if fields[2 * (n - 1)] == r then Some(fields[2 * (n - 1) + 1])
    else LastPair(fields, n - 1, r)
  }

  lemma {:induction false} PairsFrom(fields: seq<string>, k: nat, regs: Gprs)
    requires 2 * k <= |fields|
    requires forall r :: LastPair(fields, k, r) == if r in regs then Some(regs[r]) else None
    ensures Pairs(fields, 2 * k, regs).Some? <==> |fields| % 2 == 0
    ensures Pairs(fields, 2 * k, regs).Some? ==>
              forall r :: LastPair(fields, |fields| / 2, r) ==
                          var g := Pairs(fields, 2 * k, regs).value; if r in g then Some(g[r]) else None
    decreases |fields| - k
  {
    if 2 * k + 1 < |fields| {
      PairsFrom(fields, k + 1, regs[fields[2 * k] := fields[2 * k + 1]]);
    }
  }

  /** A dump is read exactly when no name is left without a value, and then each name has its last value. */
  lemma {:induction false} PairsExact(fields: seq<string>)
    ensures Pairs(fields, 0, map[]).Some? <==> |fields| % 2 == 0
    ensures Pairs(fields, 0, map[]).Some? ==>
              forall r :: LastPair(fields, |fields| / 2, r) ==
                          var g := Pairs(fields, 0, map[]).value; if r in g then Some(g[r]) else None
  {
    PairsFrom(fields, 0, map[]);
  }

  /** Register x is in both states, with different texts. */
  predicate Differs(x: nat, state: Gprs, regs: Gprs)
    requires x < REGISTERS
  {
    DumpName(x) in state && DumpName(x) in regs && state[DumpName(x)] != regs[DumpName(x)]
  }

  function UpdateFor(x: nat, value: int): string
    requires x < REGISTERS
  {
    AbiName(x) + ":" + Format08x(value)
  }

  /** The updates for registers x, x+1, ...; `None` when a value is no number (`ValueError`). */
  function Difference(x: nat, state: Gprs, regs: Gprs): Option<seq<string>>
    requires x <= REGISTERS
    decreases REGISTERS - x
  {
    if x == REGISTERS then Some([])
    else
      var rest := Difference(x + 1, state, regs);
      if !Differs(x, state, regs) then rest
      else
        match ParseInt16(regs[DumpName(x)])
        case None => None
        case Some(v) => After([UpdateFor(x, v)], rest)
  }

  /** The registers, from x on, that both states list, with different texts. */
  function Differing(x: nat, state: Gprs, regs: Gprs): (xs: seq<nat>)
    requires x <= 32
    ensures forall k, l :: 0 <= k < l < |xs| ==> xs[k] < xs[l]
    ensures forall k :: 0 <= k < |xs| ==> xs[k] < 32
    ensures forall z: nat :: z in xs <==>
              && x <= z < 32 && DumpNames()[z] in state && DumpNames()[z] in regs
              && state[DumpNames()[z]] != regs[DumpNames()[z]]
  {
    Where(x, 32, (z: nat) =>
      z < 32 && DumpNames()[z] in state && DumpNames()[z] in regs && state[DumpNames()[z]] != regs[DumpNames()[z]])
  }

  lemma {:induction false} DifferingNext(x: nat, state: Gprs, regs: Gprs)
    requires x < 32
    ensures var rest := Differing(x + 1, state, regs);
            Differing(x, state, regs) == if Differs(x, state, regs) then [x] + rest else rest
  {
    NamesAre(x);
  }

  predicate Unreadable(x: nat, regs: Gprs) {
    x < 32 && DumpNames()[x] in regs && ParseInt16(regs[DumpNames()[x]]).None?
  }

  /** The update of register x: its name in the second column and its number in 8 digits. */
  predicate IsUpdate(u: string, x: nat, regs: Gprs) {
    && x < 32 && DumpNames()[x] in regs && ParseInt16(regs[DumpNames()[x]]).Some?
    && Split(':', u) == [AbiNames()[x], Format08x(ParseInt16(regs[DumpNames()[x]]).value)]
  }

  lemma {:induction false} UpdateForIs(x: nat, regs: Gprs)
    requires x < 32 && DumpName(x) in regs && ParseInt16(regs[DumpName(x)]).Some?
    ensures IsUpdate(UpdateFor(x, ParseInt16(regs[DumpName(x)]).value), x, regs)
  {
    var s := Format08x(ParseInt16(regs[DumpName(x)]).value);
    NamesAre(x);
    AbiIndexed(x);
    FormatParse(ParseInt16(regs[DumpName(x)]).value);
    assert AbiName(x) + ":" + s == AbiName(x) + [':'] + s;
    SplitPair(':', AbiName(x), s);
  }

  ghost predicate AreUpdates(d: Option<seq<string>>, xs: seq<nat>, regs: Gprs) {
    && (d.None? <==> exists x :: x in xs && Unreadable(x, regs))
    && (d.Some? ==> |d.value| == |xs| && forall k :: 0 <= k < |xs| ==> IsUpdate(d.value[k], xs[k], regs))
  }

  lemma {:induction false} OneMoreUpdate(x: nat, u: string, us: seq<string>, xs: seq<nat>, regs: Gprs)
    requires AreUpdates(Some(us), xs, regs) && IsUpdate(u, x, regs)
    ensures AreUpdates(Some([u] + us), [x] + xs, regs)
  {
    var vs, ys := [u] + us, [x] + xs;
    forall k | 0 <= k < |ys|
      ensures IsUpdate(vs[k], ys[k], regs)
    {
      if k > 0 {
        assert vs[k] == us[k - 1] && ys[k] == xs[k - 1];
      }
    }
    assert forall y :: y in ys ==> y == x || y in xs;
  }

  /** The difference is one update for each differing register, in the order of the table; there is none
      exactly when one of their values is no number. */
  lemma {:induction false} DifferenceExact(x: nat, state: Gprs, regs: Gprs)
    requires x <= 32
    ensures AreUpdates(Difference(x, state, regs), Differing(x, state, regs), regs)
    decreases 32 - x
  {
    if x < 32 {
      var rest := Differing(x + 1, state, regs);
      NamesAre(x);
      DifferingNext(x, state, regs);
      DifferenceExact(x + 1, state, regs);
      if Differs(x, state, regs) {
        if ParseInt16(regs[DumpName(x)]).Some? {
          UpdateForIs(x, regs);
          if Difference(x + 1, state, regs).Some? {
            var u := UpdateFor(x, ParseInt16(regs[DumpName(x)]).value);
            OneMoreUpdate(x, u, Difference(x + 1, state, regs).value, rest, regs);
          } else {
            var y :| y in rest && Unreadable(y, regs);
            assert y in [x] + rest;
          }
        } else {
          assert x in [x] + rest && Unreadable(x, regs);
        }
      }
    } else {
      assert Differing(x, state, regs) == [];
    }
  }

  function After(us: seq<string>, rest: Option<seq<string>>): Option<seq<string>> {
    if rest == None then None else Some(us + rest.value)
  }

  lemma {:induction false} AfterNothing(us: seq<string>, rest: Option<seq<string>>)
    ensures After([], rest) == rest && After(us, Some([])) == Some(us)
  {
    assert us + [] == us;
    if rest.Some? {
      assert [] + rest.value == rest.value;
    }
  }

  lemma {:induction false} AfterAfter(us: seq<string>, u: string, rest: Option<seq<string>>)
    ensures After(us, After([u], rest)) == After(us + [u], rest)
  {
    if rest.Some? {
      assert us + ([u] + rest.value) == us + [u] + rest.value;
    }
  }

  method ComputeDifference(state: Gprs, regs: Gprs) returns (gpr: Option<seq<string>>)
    ensures gpr == Difference(0, state, regs)
  {
    var updates: seq<string> := [];
    var x := 0;
    AfterNothing([], Difference(0, state, regs));
    while x < REGISTERS
      invariant 0 <= x <= REGISTERS
      invariant Difference(0, state, regs) == After(updates, Difference(x, state, regs))
    {
      if Differs(x, state, regs) {
        var v := ParseInt16(regs[DumpName(x)]);
        if v == None {
          return None;
        }
        AfterAfter(updates, UpdateFor(x, v.value), Difference(x + 1, state, regs));
        updates := updates + [UpdateFor(x, v.value)];
      }
      x := x + 1;
    }
    AfterNothing(updates, None);
    return Some(updates);
  }

  // ---- a whole log ----

  /** The script's variables, or the exception that ended it; `stopped` after the `ecall`. */
  datatype State = State(regs: Gprs, prevPc: string, trace: seq<Entry>, stopped: bool) | Failed

  function Zeros(n: nat): Gprs
    requires n <= REGISTERS
  {
    if n == 0 then map[] else Zeros(n - 1)[DumpName(n - 1) := "0"]
  }

  lemma {:induction false} ZerosHold(n: nat, y: nat)
    requires y < n <= REGISTERS
    ensures DumpName(y) in Zeros(n) && Zeros(n)[DumpName(y)] == "0"
  {
    if y < n - 1 {
      ZerosHold(n - 1, y);
    }
  }

  function Start(): State {
    State(Zeros(REGISTERS), "80000000", [], false)
  }

  function Step(s: State, line: Line): State {
    if s.Failed? || s.stopped || line.Other? then s
    else if line.Ecall? then s.(stopped := true)
    else Dumped(s, line.fields)
  }

  function Dumped(s: State, fields: seq<string>): State
    requires s.State?
  {
    match Pairs(fields, 0, map[])
    case None => Failed
    case Some(regs) =>
      match Difference(0, s.regs, regs)
      case None => Failed
      case Some(gpr) =>
        if "PC" !in regs then Failed
        else
          var trace := if gpr == [] then s.trace else s.trace + [Entry(s.prevPc, "", "0", "0", gpr)];
          State(regs, regs["PC"], trace, s.stopped)
  }

  /** The state after the first n lines. */
  function Run(lines: seq<Line>, n: nat): State
    requires n <= |lines|
  {
    if n == 0 then Start() else Step(Run(lines, n - 1), lines[n - 1])
  }

  method ProcessRenodeSimLog(lines: seq<Line>) returns (trace: Option<seq<Entry>>)
    ensures match Run(lines, |lines|)
            case Failed => trace == None
            case State(_, _, t, _) => trace == Some(t)
  {
    var state, prevPc, entries := Zeros(REGISTERS), "80000000", [];
    for i := 0 to |lines|
      invariant Run(lines, i) == State(state, prevPc, entries, false)
    {
      if lines[i].Ecall? {
        Finished(lines, i + 1, |lines|);
        break;
      }
      if !lines[i].RegDump? {
        continue;
      }
      var done;
      done, state, prevPc, entries := ReadDump(lines[i].fields, state, prevPc, entries);
      if !done {
        Finished(lines, i + 1, |lines|);
        return None;
      }
    }
    return Some(entries);
  }

  /** The loop body on a dump; `done` is false when it raises. */
  method ReadDump(fields: seq<string>, state: Gprs, prevPc: string, entries: seq<Entry>)
    returns (done: bool, state': Gprs, prevPc': string, entries': seq<Entry>)
    ensures Dumped(State(state, prevPc, entries, false), fields) ==
            if done then State(state', prevPc', entries', false) else Failed
  {
    done, state', prevPc', entries' := false, state, prevPc, entries;
    var regs := Pairs(fields, 0, map[]);
    if regs.None? {
      return;
    }
    var gpr := ComputeDifference(state, regs.value);
    if gpr.None? || "PC" !in regs.value {
      return;
    }
    done, state' := true, regs.value;
    if gpr.value != [] {
      entries' := entries + [Entry(prevPc, "", "0", "0", gpr.value)];
    }
    prevPc' := state'["PC"];
  }

  lemma {:induction false} Finished(lines: seq<Line>, i: nat, n: nat)
    requires i <= n <= |lines| && (Run(lines, i).Failed? || Run(lines, i).stopped)
    ensures Run(lines, n) == Run(lines, i)
  {
    if i < n {
      Finished(lines, i, n - 1);
    }
  }

  // ---- the round trip ----

  /** The registers that a trace leaves, from all zeros. */
  function Registers(t: seq<Entry>): Gprs {
    ReplayFrom(t, 0, map[])
  }

  lemma {:induction false} WriteUpdate(x: nat, v: int, g: Gprs, y: nat)
    requires x < REGISTERS && y < REGISTERS
    ensures UpdateFor(x, v) != ""
    ensures Reg(Write(UpdateFor(x, v), g), AbiName(y)) == if x == y then Some(v) else Reg(g, AbiName(y))
  {
    var s := Format08x(v);
    FormatParse(v);
    AbiIndexed(x);
    assert UpdateFor(x, v) == AbiName(x) + [':'] + s;
    SplitPair(':', AbiName(x), s);
    if AbiName(x) == AbiName(y) {
      AbiNamesDiffer(x, y);
    }
  }

  lemma {:induction false} ApplyFirst(u: string, us: seq<string>, g: Gprs)
    requires u != ""
    ensures Apply([u] + us, g) == Apply(us, Write(u, g))
  {
    assert ([u] + us)[1..] == us;
  }

  /** Applying the difference gives register y the number of the new dump if its text changed, and
      otherwise leaves it alone. */
  lemma {:induction false} ApplyDifference(x: nat, state: Gprs, regs: Gprs, g: Gprs, y: nat)
    requires x <= REGISTERS && y < REGISTERS && Difference(x, state, regs).Some?
    ensures Reg(Apply(Difference(x, state, regs).value, g), AbiName(y)) ==
            (if x <= y && Differs(y, state, regs) then ParseInt16(regs[DumpName(y)]) else Reg(g, AbiName(y)))
    decreases REGISTERS - x
  {
    if x < REGISTERS {
      if Differs(x, state, regs) {
        var v := ParseInt16(regs[DumpName(x)]).value;
        WriteUpdate(x, v, g, y);
        ApplyFirst(UpdateFor(x, v), Difference(x + 1, state, regs).value, g);
        ApplyDifference(x + 1, state, regs, Write(UpdateFor(x, v), g), y);
      } else {
        ApplyDifference(x + 1, state, regs, g, y);
      }
    }
  }

  /** Every dump read among the first n lines lists register y. */
  predicate AlwaysListed(lines: seq<Line>, n: nat, y: nat)
    requires n <= |lines| && y < REGISTERS
  {
    forall i :: 0 <= i < n && lines[i].RegDump? && Run(lines, i).State? && !Run(lines, i).stopped ==>
                  match Pairs(lines[i].fields, 0, map[])
                  case None => true
                  case Some(regs) => DumpName(y) in regs
  }

  /** One dump that lists register y keeps the replayed number equal to the dumped one. */
  lemma {:induction false} DumpedKeepsRegister(s: State, fields: seq<string>, y: nat)
    requires s.State? && Dumped(s, fields).State? && y < REGISTERS
    requires DumpName(y) in s.regs && DumpName(y) in Dumped(s, fields).regs
    requires Reg(Registers(s.trace), AbiName(y)) == ParseInt16(s.regs[DumpName(y)])
    ensures var d := Dumped(s, fields); Reg(Registers(d.trace), AbiName(y)) == ParseInt16(d.regs[DumpName(y)])
  {
    var regs := Pairs(fields, 0, map[]).value;
    var gpr := Difference(0, s.regs, regs).value;
    ApplyDifference(0, s.regs, regs, Registers(s.trace), y);
    if gpr != [] {
      ReplayNext(s.trace, Entry(s.prevPc, "", "0", "0", gpr), 0, map[]);
    }
  }

  /** After any number of lines, replaying what was emitted gives each register that every dump
      lists the number it has in the last dump. */
  lemma {:induction false} RoundTrip(lines: seq<Line>, n: nat, y: nat)
    requires n <= |lines| && y < REGISTERS && AlwaysListed(lines, n, y)
    requires Run(lines, n).State?
    ensures DumpName(y) in Run(lines, n).regs
    ensures Reg(Registers(Run(lines, n).trace), AbiName(y)) == ParseInt16(Run(lines, n).regs[DumpName(y)])
  {
    if n == 0 {
      ZerosHold(REGISTERS, y);
      NumberOf("0", 0);
    } else {
      var s, line := Run(lines, n - 1), lines[n - 1];
      RoundTrip(lines, n - 1, y);
      if line.RegDump? && !s.stopped {
        DumpedKeepsRegister(s, line.fields, y);
      }
    }
  }

  // ---- which dumps have to list a register ----

  /** A log of dumps that can be read, of which exactly those marked list register y. */
  ghost predicate Lists(lines: seq<Line>, listed: seq<bool>, y: nat)
    requires y < REGISTERS
  {
    && |lines| == |listed|
    && forall i :: 0 <= i < |lines| ==>
                     && lines[i].RegDump? && Pairs(lines[i].fields, 0, map[]).Some?
                     && (DumpName(y) in Pairs(lines[i].fields, 0, map[]).value <==> listed[i])
  }

  /** Replaying gives register y the number it has in the last dump, if that lists it. */
  ghost predicate Recovered(s: State, y: nat)
    requires y < REGISTERS
  {
    s.State? && DumpName(y) in s.regs ==> Reg(Registers(s.trace), AbiName(y)) == ParseInt16(s.regs[DumpName(y)])
  }

  /** No dump lists the register again after one that does not. */
  predicate NeverReturns(listed: seq<bool>) {
    forall m, k :: 0 <= m < k < |listed| && listed[k] ==> listed[m]
  }

  /** The register is recovered after every dump of every log in which these dumps list it, whatever
      the values, exactly when it never returns. */
  lemma {:induction false} RoundTripIff(listed: seq<bool>, y: nat)
    requires y < REGISTERS
    ensures (forall lines, n: nat :: Lists(lines, listed, y) && n <= |lines| ==> Recovered(Run(lines, n), y)) <==>
            NeverReturns(listed)
  {
    if NeverReturns(listed) {
      forall lines, n: nat | Lists(lines, listed, y) && n <= |lines|
        ensures Recovered(Run(lines, n), y)
      {
        if Run(lines, n).State? {
          ListedSoFar(lines, listed, n, y);
        }
      }
    } else {
      var m, k :| 0 <= m < k < |listed| && listed[k] && !listed[m];
      UnnoticedLists(listed, m, y);
      UnnoticedLost(listed, m, k, y);
    }
  }

  lemma {:induction false} ListedSoFar(lines: seq<Line>, listed: seq<bool>, n: nat, y: nat)
    requires y < REGISTERS && Lists(lines, listed, y) && NeverReturns(listed)
    requires n <= |lines| && Run(lines, n).State?
    ensures Recovered(Run(lines, n), y)
  {
    if n == 0 || listed[n - 1] {
      ListedBefore(lines, listed, n, y);
      RoundTrip(lines, n, y);
    } else {
      NotStopped(lines, listed, n - 1, y);
      assert Run(lines, n) == Dumped(Run(lines, n - 1), lines[n - 1].fields);
    }
  }

  lemma {:induction false} ListedBefore(lines: seq<Line>, listed: seq<bool>, n: nat, y: nat)
    requires y < REGISTERS && Lists(lines, listed, y) && NeverReturns(listed)
    requires n <= |lines| && (n == 0 || listed[n - 1])
    ensures AlwaysListed(lines, n, y)
  {
    forall i | 0 <= i < n
      ensures DumpName(y) in Pairs(lines[i].fields, 0, map[]).value
    {
      assert i == n - 1 || listed[i];
    }
  }

  lemma {:induction false} NotStopped(lines: seq<Line>, listed: seq<bool>, n: nat, y: nat)
    requires y < REGISTERS && Lists(lines, listed, y) && n <= |lines|
    ensures Run(lines, n).State? ==> !Run(lines, n).stopped
  {
    if n > 0 {
      NotStopped(lines, listed, n - 1, y);
    }
  }

  lemma {:induction false} NumberOf(s: string, d: nat)
    requires |s| == 1 && IsHexDigit(s[0]) && DigitValue(s[0]) == d
    ensures ParseInt16(s) == Some(d)
  {
    assert HexValue(s[..0]) == 0;
    PlainDigits(s);
  }

  // ---- a log whose change goes unnoticed ----

  /** Dump i: register y, where it is listed, is 0 up to dump m and 1 from then on. */
  function UnnoticedRegs(listed: seq<bool>, m: nat, y: nat, i: nat): Gprs
    requires y < REGISTERS && i < |listed|
  {
    if listed[i] then map["PC" := "0", DumpName(y) := if i <= m then "0" else "1"] else map["PC" := "0"]
  }

  function UnnoticedFields(listed: seq<bool>, m: nat, y: nat, i: nat): seq<string>
    requires y < REGISTERS && i < |listed|
  {
    if listed[i] then ["PC", "0", DumpName(y), if i <= m then "0" else "1"] else ["PC", "0"]
  }

  function Unnoticed(listed: seq<bool>, m: nat, y: nat): seq<Line>
    requires y < REGISTERS
  {
    seq(|listed|, i requires 0 <= i < |listed| => RegDump(UnnoticedFields(listed, m, y, i)))
  }

  lemma {:induction false} UnnoticedPairs(listed: seq<bool>, m: nat, y: nat, i: nat)
    requires y < REGISTERS && i < |listed|
    ensures Pairs(UnnoticedFields(listed, m, y, i), 0, map[]) == Some(UnnoticedRegs(listed, m, y, i))
    ensures DumpName(y) != "PC"
  {
    var fields := UnnoticedFields(listed, m, y, i);
    var pc: Gprs := map["PC" := "0"];
    assert DumpName(y)[0] != "PC"[0];
    assert Pairs(fields, 0, map[]) == Pairs(fields, 2, pc);
    if listed[i] {
      assert Pairs(fields, 2, pc) == Pairs(fields, 4, pc[fields[2] := fields[3]]);
    }
  }

  lemma {:induction false} UnnoticedLists(listed: seq<bool>, m: nat, y: nat)
    requires y < REGISTERS
    ensures Lists(Unnoticed(listed, m, y), listed, y)
  {
    forall i | 0 <= i < |listed|
      ensures Pairs(UnnoticedFields(listed, m, y, i), 0, map[]) == Some(UnnoticedRegs(listed, m, y, i))
      ensures DumpName(y) != "PC"
    {
      UnnoticedPairs(listed, m, y, i);
    }
  }

  lemma {:induction false} DumpNamesDiffer(x: nat, y: nat)
    requires x < REGISTERS && y < REGISTERS && DumpName(x) == DumpName(y)
    ensures x == y
  {
  }

  lemma {:induction false} NoDifference(x: nat, state: Gprs, regs: Gprs)
    requires x <= REGISTERS && forall z :: x <= z < REGISTERS ==> !Differs(z, state, regs)
    ensures Difference(x, state, regs) == Some([])
    decreases REGISTERS - x
  {
    if x < REGISTERS {
      NoDifference(x + 1, state, regs);
    }
  }

  /** The registers before dump i. */
  function UnnoticedBefore(listed: seq<bool>, m: nat, y: nat, i: nat): Gprs
    requires y < REGISTERS && i <= |listed|
  {
    if i == 0 then Zeros(REGISTERS) else UnnoticedRegs(listed, m, y, i - 1)
  }

  lemma {:induction false} UnnoticedSame(listed: seq<bool>, m: nat, y: nat, i: nat, z: nat)
    requires y < REGISTERS && i < |listed| && m < |listed| && !listed[m] && z < REGISTERS
    ensures !Differs(z, UnnoticedBefore(listed, m, y, i), UnnoticedRegs(listed, m, y, i))
  {
    assert DumpName(z)[0] != "PC"[0];
    if DumpName(z) == DumpName(y) {
      DumpNamesDiffer(z, y);
      ZerosHold(REGISTERS, y);
    }
  }

  lemma {:induction false} UnnoticedStep(listed: seq<bool>, m: nat, y: nat, i: nat, prevPc: string)
    requires y < REGISTERS && i < |listed| && m < |listed| && !listed[m]
    ensures Dumped(State(UnnoticedBefore(listed, m, y, i), prevPc, [], false), UnnoticedFields(listed, m, y, i)) ==
            State(UnnoticedRegs(listed, m, y, i), "0", [], false)
  {
    var state, regs := UnnoticedBefore(listed, m, y, i), UnnoticedRegs(listed, m, y, i);
    forall z | 0 <= z < REGISTERS
      ensures !Differs(z, state, regs)
    {
      UnnoticedSame(listed, m, y, i, z);
    }
    NoDifference(0, state, regs);
    UnnoticedPairs(listed, m, y, i);
  }

  /** No dump of this log emits anything. */
  lemma {:induction false} UnnoticedRun(listed: seq<bool>, m: nat, y: nat, n: nat)
    requires y < REGISTERS && m < |listed| && !listed[m] && n <= |listed|
    ensures Run(Unnoticed(listed, m, y), n) ==
            State(UnnoticedBefore(listed, m, y, n), if n == 0 then "80000000" else "0", [], false)
  {
    if n > 0 {
      UnnoticedRun(listed, m, y, n - 1);
      UnnoticedStep(listed, m, y, n - 1, if n == 1 then "80000000" else "0");
      var lines := Unnoticed(listed, m, y);
      assert Run(lines, n) == Dumped(Run(lines, n - 1), UnnoticedFields(listed, m, y, n - 1));
    }
  }

  /** And yet the register has changed by dump k. */
  lemma {:induction false} UnnoticedLost(listed: seq<bool>, m: nat, k: nat, y: nat)
    requires y < REGISTERS && m < k < |listed| && !listed[m] && listed[k]
    ensures !Recovered(Run(Unnoticed(listed, m, y), k + 1), y)
  {
    UnnoticedRun(listed, m, y, k + 1);
    UnnoticedPairs(listed, m, y, k);
    NumberOf("1", 1);
    assert UnnoticedBefore(listed, m, y, k + 1)[DumpName(y)] == "1";
    assert Registers([]) == map[];
  }

  /** The shortest such log: the second dump lists ra as 1, and the trace is empty. */
  lemma {:induction false} LostAfterOmission()
    ensures Run([RegDump(["PC", "0"]), RegDump(["PC", "0", "X1", "1"])], 2) ==
            State(map["PC" := "0", "X1" := "1"], "0", [], false)
  {
    var lines := [RegDump(["PC", "0"]), RegDump(["PC", "0", "X1", "1"])];
    assert DumpName(1) == "X1";
    assert lines == Unnoticed([false, true], 0, 1);
    UnnoticedRun([false, true], 0, 1, 2);
  }

  // ---- a run by position ----

  /** The registers and the PC before line n: those of the last dump, or the script's first values. */
  function RegsBefore(lines: seq<Line>, n: nat): Gprs
    requires n <= |lines|
  {
    if n == 0 then Zeros(REGISTERS)
    else if lines[n - 1].RegDump? && Pairs(lines[n - 1].fields, 0, map[]).Some? then
      Pairs(lines[n - 1].fields, 0, map[]).value
    else RegsBefore(lines, n - 1)
  }

  function PcBefore(lines: seq<Line>, n: nat): string
    requires n <= |lines|
  {
    if n == 0 then "80000000"
    else if lines[n - 1].RegDump? && LastPair(lines[n - 1].fields, |lines[n - 1].fields| / 2, "PC").Some? then
      LastPair(lines[n - 1].fields, |lines[n - 1].fields| / 2, "PC").value
    else PcBefore(lines, n - 1)
  }

  /** What the dump on line i differs in from the one before it. */
  function DifferenceAt(lines: seq<Line>, i: nat): Option<seq<string>>
    requires i < |lines| && lines[i].RegDump?
  {
    match Pairs(lines[i].fields, 0, map[])
    case None => None
    case Some(regs) => Difference(0, RegsBefore(lines, i), regs)
  }

  /** The dump on line i raises an exception. */
  predicate Raises(lines: seq<Line>, i: nat) {
    && i < |lines| && lines[i].RegDump?
    && (DifferenceAt(lines, i).None? || LastPair(lines[i].fields, |lines[i].fields| / 2, "PC").None?)
  }

  predicate Emits(lines: seq<Line>, i: nat) {
    i < |lines| && lines[i].RegDump? && DifferenceAt(lines, i).Some? && DifferenceAt(lines, i) != Some([])
  }

  /** The lines before n that emit an entry. */
  function EmittingLines(lines: seq<Line>, n: nat): (ds: seq<nat>)
    requires n <= |lines|
    ensures forall k, l :: 0 <= k < l < |ds| ==> ds[k] < ds[l]
    ensures forall i :: i in ds <==> 0 <= i < n && Emits(lines, i)
  {
    Where(0, n, (i: nat) => Emits(lines, i))
  }

  ghost predicate IsTrace(t: seq<Entry>, lines: seq<Line>, n: nat)
    requires n <= |lines|
  {
    var ds := EmittingLines(lines, n);
    && |t| == |ds|
    && forall k :: 0 <= k < |ds| ==>
         t[k] == Entry(PcBefore(lines, ds[k]), "", "0", "0", DifferenceAt(lines, ds[k]).value)
  }

  lemma {:induction false} TraceNext(t: seq<Entry>, lines: seq<Line>, n: nat)
    requires n < |lines| && IsTrace(t, lines, n)
    ensures !Emits(lines, n) ==> IsTrace(t, lines, n + 1)
    ensures Emits(lines, n) ==>
              IsTrace(t + [Entry(PcBefore(lines, n), "", "0", "0", DifferenceAt(lines, n).value)], lines, n + 1)
  {
    WhereSnoc(0, n, (i: nat) => Emits(lines, i));
    assert EmittingLines(lines, n + 1) ==
           if Emits(lines, n) then EmittingLines(lines, n) + [n] else EmittingLines(lines, n);
  }

  lemma {:induction false} DumpRaises(lines: seq<Line>, i: nat)
    requires i < |lines| && lines[i].RegDump? && Run(lines, i).State? && Run(lines, i).regs == RegsBefore(lines, i)
    ensures Dumped(Run(lines, i), lines[i].fields).Failed? <==> Raises(lines, i)
    ensures !Raises(lines, i) ==>
              var d := Dumped(Run(lines, i), lines[i].fields);
              d.regs == RegsBefore(lines, i + 1) && d.prevPc == PcBefore(lines, i + 1)
  {
    PairsExact(lines[i].fields);
  }

  lemma {:induction false} DumpEmits(lines: seq<Line>, i: nat)
    requires i < |lines| && lines[i].RegDump? && Run(lines, i).State? && Run(lines, i).regs == RegsBefore(lines, i)
    requires Run(lines, i).prevPc == PcBefore(lines, i) && IsTrace(Run(lines, i).trace, lines, i)
    requires Dumped(Run(lines, i), lines[i].fields).State?
    ensures IsTrace(Dumped(Run(lines, i), lines[i].fields).trace, lines, i + 1)
  {
    PairsExact(lines[i].fields);
    TraceNext(Run(lines, i).trace, lines, i);
  }

  /** As long as no `ecall` comes and nothing fails, the script holds the registers and the PC of the last
      dump, and its trace is one entry for each dump that differs from the one before, with the PC of
      that one. */
  lemma {:induction false} RunHolds(lines: seq<Line>, n: nat)
    requires n <= |lines| && Run(lines, n).State? && forall i :: 0 <= i < n ==> !lines[i].Ecall?
    ensures var s := Run(lines, n);
            && s.regs == RegsBefore(lines, n) && s.prevPc == PcBefore(lines, n) && !s.stopped
            && IsTrace(s.trace, lines, n)
  {
    if n > 0 {
      var i := n - 1;
      RunHolds(lines, i);
      if lines[i].RegDump? {
        DumpRaises(lines, i);
        DumpEmits(lines, i);
      } else {
        TraceNext(Run(lines, i).trace, lines, i);
      }
    } else {
      assert EmittingLines(lines, 0) == [];
    }
  }

  /** And it fails exactly when some dump raises an exception. */
  lemma {:induction false} RunFails(lines: seq<Line>, n: nat)
    requires n <= |lines| && forall i :: 0 <= i < n ==> !lines[i].Ecall?
    ensures Run(lines, n).Failed? <==> exists i :: 0 <= i < n && Raises(lines, i)
  {
    if n > 0 {
      var i := n - 1;
      RunFails(lines, i);
      if Run(lines, i).State? {
        RunHolds(lines, i);
        if lines[i].RegDump? {
          DumpRaises(lines, i);
        }
      }
      assert Run(lines, n).Failed? <==> Run(lines, i).Failed? || Raises(lines, i);
    }
  }

  /** The first `ecall` ends the log. */
  lemma {:induction false} EcallEnds(lines: seq<Line>, i: nat, n: nat)
    requires i < n <= |lines| && lines[i].Ecall? && Run(lines, i).State?
    ensures Run(lines, n).State? && Run(lines, n).trace == Run(lines, i).trace
  {
    if Run(lines, i).stopped {
      Finished(lines, i, n);
    } else {
      Finished(lines, i + 1, n);
    }
  }

  /** The round trip in the names of the table: the trace gives register `AbiNames()[y]` the number that
      the last dump gives `DumpNames()[y]`, when every dump of the log lists that. */
  lemma {:induction false} RoundTripNamed(lines: seq<Line>, n: nat, y: nat)
    requires n <= |lines| && y < 32 && Run(lines, n).State?
    requires forall i :: 0 <= i < n && lines[i].RegDump? ==>
               LastPair(lines[i].fields, |lines[i].fields| / 2, DumpNames()[y]).Some?
    ensures DumpNames()[y] in Run(lines, n).regs
    ensures Reg(Registers(Run(lines, n).trace), AbiNames()[y]) == ParseInt16(Run(lines, n).regs[DumpNames()[y]])
  {
    NamesAre(y);
    forall i | 0 <= i < n && lines[i].RegDump?
      ensures Pairs(lines[i].fields, 0, map[]).Some? ==> DumpName(y) in Pairs(lines[i].fields, 0, map[]).value
    {
      PairsExact(lines[i].fields);
    }
    RoundTrip(lines, n, y);
  }
}
