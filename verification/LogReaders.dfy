/** The two log readers of the co-simulation flow
    (cva6/verif/sim/cva6_spike_log_to_trace_csv.py, cva6/verif/sim/verilator_log_to_trace_csv.py). */
module LogReaders {
  import opened Wrappers
  import opened Indices
  import opened PyText
  import opened TraceCsv

  /** An instruction line; `instrStr` has the relative jumps already shortened. */
  datatype Core = Core(pc: string, binary: string, instrStr: string) {
    predicate IsEcall() {
      instrStr == "ecall"
    }
  }

  /** A register name as `gpr_to_abi` returns it. */
  type AbiName = s: string | s != "" && ':' !in s && ';' !in s witness "na"

  /** The `[a-f0-9]+` group of a commit line. */
  type HexText = s: string | s != "" && LowerHex(s) witness "0"

  datatype Commit = Commit(pri: string, reg: AbiName, val: HexText) {
    function Update(): string {
      reg + ":" + val
    }
  }

  /** A log line with the outcome of every pattern the readers try on it. The patterns are
      independent: nothing says that a line matches at most one of them. */
  datatype Line = Line(
    startTrampoline: bool, endTrampoline: bool, startDebug: bool, stopDebug: bool,
    core: Option<Core>, illegal: bool, commit: Option<Commit>)

  /** What the readers yield: an entry, and whether it trapped as illegal. */
  type Yielded = (Entry, bool)

  // ---- which lines count ----

  /** Spike: a trampoline is cut out from its first line to its last, wherever it occurs. */
  function SpikeActive(lines: seq<Line>, i: nat := 0, inTrampoline: bool := false): seq<Line>
    requires i <= |lines|
    decreases |lines| - i
  {
    if i == |lines| then []
    else if inTrampoline then SpikeActive(lines, i + 1, !lines[i].endTrampoline)
    else if lines[i].startTrampoline then SpikeActive(lines, i + 1, true)
    else [lines[i]] + SpikeActive(lines, i + 1, false)
  }

  /** Verilator: everything before the line that ends the trampoline goes, and that line stays;
      from then on a debug region is cut out from its first line to its last. */
  function VerilatorActive(lines: seq<Line>, i: nat := 0, inTrampoline: bool := true, inDebug: bool := false): seq<Line>
    requires i <= |lines|
    decreases |lines| - i
  {
    if i == |lines| then []
    else if inTrampoline && !lines[i].endTrampoline then VerilatorActive(lines, i + 1, true, inDebug)
    else if inDebug then VerilatorActive(lines, i + 1, false, !lines[i].stopDebug)
    else if lines[i].startDebug then VerilatorActive(lines, i + 1, false, true)
    else [lines[i]] + VerilatorActive(lines, i + 1, false, false)
  }

  lemma {:induction false} SpikeKeeps(lines: seq<Line>, i: nat, s: nat)
    requires i <= s <= |lines| && forall k :: i <= k < s ==> !lines[k].startTrampoline
    ensures SpikeActive(lines, i, false) == lines[i..s] + SpikeActive(lines, s, false)
    decreases s - i
  {
    if i < s {
      SpikeKeeps(lines, i + 1, s);
      assert lines[i..s] == [lines[i]] + lines[i + 1..s];
      ConcatAssociates([lines[i]], lines[i + 1..s], SpikeActive(lines, s, false));
    } else {
      assert lines[i..s] == [];
    }
  }

  lemma {:induction false} SpikeSkips(lines: seq<Line>, i: nat, e: nat)
    requires i <= e <= |lines| && forall k :: i <= k < e ==> !lines[k].endTrampoline
    requires e < |lines| ==> lines[e].endTrampoline
    ensures SpikeActive(lines, i, true) == if e < |lines| then SpikeActive(lines, e + 1, false) else []
    decreases e - i
  {
    if i < e {
      SpikeSkips(lines, i + 1, e);
    }
  }

  /** A trampoline from line s to line e is cut out whole, and the lines before it all count; one that
      does not end takes the rest of the log with it. */
  lemma {:induction false} SpikeTrampolineCut(lines: seq<Line>, i: nat, s: nat, e: nat)
    requires i <= s < e <= |lines| && lines[s].startTrampoline
    requires e < |lines| ==> lines[e].endTrampoline
    requires forall k :: i <= k < s ==> !lines[k].startTrampoline
    requires forall k :: s < k < e ==> !lines[k].endTrampoline
    ensures SpikeActive(lines, i, false) ==
            lines[i..s] + if e < |lines| then SpikeActive(lines, e + 1, false) else []
  {
    SpikeKeeps(lines, i, s);
    SpikeSkips(lines, s + 1, e);
  }

  lemma {:induction false} VerilatorKeeps(lines: seq<Line>, i: nat, s: nat)
    requires i <= s <= |lines| && forall k :: i <= k < s ==> !lines[k].startDebug
    ensures VerilatorActive(lines, i, false, false) == lines[i..s] + VerilatorActive(lines, s, false, false)
    decreases s - i
  {
    if i < s {
      VerilatorKeeps(lines, i + 1, s);
      assert lines[i..s] == [lines[i]] + lines[i + 1..s];
      ConcatAssociates([lines[i]], lines[i + 1..s], VerilatorActive(lines, s, false, false));
    } else {
      assert lines[i..s] == [];
    }
  }

  lemma {:induction false} VerilatorSkips(lines: seq<Line>, i: nat, e: nat)
    requires i <= e <= |lines| && forall k :: i <= k < e ==> !lines[k].stopDebug
    requires e < |lines| ==> lines[e].stopDebug
    ensures VerilatorActive(lines, i, false, true) ==
            if e < |lines| then VerilatorActive(lines, e + 1, false, false) else []
    decreases e - i
  {
    if i < e {
      VerilatorSkips(lines, i + 1, e);
    }
  }

  /** A debug region from line s to line e is cut out whole, and the lines before it all count; one
      that does not end takes the rest of the log with it. */
  lemma {:induction false} VerilatorDebugCut(lines: seq<Line>, i: nat, s: nat, e: nat)
    requires i <= s < e <= |lines| && lines[s].startDebug
    requires e < |lines| ==> lines[e].stopDebug
    requires forall k :: i <= k < s ==> !lines[k].startDebug
    requires forall k :: s < k < e ==> !lines[k].stopDebug
    ensures VerilatorActive(lines, i, false, false) ==
            lines[i..s] + if e < |lines| then VerilatorActive(lines, e + 1, false, false) else []
  {
    VerilatorKeeps(lines, i, s);
    VerilatorSkips(lines, s + 1, e);
  }

  /** Nothing counts before the line that ends the Verilator trampoline, which itself may count. */
  lemma {:induction false} VerilatorStart(lines: seq<Line>, i: nat, e: nat)
    requires i <= e <= |lines| && forall k :: i <= k < e ==> !lines[k].endTrampoline
    requires e < |lines| ==> lines[e].endTrampoline
    ensures VerilatorActive(lines, i, true, false) == VerilatorActive(lines, e, false, false)
    decreases e - i
  {
    if i < e {
      VerilatorStart(lines, i + 1, e);
    }
  }

  // ---- which lines count, by position ----

  type Pattern = Line -> bool

  predicate StartsTrampoline(l: Line) { l.startTrampoline }
  predicate EndsTrampoline(l: Line) { l.endTrampoline }
  predicate StartsDebug(l: Line) { l.startDebug }
  predicate StopsDebug(l: Line) { l.stopDebug }

  /** Line k is inside no region: each region opened in [lo, k) was closed again before k. A region is
      opened by a starting line that is inside no other, and closed by the first ending line behind it. */
  ghost predicate Outside(lines: seq<Line>, lo: nat, k: nat, starts: Pattern, ends: Pattern)
    requires k <= |lines|
    decreases k
  {
    forall s :: lo <= s < k && starts(lines[s]) && Outside(lines, lo, s, starts, ends) ==>
                  exists e :: s < e < k && ends(lines[e])
  }

  /** The lines from `i` on that are inside no region and open none. */
  ghost function OutsideLines(lines: seq<Line>, lo: nat, i: nat, starts: Pattern, ends: Pattern): seq<Line>
    requires i <= |lines|
    decreases |lines| - i
  {
    if i == |lines| then []
    else
      var rest := OutsideLines(lines, lo, i + 1, starts, ends);
      if Outside(lines, lo, i, starts, ends) && !starts(lines[i]) then [lines[i]] + rest else rest
  }

  lemma {:induction false} OutsideNext(lines: seq<Line>, lo: nat, i: nat, starts: Pattern, ends: Pattern)
    requires lo <= i < |lines|
    ensures Outside(lines, lo, i + 1, starts, ends) <==>
            if Outside(lines, lo, i, starts, ends) then !starts(lines[i]) else ends(lines[i])
  {
    if !Outside(lines, lo, i, starts, ends) {
      var s :| lo <= s < i && starts(lines[s]) && Outside(lines, lo, s, starts, ends) &&
               !exists e :: s < e < i && ends(lines[e]);
      if ends(lines[i]) {
        forall r | lo <= r < i + 1 && starts(lines[r]) && Outside(lines, lo, r, starts, ends)
          ensures exists e :: r < e < i + 1 && ends(lines[e])
        {
          assert r < i;
        }
      }
    }
  }

  /** Spike: exactly the lines outside trampolines count. */
  lemma {:induction false} SpikeByPosition(lines: seq<Line>, i: nat, inTrampoline: bool)
    requires i <= |lines| && (inTrampoline <==> !Outside(lines, 0, i, StartsTrampoline, EndsTrampoline))
    ensures SpikeActive(lines, i, inTrampoline) == OutsideLines(lines, 0, i, StartsTrampoline, EndsTrampoline)
    decreases |lines| - i
  {
    if i < |lines| {
      OutsideNext(lines, 0, i, StartsTrampoline, EndsTrampoline);
      SpikeByPosition(lines, i + 1, if inTrampoline then !lines[i].endTrampoline else lines[i].startTrampoline);
    }
  }

  /** Verilator: from the line `lo` that ends the trampoline on, exactly the lines outside debug regions. */
  lemma {:induction false} VerilatorByPosition(lines: seq<Line>, lo: nat, i: nat, inDebug: bool)
    requires lo <= i <= |lines| && (inDebug <==> !Outside(lines, lo, i, StartsDebug, StopsDebug))
    ensures VerilatorActive(lines, i, false, inDebug) == OutsideLines(lines, lo, i, StartsDebug, StopsDebug)
    decreases |lines| - i
  {
    if i < |lines| {
      OutsideNext(lines, lo, i, StartsDebug, StopsDebug);
      VerilatorByPosition(lines, lo, i + 1, if inDebug then !lines[i].stopDebug else lines[i].startDebug);
    }
  }

  /** The lines that count, for both readers and every log. */
  lemma {:induction false} ActiveByPosition(lines: seq<Line>, lo: nat)
    requires lo <= |lines| && forall k :: 0 <= k < lo ==> !lines[k].endTrampoline
    requires lo < |lines| ==> lines[lo].endTrampoline
    ensures SpikeActive(lines) == OutsideLines(lines, 0, 0, StartsTrampoline, EndsTrampoline)
    ensures VerilatorActive(lines) == OutsideLines(lines, lo, lo, StartsDebug, StopsDebug)
  {
    SpikeByPosition(lines, 0, false);
    VerilatorStart(lines, 0, lo);
    VerilatorByPosition(lines, lo, lo, false);
  }

  // ---- the segmentation of the lines that count ----

  /** The index of the first line, from `i` on, that holds an instruction. */
  function NextCore(lines: seq<Line>, i: nat): (n: nat)
    requires i <= |lines|
    ensures i <= n <= |lines|
    ensures n < |lines| ==> lines[n].core.Some?
    ensures forall k :: i <= k < n ==> lines[k].core.None?
    decreases |lines| - i
  {
    if i == |lines| || lines[i].core.Some? then i else NextCore(lines, i + 1)
  }

  /** The index of the first illegal line in [i, end), or `end`. */
  function NextIllegal(lines: seq<Line>, i: nat, end: nat): (n: nat)
    requires i <= end <= |lines|
    ensures i <= n <= end
    ensures n < end ==> lines[n].illegal
    ensures forall k :: i <= k < n ==> !lines[k].illegal
    decreases end - i
  {
    if i == end || lines[i].illegal then i else NextIllegal(lines, i + 1, end)
  }

  /** The entry `e` after the commit lines of [i, end). */
  function WithCommits(e: Entry, lines: seq<Line>, i: nat, end: nat): Entry
    requires i <= end <= |lines|
    decreases end - i
  {
    if i == end then e else WithCommits(AddCommit(e, lines[i].commit), lines, i + 1, end)
  }

  function AddCommit(e: Entry, c: Option<Commit>): Entry {
    if c.None? then e else e.(gpr := e.gpr + [c.value.Update()], mode := c.value.pri)
  }

  function NewEntry(c: Core): Entry {
    Entry(c.pc, c.instrStr, c.binary, "", [])
  }

  /** What is yielded for an entry in hand when the lines from `i` on are still to be read: it takes
      the commit lines before the next instruction or illegal line, and it is illegal exactly when an
      illegal line comes before the next instruction. */
  function Completed(e: Entry, lines: seq<Line>, i: nat): Yielded
    requires i <= |lines|
  {
    var end := NextCore(lines, i);
    var stop := NextIllegal(lines, i, end);
    (WithCommits(e, lines, i, stop), stop < end)
  }

  /** The indices of the instruction lines from `i` on, up to and including the first `ecall`. */
  function CoreLines(lines: seq<Line>, i: nat): (cs: seq<nat>)
    requires i <= |lines|
    ensures forall k :: 0 <= k < |cs| ==> i <= cs[k] < |lines| && lines[cs[k]].core.Some?
    decreases |lines| - i
  {
    var n := NextCore(lines, i);
    if n == |lines| then []
    else if lines[n].core.value.IsEcall() then [n]
    else [n] + CoreLines(lines, n + 1)
  }

  /** What is yielded for the instruction on line `n`. */
  function EntryAt(lines: seq<Line>, n: nat): Yielded
    requires n < |lines| && lines[n].core.Some?
  {
    var c := lines[n].core.value;
    if c.IsEcall() then (NewEntry(c), false) else Completed(NewEntry(c), lines, n + 1)
  }

  /** One entry for each instruction line up to the first `ecall`, in order. */
  function Segments(lines: seq<Line>, i: nat := 0): seq<Yielded>
    requires i <= |lines|
  {
    var cs := CoreLines(lines, i);
    seq(|cs|, k requires 0 <= k < |cs| => EntryAt(lines, cs[k]))
  }

  /** The chosen lines are exactly the instruction lines with no `ecall` before them. */
  lemma {:induction false} CoreLinesExact(lines: seq<Line>, i: nat, n: nat)
    requires i <= |lines|
    ensures n in CoreLines(lines, i) <==> i <= n < |lines| && lines[n].core.Some? && NoEcall(lines, i, n)
    decreases |lines| - i
  {
    var first := NextCore(lines, i);
    if first < |lines| && !lines[first].core.value.IsEcall() {
      CoreLinesExact(lines, first + 1, n);
    }
  }

  ghost predicate NoEcall(lines: seq<Line>, i: nat, n: nat)
    requires n <= |lines|
  {
    forall m :: i <= m < n && lines[m].core.Some? ==> lines[m].core.value.instrStr != "ecall"
  }

  /** They are taken in order. */
  lemma {:induction false} CoreLinesAscend(lines: seq<Line>, i: nat)
    requires i <= |lines|
    ensures forall k, l :: 0 <= k < l < |CoreLines(lines, i)| ==> CoreLines(lines, i)[k] < CoreLines(lines, i)[l]
    decreases |lines| - i
  {
    var n := NextCore(lines, i);
    if n < |lines| && !lines[n].core.value.IsEcall() {
      CoreLinesAscend(lines, n + 1);
    }
  }

  /** The log reaches an `ecall` among the lines that count. */
  ghost predicate ReachesEcall(lines: seq<Line>) {
    exists n :: 0 <= n < |lines| && lines[n].core.Some? && lines[n].core.value.instrStr == "ecall"
  }

  lemma {:induction false} LastCoreIsEcall(lines: seq<Line>, i: nat, e: nat)
    requires i <= e < |lines| && lines[e].core.Some? && lines[e].core.value.IsEcall()
    ensures var cs := CoreLines(lines, i); cs != [] && lines[cs[|cs| - 1]].core.value.IsEcall()
    decreases |lines| - i
  {
    var n := NextCore(lines, i);
    if !lines[n].core.value.IsEcall() {
      LastCoreIsEcall(lines, n + 1, e);
    }
  }

  /** When the log reaches an `ecall`, that is the last entry, with no update and not illegal. */
  lemma {:induction false} EcallComesLast(lines: seq<Line>)
    requires ReachesEcall(lines)
    ensures var out := Segments(lines);
            && out != []
            && out[|out| - 1].0.instrStr == "ecall" && out[|out| - 1].0.gpr == [] && !out[|out| - 1].1
  {
    var e :| 0 <= e < |lines| && lines[e].core.Some? && lines[e].core.value.instrStr == "ecall";
    LastCoreIsEcall(lines, 0, e);
  }

  // ---- what an entry holds ----

  /** The commit lines of [i, end). */
  function CommitLines(lines: seq<Line>, i: nat, end: nat): (cs: seq<nat>)
    requires i <= end <= |lines|
    ensures forall k, l :: 0 <= k < l < |cs| ==> cs[k] < cs[l]
    ensures forall n :: n in cs <==> i <= n < end && lines[n].commit.Some?
  {
    Where(i, end, (n: nat) => n < |lines| && lines[n].commit.Some?)
  }

  /** An update splits into the register and the value of its commit line. */
  lemma {:induction false} UpdateSplits(c: Commit)
    ensures Split(':', c.Update()) == [c.reg, c.val]
  {
    LowerDigits(c.val);
    assert c.Update() == c.reg + [':'] + c.val;
    SplitPair(':', c.reg, c.val);
  }

  /** The update texts of these commit lines. */
  function UpdatesAt(lines: seq<Line>, cs: seq<nat>): (us: seq<string>)
    requires forall k :: 0 <= k < |cs| ==> cs[k] < |lines| && lines[cs[k]].commit.Some?
    ensures |us| == |cs|
    ensures forall j :: 0 <= j < |cs| ==>
              Split(':', us[j]) == [lines[cs[j]].commit.value.reg, lines[cs[j]].commit.value.val]
  {
    if cs == [] then []
    else
      UpdateSplits(lines[cs[0]].commit.value);
      [lines[cs[0]].commit.value.Update()] + UpdatesAt(lines, cs[1..])
  }

  lemma {:induction false} UpdatesAtNext(lines: seq<Line>, i: nat, cs: seq<nat>)
    requires i < |lines| && lines[i].commit.Some?
    requires forall k :: 0 <= k < |cs| ==> cs[k] < |lines| && lines[cs[k]].commit.Some?
    ensures UpdatesAt(lines, [i] + cs) == [lines[i].commit.value.Update()] + UpdatesAt(lines, cs)
  {
    assert ([i] + cs)[1..] == cs;
  }

  lemma {:induction false} CommitLinesNext(lines: seq<Line>, i: nat, end: nat)
    requires i < end <= |lines|
    ensures var rest := CommitLines(lines, i + 1, end);
            CommitLines(lines, i, end) == if lines[i].commit.Some? then [i] + rest else rest
  {}

  /** Commit lines add their updates behind those of the entry, one each and in order, and the last one
      sets the mode; nothing else changes. */
  lemma {:induction false} WithCommitsAre(e: Entry, lines: seq<Line>, i: nat, end: nat)
    requires i <= end <= |lines|
    ensures var r, cs := WithCommits(e, lines, i, end), CommitLines(lines, i, end);
            && (r.pc, r.instrStr, r.binary) == (e.pc, e.instrStr, e.binary)
            && r.mode == (if cs == [] then e.mode else lines[cs[|cs| - 1]].commit.value.pri)
            && r.gpr == e.gpr + UpdatesAt(lines, cs)
    decreases end - i
  {
    if i < end {
      var c, rest := lines[i].commit, CommitLines(lines, i + 1, end);
      CommitLinesNext(lines, i, end);
      WithCommitsAre(AddCommit(e, c), lines, i + 1, end);
      if c.Some? {
        UpdatesAtNext(lines, i, rest);
        ConcatAssociates(e.gpr, [c.value.Update()], UpdatesAt(lines, rest));
      }
    } else {
      assert CommitLines(lines, i, end) == [];
    }
  }

  /** Where the commit lines of the instruction on line n end: before the next instruction or the first
      illegal line, and at once behind an `ecall`. */
  function StopAfter(lines: seq<Line>, n: nat): (stop: nat)
    requires n < |lines| && lines[n].core.Some?
    ensures n < stop <= |lines|
    ensures lines[n].core.value.instrStr == "ecall" ==> stop == n + 1
    ensures lines[n].core.value.instrStr != "ecall" ==>
              && (forall m :: n < m < stop ==> lines[m].core.None? && !lines[m].illegal)
              && (stop < |lines| ==> lines[stop].core.Some? || lines[stop].illegal)
  {
    if lines[n].core.value.instrStr == "ecall" then n + 1 else NextIllegal(lines, n + 1, NextCore(lines, n + 1))
  }

  /** An entry with the parts of the instruction on line n, the registers and values of its commit lines,
      the mode of the last of them, and the right illegal flag. */
  ghost predicate Describes(y: Yielded, lines: seq<Line>, n: nat)
    requires n < |lines| && lines[n].core.Some?
  {
    var e, core, stop := y.0, lines[n].core.value, StopAfter(lines, n);
    var cs := CommitLines(lines, n + 1, stop);
    && e.pc == core.pc && e.instrStr == core.instrStr && e.binary == core.binary
    && e.mode == (if cs == [] then "" else lines[cs[|cs| - 1]].commit.value.pri)
    && |e.gpr| == |cs|
    && (forall j :: 0 <= j < |cs| ==>
          Split(':', e.gpr[j]) == [lines[cs[j]].commit.value.reg, lines[cs[j]].commit.value.val])
    && (y.1 <==> core.instrStr != "ecall" && stop < |lines| && lines[stop].core.None?)
  }

  lemma {:induction false} EntryAtIs(lines: seq<Line>, n: nat)
    requires n < |lines| && lines[n].core.Some?
    ensures var core, stop := lines[n].core.value, StopAfter(lines, n);
            EntryAt(lines, n) == (WithCommits(NewEntry(core), lines, n + 1, stop),
                                  core.instrStr != "ecall" && stop < |lines| && lines[stop].core.None?)
  {}

  lemma {:induction false} NothingBefore(us: seq<string>)
    ensures [] + us == us
  {}

  lemma {:induction false} EntryDescribes(lines: seq<Line>, n: nat)
    requires n < |lines| && lines[n].core.Some?
    ensures Describes(EntryAt(lines, n), lines, n)
  {
    var e, stop := NewEntry(lines[n].core.value), StopAfter(lines, n);
    EntryAtIs(lines, n);
    WithCommitsAre(e, lines, n + 1, stop);
    NothingBefore(UpdatesAt(lines, CommitLines(lines, n + 1, stop)));
  }

  /** What the readers yield, item by item: one entry for each chosen line, which describes it. */
  lemma {:induction false} YieldedAt(lines: seq<Line>, k: nat)
    requires k < |CoreLines(lines, 0)|
    ensures |Segments(lines)| == |CoreLines(lines, 0)|
    ensures Describes(Segments(lines)[k], lines, CoreLines(lines, 0)[k])
  {
    EntryDescribes(lines, CoreLines(lines, 0)[k]);
  }

  // ---- the readers ----

  function Finish(out: seq<Yielded>, hand: Option<Entry>): seq<Yielded> {
    if hand.Some? then out + [(hand.value, false)] else out
  }

  /** All that a reader yields when it has yielded `out`, has this entry or none in hand, and these
      lines are to come. */
  function Resume(out: seq<Yielded>, hand: Option<Entry>, rest: seq<Line>): seq<Yielded>
    decreases |rest|
  {
    if rest == [] then Finish(out, hand)
    else
      var line := rest[0];
      if line.core.Some? then
        var next := Some(NewEntry(line.core.value));
        if line.core.value.IsEcall() then Finish(Finish(out, hand), next)
        else Resume(Finish(out, hand), next, rest[1..])
      else if hand.None? then Resume(out, None, rest[1..])
      else if line.illegal then Resume(out + [(hand.value, true)], None, rest[1..])
      else Resume(out, Some(AddCommit(hand.value, line.commit)), rest[1..])
  }

  /** What an entry in hand comes to. */
  function Held(hand: Option<Entry>, lines: seq<Line>, i: nat): seq<Yielded>
    requires i <= |lines|
  {
    if hand.Some? then [Completed(hand.value, lines, i)] else []
  }

  lemma {:induction false} ResumeIsSegments(out: seq<Yielded>, hand: Option<Entry>, lines: seq<Line>, i: nat)
    requires i <= |lines|
    ensures Resume(out, hand, lines[i..]) == out + Held(hand, lines, i) + Segments(lines, i)
    decreases |lines| - i
  {
    if i < |lines| {
      var line, rest := lines[i], lines[i..];
      assert rest[0] == line && rest[1..] == lines[i + 1..];
      if line.core.Some? {
        ResumeAtCore(out, hand, lines, i);
      } else {
        assert Segments(lines, i) == Segments(lines, i + 1);
        if hand.None? {
          ResumeIsSegments(out, None, lines, i + 1);
        } else {
          CompletedStep(hand.value, lines, i);
          if line.illegal {
            ResumeIsSegments(out + [(hand.value, true)], None, lines, i + 1);
          } else {
            ResumeIsSegments(out, Some(AddCommit(hand.value, line.commit)), lines, i + 1);
          }
        }
      }
    }
  }

  lemma {:induction false} ResumeAtCore(out: seq<Yielded>, hand: Option<Entry>, lines: seq<Line>, i: nat)
    requires i < |lines| && lines[i].core.Some?
    ensures Resume(out, hand, lines[i..]) == out + Held(hand, lines, i) + Segments(lines, i)
    decreases |lines| - i, 0
  {
    var line, rest := lines[i], lines[i..];
    assert rest[0] == line && rest[1..] == lines[i + 1..];
    var next := NewEntry(line.core.value);
    assert Finish(out, hand) == out + Held(hand, lines, i);
    SegmentsStep(lines, i);
    if !line.core.value.IsEcall() {
      ResumeIsSegments(Finish(out, hand), Some(next), lines, i + 1);
      ConcatAssociates(Finish(out, hand), [EntryAt(lines, i)], Segments(lines, i + 1));
    }
  }

  /** A line without an instruction either closes the entry in hand or adds its commit to it. */
  lemma {:induction false} CompletedStep(e: Entry, lines: seq<Line>, i: nat)
    requires i < |lines| && lines[i].core.None?
    ensures Completed(e, lines, i) ==
            if lines[i].illegal then (e, true) else Completed(AddCommit(e, lines[i].commit), lines, i + 1)
  {}

  lemma {:induction false} SegmentsStep(lines: seq<Line>, i: nat)
    requires i < |lines| && lines[i].core.Some?
    ensures Segments(lines, i) ==
            if lines[i].core.value.IsEcall() then [EntryAt(lines, i)] else [EntryAt(lines, i)] + Segments(lines, i + 1)
  {
    if !lines[i].core.value.IsEcall() {
      var cs := CoreLines(lines, i + 1);
      assert CoreLines(lines, i) == [i] + cs;
      forall k | 1 <= k < 1 + |cs|
        ensures Segments(lines, i)[k] == Segments(lines, i + 1)[k - 1]
      {
        assert ([i] + cs)[k] == cs[k - 1];
      }
    }
  }

  lemma {:induction false} Segmented(lines: seq<Line>)
    ensures Resume([], None, lines) == Segments(lines)
  {
    ResumeIsSegments([], None, lines, 0);
    assert lines[0..] == lines;
  }

  /** The INSTR and EFFECT states, which both readers share: what one line does to the entry in
      hand and to the output; `stop` at an `ecall`. */
  method Absorb(line: Line, hand: Option<Entry>, out: seq<Yielded>, ghost rest: seq<Line>)
    returns (out': seq<Yielded>, hand': Option<Entry>, stop: bool)
    requires rest != [] && rest[0] == line
    ensures Resume(out, hand, rest) == if stop then Finish(out', hand') else Resume(out', hand', rest[1..])
  {
    out', hand', stop := out, hand, false;
    if hand.None? {
      if line.core.Some? {
        hand' := Some(NewEntry(line.core.value));
        stop := line.core.value.IsEcall();
      }
    } else if line.core.Some? {
      out' := out + [(hand.value, false)];
      hand' := Some(NewEntry(line.core.value));
      stop := line.core.value.IsEcall();
    } else if line.illegal {
      out' := out + [(hand.value, true)];
      hand' := None;
    } else if line.commit.Some? {
      hand' := Some(AddCommit(hand.value, line.commit));
    }
  }

  method ReadSpikeTrace(lines: seq<Line>) returns (out: seq<Yielded>)
    ensures out == Segments(SpikeActive(lines))
  {
    Segmented(SpikeActive(lines));
    out := [];
    var inTrampoline, stop := false, false;
    var instr: Option<Entry> := None;
    for i := 0 to |lines|
      invariant Resume([], None, SpikeActive(lines)) == Resume(out, instr, SpikeActive(lines, i, inTrampoline))
    {
      if inTrampoline {
        if lines[i].endTrampoline {
          inTrampoline := false;
        }
        continue;
      } else if lines[i].startTrampoline {
        inTrampoline := true;
        continue;
      }
      out, instr, stop := Absorb(lines[i], instr, out, SpikeActive(lines, i, inTrampoline));
      if stop {
        break;
      }
    }
    if instr.Some? {
      out := out + [(instr.value, false)];
    }
  }

  method ReadVerilatorTrace(lines: seq<Line>) returns (out: seq<Yielded>)
    ensures out == Segments(VerilatorActive(lines))
  {
    Segmented(VerilatorActive(lines));
    out := [];
    var inTrampoline, inDebug, stop := true, false, false;
    var instr: Option<Entry> := None;
    for i := 0 to |lines|
      invariant Resume([], None, VerilatorActive(lines)) ==
                Resume(out, instr, VerilatorActive(lines, i, inTrampoline, inDebug))
    {
      if inTrampoline {
        if lines[i].endTrampoline {
          inTrampoline := false;
        } else {
          continue;
        }
      }
      if inDebug {
        if lines[i].stopDebug {
          inDebug := false;
        }
        continue;
      } else if lines[i].startDebug {
        inDebug := true;
        continue;
      }
      out, instr, stop := Absorb(lines[i], instr, out, VerilatorActive(lines, i, inTrampoline, inDebug));
      if stop {
        break;
      }
    }
    if instr.Some? {
      out := out + [(instr.value, false)];
    }
  }
}
