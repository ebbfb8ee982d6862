/** From two simulator logs to a verdict: the converters' entry filter, the trace files and the
    comparator, as `compare_iss_log` chains them (cva6/verif/sim/cva6.py). */
module CompareIssLog {
  import opened Indices
  import opened PyText
  import opened TraceCsv
  import opened TraceCompare
  import opened LogReaders
  import opened Replay

  datatype Iss = Spike | Verilator

  function Active(iss: Iss, lines: seq<Line>): seq<Line> {
    if iss.Spike? then SpikeActive(lines) else VerilatorActive(lines)
  }

  /** The lines that count: outside trampolines for Spike, and for Verilator from the line `lo` that ends
      the trampoline on, outside debug regions. */
  lemma {:induction false} ActiveIs(lines: seq<Line>, lo: nat)
    requires lo <= |lines| && forall k :: 0 <= k < lo ==> !lines[k].endTrampoline
    requires lo < |lines| ==> lines[lo].endTrampoline
    ensures Active(Spike, lines) == OutsideLines(lines, 0, 0, StartsTrampoline, EndsTrampoline)
    ensures Active(Verilator, lines) == OutsideLines(lines, lo, lo, StartsDebug, StopsDebug)
  {
    ActiveByPosition(lines, lo);
  }

  // ---- the converters ----

  /** An entry is written if a full trace is wanted, if it has an update, or by its name. */
  predicate Kept(e: Entry, fullTrace: bool) {
    fullTrace || e.gpr != [] || e.instrStr in ["wfi", "ecall"]
  }

  function Entries(ys: seq<Yielded>): (es: seq<Entry>)
    ensures |es| == |ys| && forall k :: 0 <= k < |ys| ==> es[k] == ys[k].0
  {
    if ys == [] then [] else [ys[0].0] + Entries(ys[1..])
  }

  function KeptEntries(es: seq<Entry>, fullTrace: bool): seq<Entry> {
    if es == [] then []
    else if Kept(es[0], fullTrace) then [es[0]] + KeptEntries(es[1..], fullTrace)
    else KeptEntries(es[1..], fullTrace)
  }

  /** The places of the entries that make an update or are named `wfi` or `ecall`, or all places. */
  function KeptPlaces(es: seq<Entry>, i: nat, fullTrace: bool): (ks: seq<nat>)
    requires i <= |es|
    ensures forall k, l :: 0 <= k < l < |ks| ==> ks[k] < ks[l]
    ensures forall k :: 0 <= k < |ks| ==> ks[k] < |es|
    ensures forall n :: n in ks <==>
              i <= n < |es| && (fullTrace || es[n].gpr != [] || es[n].instrStr in ["wfi", "ecall"])
  {
    Where(i, |es|, (n: nat) => n < |es| && (fullTrace || es[n].gpr != [] || es[n].instrStr in ["wfi", "ecall"]))
  }

  lemma {:induction false} KeptPlacesNext(es: seq<Entry>, i: nat, fullTrace: bool)
    requires i < |es|
    ensures var rest := KeptPlaces(es, i + 1, fullTrace);
            KeptPlaces(es, i, fullTrace) == if Kept(es[i], fullTrace) then [i] + rest else rest
  {}

  /** The entries in these places are kept, in order, and no others. */
  lemma {:induction false} KeptExactly(es: seq<Entry>, i: nat, fullTrace: bool)
    requires i <= |es|
    ensures KeptEntries(es[i..], fullTrace) == Pick(es, KeptPlaces(es, i, fullTrace))
    decreases |es| - i
  {
    if i < |es| {
      assert es[i..][0] == es[i] && es[i..][1..] == es[i + 1..];
      KeptExactly(es, i + 1, fullTrace);
      KeptPlacesNext(es, i, fullTrace);
      PickFirst(es, i, KeptPlaces(es, i + 1, fullTrace));
    }
  }

  /** Every instruction of the log, before any filter. */
  function LogEntries(iss: Iss, lines: seq<Line>): seq<Entry> {
    Entries(Segments(Active(iss, lines)))
  }

  /** The trace that reaches the comparator. */
  function Compared(iss: Iss, lines: seq<Line>, fullTrace: bool): seq<Entry> {
    AfterCsvAll(KeptEntries(LogEntries(iss, lines), fullTrace))
  }

  method ProcessSimLog(iss: Iss, lines: seq<Line>, fullTrace: bool)
    returns (csv: RiscvInstructionTraceCsv, instrsIn: nat, instrsOut: nat)
    ensures fresh(csv)
    ensures csv.rows == EncodeAll(KeptEntries(LogEntries(iss, lines), fullTrace))
    ensures instrsIn == |Segments(Active(iss, lines))| && instrsOut == |csv.rows|
  {
    var yielded;
    if iss == Spike {
      yielded := ReadSpikeTrace(lines);
    } else {
      yielded := ReadVerilatorTrace(lines);
    }
    csv, instrsIn, instrsOut := WriteKept(yielded, fullTrace);
  }

  /** The converters' loop over what the reader yields. */
  method WriteKept(yielded: seq<Yielded>, fullTrace: bool)
    returns (csv: RiscvInstructionTraceCsv, instrsIn: nat, instrsOut: nat)
    ensures fresh(csv)
    ensures csv.rows == EncodeAll(KeptEntries(Entries(yielded), fullTrace))
    ensures instrsIn == |yielded| && instrsOut == |csv.rows|
  {
    csv := new RiscvInstructionTraceCsv.StartNewTrace();
    instrsIn, instrsOut := 0, 0;
    ghost var written := [];
    assert yielded[0..] == yielded;
    while instrsIn < |yielded|
      invariant 0 <= instrsIn <= |yielded| && instrsOut == |csv.rows| && csv.rows == EncodeAll(written)
      invariant KeptEntries(Entries(yielded), fullTrace) ==
                written + KeptEntries(Entries(yielded[instrsIn..]), fullTrace)
    {
      var entry := yielded[instrsIn].0;
      KeptNext(written, yielded, instrsIn, fullTrace);
      instrsIn := instrsIn + 1;
      if !Kept(entry, fullTrace) {
        continue;
      }
      EncodeNext(written, entry);
      written := written + [entry];
      csv.WriteTraceEntry(entry);
      instrsOut := instrsOut + 1;
    }
  }

  lemma {:induction false} EncodeNext(t: seq<Entry>, e: Entry)
    ensures EncodeAll(t + [e]) == EncodeAll(t) + [Encode(e)]
  {}

  lemma {:induction false} KeptStep(ys: seq<Yielded>, i: nat, fullTrace: bool)
    requires i < |ys|
    ensures var rest := KeptEntries(Entries(ys[i + 1..]), fullTrace);
            KeptEntries(Entries(ys[i..]), fullTrace) == if Kept(ys[i].0, fullTrace) then [ys[i].0] + rest else rest
  {
    var e, es := ys[i].0, Entries(ys[i + 1..]);
    assert ys[i..][0] == ys[i] && ys[i..][1..] == ys[i + 1..];
    assert ([e] + es)[0] == e && ([e] + es)[1..] == es;
  }

  lemma {:induction false} KeptNext(written: seq<Entry>, ys: seq<Yielded>, i: nat, fullTrace: bool)
    requires i < |ys|
    ensures written + KeptEntries(Entries(ys[i..]), fullTrace) ==
            (if Kept(ys[i].0, fullTrace) then written + [ys[i].0] else written) +
            KeptEntries(Entries(ys[i + 1..]), fullTrace)
  {
    KeptStep(ys, i, fullTrace);
    ConcatAssociates(written, [ys[i].0], KeptEntries(Entries(ys[i + 1..]), fullTrace));
  }

  // ---- what the patterns of the readers guarantee about updates ----

  lemma {:induction false} CommitUpdate(c: Commit)
    ensures WellFormedUpdate(c.Update()) && ';' !in c.Update() && Split(':', c.Update()) == [c.reg, c.val]
  {
    var u := c.Update();
    UpdateSplits(c);
    LowerDigits(c.val);
  }

  /** Every update of the entry is one that a commit line made. */
  predicate FromCommits(e: Entry) {
    forall u :: u in e.gpr ==> WellFormedUpdate(u) && ';' !in u
  }

  lemma {:induction false} WithCommitsFromCommits(e: Entry, lines: seq<Line>, i: nat, end: nat)
    requires i <= end <= |lines| && FromCommits(e)
    ensures FromCommits(WithCommits(e, lines, i, end))
    ensures WithCommits(e, lines, i, end).instrStr == e.instrStr
    decreases end - i
  {
    if i < end {
      var c := lines[i].commit;
      if c.Some? {
        CommitUpdate(c.value);
      }
      WithCommitsFromCommits(AddCommit(e, c), lines, i + 1, end);
    }
  }

  lemma {:induction false} EntriesFromCommits(ys: seq<Yielded>)
    requires forall k :: 0 <= k < |ys| ==> FromCommits(ys[k].0)
    ensures forall e :: e in Entries(ys) ==> FromCommits(e)
  {
    if ys != [] {
      EntriesFromCommits(ys[1..]);
    }
  }

  lemma {:induction false} LogEntriesFromCommits(iss: Iss, lines: seq<Line>)
    ensures forall e :: e in LogEntries(iss, lines) ==> FromCommits(e)
  {
    var active := Active(iss, lines);
    var ys, cs := Segments(active), CoreLines(active, 0);
    forall k | 0 <= k < |ys|
      ensures FromCommits(ys[k].0)
    {
      var e := NewEntry(active[cs[k]].core.value);
      var end := NextCore(active, cs[k] + 1);
      WithCommitsFromCommits(e, active, cs[k] + 1, NextIllegal(active, cs[k] + 1, end));
    }
    EntriesFromCommits(ys);
  }

  lemma {:induction false} KeptSubset(es: seq<Entry>, fullTrace: bool)
    ensures forall e :: e in KeptEntries(es, fullTrace) ==> e in es
  {
    if es != [] {
      KeptSubset(es[1..], fullTrace);
    }
  }

  lemma {:induction false} FromCommitsWellFormed(es: seq<Entry>)
    requires forall e :: e in es ==> FromCommits(e)
    ensures Writable(es) && WellFormedTrace(es) && WellFormedTrace(AfterCsvAll(es))
  {
    forall i | 0 <= i < |es|
      ensures WellFormedUpdates(es[i].gpr) && WellFormedUpdates(AfterCsvAll(es)[i].gpr)
    {
      assert FromCommits(es[i]);
      assert forall j :: 0 <= j < |es[i].gpr| ==> es[i].gpr[j] in es[i].gpr;
    }
    forall i, u | 0 <= i < |es| && u in es[i].gpr
      ensures ';' !in u
    {
      assert FromCommits(es[i]);
    }
  }

  // ---- the filter and the file lose nothing ----

  /** The effective update lists, read off the list of entries from its head. */
  function EffectiveUpdates(es: seq<Entry>, gpr: Gprs): seq<seq<string>> {
    if es == [] then []
    else
      match Check(es[0].gpr, gpr)
      case Exit => []
      case Checked(change, g) =>
        if change then [es[0].gpr] + EffectiveUpdates(es[1..], g) else EffectiveUpdates(es[1..], g)
  }

  lemma {:induction false} EffectiveUpdatesAre(t: seq<Entry>, i: nat, gpr: Gprs)
    requires i <= |t|
    ensures EffectiveUpdates(t[i..], gpr) == Updates(ChangesFrom(t, i, gpr))
    decreases |t| - i
  {
    if i < |t| {
      assert t[i..][0] == t[i] && t[i..][1..] == t[i + 1..];
      match Check(t[i].gpr, gpr)
      case Exit =>
      case Checked(change, g) =>
        EffectiveUpdatesAre(t, i + 1, g);
        if change {
          UpdatesFirst(Change(i, t[i].gpr), ChangesFrom(t, i + 1, g));
        }
    }
  }

  lemma {:induction false} EffectiveUpdatesStep(e: Entry, es: seq<Entry>, gpr: Gprs)
    requires WellFormedUpdates(e.gpr)
    ensures EffectiveUpdates([e] + es, gpr) ==
            (if Check(e.gpr, gpr) == Checked(true, Apply(e.gpr, gpr))
             then [e.gpr] + EffectiveUpdates(es, Apply(e.gpr, gpr))
             else EffectiveUpdates(es, Apply(e.gpr, gpr)))
  {
    CheckApplies(e.gpr, gpr, false);
    assert ([e] + es)[0] == e && ([e] + es)[1..] == es;
  }

  lemma {:induction false} FilterLosesNothing(es: seq<Entry>, fullTrace: bool, gpr: Gprs)
    requires WellFormedTrace(es)
    ensures EffectiveUpdates(AfterCsvAll(KeptEntries(es, fullTrace)), gpr) == EffectiveUpdates(es, gpr)
  {
    if es != [] {
      var e, rest := es[0], es[1..];
      assert WellFormedTrace(rest) && es == [e] + rest;
      FilterLosesNothing(rest, fullTrace, Apply(e.gpr, gpr));
      EffectiveUpdatesStep(e, rest, gpr);
      if Kept(e, fullTrace) {
        var kept := KeptEntries(rest, fullTrace);
        assert AfterCsvAll([e] + kept) == [AfterCsv(e)] + AfterCsvAll(kept);
        EffectiveUpdatesStep(AfterCsv(e), AfterCsvAll(kept), gpr);
      }
    }
  }

  /** The effective update lists of a log, whatever the converter dropped on the way. */
  function LogUpdates(iss: Iss, lines: seq<Line>): seq<seq<string>> {
    Updates(Changes(LogEntries(iss, lines)))
  }

  /** The comparator sees exactly the effective updates of the log, and never an illegal one. */
  lemma {:induction false} ComparedTrace(iss: Iss, lines: seq<Line>, fullTrace: bool)
    ensures var t := Compared(iss, lines, fullTrace);
            && Updates(Changes(t)) == LogUpdates(iss, lines) && !Stops(t)
            && DecodeAll(EncodeAll(KeptEntries(LogEntries(iss, lines), fullTrace))) == t
  {
    var es := LogEntries(iss, lines);
    var kept := KeptEntries(es, fullTrace);
    LogEntriesFromCommits(iss, lines);
    KeptSubset(es, fullTrace);
    FromCommitsWellFormed(es);
    FromCommitsWellFormed(kept);
    RoundTrip(kept);
    FilterLosesNothing(es, fullTrace, map[]);
    var t := AfterCsvAll(kept);
    NeverStops(t, 0, map[]);
    EffectiveUpdatesAre(t, 0, map[]);
    EffectiveUpdatesAre(es, 0, map[]);
    assert t[0..] == t && es[0..] == es;
  }

  // ---- an ecall closes the prefix loophole ----

  lemma {:induction false} LastChangeIsEffective(t: seq<Entry>, i: nat, gpr: Gprs)
    requires i <= |t| && EndsEffective(ChangesFrom(t, i, gpr), |t|)
    ensures t != [] && t[|t| - 1].gpr != [""]
    decreases |t| - i
  {
    match Check(t[i].gpr, gpr)
    case Checked(_, g) =>
      if |ChangesFrom(t, i + 1, g)| > 0 {
        LastChangeIsEffective(t, i + 1, g);
      }
  }

  lemma {:induction false} LastEntry(ys: seq<Yielded>)
    requires ys != []
    ensures Entries(ys) != [] && Entries(ys)[|Entries(ys)| - 1] == ys[|ys| - 1].0
  {
    if |ys| > 1 {
      LastEntry(ys[1..]);
    }
  }

  lemma {:induction false} LastKept(es: seq<Entry>, fullTrace: bool)
    requires es != [] && Kept(es[|es| - 1], fullTrace)
    ensures KeptEntries(es, fullTrace) != []
    ensures KeptEntries(es, fullTrace)[|KeptEntries(es, fullTrace)| - 1] == es[|es| - 1]
  {
    if |es| > 1 {
      LastKept(es[1..], fullTrace);
    }
  }

  lemma {:induction false} EcallIsKeptLast(iss: Iss, lines: seq<Line>, fullTrace: bool)
    requires ReachesEcall(Active(iss, lines))
    ensures var kept := KeptEntries(LogEntries(iss, lines), fullTrace);
            kept != [] && kept[|kept| - 1].gpr == []
  {
    EcallComesLast(Active(iss, lines));
    LastEntry(Segments(Active(iss, lines)));
    LastKept(LogEntries(iss, lines), fullTrace);
  }

  lemma {:induction false} EcallEndsQuietly(iss: Iss, lines: seq<Line>, fullTrace: bool)
    requires ReachesEcall(Active(iss, lines))
    ensures var t := Compared(iss, lines, fullTrace); !EndsEffective(Changes(t), |t|)
  {
    EcallIsKeptLast(iss, lines, fullTrace);
    var t := Compared(iss, lines, fullTrace);
    assert t[|t| - 1].gpr == [""];
    if EndsEffective(Changes(t), |t|) {
      LastChangeIsEffective(t, 0, map[]);
    }
  }

  // ---- the whole flow ----

  /** The registers at the end of a log. */
  function FinalRegisters(iss: Iss, lines: seq<Line>): Gprs {
    ReplayFrom(LogEntries(iss, lines), 0, map[])
  }

  lemma {:induction false} SameUpdatesSameRegisters(iss1: Iss, lines1: seq<Line>, iss2: Iss, lines2: seq<Line>)
    requires LogUpdates(iss1, lines1) == LogUpdates(iss2, lines2)
    ensures SameRegisters(FinalRegisters(iss1, lines1), FinalRegisters(iss2, lines2))
  {
    LogEntriesFromCommits(iss1, lines1);
    LogEntriesFromCommits(iss2, lines2);
    FromCommitsWellFormed(LogEntries(iss1, lines1));
    FromCommitsWellFormed(LogEntries(iss2, lines2));
    SameChangesSameRegisters(LogEntries(iss1, lines1), LogEntries(iss2, lines2));
  }

  /** The effective updates of the two logs are the same, or those of log 2 are a proper prefix and the
      trace of log 2 ends on one. */
  ghost predicate LogsPass(iss1: Iss, lines1: seq<Line>, iss2: Iss, lines2: seq<Line>) {
    var u1, u2, t2 := LogUpdates(iss1, lines1), LogUpdates(iss2, lines2), Compared(iss2, lines2, false);
    u1 == u2 || (u2 < u1 && EndsEffective(Changes(t2), |t2|))
  }

  /** PASSED means just that. Once log 2 reaches an `ecall` only equality remains, and then both
      simulations end with the same registers. */
  method CompareLogs(iss1: Iss, lines1: seq<Line>, iss2: Iss, lines2: seq<Line>) returns (v: Verdict)
    ensures v.Verdict? && (v.Passed() <==> LogsPass(iss1, lines1, iss2, lines2))
    ensures v.Passed() ==> v.matched == |LogUpdates(iss2, lines2)|
    ensures ReachesEcall(Active(iss2, lines2)) ==>
              (v.Passed() <==> LogUpdates(iss1, lines1) == LogUpdates(iss2, lines2))
    ensures v.Passed() && ReachesEcall(Active(iss2, lines2)) ==>
              SameRegisters(FinalRegisters(iss1, lines1), FinalRegisters(iss2, lines2))
  {
    var csv1, _, _ := ProcessSimLog(iss1, lines1, false);
    var csv2, _, _ := ProcessSimLog(iss2, lines2, false);
    var trace1 := csv1.ReadTrace();
    var trace2 := csv2.ReadTrace();
    v := CompareTraceCsv(trace1, trace2);
    ComparedTrace(iss1, lines1, false);
    ComparedTrace(iss2, lines2, false);
    PassedIff(trace1, trace2, v);
    if ReachesEcall(Active(iss2, lines2)) {
      EcallEndsQuietly(iss2, lines2, false);
      if v.Passed() {
        SameUpdatesSameRegisters(iss1, lines1, iss2, lines2);
      }
    }
  }
}
