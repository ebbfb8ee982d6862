/** Inputs on which the plain statements about the comparison fail. */
module TraceLimits {
  import opened PyText
  import opened Wrappers
  import opened TraceCsv
  import opened TraceCompare
  import opened LogReaders
  import opened CompareIssLog
  import opened Replay

  function Update(rd: string, val: string): string {
    rd + ":" + val
  }

  function Sample(u: string): Entry {
    Entry("", "", "", "", [u])
  }

  lemma {:induction false} CheckOne(rd: string, val: string, gpr: Gprs)
    requires ':' !in rd && ':' !in val && val != "" && AllHex(val)
    ensures WellFormedUpdate(Update(rd, val))
    ensures Split(':', Update(rd, val)) == [rd, val]
    ensures Check([Update(rd, val)], gpr) ==
            Checked(if rd in gpr then val != gpr[rd] else HexValue(val) != 0, gpr[rd := val])
  {
    assert Update(rd, val) == rd + [':'] + val;
    SplitPair(':', rd, val);
    PlainDigits(val);
  }

  lemma {:induction false} OneIsOne()
    ensures AllHex("1") && HexValue("1") == 1
  {
    HexValueSnoc("", '1');
    assert "" + ['1'] == "1";
  }

  lemma {:induction false} ShorterTrace(u: string, g: Gprs)
    requires Check([u], map[]) == Checked(true, g)
    ensures Changes([Sample(u)]) == [Change(0, [u])] && !Stops([Sample(u)])
  {
    var t := [Sample(u)];
    assert ChangesFrom(t, 1, g) == [] && !StopsFrom(t, 1, g);
  }

  lemma {:induction false} LongerTrace(u: string, g: Gprs, w: string, h: Gprs)
    requires Check([u], map[]) == Checked(true, g) && Check([w], g) == Checked(true, h)
    ensures Changes([Sample(u), Sample(w)]) == [Change(0, [u]), Change(1, [w])] && !Stops([Sample(u), Sample(w)])
  {
    var t := [Sample(u), Sample(w)];
    assert ChangesFrom(t, 2, h) == [] && !StopsFrom(t, 2, h);
    assert ChangesFrom(t, 1, g) == [Change(1, [w])] && !StopsFrom(t, 1, g);
  }

  /** PASSED does not mean equal changes: trace 1 goes on where trace 2 ends with a change. */
  lemma {:induction false} PassedOnAPrefix(v: Verdict)
    requires var u, w := Update("ra", "1"), Update("sp", "1");
             var t1, t2 := [Sample(u), Sample(w)], [Sample(u)];
             IsVerdict(Changes(t1), Stops(t1), Changes(t2), Stops(t2), |t2|, v)
    ensures v.Passed()
    ensures Updates(Changes([Sample(Update("ra", "1")), Sample(Update("sp", "1"))])) !=
            Updates(Changes([Sample(Update("ra", "1"))]))
  {
    var u, w := Update("ra", "1"), Update("sp", "1");
    var g: Gprs := map["ra" := "1"];
    OneIsOne();
    CheckOne("ra", "1", map[]);
    CheckOne("sp", "1", g);
    assert "sp" !in g by {
      assert "ra"[0] != "sp"[0];
    }
    ShorterTrace(u, g);
    LongerTrace(u, g, w, g["sp" := "1"]);
    assert Agreements([Change(0, [u]), Change(1, [w])], [Change(0, [u])]) == 1 by {
      assert [Change(0, [u])][1..] == [];
    }
  }

  /** Some entry changes a register, whatever the registers hold. */
  lemma {:induction false} SomeChange(gpr: Gprs) returns (e: Entry)
    ensures Check(e.gpr, gpr).Checked? && Check(e.gpr, gpr).change
    ensures e in [Sample(Update("ra", "1")), Sample(Update("ra", "2"))]
  {
    var val := if "ra" in gpr && gpr["ra"] == "1" then "2" else "1";
    e := Sample(Update("ra", val));
    OneIsOne();
    CheckOne("ra", val, gpr);
  }

  lemma {:induction false} ChangeAtEnd(t: seq<Entry>, e: Entry, gpr: Gprs)
    requires Check(e.gpr, gpr).Checked? && Check(e.gpr, gpr).change
    ensures !StopsFrom(t + [e], |t|, gpr) && ChangesFrom(t + [e], |t|, gpr) == [Change(|t|, e.gpr)]
  {
    var g := Check(e.gpr, gpr).gpr;
    assert ChangesFrom(t + [e], |t| + 1, g) == [] && !StopsFrom(t + [e], |t| + 1, g);
  }

  /** One more entry, behind the end of a trace, that changes a register. */
  lemma {:induction false} OneMoreChange(t: seq<Entry>, i: nat, gpr: Gprs) returns (e: Entry)
    requires i <= |t| && !StopsFrom(t, i, gpr)
    ensures !StopsFrom(t + [e], i, gpr)
    ensures ChangesFrom(t + [e], i, gpr) == ChangesFrom(t, i, gpr) + [Change(|t|, e.gpr)]
    ensures e in [Sample(Update("ra", "1")), Sample(Update("ra", "2"))]
    decreases |t| - i
  {
    if i == |t| {
      e := SomeChange(gpr);
      ChangeAtEnd(t, e, gpr);
    } else {
      match Check(t[i].gpr, gpr)
      case Checked(_, g) => e := OneMoreChange(t, i + 1, g);
    }
  }

  /** With this trace 2, PASSED means equal changes for every trace 1 that does not stop the script. */
  ghost predicate DecidesEquality(t2: seq<Entry>) {
    forall t1, v :: !Stops(t1) && IsVerdict(Changes(t1), Stops(t1), Changes(t2), Stops(t2), |t2|, v) ==>
                      (v.Passed() <==> Updates(Changes(t1)) == Updates(Changes(t2)))
  }

  /** That is so for exactly the traces 2 that do not end on a change. */
  lemma {:induction false} DecidesEqualityIff(t2: seq<Entry>)
    requires !Stops(t2)
    ensures DecidesEquality(t2) <==> !EndsEffective(Changes(t2), |t2|)
  {
    if EndsEffective(Changes(t2), |t2|) {
      var e := OneMoreChange(t2, 0, map[]);
      var t1 := t2 + [e];
      var c1, c2 := Changes(t1), Changes(t2);
      var v := Verdict(Agreements(c1, c2), Min(|c1|, |c2|) - Agreements(c1, c2) + Leftover(c1, c2, |t2|));
      PassedIff(t1, t2, v);
      assert Updates(c1)[..|c2|] == Updates(c2);
      assert v.Passed() && Updates(c1) != Updates(c2);
    } else {
      forall t1, v | !Stops(t1) && IsVerdict(Changes(t1), Stops(t1), Changes(t2), Stops(t2), |t2|, v)
        ensures v.Passed() <==> Updates(Changes(t1)) == Updates(Changes(t2))
      {
        PassedIff(t1, t2, v);
      }
    }
  }

  // ---- the same for whole logs ----

  function PlainLine(core: Option<Core>, illegal: bool, commit: Option<Commit>): Line {
    Line(false, false, false, false, core, illegal, commit)
  }

  /** The lines without the marks of regions. */
  function Unmarked(lines: seq<Line>): (r: seq<Line>)
    ensures |r| == |lines|
  {
    seq(|lines|, i requires 0 <= i < |lines| => PlainLine(lines[i].core, lines[i].illegal, lines[i].commit))
  }

  lemma {:induction false} UnmarkedResume(out: seq<Yielded>, hand: Option<Entry>, rest: seq<Line>)
    ensures Resume(out, hand, Unmarked(rest)) == Resume(out, hand, rest)
    decreases |rest|
  {
    if rest != [] {
      var line := rest[0];
      assert Unmarked(rest)[1..] == Unmarked(rest[1..]);
      if line.core.Some? {
        UnmarkedResume(Finish(out, hand), Some(NewEntry(line.core.value)), rest[1..]);
      } else if hand.None? {
        UnmarkedResume(out, None, rest[1..]);
      } else if line.illegal {
        UnmarkedResume(out + [(hand.value, true)], None, rest[1..]);
      } else {
        UnmarkedResume(out, Some(AddCommit(hand.value, line.commit)), rest[1..]);
      }
    }
  }

  /** An instruction with one register update. */
  function OneInstruction(u: Commit): seq<Line> {
    [PlainLine(Some(Core("", "", "")), false, None), PlainLine(None, false, Some(u))]
  }

  lemma {:induction false} LastInstruction(out: seq<Yielded>, hand: Option<Entry>, u: Commit)
    ensures Resume(out, hand, OneInstruction(u)) ==
            Finish(out, hand) + [(Entry("", "", "", u.pri, [u.Update()]), false)]
  {
    var c, lines := Core("", "", ""), OneInstruction(u);
    var effect := lines[1..];
    assert !c.IsEcall() && effect[0] == PlainLine(None, false, Some(u)) && effect[1..] == [];
    assert Resume(out, hand, lines) == Resume(Finish(out, hand), Some(NewEntry(c)), effect);
    var e := Entry("", "", "", u.pri, [u.Update()]);
    assert AddCommit(NewEntry(c), Some(u)).gpr == e.gpr;
    assert Resume(Finish(out, hand), Some(NewEntry(c)), effect) == Resume(Finish(out, hand), Some(e), []);
  }

  /** Behind lines without an `ecall` it yields one more entry and changes nothing else. */
  lemma {:induction false} OneMoreInstruction(out: seq<Yielded>, hand: Option<Entry>, rest: seq<Line>, u: Commit)
    requires !ReachesEcall(rest)
    ensures Resume(out, hand, rest + OneInstruction(u)) ==
            Resume(out, hand, rest) + [(Entry("", "", "", u.pri, [u.Update()]), false)]
    decreases |rest|
  {
    var all := rest + OneInstruction(u);
    if rest == [] {
      assert all == OneInstruction(u);
      LastInstruction(out, hand, u);
    } else {
      var line, tail := rest[0], rest[1..];
      assert all[0] == line && all[1..] == tail + OneInstruction(u);
      assert !ReachesEcall(tail) by {
        assert forall n :: 0 <= n < |tail| ==> tail[n] == rest[n + 1];
      }
      if line.core.Some? {
        OneMoreInstruction(Finish(out, hand), Some(NewEntry(line.core.value)), tail, u);
      } else if hand.None? {
        OneMoreInstruction(out, None, tail, u);
      } else if line.illegal {
        OneMoreInstruction(out + [(hand.value, true)], None, tail, u);
      } else {
        OneMoreInstruction(out, Some(AddCommit(hand.value, line.commit)), tail, u);
      }
    }
  }

  lemma {:induction false} EntriesSnoc(ys: seq<Yielded>, y: Yielded)
    ensures Entries(ys + [y]) == Entries(ys) + [y.0]
  {
    if ys == [] {
      assert (ys + [y])[1..] == [];
    } else {
      EntriesSnoc(ys[1..], y);
      assert (ys + [y])[0] == ys[0] && (ys + [y])[1..] == ys[1..] + [y];
    }
  }

  /** A Spike log with all the entries of this one and one more. */
  function Longer(lines: seq<Line>, u: Commit): seq<Line> {
    Unmarked(lines) + OneInstruction(u)
  }

  lemma {:induction false} LongerEntries(iss: Iss, lines: seq<Line>, u: Commit)
    requires !ReachesEcall(Active(iss, lines))
    ensures LogEntries(Spike, Longer(Active(iss, lines), u)) ==
            LogEntries(iss, lines) + [Entry("", "", "", u.pri, [u.Update()])]
  {
    var active, y := Active(iss, lines), (Entry("", "", "", u.pri, [u.Update()]), false);
    var longer := Longer(active, u);
    SpikeKeeps(longer, 0, |longer|);
    assert SpikeActive(longer) == longer;
    Segmented(longer);
    Segmented(active);
    assert !ReachesEcall(Unmarked(active)) by {
      assert forall n :: 0 <= n < |active| ==> Unmarked(active)[n].core == active[n].core;
    }
    UnmarkedResume([], None, active);
    OneMoreInstruction([], None, Unmarked(active), u);
    EntriesSnoc(Segments(active), y);
  }

  /** Some trace has one more change than this one, made by one commit line. */
  lemma {:induction false} SomeLongerTrace(es: seq<Entry>) returns (u: Commit)
    requires WellFormedTrace(es)
    ensures Updates(Changes(es)) < Updates(Changes(es + [Entry("", "", "", u.pri, [u.Update()])]))
  {
    NeverStops(es, 0, map[]);
    var e := OneMoreChange(es, 0, map[]);
    u := Commit("", "ra", if e == Sample(Update("ra", "1")) then "1" else "2");
    assert e == Entry("", "", "", u.pri, [u.Update()]);
    UpdatesSnoc(Changes(es), Change(|es|, e.gpr));
  }

  lemma {:induction false} UpdatesSnoc(cs: seq<Change>, c: Change)
    ensures Updates(cs + [c]) == Updates(cs) + [c.gpr]
  {}

  /** Some log has all the effective updates of this one and one more. */
  lemma {:induction false} SomeLongerLog(iss: Iss, lines: seq<Line>) returns (longer: seq<Line>)
    requires !ReachesEcall(Active(iss, lines))
    ensures LogUpdates(iss, lines) < LogUpdates(Spike, longer)
  {
    var es := LogEntries(iss, lines);
    LogEntriesFromCommits(iss, lines);
    FromCommitsWellFormed(es);
    var u := SomeLongerTrace(es);
    longer := Longer(Active(iss, lines), u);
    LongerEntries(iss, lines, u);
  }

  /** With this log 2, PASSED means equal effective updates for every log 1. */
  ghost predicate LogDecides(iss2: Iss, lines2: seq<Line>) {
    forall iss1, lines1 ::
      LogsPass(iss1, lines1, iss2, lines2) <==> LogUpdates(iss1, lines1) == LogUpdates(iss2, lines2)
  }

  /** That is so for exactly the logs 2 whose trace does not end on a change. */
  lemma {:induction false} LogDecidesIff(iss2: Iss, lines2: seq<Line>)
    ensures var t2 := Compared(iss2, lines2, false); LogDecides(iss2, lines2) <==> !EndsEffective(Changes(t2), |t2|)
  {
    var t2 := Compared(iss2, lines2, false);
    if EndsEffective(Changes(t2), |t2|) {
      if ReachesEcall(Active(iss2, lines2)) {
        EcallEndsQuietly(iss2, lines2, false);
      }
      var lines1 := SomeLongerLog(iss2, lines2);
      assert LogsPass(Spike, lines1, iss2, lines2);
    }
  }

  /** An effective entry need not change a number when a register gets two texts for one: 1 and 01. */
  lemma {:induction false} EffectiveWithoutMoving()
    ensures var u, gpr: Gprs := Update("ra", "01"), map["ra" := "1"];
            Check([u], gpr).Checked? && Check([u], gpr).change && WellFormedUpdate(u) && !Moves([u], gpr)
  {
    var gpr: Gprs := map["ra" := "1"];
    OneIsOne();
    HexValueSnoc("", '0');
    HexValueSnoc("0", '1');
    assert "" + ['0'] == "0" && "0" + ['1'] == "01";
    CheckOne("ra", "01", gpr);
    PlainDigits("01");
    PlainDigits("1");
    assert [Update("ra", "01")][1..] == [];
  }
}
