/** The in-order comparison of two instruction traces
    (cva6/verif/sim/dv/scripts/instr_trace_compare.py). */
module TraceCompare {
  import opened Wrappers
  import opened PyText
  import opened TraceCsv

  // ---- check_update_gpr ----

  /** The dictionary of last seen register values, all of them text. */
  type Gprs = map<string, string>

  /** `Exit` stands for both ways the script stops: an update that is not `rd:value`, and a
      first value of a register that `int(value, 16)` rejects. */
  datatype Checked = Checked(change: bool, gpr: Gprs) | Exit

  function Check(updates: seq<string>, gpr: Gprs, change: bool := false): Checked {
    if updates == [] then Checked(change, gpr)
    else if updates[0] == "" then Checked(false, gpr)
    else
      var item := Split(':', updates[0]);
      if |item| != 2 then Exit
      else
        var rd, rdVal := item[0], item[1];
        if rd in gpr then
          Check(updates[1..], gpr[rd := rdVal], change || rdVal != gpr[rd])
        else
          match ParseInt16(rdVal)
          case None => Exit
          case Some(n) => Check(updates[1..], gpr[rd := rdVal], change || n != 0)
  }

  // ---- the same by position ----

  /** The index of the first empty update, or the number of updates. */
  function FirstEmpty(us: seq<string>): (n: nat)
    ensures n <= |us| && (n < |us| ==> us[n] == "") && forall i :: 0 <= i < n ==> us[i] != ""
  {
    if us == [] || us[0] == "" then 0 else 1 + FirstEmpty(us[1..])
  }

  /** The text register r holds before update i: that of the last update to it, else the dictionary's. */
  function Held(us: seq<string>, i: nat, gpr: Gprs, r: string): Option<string>
    requires i <= |us|
  {
    if i == 0 then (if r in gpr then Some(gpr[r]) else None)
    else
      var item := Split(':', us[i - 1]);
      if |item| == 2 && item[0] == r then Some(item[1]) else Held(us, i - 1, gpr, r)
  }

  /** Update i ends the script: it is not `rd:value`, or it is a first value that is no number. */
  predicate Broken(us: seq<string>, i: nat, gpr: Gprs)
    requires i < |us|
  {
    var item := Split(':', us[i]);
    |item| != 2 || (Held(us, i, gpr, item[0]).None? && ParseInt16(item[1]).None?)
  }

  /** Update i writes another text than the register holds, or a first value other than 0. */
  predicate Differs(us: seq<string>, i: nat, gpr: Gprs)
    requires i < |us|
  {
    var item := Split(':', us[i]);
    |item| == 2 &&
    match Held(us, i, gpr, item[0])
    case None => ParseInt16(item[1]) != Some(0)
    case Some(text) => text != item[1]
  }

  lemma {:induction false} HeldNext(us: seq<string>, i: nat, gpr: Gprs, r: string)
    requires us != [] && i < |us|
    ensures var item := Split(':', us[0]);
            |item| == 2 ==> Held(us, i + 1, gpr, r) == Held(us[1..], i, gpr[item[0] := item[1]], r)
  {
    if i > 0 {
      HeldNext(us, i - 1, gpr, r);
      assert us[1..][i - 1] == us[i];
    }
  }

  lemma {:induction false} OneLater(us: seq<string>, gpr: Gprs, i: nat)
    requires i + 1 < |us| && |Split(':', us[0])| == 2
    ensures var item := Split(':', us[0]);
            var g := gpr[item[0] := item[1]];
            Broken(us, i + 1, gpr) == Broken(us[1..], i, g) && Differs(us, i + 1, gpr) == Differs(us[1..], i, g)
  {
    assert us[1..][i] == us[i + 1];
    HeldNext(us, i, gpr, Split(':', us[i + 1])[0]);
  }

  ghost predicate SomeBroken(us: seq<string>, gpr: Gprs) {
    exists i :: 0 <= i < FirstEmpty(us) && Broken(us, i, gpr)
  }

  ghost predicate SomeDiffers(us: seq<string>, gpr: Gprs) {
    exists i :: 0 <= i < FirstEmpty(us) && Differs(us, i, gpr)
  }

  lemma {:induction false} SomeNext(us: seq<string>, gpr: Gprs)
    requires us != [] && us[0] != "" && |Split(':', us[0])| == 2
    ensures var item := Split(':', us[0]);
            var g := gpr[item[0] := item[1]];
            && (SomeBroken(us, gpr) <==> Broken(us, 0, gpr) || SomeBroken(us[1..], g))
            && (SomeDiffers(us, gpr) <==> Differs(us, 0, gpr) || SomeDiffers(us[1..], g))
  {
    var item := Split(':', us[0]);
    var g := gpr[item[0] := item[1]];
    forall i | 0 <= i < FirstEmpty(us) - 1
      ensures Broken(us, i + 1, gpr) == Broken(us[1..], i, g) && Differs(us, i + 1, gpr) == Differs(us[1..], i, g)
    {
      OneLater(us, gpr, i);
    }
    if SomeBroken(us, gpr) {
      var i :| 0 <= i < FirstEmpty(us) && Broken(us, i, gpr);
      assert i == 0 || Broken(us[1..], i - 1, g);
    }
    if SomeBroken(us[1..], g) {
      var i :| 0 <= i < FirstEmpty(us[1..]) && Broken(us[1..], i, g);
      assert Broken(us, i + 1, gpr);
    }
    if SomeDiffers(us, gpr) {
      var i :| 0 <= i < FirstEmpty(us) && Differs(us, i, gpr);
      assert i == 0 || Differs(us[1..], i - 1, g);
    }
    if SomeDiffers(us[1..], g) {
      var i :| 0 <= i < FirstEmpty(us[1..]) && Differs(us[1..], i, g);
      assert Differs(us, i + 1, gpr);
    }
  }

  /** The updates count up to the first empty one. The script ends exactly when one of them is broken;
      the entry is effective exactly when none is empty and one differs from what its register holds;
      and each register then holds the text of the last update to it. */
  lemma {:induction false} CheckByPosition(us: seq<string>, gpr: Gprs, change: bool)
    ensures Check(us, gpr, change).Exit? <==> SomeBroken(us, gpr)
    ensures Check(us, gpr, change).Checked? ==>
              (Check(us, gpr, change).change <==> FirstEmpty(us) == |us| && (change || SomeDiffers(us, gpr)))
    ensures Check(us, gpr, change).Checked? ==>
              forall r :: Held(us, FirstEmpty(us), gpr, r) ==
                          var g := Check(us, gpr, change).gpr; if r in g then Some(g[r]) else None
  {
    if us != [] && us[0] != "" {
      var item := Split(':', us[0]);
      if |item| == 2 && !Broken(us, 0, gpr) {
        var g := gpr[item[0] := item[1]];
        SomeNext(us, gpr);
        CheckByPosition(us[1..], g, change || Differs(us, 0, gpr));
        forall r
          ensures Held(us, FirstEmpty(us), gpr, r) == Held(us[1..], FirstEmpty(us[1..]), g, r)
        {
          HeldNext(us, FirstEmpty(us) - 1, gpr, r);
        }
      } else {
        assert FirstEmpty(us) > 0 && Broken(us, 0, gpr);
      }
    }
  }

  class GprFile {
    var vals: Gprs

    constructor ()
      ensures vals == map[]
    {
      vals := map[];
    }

    /** Returns whether the updates change a register, and records them; `None` stops the script. */
    method CheckUpdateGpr(updates: seq<string>) returns (change: Option<bool>)
      modifies this
      ensures match Check(updates, old(vals))
              case Exit => change == None
              case Checked(c, g) => change == Some(c) && vals == g
    {
      var stateChange := false;
      for i := 0 to |updates|
        invariant Check(updates[i..], vals, stateChange) == Check(updates, old(vals))
      {
        var update := updates[i];
        assert updates[i..][0] == update && updates[i..][1..] == updates[i + 1..];
        if update == "" {
          return Some(false);
        }
        var item := Split(':', update);
        if |item| != 2 {
          return None;
        }
        var rd, rdVal := item[0], item[1];
        if rd in vals {
          if rdVal != vals[rd] {
            stateChange := true;
          }
        } else {
          var n := ParseInt16(rdVal);
          if n == None {
            return None;
          }
          if n != Some(0) {
            stateChange := true;
          }
        }
        vals := vals[rd := rdVal];
      }
      return Some(stateChange);
    }
  }

  // ---- what a trace does, whatever it is compared with ----

  /** An entry that changes a register: its index in the trace and its updates. */
  datatype Change = Change(at: nat, gpr: seq<string>)

  /** The effective entries from index `i` on; the scan ends with the trace or at the first entry
      that stops the script. */
  function ChangesFrom(t: seq<Entry>, i: nat, gpr: Gprs): (cs: seq<Change>)
    requires i <= |t|
    decreases |t| - i
  {
    if i == |t| then []
    else
      match Check(t[i].gpr, gpr)
      case Exit => []
      case Checked(change, g) =>
        if change then [Change(i, t[i].gpr)] + ChangesFrom(t, i + 1, g) else ChangesFrom(t, i + 1, g)
  }

  /** Scanning the trace from index `i` on stops the script. */
  predicate StopsFrom(t: seq<Entry>, i: nat, gpr: Gprs)
    requires i <= |t|
    decreases |t| - i
  {
    i < |t| &&
    match Check(t[i].gpr, gpr)
    case Exit => true
    case Checked(_, g) => StopsFrom(t, i + 1, g)
  }

  function Changes(t: seq<Entry>): seq<Change> {
    ChangesFrom(t, 0, map[])
  }

  predicate Stops(t: seq<Entry>) {
    StopsFrom(t, 0, map[])
  }

  /** The update lists of some changes, without their places. */
  function Updates(cs: seq<Change>): (us: seq<seq<string>>)
    ensures |us| == |cs|
  {
    seq(|cs|, k requires 0 <= k < |cs| => cs[k].gpr)
  }

  lemma {:induction false} UpdatesFirst(c: Change, cs: seq<Change>)
    ensures Updates([c] + cs) == [c.gpr] + Updates(cs)
  {}

  /** The last of the `len` entries of a trace is one of its changes. */
  predicate EndsEffective(cs: seq<Change>, len: nat) {
    cs != [] && cs[|cs| - 1].at + 1 == len
  }

  ghost predicate Ascending(cs: seq<Change>, lo: nat, hi: nat) {
    && (forall k :: 0 <= k < |cs| ==> lo <= cs[k].at < hi)
    && (forall k, l :: 0 <= k < l < |cs| ==> cs[k].at < cs[l].at)
  }

  lemma {:induction false} ChangesAscend(t: seq<Entry>, i: nat, gpr: Gprs)
    requires i <= |t|
    ensures Ascending(ChangesFrom(t, i, gpr), i, |t|)
    decreases |t| - i
  {
    if i < |t| {
      match Check(t[i].gpr, gpr)
      case Exit =>
      case Checked(_, g) => ChangesAscend(t, i + 1, g);
    }
  }

  /** The dictionary before entry k; `None` when an earlier entry ended the script. */
  function GprsBefore(t: seq<Entry>, k: nat): Option<Gprs>
    requires k <= |t|
  {
    if k == 0 then Some(map[])
    else
      match GprsBefore(t, k - 1)
      case None => None
      case Some(g) =>
        match Check(t[k - 1].gpr, g)
        case Exit => None
        case Checked(_, after) => Some(after)
  }

  /** Entry k is reached and changes a register. */
  predicate Effective(t: seq<Entry>, k: nat) {
    && k < |t| && GprsBefore(t, k).Some?
    && Check(t[k].gpr, GprsBefore(t, k).value).Checked? && Check(t[k].gpr, GprsBefore(t, k).value).change
  }

  lemma {:induction false} StoppedBefore(t: seq<Entry>, i: nat, k: nat)
    requires i <= k <= |t| && GprsBefore(t, i).None?
    ensures GprsBefore(t, k).None?
  {
    if i < k {
      StoppedBefore(t, i, k - 1);
    }
  }

  lemma {:induction false} ChangesFromExact(t: seq<Entry>, i: nat, c: Change)
    requires i <= |t| && GprsBefore(t, i).Some?
    ensures c in ChangesFrom(t, i, GprsBefore(t, i).value) <==> c.at >= i && Effective(t, c.at) && c.gpr == t[c.at].gpr
    ensures StopsFrom(t, i, GprsBefore(t, i).value) <==> GprsBefore(t, |t|).None?
    decreases |t| - i
  {
    if i < |t| {
      if GprsBefore(t, i + 1).Some? {
        ChangesFromExact(t, i + 1, c);
      } else {
        StoppedBefore(t, i + 1, |t|);
        if c.at > i && c.at <= |t| {
          StoppedBefore(t, i + 1, c.at);
        }
      }
    }
  }

  /** The changes of a trace are its effective entries with their updates, in order; it stops the script
      exactly when some entry ends it. */
  lemma {:induction false} ChangesExact(t: seq<Entry>, c: Change)
    ensures c in Changes(t) <==> Effective(t, c.at) && c.gpr == t[c.at].gpr
    ensures forall k, l :: 0 <= k < l < |Changes(t)| ==> Changes(t)[k].at < Changes(t)[l].at
    ensures Stops(t) <==> GprsBefore(t, |t|).None?
  {
    ChangesFromExact(t, 0, c);
    ChangesAscend(t, 0, map[]);
  }

  // ---- the verdict, in closed form ----

  datatype Verdict = Verdict(matched: int, mismatch: int) | Aborted {
    predicate Passed() {
      Verdict? && mismatch == 0
    }
  }

  /** In how many places two lists agree. */
  function Agreements(c1: seq<Change>, c2: seq<Change>): nat {
    if c1 == [] || c2 == [] then 0
    else (if c1[0].gpr == c2[0].gpr then 1 else 0) + Agreements(c1[1..], c2[1..])
  }

  function Min(m: nat, n: nat): nat {
    if m < n then m else n
  }

  /** The entries that are never paired up, as the comparison counts them: all that is left of
      trace 2 from its first unpaired change on, one for trace 1, and nothing at all for trace 1
      when trace 2 ends with a change. */
  function Leftover(c1: seq<Change>, c2: seq<Change>, len2: nat): int {
    if |c1| < |c2| then len2 - c2[|c1|].at
    else if |c2| < |c1| && !EndsEffective(c2, len2) then 1
    else 0
  }

  /** The comparison reaches an entry that stops the script. */
  predicate ReachesStop(c1: seq<Change>, stops1: bool, c2: seq<Change>, stops2: bool, len2: nat) {
    || (stops1 && (|c1| < |c2| || (|c1| == |c2| && !EndsEffective(c2, len2))))
    || (stops2 && |c1| >= |c2|)
  }

  /** `v` is the verdict on two traces with these changes, the second of them `len2` long. */
  ghost predicate IsVerdict(c1: seq<Change>, stops1: bool, c2: seq<Change>, stops2: bool, len2: nat, v: Verdict) {
    && (v.Aborted? <==> ReachesStop(c1, stops1, c2, stops2, len2))
    && (v.Verdict? ==>
          && v.matched == Agreements(c1, c2)
          && v.mismatch == Min(|c1|, |c2|) - Agreements(c1, c2) + Leftover(c1, c2, len2))
  }

  // ---- the comparator ----

  /** What is left to do with two traces whose remaining changes are `c1` and `c2`. */
  function Rest(c1: seq<Change>, stops1: bool, c2: seq<Change>, stops2: bool, len2: nat,
                matched: int, mismatch: int): Verdict
  {
    if c1 == [] then
      if stops1 then Aborted
      else if c2 != [] then Verdict(matched, mismatch + (len2 - c2[0].at))
      else if stops2 then Aborted
      else Verdict(matched, mismatch)
    else if c2 == [] then
      if stops2 then Aborted else Verdict(matched, mismatch + 1)
    else
      var same := c1[0].gpr == c2[0].gpr;
      var ma, mi := if same then matched + 1 else matched, if same then mismatch else mismatch + 1;
      if c2[0].at + 1 == len2 then Verdict(ma, mi)
      else Rest(c1[1..], stops1, c2[1..], stops2, len2, ma, mi)
  }

  lemma {:induction false} RestIsVerdict(c1: seq<Change>, stops1: bool, c2: seq<Change>, stops2: bool, len2: nat,
                                         matched: int, mismatch: int, lo: nat)
    requires Ascending(c2, lo, len2)
    requires EndsEffective(c2, len2) ==> !stops2
    ensures match Rest(c1, stops1, c2, stops2, len2, matched, mismatch)
            case Aborted => ReachesStop(c1, stops1, c2, stops2, len2)
            case Verdict(ma, mi) =>
              && !ReachesStop(c1, stops1, c2, stops2, len2)
              && ma == matched + Agreements(c1, c2)
              && mi == mismatch + Min(|c1|, |c2|) - Agreements(c1, c2) + Leftover(c1, c2, len2)
  {
    if c1 != [] && c2 != [] {
      if c2[0].at + 1 == len2 {
        if |c2| > 1 {
          assert false;
        }
        assert c2[1..] == [];
      } else {
        var same := c1[0].gpr == c2[0].gpr;
        RestIsVerdict(c1[1..], stops1, c2[1..], stops2, len2,
                      if same then matched + 1 else matched, if same then mismatch else mismatch + 1, lo);
      }
    }
  }

  lemma {:induction false} StopHidesTheEnd(t: seq<Entry>, i: nat, gpr: Gprs)
    requires i <= |t| && StopsFrom(t, i, gpr)
    ensures !EndsEffective(ChangesFrom(t, i, gpr), |t|)
    decreases |t| - i
  {
    match Check(t[i].gpr, gpr)
    case Exit =>
    case Checked(_, g) => StopHidesTheEnd(t, i + 1, g);
  }

  /** One forward move over trace 2: the code's inner loop. `None` when the script stops; otherwise
      whether an effective entry was found just before index `next`. */
  method MoveForward(t: seq<Entry>, start: nat, gpr: GprFile) returns (found: Option<bool>, next: nat)
    requires start <= |t|
    modifies gpr
    ensures start <= next <= |t|
    ensures found.None? ==> ChangesFrom(t, start, old(gpr.vals)) == [] && StopsFrom(t, start, old(gpr.vals))
    ensures found.Some? ==> StopsFrom(t, next, gpr.vals) == StopsFrom(t, start, old(gpr.vals))
    ensures found.Some? && found.value ==>
              && next > start
              && ChangesFrom(t, start, old(gpr.vals)) ==
                 [Change(next - 1, t[next - 1].gpr)] + ChangesFrom(t, next, gpr.vals)
    ensures found.Some? && !found.value ==> next == |t| && ChangesFrom(t, start, old(gpr.vals)) == []
  {
    next := start;
    var stateChange := false;
    while !stateChange && next < |t|
      invariant start <= next <= |t|
      invariant stateChange ==> next > start
      invariant !stateChange ==> ChangesFrom(t, start, old(gpr.vals)) == ChangesFrom(t, next, gpr.vals)
      invariant stateChange ==> ChangesFrom(t, start, old(gpr.vals)) ==
                                [Change(next - 1, t[next - 1].gpr)] + ChangesFrom(t, next, gpr.vals)
      invariant StopsFrom(t, next, gpr.vals) == StopsFrom(t, start, old(gpr.vals))
      decreases |t| - next
    {
      var c := gpr.CheckUpdateGpr(t[next].gpr);
      next := next + 1;
      if c.None? {
        return None, next;
      }
      stateChange := c.value;
    }
    return Some(stateChange), next;
  }

  /** The code's comparison of two update lists: lengths first, then element by element. */
  method FindMismatch(a: seq<string>, b: seq<string>) returns (found: bool)
    ensures found <==> a != b
  {
    if |a| != |b| {
      return true;
    }
    for i := 0 to |a|
      invariant a[..i] == b[..i]
    {
      if a[i] != b[i] {
        return true;
      }
    }
    assert a == a[..|a|] == b[..|b|] == b;
    return false;
  }

  /** Looks for the partner of one effective entry of trace 1; `Some(true)` when it is found and has
      the same updates, `Some(false)` when it is missing or different. */
  method PairUp(updates: seq<string>, t: seq<Entry>, start: nat, gpr: GprFile) returns (same: Option<bool>, next: nat)
    requires start <= |t|
    modifies gpr
    ensures start <= next <= |t|
    ensures var cs := ChangesFrom(t, start, old(gpr.vals));
            if same.None? then cs == [] && StopsFrom(t, start, old(gpr.vals))
            else
              && StopsFrom(t, next, gpr.vals) == StopsFrom(t, start, old(gpr.vals))
              && same.value == (cs != [] && cs[0].gpr == updates)
              && (cs == [] ==> next == |t|)
              && (cs != [] ==> cs[0].at + 1 == next && ChangesFrom(t, next, gpr.vals) == cs[1..])
  {
    var found;
    found, next := MoveForward(t, start, gpr);
    if found.None? {
      return None, next;
    }
    if !found.value {
      return Some(false), next;
    }
    var foundMismatch := FindMismatch(updates, t[next - 1].gpr);
    return Some(!foundMismatch), next;
  }

  /** How many entries are reported as left in trace 2, counted from the first effective one. */
  method CountRemaining(t: seq<Entry>, start: nat, gpr: GprFile) returns (left: Option<nat>)
    requires start <= |t|
    modifies gpr
    ensures var cs := ChangesFrom(t, start, old(gpr.vals));
            if left.None? then cs == [] && StopsFrom(t, start, old(gpr.vals))
            else if cs == [] then left.value == 0 && !StopsFrom(t, start, old(gpr.vals))
            else left.value == |t| - cs[0].at
  {
    var found, next := MoveForward(t, start, gpr);
    if found.None? {
      return None;
    }
    return Some(if found.value then |t| - (next - 1) else 0);
  }

  method CompareTraceCsv(trace1: seq<Entry>, trace2: seq<Entry>) returns (v: Verdict)
    ensures IsVerdict(Changes(trace1), Stops(trace1), Changes(trace2), Stops(trace2), |trace2|, v)
  {
    v := CompareInOrder(trace1, trace2);
    ChangesAscend(trace2, 0, map[]);
    if Stops(trace2) {
      StopHidesTheEnd(trace2, 0, map[]);
    }
    RestIsVerdict(Changes(trace1), Stops(trace1), Changes(trace2), Stops(trace2), |trace2|, 0, 0, 0);
  }

  method CompareInOrder(trace1: seq<Entry>, trace2: seq<Entry>) returns (v: Verdict)
    ensures v == Rest(Changes(trace1), Stops(trace1), Changes(trace2), Stops(trace2), |trace2|, 0, 0)
  {
    var gprVal2 := new GprFile();
    var found, index2 := PairAll(trace1, trace2, gprVal2);
    if found.None? {
      return Aborted;
    }
    var (matched, mismatch) := found.value;
    if index2 != |trace2| {
      var left := CountRemaining(trace2, index2, gprVal2);
      if left.None? {
        return Aborted;
      }
      mismatch := mismatch + left.value;
    }
    v := Verdict(matched, mismatch);
  }

  /** The loop over trace 1: how many of its changes matched and how many did not, and where it left
      trace 2; `None` when the script stops. */
  method PairAll(trace1: seq<Entry>, trace2: seq<Entry>, gprVal2: GprFile)
    returns (found: Option<(int, int)>, index2: nat)
    requires gprVal2.vals == map[]
    modifies gprVal2
    ensures index2 <= |trace2|
    ensures var c2, s2 := ChangesFrom(trace2, index2, gprVal2.vals), StopsFrom(trace2, index2, gprVal2.vals);
            Rest(Changes(trace1), Stops(trace1), Changes(trace2), Stops(trace2), |trace2|, 0, 0) ==
            match found
            case None => Aborted
            case Some((matched, mismatch)) =>
              if index2 == |trace2| then Verdict(matched, mismatch)
              else Rest([], false, c2, s2, |trace2|, matched, mismatch)
  {
    ghost var c1, s1 := Changes(trace1), Stops(trace1);   // what is left of trace 1
    ghost var c2, s2 := Changes(trace2), Stops(trace2);   // what is left of trace 2
    ghost var expected := Rest(c1, s1, c2, s2, |trace2|, 0, 0);
    var matched, mismatch := 0, 0;
    var gprVal1 := new GprFile();
    index2 := 0;
    var index1 := 0;
    while index1 < |trace1|
      invariant 0 <= index1 <= |trace1| && 0 <= index2 <= |trace2|
      invariant fresh(gprVal1) && gprVal1 != gprVal2
      invariant c1 == ChangesFrom(trace1, index1, gprVal1.vals) && s1 == StopsFrom(trace1, index1, gprVal1.vals)
      invariant c2 == ChangesFrom(trace2, index2, gprVal2.vals) && s2 == StopsFrom(trace2, index2, gprVal2.vals)
      invariant expected == Rest(c1, s1, c2, s2, |trace2|, matched, mismatch)
    {
      var entry := trace1[index1];
      index1 := index1 + 1;
      if |entry.gpr| == 0 {
        continue;
      }
      var change1 := gprVal1.CheckUpdateGpr(entry.gpr);
      if change1.None? {
        return None, index2;
      }
      if !change1.value {
        continue;
      }
      RestStep(c1, s1, c2, s2, |trace2|, matched, mismatch);
      var same, next := PairUp(entry.gpr, trace2, index2, gprVal2);
      index2 := next;
      if same.None? {
        return None, index2;
      }
      if same.value {
        matched := matched + 1;
      } else {
        mismatch := mismatch + 1;
      }
      if index2 == |trace2| {
        break;
      }
      c1, c2 := c1[1..], c2[1..];
    }
    return Some((matched, mismatch)), index2;
  }

  /** One turn of the recursion, on a change of trace 1. */
  lemma {:induction false} RestStep(c1: seq<Change>, s1: bool, c2: seq<Change>, s2: bool, len2: nat,
                                    matched: int, mismatch: int)
    requires c1 != []
    ensures var same := c2 != [] && c1[0].gpr == c2[0].gpr;
            var ma, mi := if same then matched + 1 else matched, if same then mismatch else mismatch + 1;
            Rest(c1, s1, c2, s2, len2, matched, mismatch) ==
            if c2 == [] && s2 then Aborted
            else if c2 == [] || c2[0].at + 1 == len2 then Verdict(ma, mi)
            else Rest(c1[1..], s1, c2[1..], s2, len2, ma, mi)
  {}

  // ---- what PASSED means ----

  lemma {:induction false} AllAgree(c1: seq<Change>, c2: seq<Change>)
    ensures Agreements(c1, c2) <= Min(|c1|, |c2|)
    ensures Agreements(c1, c2) == Min(|c1|, |c2|) <==>
            (forall k :: 0 <= k < |c1| && k < |c2| ==> c1[k].gpr == c2[k].gpr)
  {
    if c1 != [] && c2 != [] {
      AllAgree(c1[1..], c2[1..]);
      assert forall k :: 0 < k < |c1| && k < |c2| ==> c1[k] == c1[1..][k - 1] && c2[k] == c2[1..][k - 1];
      assert forall k :: 0 <= k < |c1[1..]| && k < |c2[1..]| ==> c1[1..][k] == c1[k + 1] && c2[1..][k] == c2[k + 1];
    }
  }

  lemma {:induction false} SamePrefix(c1: seq<Change>, c2: seq<Change>, n: nat)
    requires n <= |c1| && n <= |c2|
    ensures (forall k :: 0 <= k < n ==> c1[k].gpr == c2[k].gpr) <==> Updates(c1)[..n] == Updates(c2)[..n]
  {
    var u1, u2 := Updates(c1)[..n], Updates(c2)[..n];
    assert forall k :: 0 <= k < n ==> u1[k] == c1[k].gpr && u2[k] == c2[k].gpr;
  }

  /** The places where both lists have a change with the same updates. */
  ghost function AgreeingPlaces(c1: seq<Change>, c2: seq<Change>): set<nat> {
    set k: nat | k < |c1| && k < |c2| && c1[k].gpr == c2[k].gpr
  }

  lemma {:induction false} AgreementsLast(c1: seq<Change>, c2: seq<Change>, m: nat)
    requires 0 < m == Min(|c1|, |c2|)
    ensures Agreements(c1, c2) ==
            Agreements(c1[..m - 1], c2[..m - 1]) + if c1[m - 1].gpr == c2[m - 1].gpr then 1 else 0
  {
    if m > 1 {
      AgreementsLast(c1[1..], c2[1..], m - 1);
      assert c1[1..][..m - 2] == c1[..m - 1][1..] && c2[1..][..m - 2] == c2[..m - 1][1..];
    }
  }

  lemma {:induction false} PlacesLast(c1: seq<Change>, c2: seq<Change>, m: nat)
    requires 0 < m == Min(|c1|, |c2|)
    ensures |AgreeingPlaces(c1, c2)| ==
            |AgreeingPlaces(c1[..m - 1], c2[..m - 1])| + if c1[m - 1].gpr == c2[m - 1].gpr then 1 else 0
  {
    var last: nat := m - 1;
    var before := AgreeingPlaces(c1[..last], c2[..last]);
    assert last !in before;
    assert AgreeingPlaces(c1, c2) == if c1[last].gpr == c2[last].gpr then before + {last} else before;
  }

  lemma {:induction false} AgreementsCount(c1: seq<Change>, c2: seq<Change>)
    ensures Agreements(c1, c2) == |AgreeingPlaces(c1, c2)|
    decreases |c1| + |c2|
  {
    var m := Min(|c1|, |c2|);
    if m > 0 {
      AgreementsLast(c1, c2, m);
      var d1, d2 := c1[..m - 1], c2[..m - 1];
      AgreementsCount(d1, d2);
      PlacesLast(c1, c2, m);
    } else {
      assert AgreeingPlaces(c1, c2) == {};
    }
  }

  /** The verdict in full: how many places agree, how many do not, what is left over behind the shorter
      list of changes, and when the script stops instead. */
  lemma {:induction false} VerdictInFull(c1: seq<Change>, stops1: bool, c2: seq<Change>, stops2: bool, len2: nat,
                                         v: Verdict)
    requires IsVerdict(c1, stops1, c2, stops2, len2, v)
    ensures var agree := |AgreeingPlaces(c1, c2)|;
            var ends := c2 != [] && c2[|c2| - 1].at == len2 - 1;
            if (stops2 && |c2| <= |c1|) || (stops1 && (|c1| < |c2| || (|c1| == |c2| && !ends))) then v == Aborted
            else if |c1| < |c2| then v == Verdict(agree, |c1| - agree + (len2 - c2[|c1|].at))
            else if |c2| < |c1| && !ends then v == Verdict(agree, |c2| - agree + 1)
            else v == Verdict(agree, |c2| - agree)
  {
    AgreementsCount(c1, c2);
  }

  /** PASSED is exactly: no stop is reached, and the update lists of the changes of the two traces
      are the same, or those of trace 2 are a proper prefix and trace 2 ends on one of them. */
  lemma {:induction false} PassedIff(t1: seq<Entry>, t2: seq<Entry>, v: Verdict)
    requires IsVerdict(Changes(t1), Stops(t1), Changes(t2), Stops(t2), |t2|, v)
    ensures v.Passed() <==>
            && !ReachesStop(Changes(t1), Stops(t1), Changes(t2), Stops(t2), |t2|)
            && (|| Updates(Changes(t1)) == Updates(Changes(t2))
                || (Updates(Changes(t2)) < Updates(Changes(t1)) && EndsEffective(Changes(t2), |t2|)))
    ensures v.Passed() ==> v.matched == |Changes(t2)|
  {
    var c1, c2 := Changes(t1), Changes(t2);
    AllAgree(c1, c2);
    ChangesAscend(t2, 0, map[]);
    var u1, u2 := Updates(c1), Updates(c2);
    var n := Min(|c1|, |c2|);
    SamePrefix(c1, c2, n);
    assert u1[..|u1|] == u1 && u2[..|u2|] == u2;
  }
}
