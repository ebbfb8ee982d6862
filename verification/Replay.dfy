/** What `check_update_gpr` says about the registers themselves: the trace seen as a sequence of
    writes to a register file of numbers
    (cva6/verif/sim/dv/scripts/instr_trace_compare.py, check_update_gpr). */
module Replay {
  import opened Wrappers
  import opened PyText
  import opened TraceCsv
  import opened TraceCompare

  // ---- writes ----

  predicate WellFormedUpdate(u: string) {
    u != "" && var item := Split(':', u); |item| == 2 && ParseInt16(item[1]).Some?
  }

  /** The updates of an entry that made no update, or only well-formed ones. */
  predicate WellFormedUpdates(us: seq<string>) {
    us == [""] || forall i :: 0 <= i < |us| ==> WellFormedUpdate(us[i])
  }

  predicate WellFormedTrace(t: seq<Entry>) {
    forall i :: 0 <= i < |t| ==> WellFormedUpdates(t[i].gpr)
  }

  function Write(u: string, gpr: Gprs): Gprs {
    var item := Split(':', u);
    if |item| == 2 then gpr[item[0] := item[1]] else gpr
  }

  /** The dictionary after all the updates of one entry. */
  function Apply(us: seq<string>, gpr: Gprs): Gprs {
    if us == [] || us[0] == "" then gpr else Apply(us[1..], Write(us[0], gpr))
  }

  /** The dictionary after a list of update lists. */
  function ApplyAll(uss: seq<seq<string>>, gpr: Gprs): Gprs {
    if uss == [] then gpr else ApplyAll(uss[1..], Apply(uss[0], gpr))
  }

  /** The dictionary after the entries of a trace from index `i` on. */
  function ReplayFrom(t: seq<Entry>, i: nat, gpr: Gprs): Gprs
    requires i <= |t|
    decreases |t| - i
  {
    if i == |t| then gpr else ReplayFrom(t, i + 1, Apply(t[i].gpr, gpr))
  }

  lemma {:induction false} ReplayNext(t: seq<Entry>, e: Entry, i: nat, gpr: Gprs)
    requires i <= |t|
    ensures ReplayFrom(t + [e], i, gpr) == Apply(e.gpr, ReplayFrom(t, i, gpr))
    decreases |t| - i
  {
    if i < |t| {
      ReplayNext(t, e, i + 1, Apply(t[i].gpr, gpr));
    }
  }

  // ---- the register file ----

  /** The number in a register; a register never written holds 0. */
  function Reg(gpr: Gprs, r: string): (n: Option<int>)
    ensures r !in gpr ==> n == Some(0)
    ensures r in gpr ==> n == ParseInt16(gpr[r])
  {
    if r in gpr then ParseInt16(gpr[r]) else Some(0)
  }

  ghost predicate SameRegisters(g: Gprs, h: Gprs) {
    forall r :: Reg(g, r) == Reg(h, r)
  }

  lemma {:induction false} CheckApplies(us: seq<string>, gpr: Gprs, change: bool)
    requires WellFormedUpdates(us)
    ensures Check(us, gpr, change).Checked? && Check(us, gpr, change).gpr == Apply(us, gpr)
  {
    if us != [] && us != [""] {
      var item := Split(':', us[0]);
      assert WellFormedUpdates(us[1..]);
      CheckApplies(us[1..], gpr[item[0] := item[1]], true);
      CheckApplies(us[1..], gpr[item[0] := item[1]], change);
    }
  }

  lemma {:induction false} ChangeSticks(us: seq<string>, gpr: Gprs)
    requires forall i :: 0 <= i < |us| ==> WellFormedUpdate(us[i])
    ensures Check(us, gpr, true).Checked? && Check(us, gpr, true).change
  {
    if us != [] {
      var item := Split(':', us[0]);
      ChangeSticks(us[1..], gpr[item[0] := item[1]]);
    }
  }

  /** An entry that is not effective leaves every register as it was. */
  lemma {:induction false} IneffectiveKeepsRegisters(us: seq<string>, gpr: Gprs)
    requires WellFormedUpdates(us) && Check(us, gpr) == Checked(false, Apply(us, gpr))
    ensures SameRegisters(gpr, Apply(us, gpr))
  {
    if us != [] && us != [""] {
      var item := Split(':', us[0]);
      var gpr' := gpr[item[0] := item[1]];
      ChangeSticks(us[1..], gpr');
      assert SameRegisters(gpr, gpr');
      IneffectiveKeepsRegisters(us[1..], gpr');
    }
  }

  lemma {:induction false} ApplyKeepsSame(us: seq<string>, g: Gprs, h: Gprs)
    requires SameRegisters(g, h)
    ensures SameRegisters(Apply(us, g), Apply(us, h))
  {
    if us != [] && us[0] != "" {
      forall r
        ensures Reg(Write(us[0], g), r) == Reg(Write(us[0], h), r)
      {
        assert Reg(g, r) == Reg(h, r);
      }
      ApplyKeepsSame(us[1..], Write(us[0], g), Write(us[0], h));
    }
  }

  lemma {:induction false} NeverStops(t: seq<Entry>, i: nat, gpr: Gprs)
    requires i <= |t| && WellFormedTrace(t)
    ensures !StopsFrom(t, i, gpr)
    decreases |t| - i
  {
    if i < |t| {
      CheckApplies(t[i].gpr, gpr, false);
      NeverStops(t, i + 1, Apply(t[i].gpr, gpr));
    }
  }

  /** Replaying a well-formed trace gives the dictionary that the comparator has behind it. */
  lemma {:induction false} ReplayIsCheck(t: seq<Entry>, k: nat)
    requires k <= |t| && WellFormedTrace(t)
    ensures GprsBefore(t, k) == Some(ReplayFrom(t[..k], 0, map[]))
  {
    if k > 0 {
      ReplayIsCheck(t, k - 1);
      CheckApplies(t[k - 1].gpr, GprsBefore(t, k - 1).value, false);
      ReplayNext(t[..k - 1], t[k - 1], 0, map[]);
      assert t[..k] == t[..k - 1] + [t[k - 1]];
    }
  }

  /** Applying update lists is replaying the trace made of them. */
  lemma {:induction false} ApplyAllIs(t: seq<Entry>, i: nat, g: Gprs)
    requires i <= |t|
    ensures ApplyAll(seq(|t| - i, k requires 0 <= k < |t| - i => t[i + k].gpr), g) == ReplayFrom(t, i, g)
    decreases |t| - i
  {
    if i < |t| {
      var uss := seq(|t| - i, k requires 0 <= k < |t| - i => t[i + k].gpr);
      assert uss[1..] == seq(|t| - (i + 1), k requires 0 <= k < |t| - (i + 1) => t[i + 1 + k].gpr);
      ApplyAllIs(t, i + 1, Apply(t[i].gpr, g));
    }
  }

  /** Replaying only the effective entries, from registers with the same contents, gives the same
      registers as replaying the whole trace. */
  lemma {:induction false} EffectiveEntriesSuffice(t: seq<Entry>, i: nat, g: Gprs, h: Gprs)
    requires i <= |t| && WellFormedTrace(t) && SameRegisters(g, h)
    ensures SameRegisters(ReplayFrom(t, i, g), ApplyAll(Updates(ChangesFrom(t, i, g)), h))
    decreases |t| - i
  {
    if i < |t| {
      var us := t[i].gpr;
      CheckApplies(us, g, false);
      var g' := Apply(us, g);
      if Check(us, g).change {
        ApplyKeepsSame(us, g, h);
        EffectiveEntriesSuffice(t, i + 1, g', Apply(us, h));
        UpdatesFirst(Change(i, us), ChangesFrom(t, i + 1, g'));
        var rest := Updates(ChangesFrom(t, i + 1, g'));
        assert ([us] + rest)[1..] == rest;
      } else {
        IneffectiveKeepsRegisters(us, g);
        SameTransitive(g', g, h);
        EffectiveEntriesSuffice(t, i + 1, g', h);
      }
    }
  }

  lemma {:induction false} SameTransitive(a: Gprs, b: Gprs, c: Gprs)
    requires SameRegisters(b, a) && SameRegisters(b, c)
    ensures SameRegisters(a, c)
  {
    forall r
      ensures Reg(a, r) == Reg(c, r)
    {
      assert Reg(b, r) == Reg(a, r) && Reg(b, r) == Reg(c, r);
    }
  }

  /** Two traces with the same effective updates leave the same registers. */
  lemma {:induction false} SameChangesSameRegisters(t1: seq<Entry>, t2: seq<Entry>)
    requires WellFormedTrace(t1) && WellFormedTrace(t2)
    requires Updates(Changes(t1)) == Updates(Changes(t2))
    ensures SameRegisters(ReplayFrom(t1, 0, map[]), ReplayFrom(t2, 0, map[]))
  {
    EffectiveEntriesSuffice(t1, 0, map[], map[]);
    EffectiveEntriesSuffice(t2, 0, map[], map[]);
    var common := ApplyAll(Updates(Changes(t1)), map[]);
    forall r
      ensures Reg(ReplayFrom(t1, 0, map[]), r) == Reg(ReplayFrom(t2, 0, map[]), r)
    {
      assert Reg(ReplayFrom(t1, 0, map[]), r) == Reg(common, r);
      assert Reg(ReplayFrom(t2, 0, map[]), r) == Reg(common, r);
    }
  }

  // ---- when a change of text is a change of number ----

  /** Some update, when its turn comes, writes a number that its register does not hold. */
  ghost predicate Moves(us: seq<string>, gpr: Gprs) {
    us != [] &&
    var item := Split(':', us[0]);
    (|item| == 2 && Reg(gpr, item[0]) != ParseInt16(item[1])) || Moves(us[1..], Write(us[0], gpr))
  }

  /** Some update, when its turn comes, writes the number that its register holds in another text. */
  ghost predicate Respells(us: seq<string>, gpr: Gprs) {
    us != [] &&
    var item := Split(':', us[0]);
    || (|item| == 2 && item[0] in gpr && gpr[item[0]] != item[1] && ParseInt16(gpr[item[0]]) == ParseInt16(item[1]))
    || Respells(us[1..], Write(us[0], gpr))
  }

  /** For all updates that do not stop the script: the check returns 1 exactly when no update is
      empty and some number changes or some number is spelled anew. */
  lemma {:induction false} ChangeIff(us: seq<string>, gpr: Gprs, change: bool)
    requires Check(us, gpr, change).Checked?
    ensures Check(us, gpr, change).change <==> "" !in us && (change || Moves(us, gpr) || Respells(us, gpr))
  {
    if us != [] && us[0] != "" {
      var item := Split(':', us[0]);
      var text := if item[0] in gpr then item[1] != gpr[item[0]] else ParseInt16(item[1]) != Some(0);
      assert "" in us <==> "" in us[1..];
      ChangeIff(us[1..], Write(us[0], gpr), change || text);
    }
  }

  /** The texts that may stand for a value in a register. */
  type Spelling = (string, string) -> bool

  ghost predicate Parseable(vs: Spelling) {
    forall r, s :: vs(r, s) ==> ':' !in r && ':' !in s && ParseInt16(s).Some?
  }

  ghost predicate UpdatesIn(us: seq<string>, vs: Spelling) {
    forall i :: 0 <= i < |us| ==> var item := Split(':', us[i]); us[i] != "" && |item| == 2 && vs(item[0], item[1])
  }

  ghost predicate GprsIn(gpr: Gprs, vs: Spelling) {
    forall r :: r in gpr ==> vs(r, gpr[r])
  }

  /** No register has two texts for one number. */
  ghost predicate OneTextEach(vs: Spelling) {
    forall r, s, t :: vs(r, s) && vs(r, t) && ParseInt16(s) == ParseInt16(t) ==> s == t
  }

  /** Whatever is written and held in these texts, the check returns 1 exactly when a number changes. */
  ghost predicate ChecksNumbers(vs: Spelling) {
    forall us, gpr :: UpdatesIn(us, vs) && GprsIn(gpr, vs) ==>
                        Check(us, gpr).Checked? && (Check(us, gpr).change <==> Moves(us, gpr))
  }

  lemma {:induction false} NothingRespelled(us: seq<string>, gpr: Gprs, vs: Spelling)
    requires OneTextEach(vs) && UpdatesIn(us, vs) && GprsIn(gpr, vs)
    ensures !Respells(us, gpr) && GprsIn(Apply(us, gpr), vs)
  {
    if us != [] {
      var item := Split(':', us[0]);
      assert vs(item[0], item[1]);
      NothingRespelled(us[1..], Write(us[0], gpr), vs);
    }
  }

  lemma {:induction false} ParseableUpdates(us: seq<string>, vs: Spelling)
    requires Parseable(vs) && UpdatesIn(us, vs)
    ensures WellFormedUpdates(us) && "" !in us
  {
    forall i | 0 <= i < |us|
      ensures WellFormedUpdate(us[i])
    {
      var item := Split(':', us[i]);
      assert vs(item[0], item[1]);
    }
  }

  lemma {:induction false} OneUpdate(r: string, t: string, gpr: Gprs)
    requires ':' !in r && ':' !in t && r in gpr
    ensures Split(':', r + ":" + t) == [r, t]
    ensures Check([r + ":" + t], gpr) == Checked(t != gpr[r], gpr[r := t])
    ensures Moves([r + ":" + t], gpr) <==> Reg(gpr, r) != ParseInt16(t)
  {
    var u := r + ":" + t;
    assert u == r + [':'] + t;
    SplitPair(':', r, t);
    assert [u][1..] == [];
    assert Check([], gpr[r := t], t != gpr[r]) == Checked(t != gpr[r], gpr[r := t]);
    assert !Moves([], gpr[r := t]);
  }

  /** Another text for the number that a register holds: the check returns 1 and nothing moves. */
  lemma {:induction false} RespelledOnce(r: string, s: string, t: string, vs: Spelling)
    requires Parseable(vs) && vs(r, s) && vs(r, t) && ParseInt16(s) == ParseInt16(t) && s != t
    ensures var us, gpr := [r + ":" + t], map[r := s];
            && UpdatesIn(us, vs) && GprsIn(gpr, vs)
            && Check(us, gpr).Checked? && Check(us, gpr).change && !Moves(us, gpr)
  {
    OneUpdate(r, t, map[r := s]);
  }

  lemma {:induction false} NotRespelled(r: string, s: string, t: string, vs: Spelling)
    requires Parseable(vs) && ChecksNumbers(vs) && vs(r, s) && vs(r, t) && ParseInt16(s) == ParseInt16(t)
    ensures s == t
  {
    if s != t {
      RespelledOnce(r, s, t, vs);
    }
  }

  /** The check decides on numbers with exactly those texts that give no register two texts for one
      number; different registers may use different texts. */
  lemma {:induction false} ChecksNumbersIff(vs: Spelling)
    requires Parseable(vs)
    ensures ChecksNumbers(vs) <==> OneTextEach(vs)
  {
    if ChecksNumbers(vs) {
      forall r, s, t | vs(r, s) && vs(r, t) && ParseInt16(s) == ParseInt16(t)
        ensures s == t
      {
        NotRespelled(r, s, t, vs);
      }
    } else {
      var us, gpr :| UpdatesIn(us, vs) && GprsIn(gpr, vs) &&
                     !(Check(us, gpr).Checked? && (Check(us, gpr).change <==> Moves(us, gpr)));
      if OneTextEach(vs) {
        ChecksNumber(us, gpr, vs);
      }
    }
  }

  lemma {:induction false} ChecksNumber(us: seq<string>, gpr: Gprs, vs: Spelling)
    requires Parseable(vs) && OneTextEach(vs) && UpdatesIn(us, vs) && GprsIn(gpr, vs)
    ensures Check(us, gpr) == Checked(Moves(us, gpr), Apply(us, gpr)) && GprsIn(Apply(us, gpr), vs)
  {
    ParseableUpdates(us, vs);
    CheckApplies(us, gpr, false);
    ChangeIff(us, gpr, false);
    NothingRespelled(us, gpr, vs);
  }

  /** A width for each register, and lower-case digits, are enough. */
  lemma {:induction false} FixedWidthsChecked(width: string -> nat)
    ensures ChecksNumbers(FixedWidth(width))
  {
    var vs := FixedWidth(width);
    forall r, s | vs(r, s)
      ensures ':' !in r && ':' !in s && ParseInt16(s).Some?
    {
      LowerDigits(s);
    }
    forall r, s, t | vs(r, s) && vs(r, t) && ParseInt16(s) == ParseInt16(t)
      ensures s == t
    {
      LowerDigits(s);
      LowerDigits(t);
      HexValueInjective(s, t);
    }
    ChecksNumbersIff(vs);
  }

  function FixedWidth(width: string -> nat): Spelling {
    (r: string, s: string) => ':' !in r && s != "" && LowerHex(s) && |s| == width(r)
  }

  // ---- whole traces ----

  /** The entries from index `i` on that change a number. */
  ghost function MovesFrom(t: seq<Entry>, i: nat, gpr: Gprs): seq<Change>
    requires i <= |t|
    decreases |t| - i
  {
    if i == |t| then []
    else
      var rest := MovesFrom(t, i + 1, Apply(t[i].gpr, gpr));
      if Moves(t[i].gpr, gpr) then [Change(i, t[i].gpr)] + rest else rest
  }

  lemma {:induction false} EntryMoves(us: seq<string>, gpr: Gprs, vs: Spelling)
    requires Parseable(vs) && OneTextEach(vs) && GprsIn(gpr, vs) && (us == [""] || UpdatesIn(us, vs))
    ensures Check(us, gpr) == Checked(Moves(us, gpr), Apply(us, gpr)) && GprsIn(Apply(us, gpr), vs)
  {
    if us == [""] {
      assert us[1..] == [];
    } else {
      ChecksNumber(us, gpr, vs);
    }
  }

  /** In a trace of such texts the effective entries are those that change a number. */
  lemma {:induction false} EffectiveIffMoves(t: seq<Entry>, i: nat, gpr: Gprs, vs: Spelling)
    requires i <= |t| && Parseable(vs) && OneTextEach(vs) && GprsIn(gpr, vs)
    requires forall k :: 0 <= k < |t| ==> t[k].gpr == [""] || UpdatesIn(t[k].gpr, vs)
    ensures ChangesFrom(t, i, gpr) == MovesFrom(t, i, gpr)
    decreases |t| - i
  {
    if i < |t| {
      EntryMoves(t[i].gpr, gpr, vs);
      EffectiveIffMoves(t, i + 1, Apply(t[i].gpr, gpr), vs);
    }
  }
}
