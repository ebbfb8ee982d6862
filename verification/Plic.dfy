/** The decoder of the PLIC, as the generator's main program builds it
    (cva6/corev_apu/rv_plic/rtl/gen_plic_addrmap.py), and what holds of every address map whose
    registers all fit the bus. */
module Plic {
  import opened Arithmetic
  import opened PlicAddrMap

  /** The arguments of one `addEntries` call. */
  datatype Spec = Spec(name: string, num: nat, addr: nat -> nat, access: Access, width: nat)

  function EntryOf(s: Spec, j: nat): Entry {
    Entry(s.addr(j), s.name, s.access, s.width)
  }

  function ArmOf(s: Spec, j: nat): Arm {
    Arm(s.addr(j), s.name, j, s.width)
  }

  /** The address map after the first n calls. */
  function MapOf(specs: seq<Spec>, aw: nat, n: nat): seq<Entry>
    requires aw > 0 && n <= |specs|
  {
    if n == 0 then []
    else
      var s := specs[n - 1];
      MapOf(specs, aw, n - 1) + Block(s.num, s.addr, s.name, s.access, s.width, aw)
  }

  /** Where the entries of call n start. */
  function Base(specs: seq<Spec>, n: nat): nat
    requires n <= |specs|
  {
    if n == 0 then 0 else Base(specs, n - 1) + specs[n - 1].num
  }

  /** No register is wider than the bus, and no name is used twice. */
  ghost predicate Plain(specs: seq<Spec>, aw: nat) {
    && (forall k :: 0 <= k < |specs| ==> specs[k].width <= aw)
    && (forall k, l :: 0 <= k < l < |specs| ==> specs[k].name != specs[l].name)
  }

  lemma {:induction false} PlainBlock(s: Spec, n: nat, aw: nat)
    requires aw > 0 && s.width <= aw
    ensures Block(n, s.addr, s.name, s.access, s.width, aw) == seq(n, j requires 0 <= j < n => EntryOf(s, j))
  {
    if n > 0 {
      PlainBlock(s, n - 1, aw);
    }
  }

  lemma {:induction false} MapLength(specs: seq<Spec>, aw: nat, n: nat)
    requires aw > 0 && n <= |specs| && Plain(specs, aw)
    ensures |MapOf(specs, aw, n)| == Base(specs, n)
  {
    if n > 0 {
      MapLength(specs, aw, n - 1);
      PlainBlock(specs[n - 1], specs[n - 1].num, aw);
    }
  }

  /** Entry j of call k. */
  lemma {:induction false} EntryAt(specs: seq<Spec>, aw: nat, n: nat, k: nat, j: nat)
    requires aw > 0 && k < n <= |specs| && Plain(specs, aw) && j < specs[k].num
    ensures Base(specs, k) + j < |MapOf(specs, aw, n)|
    ensures MapOf(specs, aw, n)[Base(specs, k) + j] == EntryOf(specs[k], j)
  {
    var s := specs[n - 1];
    var before, last := MapOf(specs, aw, n - 1), Block(s.num, s.addr, s.name, s.access, s.width, aw);
    assert MapOf(specs, aw, n) == before + last;
    if k < n - 1 {
      EntryAt(specs, aw, n - 1, k, j);
    } else {
      MapLength(specs, aw, k);
      PlainBlock(s, s.num, aw);
      assert last[j] == EntryOf(s, j);
    }
    ConcatAt(before, last, Base(specs, k) + j);
  }

  lemma {:induction false} ConcatAt(a: seq<Entry>, b: seq<Entry>, p: nat)
    requires p < |a| + |b|
    ensures (a + b)[p] == if p < |a| then a[p] else b[p - |a|]
  {}

  /** Every entry comes from one of the calls. */
  lemma {:induction false} Locate(specs: seq<Spec>, n: nat, p: nat) returns (k: nat, j: nat)
    requires n <= |specs| && p < Base(specs, n)
    ensures k < n && j < specs[k].num && p == Base(specs, k) + j
  {
    if p < Base(specs, n - 1) {
      k, j := Locate(specs, n - 1, p);
    } else {
      k, j := n - 1, p - Base(specs, n - 1);
    }
  }

  lemma {:induction false} BaseGrows(specs: seq<Spec>, k: nat, n: nat)
    requires k < n <= |specs|
    ensures Base(specs, k) + specs[k].num <= Base(specs, n)
  {
    if k < n - 1 {
      BaseGrows(specs, k, n - 1);
    }
  }

  /** The decoder arm for index j of port k: its address, its name and exactly that index. */
  lemma {:induction false} ArmAt(specs: seq<Spec>, aw: nat, k: nat, j: nat)
    requires aw > 0 && k < |specs| && Plain(specs, aw) && j < specs[k].num
    ensures var es := MapOf(specs, aw, |specs|);
            Base(specs, k) + j < |es| && Arms(es, |es|)[Base(specs, k) + j] == ArmOf(specs[k], j)
  {
    var n, lo, num, name := |specs|, Base(specs, k), specs[k].num, specs[k].name;
    var es := MapOf(specs, aw, n);
    MapLength(specs, aw, n);
    BaseGrows(specs, k, n);
    forall p | 0 <= p < lo + num
      ensures p < lo ==> es[p].name != name
      ensures p >= lo ==> es[p].name == name
    {
      if p < lo {
        var l, i := Locate(specs, k, p);
        EntryAt(specs, aw, n, l, i);
      } else {
        EntryAt(specs, aw, n, k, p - lo);
      }
    }
    CountedFromZero(es, lo, num, name, j);
    ArmStays(es, lo + j, |es|);
    EntryAt(specs, aw, n, k, j);
  }

  // ---- the write decoder ----

  function WritableSpecs(specs: seq<Spec>, n: nat): seq<Spec>
    requires n <= |specs|
  {
    if n == 0 then []
    else if specs[n - 1].access == RO then WritableSpecs(specs, n - 1)
    else WritableSpecs(specs, n - 1) + [specs[n - 1]]
  }

  lemma {:induction false} WritableAll(b: seq<Entry>, name: string, access: Access)
    requires AllOf(b, name, access)
    ensures Writable(b) == if access == RO then [] else b
  {
    if b != [] {
      WritableAll(b[1..], name, access);
      assert b == [b[0]] + b[1..];
    }
  }

  lemma {:induction false} MapPrefix(specs: seq<Spec>, s: Spec, aw: nat, n: nat)
    requires aw > 0 && n <= |specs|
    ensures MapOf(specs + [s], aw, n) == MapOf(specs, aw, n)
  {
    if n > 0 {
      MapPrefix(specs, s, aw, n - 1);
    }
  }

  lemma {:induction false} MapNext(specs: seq<Spec>, s: Spec, aw: nat)
    requires aw > 0
    ensures MapOf(specs + [s], aw, |specs| + 1) ==
            MapOf(specs, aw, |specs|) + Block(s.num, s.addr, s.name, s.access, s.width, aw)
  {
    MapPrefix(specs, s, aw, |specs|);
  }

  /** Leaving out the read-only entries is leaving out the read-only ports. */
  lemma {:induction false} WritableMap(specs: seq<Spec>, aw: nat, n: nat)
    requires aw > 0 && n <= |specs|
    ensures Writable(MapOf(specs, aw, n)) == MapOf(WritableSpecs(specs, n), aw, |WritableSpecs(specs, n)|)
  {
    if n > 0 {
      WritableMap(specs, aw, n - 1);
      WritableStep(MapOf(specs, aw, n - 1), WritableSpecs(specs, n - 1), specs[n - 1], aw);
    }
  }

  lemma {:induction false} WritableStep(a: seq<Entry>, w: seq<Spec>, s: Spec, aw: nat)
    requires aw > 0 && Writable(a) == MapOf(w, aw, |w|)
    ensures var w' := if s.access == RO then w else w + [s];
            Writable(a + Block(s.num, s.addr, s.name, s.access, s.width, aw)) == MapOf(w', aw, |w'|)
  {
    var b := Block(s.num, s.addr, s.name, s.access, s.width, aw);
    BlockShape(s.num, s.addr, s.name, s.access, s.width, aw);
    WritableConcat(a, b);
    WritableAll(b, s.name, s.access);
    assert Writable(a) + [] == Writable(a);
    if s.access == RW {
      MapNext(w, s, aw);
    }
  }

  lemma {:induction false} WritableSpecsAre(specs: seq<Spec>, aw: nat, n: nat)
    requires n <= |specs| && Plain(specs, aw)
    ensures forall s :: s in WritableSpecs(specs, n) <==> s.access == RW && s in specs[..n]
    ensures Plain(WritableSpecs(specs, n), aw)
  {
    if n > 0 {
      WritableSpecsAre(specs, aw, n - 1);
      assert specs[..n] == specs[..n - 1] + [specs[n - 1]];
    }
  }

  /** The arms of a map are those of its ports and no others. */
  lemma {:induction false} ArmsOf(specs: seq<Spec>, aw: nat, arm: Arm)
    requires aw > 0 && Plain(specs, aw)
    ensures var es := MapOf(specs, aw, |specs|);
            arm in Arms(es, |es|) <==> exists s, j: nat :: s in specs && j < s.num && arm == ArmOf(s, j)
  {
    var es := MapOf(specs, aw, |specs|);
    MapLength(specs, aw, |specs|);
    if arm in Arms(es, |es|) {
      var p :| 0 <= p < |es| && Arms(es, |es|)[p] == arm;
      var k, j := Locate(specs, |specs|, p);
      ArmAt(specs, aw, k, j);
      assert specs[k] in specs && arm == ArmOf(specs[k], j);
    }
    if s, j: nat :| s in specs && j < s.num && arm == ArmOf(s, j) {
      var k :| 0 <= k < |specs| && specs[k] == s;
      ArmAt(specs, aw, k, j);
    }
  }

  /** The write decoder has exactly the arms of the read decoder that belong to writable ports, with
      the same address, index and width. */
  lemma {:induction false} DecodersAgree(specs: seq<Spec>, aw: nat, arm: Arm)
    requires aw > 0 && Plain(specs, aw)
    ensures var es := MapOf(specs, aw, |specs|);
            var w := Writable(es);
            arm in Arms(w, |w|) <==>
            arm in Arms(es, |es|) && exists s :: s in specs && s.name == arm.name && s.access == RW
  {
    var ws := WritableSpecs(specs, |specs|);
    WritableMap(specs, aw, |specs|);
    WritableSpecsAre(specs, aw, |specs|);
    assert specs[..|specs|] == specs;
    ArmsOf(specs, aw, arm);
    ArmsOf(ws, aw, arm);
  }

  // ---- the PLIC ----

  const MAX_DEVICES := 1023
  const PLIC_BASE := 0xC000000
  const BUS := 32

  /** `ceil(log(x, 2))` */
  function Clog2(x: nat): nat {
    if x <= 1 then 0 else 1 + Clog2((x + 1) / 2)
  }

  /** It is the least k with 2^k >= x. */
  lemma {:induction false} Clog2Least(x: nat, k: nat)
    ensures Clog2(x) <= k <==> x <= Pow2(k)
    decreases k
  {
    if k > 0 && x > 1 {
      Clog2Least((x + 1) / 2, k - 1);
    }
  }

  function PlicSpecs(nrTarget: nat, nrSrc: nat, maxPrio: nat): (specs: seq<Spec>)
    ensures |specs| == 5
  {
    var prioWidth, sources, sourceWidth := Clog2(maxPrio + 1), nrSrc + 1, Clog2(nrSrc + 1);
    [ Spec("prio", sources, i => PLIC_BASE + i * 4, RW, prioWidth),
      Spec("ip", 1, i => PLIC_BASE + 0x1000, RO, sources),
      Spec("ie", nrTarget, i => i * ((MAX_DEVICES + 7) / 8) + (PLIC_BASE + 0x2000), RW, sources),
      Spec("threshold", nrTarget, i => i * 0x1000 + (PLIC_BASE + 0x200000), RW, prioWidth),
      Spec("cc", nrTarget, i => i * 0x1000 + (PLIC_BASE + 0x200000) + 4, RW, sourceWidth) ]
  }

  lemma {:induction false} PlicNames(nrTarget: nat, nrSrc: nat, maxPrio: nat, k: nat, l: nat)
    requires k < l < 5
    ensures var specs := PlicSpecs(nrTarget, nrSrc, maxPrio); specs[k].name != specs[l].name
  {
    assert "ip"[1] != "ie"[1] && "ip"[0] != "cc"[0] && "ie"[0] != "cc"[0];
    assert |"threshold"| == 9 && |"prio"| == 4 && |"ip"| == |"ie"| == |"cc"| == 2;
  }

  lemma {:induction false} PlicPlain(nrTarget: nat, nrSrc: nat, maxPrio: nat)
    requires nrSrc <= 31 && maxPrio < 0x1_0000_0000
    ensures Plain(PlicSpecs(nrTarget, nrSrc, maxPrio), BUS)
  {
    forall k, l | 0 <= k < l < 5
      ensures PlicSpecs(nrTarget, nrSrc, maxPrio)[k].name != PlicSpecs(nrTarget, nrSrc, maxPrio)[l].name
    {
      PlicNames(nrTarget, nrSrc, maxPrio, k, l);
    }
    Clog2Least(nrSrc + 1, 5);
    assert Pow2(4) == 2 * Pow2(3) == 16 && Pow2(5) == 32;
    Clog2Least(maxPrio + 1, 32);
    Pow2Of32();
  }

  lemma {:induction false} Pow2Of32()
    ensures Pow2(32) == 0x1_0000_0000
  {
    assert Pow2(4) == 2 * Pow2(3) == 4 * Pow2(2) == 16;
    assert Pow2(8) == 2 * Pow2(7) == 4 * Pow2(6) == 8 * Pow2(5) == 16 * Pow2(4);
    assert Pow2(12) == 2 * Pow2(11) == 4 * Pow2(10) == 8 * Pow2(9) == 16 * Pow2(8);
    assert Pow2(16) == 2 * Pow2(15) == 4 * Pow2(14) == 8 * Pow2(13) == 16 * Pow2(12);
    assert Pow2(20) == 2 * Pow2(19) == 4 * Pow2(18) == 8 * Pow2(17) == 16 * Pow2(16);
    assert Pow2(24) == 2 * Pow2(23) == 4 * Pow2(22) == 8 * Pow2(21) == 16 * Pow2(20);
    assert Pow2(28) == 2 * Pow2(27) == 4 * Pow2(26) == 8 * Pow2(25) == 16 * Pow2(24);
    assert Pow2(32) == 2 * Pow2(31) == 4 * Pow2(30) == 8 * Pow2(29) == 16 * Pow2(28);
  }

  /** The memory map of chapter 3 of the RISC-V PLIC Specification 1.0.0: register i of port k. */
  function PlicAddr(k: nat, i: nat): nat
    requires k < 5
  {
    if k == 0 then 0xC000000 + 4 * i
    else if k == 1 then 0xC001000
    else if k == 2 then 0xC002000 + 0x80 * i
    else if k == 3 then 0xC200000 + 0x1000 * i
    else 0xC200004 + 0x1000 * i
  }

  function PlicNum(k: nat, nrTarget: nat, nrSrc: nat): nat {
    if k == 0 then nrSrc + 1 else if k == 1 then 1 else nrTarget
  }

  /** The ports: their names, which of them is read-only, their counts, the addresses of their registers,
      and their widths, which are those of a priority, of all sources, or of a source number. */
  lemma {:induction false} PlicPorts(nrTarget: nat, nrSrc: nat, maxPrio: nat, k: nat, i: nat)
    requires k < 5
    ensures var s := PlicSpecs(nrTarget, nrSrc, maxPrio)[k];
            && s.name == ["prio", "ip", "ie", "threshold", "cc"][k]
            && s.access == [RW, RO, RW, RW, RW][k]
            && s.num == [nrSrc + 1, 1, nrTarget, nrTarget, nrTarget][k] == PlicNum(k, nrTarget, nrSrc)
            && s.addr(i) == PlicAddr(k, i) ==
               [0xC000000 + 4 * i, 0xC001000, 0xC002000 + 0x80 * i, 0xC200000 + 0x1000 * i, 0xC200004 + 0x1000 * i][k]
            && (k == 0 || k == 3 ==> forall w: nat :: s.width <= w <==> maxPrio + 1 <= Pow2(w))
            && (k == 1 || k == 2 ==> s.width == nrSrc + 1)
            && (k == 4 ==> forall w: nat :: s.width <= w <==> nrSrc + 1 <= Pow2(w))
  {
    forall w: nat
      ensures Clog2(maxPrio + 1) <= w <==> maxPrio + 1 <= Pow2(w)
      ensures Clog2(nrSrc + 1) <= w <==> nrSrc + 1 <= Pow2(w)
    {
      Clog2Least(maxPrio + 1, w);
      Clog2Least(nrSrc + 1, w);
    }
  }

  /** All mapped 4-byte windows are aligned and disjoint and lie in the 32-bit address space. */
  lemma {:induction false} PlicWindows(nrTarget: nat, nrSrc: nat, k: nat, i: nat, l: nat, j: nat)
    requires nrSrc <= 31 && nrTarget <= MAX_DEVICES && k < 5 && l < 5 && (k != l || i != j)
    requires i < PlicNum(k, nrTarget, nrSrc) && j < PlicNum(l, nrTarget, nrSrc)
    ensures PlicAddr(k, i) + 4 <= PlicAddr(l, j) || PlicAddr(l, j) + 4 <= PlicAddr(k, i)
    ensures PlicAddr(k, i) % 4 == 0 && PlicAddr(k, i) + 4 <= 0x1_0000_0000
  {
    PlicRegions(nrTarget, nrSrc, k, i);
    PlicRegions(nrTarget, nrSrc, l, j);
  }

  /** The five address ranges. */
  lemma {:induction false} PlicRegions(nrTarget: nat, nrSrc: nat, k: nat, i: nat)
    requires nrSrc <= 31 && nrTarget <= MAX_DEVICES && k < 5 && i < PlicNum(k, nrTarget, nrSrc)
    ensures PlicAddr(k, i) % 4 == 0
    ensures k == 0 ==> 0xC000000 <= PlicAddr(k, i) < 0xC000080
    ensures k == 1 ==> PlicAddr(k, i) == 0xC001000
    ensures k == 2 ==> 0xC002000 <= PlicAddr(k, i) < 0xC022000
    ensures k >= 3 ==> 0xC200000 <= PlicAddr(k, i) < 0xC600000
  {}

  method GeneratePlic(nrTarget: nat, nrSrc: nat, maxPrio: nat) returns (write: seq<Arm>, read: seq<Arm>)
    requires nrSrc <= 31 && nrTarget <= MAX_DEVICES
    ensures var es := MapOf(PlicSpecs(nrTarget, nrSrc, maxPrio), 32, 5);
            var w := Writable(es);
            read == Arms(es, |es|) && write == Arms(w, |w|)
  {
    var specs := PlicSpecs(nrTarget, nrSrc, maxPrio);
    var m := new AddrMap(BUS);
    for n := 0 to 5
      invariant fresh(m) && m.accessWidth == BUS && m.addrmap == MapOf(specs, BUS, n)
    {
      m.AddEntries(specs[n].num, specs[n].addr, specs[n].name, specs[n].access, specs[n].width);
    }
    write, read := m.EmitArms();
  }

  /** The arm in place p of the read decoder belongs to one index of one port, below its count. */
  lemma {:induction false} PlicArm(nrTarget: nat, nrSrc: nat, maxPrio: nat, p: nat) returns (k: nat, j: nat)
    requires nrSrc <= 31 && maxPrio < 0x1_0000_0000
    requires p < |MapOf(PlicSpecs(nrTarget, nrSrc, maxPrio), BUS, 5)|
    ensures var specs := PlicSpecs(nrTarget, nrSrc, maxPrio);
            var es := MapOf(specs, BUS, 5);
            && k < 5 && j < specs[k].num == PlicNum(k, nrTarget, nrSrc) && p == Base(specs, k) + j
            && Arms(es, |es|)[p] == Arm(PlicAddr(k, j), specs[k].name, j, specs[k].width)
  {
    var specs := PlicSpecs(nrTarget, nrSrc, maxPrio);
    PlicPlain(nrTarget, nrSrc, maxPrio);
    MapLength(specs, BUS, 5);
    k, j := Locate(specs, 5, p);
    ArmAt(specs, BUS, k, j);
    PlicPorts(nrTarget, nrSrc, maxPrio, k, j);
  }

  /** Two arms of the read decoder name different registers and answer to disjoint windows: with
      `PlicArm` and `ArmAt`, the decoder is a bijection between its arms and the declared indices. */
  lemma {:induction false} PlicArmsApart(nrTarget: nat, nrSrc: nat, maxPrio: nat, p: nat, q: nat)
    requires nrSrc <= 31 && nrTarget <= MAX_DEVICES && maxPrio < 0x1_0000_0000
    requires var n := |MapOf(PlicSpecs(nrTarget, nrSrc, maxPrio), BUS, 5)|; p < n && q < n && p != q
    ensures var es := MapOf(PlicSpecs(nrTarget, nrSrc, maxPrio), BUS, 5);
            var a, b := Arms(es, |es|)[p], Arms(es, |es|)[q];
            (a.name != b.name || a.index != b.index) && (a.addr + 4 <= b.addr || b.addr + 4 <= a.addr)
  {
    var k, j := PlicArm(nrTarget, nrSrc, maxPrio, p);
    var l, i := PlicArm(nrTarget, nrSrc, maxPrio, q);
    PlicWindows(nrTarget, nrSrc, k, j, l, i);
    PlicPlain(nrTarget, nrSrc, maxPrio);
  }
}
