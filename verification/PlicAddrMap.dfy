/** The generator of the PLIC address decoder (cva6/corev_apu/rv_plic/rtl/gen_plic_addrmap.py). */
module PlicAddrMap {
  import opened Arithmetic
  import opened Indices
  import opened PyText

  datatype Access = RO | RW

  datatype Port = Port(name: string, num: nat, width: nat, access: Access)

  datatype Entry = Entry(addr: nat, name: string, access: Access, width: nat)

  // ---- addEntries ----

  /** What is left of a register, cut into pieces of the access width. */
  function Pieces(a: nat, name: string, access: Access, left: int, aw: nat): seq<Entry>
    requires aw > 0
    decreases if left > 0 then left else 0
  {
    if left <= 0 then []
    else [Entry(a, name, access, if left < aw then left else aw)] + Pieces(a + aw / 8, name, access, left - aw, aw)
  }

  /** The entries of one register. */
  function Slices(a: nat, name: string, access: Access, width: nat, aw: nat): seq<Entry>
    requires aw > 0
  {
    if width <= aw then [Entry(a, name, access, width)] else Pieces(a, name, access, width, aw)
  }

  /** The entries of the first n registers of a port. */
  function Block(n: nat, addr: nat -> nat, name: string, access: Access, width: nat, aw: nat): seq<Entry>
    requires aw > 0
  {
    if n == 0 then []
    else Block(n - 1, addr, name, access, width, aw) + Slices(addr(n - 1), name, access, width, aw)
  }

  class AddrMap {
    const accessWidth: nat
    var addrmap: seq<Entry>
    var ports: seq<Port>

    constructor (accessWidth: nat)
      ensures this.accessWidth == accessWidth && addrmap == [] && ports == []
    {
      this.accessWidth := accessWidth;
      addrmap, ports := [], [];
    }

    method AddEntries(num: nat, addr: nat -> nat, name: string, access: Access, width: nat)
      requires accessWidth > 0
      modifies this
      ensures addrmap == old(addrmap) + Block(num, addr, name, access, width, accessWidth)
      ensures ports == old(ports) + [Port(name, num, width, access)]
    {
      ports := ports + [Port(name, num, width, access)];
      for i := 0 to num
        invariant addrmap == old(addrmap) + Block(i, addr, name, access, width, accessWidth)
        invariant ports == old(ports) + [Port(name, num, width, access)]
      {
        var effectAddr := addr(i);
        if width > accessWidth {
          AddPieces(effectAddr, name, access, width);
        } else {
          addrmap := addrmap + [Entry(effectAddr, name, access, width)];
        }
        ghost var slices := Slices(effectAddr, name, access, width, accessWidth);
        BlockNext(old(addrmap), i, addr, name, access, width, accessWidth, slices);
      }
    }

    /** The inner loop, for a register wider than the bus. */
    method AddPieces(effectAddr: nat, name: string, access: Access, width: nat)
      requires 0 < accessWidth < width
      modifies this`addrmap
      ensures addrmap == old(addrmap) + Pieces(effectAddr, name, access, width, accessWidth)
    {
      PieceCountIs(effectAddr, name, access, width, accessWidth);
      ghost var a: nat, left: int := effectAddr, width;
      ghost var all := old(addrmap) + Pieces(a, name, access, left, accessWidth);
      for s := 0 to (width + accessWidth - 1) / accessWidth
        invariant a == effectAddr + accessWidth / 8 * s && left == width - accessWidth * s
        invariant (width + accessWidth - 1) / accessWidth - s == |Pieces(a, name, access, left, accessWidth)|
        invariant all == addrmap + Pieces(a, name, access, left, accessWidth)
      {
        var slice := width - accessWidth * s;
        var e := Entry(effectAddr + accessWidth / 8 * s, name, access,
                       if slice < accessWidth then slice else accessWidth);
        MulNext(accessWidth, s);
        MulNext(accessWidth / 8, s);
        PieceNext(addrmap, a, name, access, left, accessWidth);
        addrmap := addrmap + [e];
        a, left := a + accessWidth / 8, left - accessWidth;
      }
    }

    /** The two case statements: for each entry, the port and the index it selects. */
    method EmitArms() returns (write: seq<Arm>, read: seq<Arm>)
      ensures var w := Writable(addrmap); write == Arms(w, |w|)
      ensures read == Arms(addrmap, |addrmap|)
    {
      write := EmitWriteArms();
      read := [];
      var j, lastName := 0, "";
      for p := 0 to |addrmap|
        invariant read == Arms(addrmap, p)
        invariant if p == 0 then j == 0 else lastName == addrmap[p - 1].name && j == read[p - 1].index + 1
      {
        var e := addrmap[p];
        if lastName != e.name {
          j := 0;
        }
        read := read + [Arm(e.addr, e.name, j, e.width)];
        j := j + 1;
        lastName := e.name;
      }
    }

    method EmitWriteArms() returns (write: seq<Arm>)
      ensures var w := Writable(addrmap); write == Arms(w, |w|)
    {
      write := [];
      var j, lastName := 0, "";
      ghost var done: seq<Entry> := [];
      for p := 0 to |addrmap|
        invariant done == Writable(addrmap[..p]) && write == Arms(done, |done|)
        invariant if done == [] then j == 0
                  else lastName == done[|done| - 1].name && j == write[|done| - 1].index + 1
      {
        var e := addrmap[p];
        WritableNext(addrmap, p);
        if e.access == RO {
          continue;
        }
        if lastName != e.name {
          j := 0;
        }
        ArmsPrefix(done, [e], |done|);
        done := done + [e];
        write := write + [Arm(e.addr, e.name, j, e.width)];
        j := j + 1;
        lastName := e.name;
      }
      assert addrmap[..|addrmap|] == addrmap;
    }
  }

  /** The first piece of what is left can be moved to the end of what is done. */
  lemma {:induction false} PieceNext(done: seq<Entry>, a: nat, name: string, access: Access, left: int, aw: nat)
    requires aw > 0 && |Pieces(a, name, access, left, aw)| > 0
    ensures var rest := Pieces(a + aw / 8, name, access, left - aw, aw);
            && left > 0
            && |Pieces(a, name, access, left, aw)| == |rest| + 1
            && done + Pieces(a, name, access, left, aw) ==
               done + [Entry(a, name, access, if left < aw then left else aw)] + rest
  {
    var e := Entry(a, name, access, if left < aw then left else aw);
    ConcatAssociates(done, [e], Pieces(a + aw / 8, name, access, left - aw, aw));
  }

  lemma {:induction false} BlockNext(before: seq<Entry>, i: nat, addr: nat -> nat, name: string, access: Access,
                                     width: nat, aw: nat, slices: seq<Entry>)
    requires aw > 0 && slices == Slices(addr(i), name, access, width, aw)
    ensures before + Block(i, addr, name, access, width, aw) + slices ==
            before + Block(i + 1, addr, name, access, width, aw)
  {}

  lemma {:induction false} DivNext(x: nat, aw: nat)
    requires aw > 0
    ensures (x + aw) / aw == x / aw + 1
  {
    assert x == aw * (x / aw) + x % aw;
    MulNext(aw, x / aw);
    DivModIs(x + aw, aw, x / aw + 1, x % aw);
  }

  /** The number of pieces is the ceiling that the loop runs to. */
  lemma {:induction false} PieceCountIs(a: nat, name: string, access: Access, left: int, aw: nat)
    requires 0 < aw && 0 < left + aw
    ensures |Pieces(a, name, access, left, aw)| == (left + aw - 1) / aw
    decreases if left > 0 then left else 0
  {
    if left > 0 {
      PieceCountIs(a + aw / 8, name, access, left - aw, aw);
      DivNext(left - 1, aw);
    } else {
      DivModIs(left + aw - 1, aw, 0, left + aw - 1);
    }
  }

  // ---- the arms ----

  /** `addr: port[index]` */
  datatype Arm = Arm(addr: nat, name: string, index: nat, width: nat)

  /** The entries without the read-only ones. */
  function Writable(es: seq<Entry>): seq<Entry> {
    if es == [] then []
    else if es[0].access == RO then Writable(es[1..])
    else [es[0]] + Writable(es[1..])
  }

  lemma {:induction false} WritableConcat(a: seq<Entry>, b: seq<Entry>)
    ensures Writable(a + b) == Writable(a) + Writable(b)
  {
    if a == [] {
      assert a + b == b;
    } else {
      WritableConcat(a[1..], b);
      assert (a + b)[0] == a[0] && (a + b)[1..] == a[1..] + b;
      ConcatAssociates([a[0]], Writable(a[1..]), Writable(b));
    }
  }

  lemma {:induction false} WritableNext(es: seq<Entry>, p: nat)
    requires p < |es|
    ensures Writable(es[..p + 1]) ==
            if es[p].access == RO then Writable(es[..p]) else Writable(es[..p]) + [es[p]]
  {
    assert es[..p + 1] == es[..p] + [es[p]];
    WritableConcat(es[..p], [es[p]]);
    assert [es[p]][1..] == [];
    assert Writable(es[..p]) + [] == Writable(es[..p]);
  }

  /** The arms of the first n entries: a name that follows itself takes the next index, and any other
      starts again at 0. */
  function Arms(es: seq<Entry>, n: nat): (arms: seq<Arm>)
    requires n <= |es|
    ensures |arms| == n
  {
    if n == 0 then []
    else
      var before, e := Arms(es, n - 1), es[n - 1];
      var index := if n > 1 && es[n - 2].name == e.name then before[n - 2].index + 1 else 0;
      before + [Arm(e.addr, e.name, index, e.width)]
  }

  lemma {:induction false} ArmsPrefix(a: seq<Entry>, b: seq<Entry>, n: nat)
    requires n <= |a|
    ensures Arms(a + b, n) == Arms(a, n)
  {
    if n > 0 {
      ArmsPrefix(a, b, n - 1);
    }
  }

  /** An arm depends only on the entries before it. */
  lemma {:induction false} ArmStays(es: seq<Entry>, p: nat, n: nat)
    requires p < n <= |es|
    ensures Arms(es, n)[p] == Arms(es, p + 1)[p]
  {
    if p + 1 < n {
      ArmStays(es, p, n - 1);
    }
  }

  // ---- any address map ----

  function SliceCount(width: nat, aw: nat): nat
    requires aw > 0
  {
    |Slices(0, "", RO, width, aw)|
  }

  lemma {:induction false} PiecesShape(a: nat, name: string, access: Access, left: int, aw: nat, b: nat)
    requires aw > 0
    ensures var ps := Pieces(a, name, access, left, aw);
            && |ps| == |Pieces(b, "", RO, left, aw)|
            && forall m :: 0 <= m < |ps| ==> ps[m].name == name && ps[m].access == access
    decreases if left > 0 then left else 0
  {
    if left > 0 {
      PiecesShape(a + aw / 8, name, access, left - aw, aw, b + aw / 8);
    }
  }

  predicate AllOf(es: seq<Entry>, name: string, access: Access) {
    forall m :: 0 <= m < |es| ==> es[m].name == name && es[m].access == access
  }

  lemma {:induction false} BlockShape(n: nat, addr: nat -> nat, name: string, access: Access, width: nat, aw: nat)
    requires aw > 0
    ensures |Block(n, addr, name, access, width, aw)| == n * SliceCount(width, aw)
    ensures AllOf(Block(n, addr, name, access, width, aw), name, access)
  {
    if n > 0 {
      BlockShape(n - 1, addr, name, access, width, aw);
      SlicesShape(addr(n - 1), name, access, width, aw);
      MulNext(SliceCount(width, aw), n - 1);
    }
  }

  lemma {:induction false} SlicesShape(a: nat, name: string, access: Access, width: nat, aw: nat)
    requires aw > 0
    ensures |Slices(a, name, access, width, aw)| == SliceCount(width, aw)
    ensures AllOf(Slices(a, name, access, width, aw), name, access)
  {
    PiecesShape(a, name, access, width, aw, 0);
  }

  ghost predicate NameIsNew(es: seq<Entry>, name: string) {
    forall p :: 0 <= p < |es| ==> es[p].name != name
  }

  /** The entries of one port stand together at [lo, lo+n), behind entries of other names. */
  ghost predicate PortAt(es: seq<Entry>, lo: nat, n: nat, name: string) {
    && lo + n <= |es|
    && (forall p :: 0 <= p < lo ==> es[p].name != name)
    && (forall p :: lo <= p < lo + n ==> es[p].name == name)
  }

  /** Then their arms carry the indices 0, 1, 2, ... in order. */
  lemma {:induction false} CountedFromZero(es: seq<Entry>, lo: nat, n: nat, name: string, m: nat)
    requires PortAt(es, lo, n, name) && m < n
    ensures Arms(es, lo + m + 1)[lo + m] == Arm(es[lo + m].addr, name, m, es[lo + m].width)
  {
    if m > 0 {
      CountedFromZero(es, lo, n, name, m - 1);
    }
  }

  /** The arm of an entry of a block carries the place of the entry in the block. */
  lemma {:induction false} IndexInBlock(before: seq<Entry>, b: seq<Entry>, after: seq<Entry>, name: string,
                                        access: Access, p: nat)
    requires NameIsNew(before, name) && AllOf(b, name, access) && |before| <= p < |before| + |b|
    ensures var es := before + b + after; Arms(es, |es|)[p].index == p - |before|
  {
    var es, lo := before + b + after, |before|;
    CountedFromZero(es, lo, |b|, name, p - lo);
    ArmStays(es, p, |es|);
  }

  /** All the arms of a port select an index below its declared count exactly when no register of it
      had to be split (or there is none). */
  lemma {:induction false} IndicesInRangeIff(before: seq<Entry>, after: seq<Entry>, n: nat, addr: nat -> nat,
                                             name: string, access: Access, width: nat, aw: nat)
    requires aw > 0 && NameIsNew(before, name)
    ensures var b := Block(n, addr, name, access, width, aw);
            var es := before + b + after;
            (forall p :: |before| <= p < |before| + |b| ==> Arms(es, |es|)[p].index < n) <==> n == 0 || width <= aw
  {
    var b := Block(n, addr, name, access, width, aw);
    BlockShape(n, addr, name, access, width, aw);
    BlockLonger(n, width, aw);
    forall p | |before| <= p < |before| + |b|
      ensures Arms(before + b + after, |before + b + after|)[p].index == p - |before|
    {
      IndexInBlock(before, b, after, name, access, p);
    }
    if |b| > n {
      IndexInBlock(before, b, after, name, access, |before| + n);
    }
  }

  lemma {:induction false} BlockLonger(n: nat, width: nat, aw: nat)
    requires aw > 0
    ensures n * SliceCount(width, aw) > n <==> n > 0 && width > aw
    ensures n * SliceCount(width, aw) >= n
  {
    var s := SliceCount(width, aw);
    if width > aw {
      TwoPieces(width, aw);
      if n > 0 {
        MoreThanCount(n, s);
      }
    } else {
      assert s == 1 && n * s == n;
    }
  }

  lemma {:induction false} TwoPieces(width: nat, aw: nat)
    requires 0 < aw < width
    ensures SliceCount(width, aw) >= 2
  {
    assert |Pieces(aw / 8, "", RO, width - aw, aw)| >= 1;
  }

  lemma {:induction false} MoreThanCount(n: nat, s: nat)
    requires n > 0 && s >= 2
    ensures n * s > n
  {}

  function WidthSum(es: seq<Entry>): nat {
    if es == [] then 0 else es[0].width + WidthSum(es[1..])
  }

  /** Entries that follow one another, all of the full width but the last. */
  ghost predicate Contiguous(es: seq<Entry>, a: nat, aw: nat) {
    es != [] ==>
      && es[0].addr == a && es[0].width <= aw
      && (|es| > 1 ==> es[0].width == aw)
      && Contiguous(es[1..], a + aw / 8, aw)
  }

  /** The entries of a register are contiguous, none is wider than the bus, and together they are
      exactly as wide as the register. */
  lemma {:induction false} SlicesCover(a: nat, name: string, access: Access, width: nat, aw: nat)
    requires aw > 0
    ensures Contiguous(Slices(a, name, access, width, aw), a, aw)
    ensures WidthSum(Slices(a, name, access, width, aw)) == width
  {
    if width <= aw {
      assert Slices(a, name, access, width, aw)[1..] == [];
    } else {
      PiecesCover(a, name, access, width, aw);
    }
  }

  lemma {:induction false} PiecesCover(a: nat, name: string, access: Access, left: int, aw: nat)
    requires aw > 0 && left >= 0
    ensures Contiguous(Pieces(a, name, access, left, aw), a, aw)
    ensures WidthSum(Pieces(a, name, access, left, aw)) == left
    decreases if left > 0 then left else 0
  {
    if left > 0 {
      var ps, rest := Pieces(a, name, access, left, aw), Pieces(a + aw / 8, name, access, left - aw, aw);
      assert ps[1..] == rest;
      if left > aw {
        PiecesCover(a + aw / 8, name, access, left - aw, aw);
      }
    }
  }

  // ---- by position ----

  lemma {:induction false} PiecesAt(a: nat, name: string, access: Access, left: int, aw: nat, m: nat)
    requires aw > 0 && m < |Pieces(a, name, access, left, aw)|
    ensures left - aw * m > 0
    ensures Pieces(a, name, access, left, aw)[m] ==
            Entry(a + aw / 8 * m, name, access, if left - aw * m < aw then left - aw * m else aw)
    decreases m
  {
    if m > 0 {
      PiecesAt(a + aw / 8, name, access, left - aw, aw, m - 1);
      MulNext(aw, m - 1);
      MulNext(aw / 8, m - 1);
    }
  }

  /** Entry m of a register: m access widths behind its address, and as wide as what is left, up to the
      access width. */
  lemma {:induction false} SlicesAt(a: nat, name: string, access: Access, width: nat, aw: nat, m: nat)
    requires aw > 0 && m < SliceCount(width, aw)
    ensures |Slices(a, name, access, width, aw)| == SliceCount(width, aw)
    ensures SliceCount(width, aw) == if width <= aw then 1 else (width + aw - 1) / aw
    ensures var left := width - aw * m;
            left >= 0 && Slices(a, name, access, width, aw)[m] ==
                         Entry(a + aw / 8 * m, name, access, if left < aw then left else aw)
  {
    SlicesShape(a, name, access, width, aw);
    if width > aw {
      PieceCountIs(0, "", RO, width, aw);
      PiecesAt(a, name, access, width, aw, m);
    }
  }

  lemma {:induction false} BlockStart(n: nat, addr: nat -> nat, name: string, access: Access, width: nat, aw: nat,
                                      lo: nat)
    requires aw > 0 && lo == n * SliceCount(width, aw)
    ensures |Block(n, addr, name, access, width, aw)| == lo
    ensures |Block(n + 1, addr, name, access, width, aw)| == lo + SliceCount(width, aw)
    ensures Block(n + 1, addr, name, access, width, aw)[..lo] == Block(n, addr, name, access, width, aw)
    ensures Block(n + 1, addr, name, access, width, aw)[lo..] == Slices(addr(n), name, access, width, aw)
  {
    BlockShape(n, addr, name, access, width, aw);
    SlicesShape(addr(n), name, access, width, aw);
  }

  /** The entries of register i of a port stand behind those of the registers before it. */
  lemma {:induction false} BlockAt(n: nat, addr: nat -> nat, name: string, access: Access, width: nat, aw: nat,
                                   i: nat, lo: nat, m: nat)
    requires aw > 0 && i < n && lo == i * SliceCount(width, aw) && m < SliceCount(width, aw)
    ensures |Slices(addr(i), name, access, width, aw)| == SliceCount(width, aw)
    ensures lo + m < |Block(n, addr, name, access, width, aw)|
    ensures Block(n, addr, name, access, width, aw)[lo + m] == Slices(addr(i), name, access, width, aw)[m]
  {
    var b := Block(n, addr, name, access, width, aw);
    BlockStart(n - 1, addr, name, access, width, aw, (n - 1) * SliceCount(width, aw));
    SlicesShape(addr(i), name, access, width, aw);
    if i < n - 1 {
      BlockAt(n - 1, addr, name, access, width, aw, i, lo, m);
      var before := Block(n - 1, addr, name, access, width, aw);
      assert b[lo + m] == b[..|before|][lo + m];
    } else {
      assert b[lo + m] == b[lo..][m];
    }
  }

  /** The arm of entry p has its address, name and width, and for index the number of entries of the same
      name that stand right before it. */
  lemma {:induction false} ArmsByPosition(es: seq<Entry>, n: nat, p: nat)
    requires p < n <= |es|
    ensures var a := Arms(es, n)[p];
            && a.addr == es[p].addr && a.name == es[p].name && a.width == es[p].width && a.index <= p
            && (forall q :: p - a.index <= q <= p ==> es[q].name == es[p].name)
            && (a.index < p ==> es[p - a.index - 1].name != es[p].name)
  {
    if p < n - 1 {
      ArmsByPosition(es, n - 1, p);
    } else if p > 0 {
      ArmsByPosition(es, n - 1, p - 1);
    }
  }

  /** The writable entries are those that are not read-only, in order. */
  function WritablePlaces(es: seq<Entry>, i: nat): (ks: seq<nat>)
    requires i <= |es|
    ensures forall k, l :: 0 <= k < l < |ks| ==> ks[k] < ks[l]
    ensures forall k :: 0 <= k < |ks| ==> ks[k] < |es|
    ensures forall n :: n in ks <==> i <= n < |es| && es[n].access == RW
  {
    Where(i, |es|, (n: nat) => n < |es| && es[n].access == RW)
  }

  lemma {:induction false} WritablePlacesNext(es: seq<Entry>, i: nat)
    requires i < |es|
    ensures var rest := WritablePlaces(es, i + 1);
            WritablePlaces(es, i) == if es[i].access == RW then [i] + rest else rest
  {}

  lemma {:induction false} WritableByPosition(es: seq<Entry>, i: nat)
    requires i <= |es|
    ensures Writable(es[i..]) == Pick(es, WritablePlaces(es, i))
    decreases |es| - i
  {
    if i < |es| {
      assert es[i..][0] == es[i] && es[i..][1..] == es[i + 1..];
      WritableByPosition(es, i + 1);
      WritablePlacesNext(es, i);
      PickFirst(es, i, WritablePlaces(es, i + 1));
    }
  }
}
