/** The reset values of register fields (cva6/config/gen_from_riscv_config/scripts/libs/utils.py,
    returnRegister). */
module CsrFields {
  import opened Arithmetic

  /** A bit range, lsb first; both ends belong to it. */
  type Range = r: (nat, nat) | r.0 <= r.1 witness (0, 0)

  /** A named field, or a list of reserved ranges. */
  datatype Item = Named(range: Range) | Reserved(ranges: seq<Range>)

  datatype Field = Field(lsb: nat, msb: nat, width: nat, reset: nat)

  // ---- shifts and masks ----

  /** `x >> n` */
  function ShiftRight(x: nat, n: nat): nat
    decreases n
  {
    if n == 0 then x else ShiftRight(x / 2, n - 1)
  }

  /** `x & ((1 << w) - 1)`: the low w bits. */
  function LowBits(x: nat, w: nat): nat
    decreases w
  {
    if w == 0 then 0 else x % 2 + 2 * LowBits(x / 2, w - 1)
  }

  function BitAt(x: nat, b: nat): nat {
    ShiftRight(x, b) % 2
  }

  /** The mask is the remainder by 2^w. */
  lemma {:induction false} LowBitsIsRemainder(x: nat, w: nat)
    ensures LowBits(x, w) == x % Pow2(w) && LowBits(x, w) < Pow2(w)
    decreases w
  {
    if w > 0 {
      LowBitsIsRemainder(x / 2, w - 1);
      HalfRemainder(x, Pow2(w - 1));
    }
  }

  lemma {:induction false} HalfRemainder(x: nat, p: nat)
    requires p > 0
    ensures x % (2 * p) == x % 2 + 2 * (x / 2 % p)
  {
    var q := x / 2 / p;
    assert x / 2 == p * q + x / 2 % p;
    assert x == (2 * p) * q + (x % 2 + 2 * (x / 2 % p)) by {
      assert 2 * (p * q) == (2 * p) * q;
    }
    DivModIs(x, 2 * p, q, x % 2 + 2 * (x / 2 % p));
  }

  lemma {:induction false} ShiftTwice(x: nat, m: nat, n: nat)
    ensures ShiftRight(ShiftRight(x, m), n) == ShiftRight(x, m + n)
    decreases m
  {
    if m > 0 {
      ShiftTwice(x / 2, m - 1, n);
    }
  }

  lemma {:induction false} LowBitsNext(x: nat, w: nat)
    ensures LowBits(x, w + 1) == LowBits(x, w) + BitAt(x, w) * Pow2(w)
    decreases w
  {
    if w > 0 {
      LowBitsNext(x / 2, w - 1);
      Double(BitAt(x / 2, w - 1), Pow2(w - 1));
    } else {
      assert LowBits(x / 2, 0) == 0;
    }
  }

  lemma {:induction false} Double(a: nat, b: nat)
    ensures 2 * (a * b) == a * (2 * b)
  {}

  lemma {:induction false} PowersMultiply(m: nat, n: nat)
    ensures Pow2(m) * Pow2(n) == Pow2(m + n)
    decreases n
  {
    if n > 0 {
      PowersMultiply(m, n - 1);
      Double(Pow2(m), Pow2(n - 1));
    }
  }

  // ---- returnRegister ----

  function FieldReset(reset: nat, lsb: nat, width: nat): nat {
    LowBits(ShiftRight(reset, lsb), width)
  }

  function FieldOf(reset: nat, r: Range): Field {
    Field(r.0, r.1, r.1 - r.0 + 1, FieldReset(reset, r.0, r.1 - r.0 + 1))
  }

  /** The ranges in the order of the items. */
  function Ranges(items: seq<Item>, n: nat): seq<Range>
    requires n <= |items|
  {
    if n == 0 then []
    else Ranges(items, n - 1) + (match items[n - 1] case Named(r) => [r] case Reserved(rs) => rs)
  }

  /** How many ranges an item has. */
  function Count(item: Item): nat {
    match item
    case Named(_) => 1
    case Reserved(rs) => |rs|
  }

  function CountUpTo(items: seq<Item>, n: nat): nat
    requires n <= |items|
  {
    if n == 0 then 0 else CountUpTo(items, n - 1) + Count(items[n - 1])
  }

  /** The ranges of item k stand behind those of the items before it: the range of a named field, and all
      the ranges of a reserved list in order. */
  lemma {:induction false} RangesByPosition(items: seq<Item>, n: nat, k: nat, j: nat)
    requires k < n <= |items| && j < Count(items[k])
    ensures |Ranges(items, n)| == CountUpTo(items, n)
    ensures CountUpTo(items, k) + j < |Ranges(items, n)|
    ensures Ranges(items, n)[CountUpTo(items, k) + j] ==
            match items[k] case Named(r) => r case Reserved(rs) => rs[j]
  {
    RangesCount(items, n - 1);
    if k < n - 1 {
      RangesByPosition(items, n - 1, k, j);
    }
  }

  lemma {:induction false} RangesCount(items: seq<Item>, n: nat)
    requires n <= |items|
    ensures |Ranges(items, n)| == CountUpTo(items, n)
  {
    if n > 0 {
      RangesCount(items, n - 1);
    }
  }

  lemma {:induction false} ShiftIsDivision(x: nat, n: nat)
    ensures ShiftRight(x, n) == x / Pow2(n)
    decreases n
  {
    if n > 0 {
      ShiftIsDivision(x / 2, n - 1);
      DivDiv(x, 2, Pow2(n - 1), Pow2(n));
    }
  }

  /** A field has the ends of its range, as many bits as lie between them, and those bits of the reset
      value. */
  lemma {:induction false} FieldIs(reset: nat, r: Range)
    ensures FieldOf(reset, r) == Field(r.0, r.1, r.1 + 1 - r.0, reset / Pow2(r.0) % Pow2(r.1 + 1 - r.0))
  {
    ShiftIsDivision(reset, r.0);
    LowBitsIsRemainder(ShiftRight(reset, r.0), r.1 + 1 - r.0);
  }

  function Fields(reset: nat, rs: seq<Range>): seq<Field> {
    seq(|rs|, i requires 0 <= i < |rs| => FieldOf(reset, rs[i]))
  }

  method ReturnFields(reset: nat, items: seq<Item>) returns (fields: seq<Field>)
    ensures fields == Fields(reset, Ranges(items, |items|))
  {
    fields := [];
    for n := 0 to |items|
      invariant fields == Fields(reset, Ranges(items, n))
    {
      match items[n]
      case Named(r) =>
        var bitWidth := r.1 - r.0 + 1;
        fields := fields + [Field(r.0, r.1, bitWidth, FieldReset(reset, r.0, bitWidth))];
      case Reserved(rs) =>
        for i := 0 to |rs|
          invariant fields == Fields(reset, Ranges(items, n) + rs[..i])
        {
          var bitWidth := rs[i].1 - rs[i].0 + 1;
          fields := fields + [Field(rs[i].0, rs[i].1, bitWidth, FieldReset(reset, rs[i].0, bitWidth))];
        }
        assert rs[..|rs|] == rs;
    }
  }

  // ---- conservation ----

  /** The field resets put back in their places. */
  function Total(fs: seq<Field>): nat {
    if fs == [] then 0 else fs[0].reset * Pow2(fs[0].lsb) + Total(fs[1..])
  }

  /** How many ranges cover bit b. */
  function Cover(rs: seq<Range>, b: nat): nat {
    if rs == [] then 0 else (if rs[0].0 <= b <= rs[0].1 then 1 else 0) + Cover(rs[1..], b)
  }

  /** The ranges, in any order, cover each of the bits 0..size-1 once and no others. */
  ghost predicate Tiles(rs: seq<Range>, size: nat) {
    forall b: nat :: Cover(rs, b) == if b < size then 1 else 0
  }

  /** The sum of bit b of x times 2^b, each taken as often as the ranges cover it, below bit n. */
  function Weighted(rs: seq<Range>, x: nat, n: nat): nat {
    if n == 0 then 0 else Weighted(rs, x, n - 1) + Cover(rs, n - 1) * (BitAt(x, n - 1) * Pow2(n - 1))
  }

  /** The same for one range, each of its bits once. */
  function BitsOf(x: nat, lo: nat, hi: nat): nat {
    if hi <= lo then 0 else BitsOf(x, lo, hi - 1) + BitAt(x, hi - 1) * Pow2(hi - 1)
  }

  lemma {:induction false} ResetIsBits(x: nat, lsb: nat, w: nat)
    ensures FieldReset(x, lsb, w) * Pow2(lsb) == BitsOf(x, lsb, lsb + w)
    decreases w
  {
    if w > 0 {
      ResetIsBits(x, lsb, w - 1);
      LowBitsNext(ShiftRight(x, lsb), w - 1);
      ShiftTwice(x, lsb, w - 1);
      PowersMultiply(w - 1, lsb);
      var low, bit := FieldReset(x, lsb, w - 1), BitAt(x, lsb + w - 1);
      Distribute(low, bit, Pow2(w - 1), Pow2(lsb));
    }
  }

  lemma {:induction false} Distribute(a: nat, b: nat, p: nat, q: nat)
    ensures (a + b * p) * q == a * q + b * (p * q)
  {
    assert (b * p) * q == b * (p * q);
  }

  lemma {:induction false} WeightedNext(r: Range, rs: seq<Range>, x: nat, n: nat)
    ensures Weighted([r] + rs, x, n) == BitsOf(x, r.0, if n <= r.1 then n else r.1 + 1) + Weighted(rs, x, n)
  {
    if n > 0 {
      WeightedNext(r, rs, x, n - 1);
      var b, v := n - 1, BitAt(x, n - 1) * Pow2(n - 1);
      assert ([r] + rs)[0] == r && ([r] + rs)[1..] == rs;
      assert (1 + Cover(rs, b)) * v == v + Cover(rs, b) * v;
    }
  }

  ghost predicate Below(rs: seq<Range>, n: nat) {
    forall i :: 0 <= i < |rs| ==> rs[i].1 < n
  }

  /** The total counts every bit as often as it is covered. */
  lemma {:induction false} TotalIsWeighted(x: nat, rs: seq<Range>, n: nat)
    requires Below(rs, n)
    ensures Total(Fields(x, rs)) == Weighted(rs, x, n)
  {
    if rs == [] {
      NothingWeighted(x, n);
    } else {
      var r, rest := rs[0], rs[1..];
      assert Below(rest, n) && rs == [r] + rest;
      TotalIsWeighted(x, rest, n);
      assert Fields(x, rs)[1..] == Fields(x, rest);
      ResetIsBits(x, r.0, r.1 - r.0 + 1);
      WeightedNext(r, rest, x, n);
    }
  }

  lemma {:induction false} NothingWeighted(x: nat, n: nat)
    ensures Weighted([], x, n) == 0
  {
    if n > 0 {
      NothingWeighted(x, n - 1);
    }
  }

  lemma {:induction false} TiledWeight(rs: seq<Range>, x: nat, size: nat, n: nat)
    requires Tiles(rs, size) && n <= size
    ensures Weighted(rs, x, n) == BitsOf(x, 0, n)
  {
    if n > 0 {
      TiledWeight(rs, x, size, n - 1);
      assert Cover(rs, n - 1) == 1;
    }
  }

  lemma {:induction false} WholeIsBits(x: nat, size: nat)
    ensures x % Pow2(size) == BitsOf(x, 0, size)
  {
    ResetIsBits(x, 0, size);
    LowBitsIsRemainder(x, size);
  }

  lemma {:induction false} CoversItsEnd(rs: seq<Range>, i: nat)
    requires i < |rs|
    ensures Cover(rs, rs[i].1) > 0
  {
    if i > 0 {
      CoversItsEnd(rs[1..], i - 1);
    }
  }

  /** Whenever the ranges tile the register, the field resets add up to its reset value, for every
      value and any order of the fields. */
  lemma {:induction false} TilingConserves(rs: seq<Range>, x: nat, size: nat)
    requires Tiles(rs, size)
    ensures Total(Fields(x, rs)) == x % Pow2(size)
  {
    forall i | 0 <= i < |rs|
      ensures rs[i].1 < size
    {
      CoversItsEnd(rs, i);
      assert Cover(rs, rs[i].1) == if rs[i].1 < size then 1 else 0;
    }
    TotalIsWeighted(x, rs, size);
    TiledWeight(rs, x, size, size);
    WholeIsBits(x, size);
  }

  // ---- and only then ----

  lemma {:induction false} BitOfPower(b: nat, c: nat)
    ensures BitAt(Pow2(b), c) == if b == c then 1 else 0
    decreases c
  {
    if c > 0 {
      if b > 0 {
        assert Pow2(b) / 2 == Pow2(b - 1);
        BitOfPower(b - 1, c - 1);
      } else {
        ShiftedZero(c - 1);
      }
    } else if b > 0 {
      assert Pow2(b) == 2 * Pow2(b - 1);
    }
  }

  lemma {:induction false} ShiftedZero(c: nat)
    ensures ShiftRight(0, c) == 0
    decreases c
  {
    if c > 0 {
      ShiftedZero(c - 1);
    }
  }

  lemma {:induction false} WeightOfPower(rs: seq<Range>, b: nat, n: nat)
    ensures Weighted(rs, Pow2(b), n) == if b < n then Cover(rs, b) * Pow2(b) else 0
    decreases n
  {
    if n > 0 {
      WeightOfPower(rs, b, n - 1);
      BitOfPower(b, n - 1);
    }
  }

  lemma {:induction false} BitsOfPower(b: nat, n: nat)
    ensures BitsOf(Pow2(b), 0, n) == if b < n then Pow2(b) else 0
    decreases n
  {
    if n > 0 {
      BitsOfPower(b, n - 1);
      BitOfPower(b, n - 1);
    }
  }

  function Bound(rs: seq<Range>): (n: nat)
    ensures Below(rs, n)
  {
    if rs == [] then 0
    else
      var m := Bound(rs[1..]);
      assert forall i :: 0 < i < |rs| ==> rs[i] == rs[1..][i - 1];
      if rs[0].1 < m then m else rs[0].1 + 1
  }

  lemma {:induction false} BelowMore(rs: seq<Range>, b: nat)
    ensures exists n :: n > b && Below(rs, n)
  {
    var n := if Bound(rs) > b then Bound(rs) else b + 1;
    assert Below(rs, n);
  }

  lemma {:induction false} CancelPower(c: nat, d: nat, p: nat)
    requires p > 0 && c * p == d * p
    ensures c == d
  {}

  /** The resets add up to the register's for every reset value exactly when the ranges tile it. */
  lemma {:induction false} ConservesIffTiles(rs: seq<Range>, size: nat)
    ensures (forall x: nat :: Total(Fields(x, rs)) == x % Pow2(size)) <==> Tiles(rs, size)
  {
    if Tiles(rs, size) {
      forall x: nat
        ensures Total(Fields(x, rs)) == x % Pow2(size)
      {
        TilingConserves(rs, x, size);
      }
    }
    if forall x: nat :: Total(Fields(x, rs)) == x % Pow2(size) {
      forall b: nat
        ensures Cover(rs, b) == if b < size then 1 else 0
      {
        BelowMore(rs, b);
        var n: nat :| n > b && Below(rs, n);
        TotalIsWeighted(Pow2(b), rs, n);
        WeightOfPower(rs, b, n);
        WholeIsBits(Pow2(b), size);
        BitsOfPower(b, size);
        CancelPower(Cover(rs, b), if b < size then 1 else 0, Pow2(b));
      }
    }
  }

  /** Every field reset fits its width. */
  lemma {:induction false} ResetFits(reset: nat, r: Range)
    ensures FieldOf(reset, r).reset < Pow2(FieldOf(reset, r).width)
  {
    LowBitsIsRemainder(ShiftRight(reset, r.0), r.1 - r.0 + 1);
  }
}
