/** The byte-enabled, wrapping simulation memory
    (Toooba/src_Core/BSV_Additional_Libs/BlueStuff/BlueUtils/MemSim.c). */
module MemSim {
  import opened Arithmetic
  import opened Wrappers
  import opened PyText

  const TWO64 := 0x1_0000_0000_0000_0000

  type u64 = n: int | 0 <= n < TWO64

  /** `(addr+i) % size`, with the 64-bit wrap of the addition. */
  function ActualAddr(addr: u64, i: nat, size: nat): (a: nat)
    requires size > 0
    ensures a < size
  {
    (addr + i) % TWO64 % size
  }

  /** n after i divisions by d. */
  function Shifted(n: nat, d: nat, i: nat): nat
    requires d > 0
  {
    if i == 0 then n else Shifted(n, d, i - 1) / d
  }

  /** Byte i of a word in little-endian order. */
  function Lane(data: nat, i: nat): byte {
    Shifted(data, 256, i) % 256
  }

  /** Bit i of the byte-enable mask. */
  predicate Enabled(be: nat, i: nat) {
    Shifted(be, 2, i) % 2 == 1
  }

  /** The highest enabled lane below n that lands on byte x. */
  function LaneFor(addr: u64, be: nat, size: nat, x: nat, n: nat): (lane: Option<nat>)
    requires size > 0
    ensures lane.Some? ==>
              && lane.value < n && Enabled(be, lane.value) && ActualAddr(addr, lane.value, size) == x
              && forall j :: lane.value < j < n && Enabled(be, j) ==> ActualAddr(addr, j, size) != x
    ensures lane.None? ==> forall j :: 0 <= j < n && Enabled(be, j) ==> ActualAddr(addr, j, size) != x
  {
    if n == 0 then None
    else if Enabled(be, n - 1) && ActualAddr(addr, n - 1, size) == x then Some(n - 1)
    else LaneFor(addr, be, size, x, n - 1)
  }

  /** Byte x after a write: what the lane for it carries, or what it was. */
  function ByteAfter(before: seq<byte>, addr: u64, be: byte, data: u64, x: nat, n: nat): byte
    requires x < |before|
  {
    match LaneFor(addr, be, |before|, x, n)
    case None => before[x]
    case Some(i) => Lane(data, i)
  }

  function After(m: seq<byte>, addr: u64, be: byte, data: u64): (r: seq<byte>)
    ensures |r| == |m|
  {
    seq(|m|, x requires 0 <= x < |m| => ByteAfter(m, addr, be, data, x, 8))
  }

  /** The n bytes from an address on. */
  function BytesAt(m: seq<byte>, addr: u64, n: nat): (r: seq<byte>)
    requires |m| > 0
    ensures |r| == n
  {
    seq(n, i requires 0 <= i < n => m[ActualAddr(addr, i, |m|)])
  }

  class Mem {
    const data: array<byte>

    constructor (size: nat)
      ensures data.Length == size && fresh(data)
    {
      data := new byte[size](_ => 0);
    }

    method Write(addr: u64, be: byte, value: u64)
      requires data.Length > 0
      modifies data
      ensures data[..] == After(old(data[..]), addr, be, value)
    {
      ghost var before := data[..];
      var mask, rest := be as nat, value as nat;
      for i := 0 to 8
        invariant mask == Shifted(be, 2, i) && rest == Shifted(value, 256, i)
        invariant forall x :: 0 <= x < data.Length ==> data[x] == ByteAfter(before, addr, be, value, x, i)
      {
        var actual := ActualAddr(addr, i, data.Length);
        if mask % 2 == 1 {
          data[actual] := rest % 256;
        }
        mask, rest := mask / 2, rest / 256;
      }
    }

    /** Reads at most one word; more would write past the result. */
    method Read(addr: u64, size: nat) returns (value: nat)
      requires data.Length > 0 && size <= 8
      ensures value == LittleEndian(BytesAt(data[..], addr, size))
    {
      var bytes := new byte[8](_ => 0);
      for i := 0 to size
        invariant bytes[..i] == BytesAt(data[..], addr, i)
        invariant forall k :: i <= k < 8 ==> bytes[k] == 0
      {
        bytes[i] := data[ActualAddr(addr, i, data.Length)];
      }
      PadValue(bytes[..size], bytes[size..]);
      assert bytes[..] == bytes[..size] + bytes[size..];
      value := LittleEndian(bytes[..]);
    }
  }

  lemma {:induction false} PadValue(s: seq<byte>, zeros: seq<byte>)
    requires forall i :: 0 <= i < |zeros| ==> zeros[i] == 0
    ensures LittleEndian(s + zeros) == LittleEndian(s)
  {
    if s != [] {
      PadValue(s[1..], zeros);
      assert (s + zeros)[0] == s[0] && (s + zeros)[1..] == s[1..] + zeros;
    } else if zeros != [] {
      PadValue([], zeros[1..]);
      assert s + zeros == zeros && [] + zeros[1..] == zeros[1..];
    }
  }

  // ---- read after write ----

  /** With at least 8 bytes and no 64-bit wrap, the 8 lanes land on 8 different bytes. */
  lemma {:induction false} LanesApart(addr: u64, i: nat, j: nat, size: nat)
    requires size >= 8 && addr + 7 < TWO64 && i < j < 8
    ensures ActualAddr(addr, i, size) != ActualAddr(addr, j, size)
  {
    var a, b := addr + i, addr + j;
    assert a % TWO64 == a && b % TWO64 == b;
    if a % size == b % size {
      SameRemainder(a, b, size);
      assert false;
    }
  }

  lemma {:induction false} SameRemainder(a: nat, b: nat, size: nat)
    requires size > 0 && a < b && a % size == b % size
    ensures b - a >= size
  {
    assert a == size * (a / size) + a % size && b == size * (b / size) + b % size;
    MulOrder(size, a / size, b / size);
    MulOrder(size, b / size, a / size);
  }

  /** No two of the 8 lanes land on one byte. */
  ghost predicate AllApart(addr: u64, size: nat)
    requires size > 0
  {
    forall i, j :: 0 <= i < j < 8 ==> ActualAddr(addr, i, size) != ActualAddr(addr, j, size)
  }

  lemma {:induction false} AllApartIff(addr: u64, size: nat)
    requires size > 0 && addr + 7 < TWO64
    ensures AllApart(addr, size) <==> size >= 8
  {
    if size >= 8 {
      forall i, j | 0 <= i < j < 8
        ensures ActualAddr(addr, i, size) != ActualAddr(addr, j, size)
      {
        LanesApart(addr, i, j, size);
      }
    } else {
      LanesMeet(addr, size);
    }
  }

  lemma {:induction false} LanesMeet(addr: u64, size: nat)
    requires 0 < size < 8 && addr + 7 < TWO64
    ensures ActualAddr(addr, 0, size) == ActualAddr(addr, size, size)
  {
    var a, b := addr as nat, addr + size;
    assert a % TWO64 == a && b % TWO64 == b;
    OnceAround(a, size);
  }

  lemma {:induction false} OnceAround(a: nat, size: nat)
    requires size > 0
    ensures (a + size) % size == a % size
  {
    MulNext(size, a / size);
    DivModIs(a + size, size, a / size + 1, a % size);
  }

  /** Lane i of what a read returns when it follows a write at the same address. */
  function MergedLane(m: seq<byte>, addr: u64, be: byte, data: u64, i: nat): byte
    requires |m| > 0
  {
    if Enabled(be, i) then Lane(data, i) else m[ActualAddr(addr, i, |m|)]
  }

  /** A read after a write at one address gives exactly the merged bytes, wherever the lanes land apart. */
  lemma {:induction false} ReadAfterWrite(m: seq<byte>, addr: u64, be: byte, data: u64, n: nat)
    requires |m| > 0 && AllApart(addr, |m|) && n <= 8
    ensures BytesAt(After(m, addr, be, data), addr, n) ==
            seq(n, i requires 0 <= i < n => MergedLane(m, addr, be, data, i))
  {
    forall i | 0 <= i < n
      ensures BytesAt(After(m, addr, be, data), addr, n)[i] == MergedLane(m, addr, be, data, i)
    {
      var x := ActualAddr(addr, i, |m|);
      var lane := LaneFor(addr, be, |m|, x, 8);
      assert lane.None? || lane.value == i;
    }
  }

  lemma {:induction false} ShiftFirst(n: nat, d: nat, i: nat)
    requires d > 0
    ensures Shifted(n, d, i + 1) == Shifted(n / d, d, i)
  {
    if i > 0 {
      ShiftFirst(n, d, i - 1);
    }
  }

  lemma {:induction false} LanesValue(data: nat, n: nat)
    requires data < Pow16(2 * n)
    ensures LittleEndian(seq(n, i requires 0 <= i < n => Lane(data, i))) == data
    decreases n
  {
    if n > 0 {
      var s := seq(n, i requires 0 <= i < n => Lane(data, i));
      var t := seq(n - 1, i requires 0 <= i < n - 1 => Lane(data / 256, i));
      forall i | 0 <= i < n - 1
        ensures s[1..][i] == t[i]
      {
        ShiftFirst(data, 256, i);
      }
      assert s[1..] == t;
      assert Pow16(2 * n) == 16 * (16 * Pow16(2 * (n - 1)));
      LanesValue(data / 256, n - 1);
    }
  }

  /** What is read back at the address of a full write. */
  function ReadBack(m: seq<byte>, addr: u64, data: u64): nat
    requires |m| > 0
  {
    LittleEndian(BytesAt(After(m, addr, 255, data), addr, 8))
  }

  lemma {:induction false} ReadBackWhole(m: seq<byte>, addr: u64, data: u64)
    requires |m| > 0 && AllApart(addr, |m|)
    ensures ReadBack(m, addr, data) == data
  {
    ReadAfterWrite(m, addr, 255, data, 8);
    AllEnabled();
    assert BytesAt(After(m, addr, 255, data), addr, 8) == seq(8, i requires 0 <= i < 8 => Lane(data, i));
    PowTwo64();
    LanesValue(data, 8);
  }

  lemma {:induction false} LaneOfBytes(bytes: seq<byte>, k: nat)
    requires k < |bytes|
    ensures Lane(LittleEndian(bytes), k) == bytes[k]
  {
    if k > 0 {
      ShiftFirst(LittleEndian(bytes), 256, k - 1);
      LaneOfBytes(bytes[1..], k - 1);
    }
  }

  lemma {:induction false} LittleEndianBound(bytes: seq<byte>)
    ensures LittleEndian(bytes) < Pow16(2 * |bytes|)
  {
    if bytes != [] {
      LittleEndianBound(bytes[1..]);
      var n := 2 * |bytes[1..]|;
      assert Pow16(n + 2) == 16 * Pow16(n + 1) == 16 * (16 * Pow16(n));
    }
  }

  /** When two lanes meet, some word is not read back. */
  lemma {:induction false} WordLost(m: seq<byte>, addr: u64, i: nat, j: nat) returns (data: u64)
    requires |m| > 0 && i < j < 8 && ActualAddr(addr, i, |m|) == ActualAddr(addr, j, |m|)
    ensures ReadBack(m, addr, data) != data
  {
    var bytes: seq<byte> := seq(8, k requires 0 <= k < 8 => if k == i then 1 else 0);
    LittleEndianBound(bytes);
    PowTwo64();
    data := LittleEndian(bytes);
    var read := BytesAt(After(m, addr, 255, data), addr, 8);
    assert read[i] == read[j];
    LaneOfBytes(bytes, i);
    LaneOfBytes(bytes, j);
    LaneOfBytes(read, i);
    LaneOfBytes(read, j);
  }

  /** Every word is read back, at an address, exactly when the 8 lanes land on 8 different bytes. */
  lemma {:induction false} ReadBackIff(m: seq<byte>, addr: u64)
    requires |m| > 0
    ensures (forall data: u64 :: ReadBack(m, addr, data) == data) <==> AllApart(addr, |m|)
  {
    if AllApart(addr, |m|) {
      forall data: u64
        ensures ReadBack(m, addr, data) == data
      {
        ReadBackWhole(m, addr, data);
      }
    } else {
      var i, j :| 0 <= i < j < 8 && ActualAddr(addr, i, |m|) == ActualAddr(addr, j, |m|);
      var data := WordLost(m, addr, i, j);
    }
  }

  /** Without 64-bit wrap that is so exactly when the memory has at least 8 bytes. */
  lemma {:induction false} FullWordRoundTrip(m: seq<byte>, addr: u64)
    requires |m| > 0 && addr + 7 < TWO64
    ensures (forall data: u64 :: LittleEndian(BytesAt(After(m, addr, 255, data), addr, 8)) == data) <==> |m| >= 8
  {
    ReadBackIff(m, addr);
    AllApartIff(addr, |m|);
    assert forall data: u64 :: ReadBack(m, addr, data) == LittleEndian(BytesAt(After(m, addr, 255, data), addr, 8));
  }

  lemma {:induction false} PowTwo64()
    ensures Pow16(16) == TWO64
  {
    assert Pow16(4) == 16 * Pow16(3) == 256 * Pow16(2) == 0x1_0000;
    assert Pow16(8) == 16 * Pow16(7) == 256 * Pow16(6) == 4096 * Pow16(5) == 0x1_0000 * Pow16(4);
    assert Pow16(12) == 16 * Pow16(11) == 256 * Pow16(10) == 4096 * Pow16(9) == 0x1_0000 * Pow16(8);
    assert Pow16(16) == 16 * Pow16(15) == 256 * Pow16(14) == 4096 * Pow16(13) == 0x1_0000 * Pow16(12);
  }

  lemma {:induction false} AllEnabled()
    ensures forall i :: 0 <= i < 8 ==> Enabled(255, i)
  {
    assert Shifted(255, 2, 1) == 127 && Shifted(255, 2, 2) == 63 && Shifted(255, 2, 3) == 31;
    assert Shifted(255, 2, 4) == 15 && Shifted(255, 2, 5) == 7 && Shifted(255, 2, 6) == 3;
    assert Shifted(255, 2, 7) == 1;
  }

  // ---- commuting writes ----

  /** Some enabled lane lands on byte x. */
  predicate Touches(addr: u64, be: byte, size: nat, x: nat)
    requires size > 0
  {
    LaneFor(addr, be, size, x, 8).Some?
  }

  /** Writes that touch no common byte can be swapped. */
  lemma {:induction false} WritesCommute(m: seq<byte>, addr1: u64, be1: byte, data1: u64,
                                         addr2: u64, be2: byte, data2: u64)
    requires |m| > 0
    requires forall x :: 0 <= x < |m| ==> !(Touches(addr1, be1, |m|, x) && Touches(addr2, be2, |m|, x))
    ensures After(After(m, addr1, be1, data1), addr2, be2, data2) ==
            After(After(m, addr2, be2, data2), addr1, be1, data1)
  {
    var a, b := After(m, addr1, be1, data1), After(m, addr2, be2, data2);
    var ab, ba := After(a, addr2, be2, data2), After(b, addr1, be1, data1);
    forall x | 0 <= x < |m|
      ensures ab[x] == ba[x]
    {
      assert !(Touches(addr1, be1, |m|, x) && Touches(addr2, be2, |m|, x));
    }
  }

  // ---- the same in plain arithmetic ----

  /** Bit i of the mask, and byte i of a word. */
  predicate Bit(be: nat, i: nat) {
    i < 8 && be / [1, 2, 4, 8, 16, 32, 64, 128][i] % 2 == 1
  }

  function ByteOf(data: nat, i: nat): byte
    requires i < 8
  {
    data / [1, 0x100, 0x1_0000, 0x100_0000, 0x1_0000_0000, 0x100_0000_0000, 0x1_0000_0000_0000,
            0x100_0000_0000_0000][i] % 256
  }

  lemma {:induction false} ShiftedIs(n: nat, d: nat, i: nat, p: nat, q: nat)
    requires d > 0 && p > 0 && Shifted(n, d, i) == n / p && q == p * d
    ensures q > 0 && Shifted(n, d, i + 1) == n / q
  {
    DivDiv(n, p, d, q);
  }

  lemma {:induction false} EnabledIs(be: nat, i: nat)
    requires i < 8
    ensures Enabled(be, i) <==> Bit(be, i)
  {
    ShiftedIs(be, 2, 0, 1, 2);
    ShiftedIs(be, 2, 1, 2, 4);
    ShiftedIs(be, 2, 2, 4, 8);
    ShiftedIs(be, 2, 3, 8, 16);
    ShiftedIs(be, 2, 4, 16, 32);
    ShiftedIs(be, 2, 5, 32, 64);
    ShiftedIs(be, 2, 6, 64, 128);
  }

  lemma {:induction false} LaneIs(data: nat, i: nat)
    requires i < 8
    ensures Lane(data, i) == ByteOf(data, i)
  {
    ShiftedIs(data, 256, 0, 1, 0x100);
    ShiftedIs(data, 256, 1, 0x100, 0x1_0000);
    ShiftedIs(data, 256, 2, 0x1_0000, 0x100_0000);
    ShiftedIs(data, 256, 3, 0x100_0000, 0x1_0000_0000);
    ShiftedIs(data, 256, 4, 0x1_0000_0000, 0x100_0000_0000);
    ShiftedIs(data, 256, 5, 0x100_0000_0000, 0x1_0000_0000_0000);
    ShiftedIs(data, 256, 6, 0x1_0000_0000_0000, 0x100_0000_0000_0000);
  }

  /** Lane i goes to the address plus i, less 2^64 when that is reached, modulo the size. */
  lemma {:induction false} AddressIs(addr: u64, i: nat, size: nat)
    requires size > 0 && i < 0x1_0000_0000_0000_0000
    ensures ActualAddr(addr, i, size) ==
            (if addr + i < 0x1_0000_0000_0000_0000 then addr + i else addr + i - 0x1_0000_0000_0000_0000) % size
  {}

  /** A read gives the bytes at the address and behind it, modulo the size. */
  lemma {:induction false} ReadByPosition(m: seq<byte>, addr: u64, n: nat, i: nat)
    requires |m| > 0 && i < n && addr + i < 0x1_0000_0000_0000_0000
    ensures |BytesAt(m, addr, n)| == n && BytesAt(m, addr, n)[i] == m[(addr + i) % |m|]
  {
    AddressIs(addr, i, |m|);
  }

  /** Byte x of the memory is the one that lane i lands on, and no higher enabled lane does. */
  ghost predicate Decides(addr: nat, be: nat, size: nat, x: nat, i: nat)
    requires size > 0
  {
    Bit(be, i) && (addr + i) % size == x && forall j: nat :: i < j && Bit(be, j) ==> (addr + j) % size != x
  }

  /** After a write byte x is byte i of the word for the highest enabled lane i that lands on it, and
      what it was when there is none. */
  lemma {:induction false} WriteByPosition(m: seq<byte>, addr: u64, be: byte, data: u64, x: nat)
    requires x < |m| && addr + 7 < 0x1_0000_0000_0000_0000
    ensures forall i: nat :: Decides(addr, be, |m|, x, i) ==> After(m, addr, be, data)[x] == ByteOf(data, i)
    ensures (forall i: nat :: Bit(be, i) ==> (addr + i) % |m| != x) ==> After(m, addr, be, data)[x] == m[x]
  {
    forall i: nat | i < 8
      ensures ActualAddr(addr, i, |m|) == (addr + i) % |m|
      ensures Enabled(be, i) <==> Bit(be, i)
      ensures Lane(data, i) == ByteOf(data, i)
    {
      AddressIs(addr, i, |m|);
      EnabledIs(be, i);
      LaneIs(data, i);
    }
    var lane := LaneFor(addr, be, |m|, x, 8);
    forall i: nat | Decides(addr, be, |m|, x, i)
      ensures lane == Some(i)
    {
      assert lane.Some?;
    }
  }

  lemma {:induction false} InsideIsPlain(a: nat, size: nat)
    requires a < size
    ensures a % size == a
  {}

  /** A write inside the memory leaves every byte outside its 8 alone. */
  lemma {:induction false} WriteStaysInside(m: seq<byte>, addr: u64, be: byte, data: u64, x: nat)
    requires addr + 8 <= |m| && |m| <= 0x1_0000_0000_0000_0000 && x < |m| && !(addr <= x < addr + 8)
    ensures After(m, addr, be, data)[x] == m[x]
  {
    forall i: nat | Bit(be, i)
      ensures (addr + i) % |m| != x
    {
      InsideIsPlain(addr + i, |m|);
    }
    WriteByPosition(m, addr, be, data, x);
  }

  /** So a read at another address, clear of the 8 bytes, gives what it gave before. */
  lemma {:induction false} ReadElsewhere(m: seq<byte>, addr: u64, be: byte, data: u64, other: u64, n: nat)
    requires addr + 8 <= |m| && other + n <= |m| && |m| <= 0x1_0000_0000_0000_0000
    requires other + n <= addr || addr + 8 <= other
    ensures BytesAt(After(m, addr, be, data), other, n) == BytesAt(m, other, n)
  {
    forall i | 0 <= i < n
      ensures BytesAt(After(m, addr, be, data), other, n)[i] == BytesAt(m, other, n)[i]
    {
      InsideIsPlain(other + i, |m|);
      ReadByPosition(m, other, n, i);
      ReadByPosition(After(m, addr, be, data), other, n, i);
      WriteStaysInside(m, addr, be, data, other + i);
    }
  }
}
