/** The two boot ROM generators and their C header
    (cva6/corev_apu/bootrom/gen_rom.py, cva6/corev_apu/riscv-dbg/debug_rom/gen_rom.py). */
module RomGen {
  import opened Arithmetic
  import opened PyText

  // ---- read_bin ----

  /** The image, and as few zeros behind it as a multiple of 8 bytes takes. */
  method ReadBin(image: seq<byte>) returns (rom: seq<byte>)
    ensures |rom| % 8 == 0 && |image| <= |rom| < |image| + 8
    ensures rom[..|image|] == image && forall i :: |image| <= i < |rom| ==> rom[i] == 0
  {
    var align := (|image| + 7) / 8 * 8;
    rom := image;
    for i := |image| to align
      invariant |rom| == i && rom[..|image|] == image
      invariant forall k :: |image| <= k < |rom| ==> rom[k] == 0
    {
      rom := rom + [0];
    }
  }

  // ---- the texts ----

  /** The elements of the C array. */
  function Header(rom: seq<byte>): (words: seq<string>) {
    seq(|rom| / 4, i requires 0 <= i < |rom| / 4 => WordText(rom, i))
  }

  method GenerateH(rom: seq<byte>) returns (words: seq<string>)
    ensures words == Header(rom)
  {
    words := [];
    for i := 0 to |rom| / 4
      invariant words == Header(rom)[..i]
    {
      words := words + [BytesHex(Reversed(rom[i * 4..i * 4 + 4]))];
    }
  }

  /** The literal for the 8 bytes from 8k on. */
  function Literal(rom: seq<byte>, k: nat): string
    requires 8 * k + 8 <= |rom|
  {
    BytesHex(Reversed(rom[8 * k + 4..8 * k + 8])) + "_" + BytesHex(Reversed(rom[8 * k..8 * k + 4]))
  }

  /** The literals in the order of the text, which is from the last word to the first. */
  function Literals(rom: seq<byte>): (lits: seq<string>)
  {
    var n := |rom| / 8;
    seq(n, i requires 0 <= i < n => Literal(rom, n - 1 - i))
  }

  /** The boot ROM generator reverses the whole image and then takes it in words. */
  method GenerateSv(rom: seq<byte>) returns (lits: seq<string>)
    requires |rom| % 8 == 0
    ensures lits == Literals(rom)
  {
    lits := [];
    var rev := Reversed(rom);
    var n := |rom| / 8;
    for i := 0 to n
      invariant lits == Literals(rom)[..i]
    {
      var k := n - 1 - i;
      assert |rom| - i * 8 == 8 * k + 8 && Literals(rom)[i] == Literal(rom, k);
      SliceOfReversed(rom, i * 8, i * 8 + 4);
      SliceOfReversed(rom, i * 8 + 4, i * 8 + 8);
      lits := lits + [BytesHex(rev[i * 8..i * 8 + 4]) + "_" + BytesHex(rev[i * 8 + 4..i * 8 + 8])];
    }
  }

  lemma {:induction false} SliceOfReversed(rom: seq<byte>, lo: nat, hi: nat)
    requires lo <= hi <= |rom|
    ensures Reversed(rom)[lo..hi] == Reversed(rom[|rom| - hi..|rom| - lo])
  {}

  /** The debug ROM generator takes the words from the last to the first and reverses each half. */
  method GenerateDebugSv(rom: seq<byte>) returns (lits: seq<string>)
    ensures lits == Literals(rom)
  {
    lits := [];
    var n := |rom| / 8;
    for i := n downto 0
      invariant lits == Literals(rom)[..n - i]
    {
      assert Literals(rom)[n - 1 - i] == Literal(rom, i);
      lits := lits + [BytesHex(Reversed(rom[i * 8 + 4..i * 8 + 8])) + "_" + BytesHex(Reversed(rom[i * 8..i * 8 + 4]))];
    }
  }

  // ---- what the texts mean ----

  /** Section 5.7.1 of IEEE 1800-2017: underscores in a number are ignored. */
  ghost predicate SvValue(lit: string, value: nat) {
    AllHex(Without('_', lit)) && HexValue(Without('_', lit)) == value
  }

  /** Section 11.4.12 of IEEE 1800-2017: in a concatenation the leftmost operand takes the highest
      index of the packed array [RomSize-1:0]. */
  function Mem(lits: seq<string>, k: nat): string
    requires k < |lits|
  {
    lits[|lits| - 1 - k]
  }

  lemma {:induction false} LittleEndianConcat(a: seq<byte>, b: seq<byte>)
    ensures LittleEndian(a + b) == LittleEndian(a) + Pow16(2 * |a|) * LittleEndian(b)
  {
    if a == [] {
      assert a + b == b;
    } else {
      LittleEndianConcat(a[1..], b);
      assert (a + b)[0] == a[0] && (a + b)[1..] == a[1..] + b;
      PowByte(|a| - 1);
      MulAssociates(256, Pow16(2 * (|a| - 1)), LittleEndian(b));
    }
  }

  lemma {:induction false} PowByte(n: nat)
    ensures Pow16(2 * (n + 1)) == 256 * Pow16(2 * n)
  {
    assert Pow16(2 * n + 2) == 16 * Pow16(2 * n + 1) == 16 * (16 * Pow16(2 * n));
  }

  /** Eight lower-case digits. */
  predicate IsWordText(s: string) {
    |s| == 8 && LowerHex(s)
  }

  /** The C words are texts of 8 digits, and the literals two of them with an underscore between. */
  lemma {:induction false} TextShapes(rom: seq<byte>)
    requires |rom| % 8 == 0
    ensures |Header(rom)| == |rom| / 4 && forall i :: 0 <= i < |rom| / 4 ==> IsWordText(Header(rom)[i])
    ensures |Literals(rom)| == |rom| / 8
    ensures forall i :: 0 <= i < |rom| / 8 ==>
              var s := Literals(rom)[i]; |s| == 17 && IsWordText(s[..8]) && s[8] == '_' && IsWordText(s[9..])
  {
    forall i | 0 <= i < |rom| / 4
      ensures IsWordText(Header(rom)[i])
    {
      BytesHexLower(Reversed(rom[4 * i..4 * i + 4]));
    }
    forall i | 0 <= i < |rom| / 8
      ensures var s := Literals(rom)[i]; |s| == 17 && IsWordText(s[..8]) && s[8] == '_' && IsWordText(s[9..])
    {
      LiteralShape(rom, |rom| / 8 - 1 - i);
    }
  }

  lemma {:induction false} LiteralShape(rom: seq<byte>, k: nat)
    requires 8 * k + 8 <= |rom|
    ensures var s := Literal(rom, k); |s| == 17 && IsWordText(s[..8]) && s[8] == '_' && IsWordText(s[9..])
  {
    var h, l := BytesHex(Reversed(rom[8 * k + 4..8 * k + 8])), BytesHex(Reversed(rom[8 * k..8 * k + 4]));
    BytesHexLower(Reversed(rom[8 * k + 4..8 * k + 8]));
    BytesHexLower(Reversed(rom[8 * k..8 * k + 4]));
    assert Literal(rom, k)[..8] == h && Literal(rom, k)[9..] == l;
  }

  /** For every image, word k of the SystemVerilog ROM is the little-endian number of bytes
      8k..8k+7, and equals the two C words 2k and 2k+1. */
  lemma {:induction false} RomAgreement(rom: seq<byte>, k: nat)
    requires |rom| % 8 == 0 && k < |rom| / 8
    ensures |Literals(rom)| == |rom| / 8 && |Header(rom)| == 2 * |Literals(rom)|
    ensures SvValue(Mem(Literals(rom), k), LittleEndian(rom[8 * k..8 * k + 8]))
    ensures AllHex(Header(rom)[2 * k]) && AllHex(Header(rom)[2 * k + 1])
    ensures LittleEndian(rom[8 * k..8 * k + 8]) ==
            HexValue(Header(rom)[2 * k]) + 0x1_0000_0000 * HexValue(Header(rom)[2 * k + 1])
  {
    Sizes(rom);
    LiteralValue(rom, k);
    HeaderValue(rom, 2 * k, 8 * k);
    HeaderValue(rom, 2 * k + 1, 8 * k + 4);
    TwoHalves(rom, 8 * k);
  }

  lemma {:induction false} Sizes(rom: seq<byte>)
    requires |rom| % 8 == 0
    ensures |rom| / 4 == 2 * (|rom| / 8)
    ensures |Literals(rom)| == |rom| / 8 && |Header(rom)| == |rom| / 4
    ensures forall k :: 0 <= k < |rom| / 8 ==> Mem(Literals(rom), k) == Literal(rom, k)
  {}

  lemma {:induction false} HeaderValue(rom: seq<byte>, i: nat, lo: nat)
    requires i < |rom| / 4 && lo == 4 * i
    ensures AllHex(Header(rom)[i]) && HexValue(Header(rom)[i]) == LittleEndian(rom[lo..lo + 4])
  {
    ReversedHex(rom[lo..lo + 4]);
  }

  lemma {:induction false} TwoHalves(rom: seq<byte>, lo: nat)
    requires lo + 8 <= |rom|
    ensures LittleEndian(rom[lo..lo + 8]) ==
            LittleEndian(rom[lo..lo + 4]) + 0x1_0000_0000 * LittleEndian(rom[lo + 4..lo + 8])
  {
    var low, high := rom[lo..lo + 4], rom[lo + 4..lo + 8];
    assert rom[lo..lo + 8] == low + high;
    LittleEndianConcat(low, high);
    PowersOf16();
  }

  lemma {:induction false} PowersOf16()
    ensures Pow16(8) == 0x1_0000_0000
  {
    assert Pow16(4) == 16 * Pow16(3) == 256 * Pow16(2) == 0x1_0000;
    assert Pow16(8) == 16 * Pow16(7) == 256 * Pow16(6) == 4096 * Pow16(5) == 0x1_0000 * Pow16(4);
  }

  lemma {:induction false} LiteralValue(rom: seq<byte>, k: nat)
    requires 8 * k + 8 <= |rom|
    ensures SvValue(Literal(rom, k), LittleEndian(rom[8 * k..8 * k + 8]))
  {
    var lo, hi := rom[8 * k..8 * k + 4], rom[8 * k + 4..8 * k + 8];
    var l, h := BytesHex(Reversed(lo)), BytesHex(Reversed(hi));
    WithoutConcat('_', h + "_", l);
    WithoutConcat('_', h, "_");
    assert "_"[1..] == "";
    HexHasNoUnderscore(h);
    HexHasNoUnderscore(l);
    assert Without('_', Literal(rom, k)) == h + l;
    ReversedConcat(lo, hi);
    BytesHexConcat(Reversed(hi), Reversed(lo));
    assert lo + hi == rom[8 * k..8 * k + 8];
    ReversedHex(lo + hi);
  }

  lemma {:induction false} ReversedConcat(a: seq<byte>, b: seq<byte>)
    ensures Reversed(a + b) == Reversed(b) + Reversed(a)
  {}
}
