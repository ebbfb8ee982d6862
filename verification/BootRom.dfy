/** The memhex pipeline: the boot ROM printer, the BSV function generator and the parser of hex lines
    (Toooba/src_Testbench/SoC/Boot_ROM_Generator/gen_bootrom.cc, Gen_BSV_fn_read_ROM.py in the same
    directory, Toooba/src_Core/BSV_Additional_Libs/BlueStuff/BlueUtils/MemSim.c). */
module BootRom {
  import opened Wrappers
  import opened Indices
  import opened PyText

  // ---- gen_bootrom ----

  const ALIGN := 0x1000

  function WordTexts(rom: seq<byte>): seq<string> {
    seq(|rom| / 4, k requires 0 <= k < |rom| / 4 => WordText(rom, k))
  }

  /** The image, and as few zeros behind it as a multiple of 4096 bytes takes. */
  method ResizeRom(image: seq<byte>) returns (rom: seq<byte>)
    ensures |rom| % 0x1000 == 0 && |image| <= |rom| < |image| + 0x1000
    ensures rom[..|image|] == image && forall i :: |image| <= i < |rom| ==> rom[i] == 0
  {
    var size := (|image| + ALIGN - 1) / ALIGN * ALIGN;
    rom := image + seq(size - |image|, _ => 0);
  }

  method PrintRom(rom: seq<byte>) returns (lines: seq<string>)
    requires |rom| % 4 == 0
    ensures lines == ["@ 1000"] + WordTexts(rom)
  {
    lines := ["@ 1000"];
    var i := 0;
    ghost var k := 0;
    while i < |rom|
      invariant i == 4 * k && k <= |rom| / 4
      invariant lines == ["@ 1000"] + WordTexts(rom)[..k]
    {
      var word := PrintWord(rom, i);
      assert WordTexts(rom)[k] == word;
      lines := lines + [word];
      i := i + 4;
      k := k + 1;
    }
    assert WordTexts(rom)[..k] == WordTexts(rom);
  }

  /** The inner loop: `%02x` of each byte, from the last to the first. */
  method PrintWord(rom: seq<byte>, i: nat) returns (text: string)
    requires i + 4 <= |rom|
    ensures text == BytesHex(Reversed(rom[i..i + 4]))
  {
    var word := rom[i..i + 4];
    text := "";
    for j := 4 downto 0
      invariant text == BytesHex(Reversed(word)[..4 - j])
    {
      var next := [rom[i + j]];
      assert Reversed(word)[..4 - j] == Reversed(word)[..4 - j - 1] + next;
      BytesHexConcat(Reversed(word)[..4 - j - 1], next);
      assert BytesHex(next) == ByteHex(rom[i + j]) by {
        assert BytesHex([]) == "" && next[1..] == [];
      }
      text := text + ByteHex(rom[i + j]);
    }
    assert Reversed(word)[..4] == Reversed(word);
  }

  // ---- gen_BSV_ROM_function ----

  /** `label: 32'h_word` */
  datatype Arm = Arm(addr: nat, word: string)

  predicate IsNote(line: string) {
    line != "" && line[0] == '@'
  }

  /** The words of a memhex file: its lines without the `@` ones. */
  function Words(lines: seq<string>, n: nat): seq<string>
    requires n <= |lines|
  {
    if n == 0 then []
    else if IsNote(lines[n - 1]) then Words(lines, n - 1)
    else Words(lines, n - 1) + [lines[n - 1]]
  }

  /** The arms of one of the two functions: word k sits at address 4k, which goes to the first
      function when it is a multiple of 8 and to the second otherwise. */
  function Arms(words: seq<string>, multipleOf8: bool): seq<Arm> {
    if words == [] then []
    else
      var k := |words| - 1;
      var before := Arms(words[..k], multipleOf8);
      if (4 * k % 8 == 0) == multipleOf8 then before + [Arm(4 * k, words[k])] else before
  }

  method GenerateArms(lines: seq<string>) returns (arms0: seq<Arm>, arms4: seq<Arm>, limit: nat)
    ensures var words := Words(lines, |lines|);
            arms0 == Arms(words, true) && arms4 == Arms(words, false) && limit == 4 * |words|
  {
    arms0, arms4, limit := [], [], 0;
    for n := 0 to |lines|
      invariant var words := Words(lines, n);
                arms0 == Arms(words, true) && arms4 == Arms(words, false) && limit == 4 * |words|
    {
      var line := lines[n];
      if IsNote(line) {
        continue;
      }
      var words := Words(lines, n);
      assert (words + [line])[..|words|] == words;
      if limit % 8 == 0 {
        arms0 := arms0 + [Arm(limit, line)];
      } else {
        arms4 := arms4 + [Arm(limit, line)];
      }
      limit := limit + 4;
    }
  }

  /** A BSV `case`: the first arm with the label, or the default. */
  function Lookup(arms: seq<Arm>, addr: nat): Option<string> {
    if arms == [] then None
    else if arms[0].addr == addr then Some(arms[0].word)
    else Lookup(arms[1..], addr)
  }

  function CountArms(arms: seq<Arm>, addr: nat): nat {
    if arms == [] then 0 else (if arms[0].addr == addr then 1 else 0) + CountArms(arms[1..], addr)
  }

  lemma {:induction false} LookupSnoc(arms: seq<Arm>, arm: Arm, addr: nat)
    ensures Lookup(arms + [arm], addr) ==
            if Lookup(arms, addr).Some? then Lookup(arms, addr)
            else if arm.addr == addr then Some(arm.word) else None
    ensures CountArms(arms + [arm], addr) == CountArms(arms, addr) + (if arm.addr == addr then 1 else 0)
  {
    if arms == [] {
      assert (arms + [arm])[1..] == [];
    } else {
      LookupSnoc(arms[1..], arm, addr);
      assert (arms + [arm])[0] == arms[0] && (arms + [arm])[1..] == arms[1..] + [arm];
    }
  }

  /** The address belongs to this one of the two functions. */
  predicate Hits(words: seq<string>, multipleOf8: bool, addr: nat) {
    addr % 4 == 0 && addr / 4 < |words| && (addr % 8 == 0) == multipleOf8
  }

  /** Exactly the addresses that belong to a function have an arm in it, exactly one, with the word. */
  lemma {:induction false} ArmsDecode(words: seq<string>, multipleOf8: bool, addr: nat)
    ensures Lookup(Arms(words, multipleOf8), addr) ==
            if Hits(words, multipleOf8, addr) then Some(words[addr / 4]) else None
    ensures CountArms(Arms(words, multipleOf8), addr) == if Hits(words, multipleOf8, addr) then 1 else 0
  {
    if words != [] {
      var k := |words| - 1;
      ArmsDecode(words[..k], multipleOf8, addr);
      LookupSnoc(Arms(words[..k], multipleOf8), Arm(4 * k, words[k]), addr);
    }
  }

  // ---- the whole pipeline ----

  lemma {:induction false} NotesDropped(lines: seq<string>, n: nat)
    requires n <= |lines| && forall i :: 0 < i < |lines| ==> !IsNote(lines[i])
    requires lines != [] && IsNote(lines[0])
    ensures Words(lines, n) == if n == 0 then [] else lines[1..n]
  {
    if n > 1 {
      NotesDropped(lines, n - 1);
      assert lines[1..n] == lines[1..n - 1] + [lines[n - 1]];
    }
  }

  /** `fn_read_ROM_0` or `fn_read_ROM_4`. */
  function ReadRom(lines: seq<string>, multipleOf8: bool, addr: nat): Option<string> {
    Lookup(Arms(Words(lines, |lines|), multipleOf8), addr)
  }

  lemma {:induction false} PrintedWords(rom: seq<byte>)
    requires |rom| % 4 == 0
    ensures var lines := ["@ 1000"] + WordTexts(rom); Words(lines, |lines|) == WordTexts(rom)
  {
    var lines := ["@ 1000"] + WordTexts(rom);
    forall i | 0 < i < |lines|
      ensures !IsNote(lines[i])
    {
      var text := WordText(rom, i - 1);
      assert lines[i] == text && IsHexDigit(text[0]) && !IsHexDigit('@');
    }
    NotesDropped(lines, |lines|);
  }

  /** Every word is a text of 8 lower-case digits. */
  lemma {:induction false} PrintedShapes(rom: seq<byte>, k: nat)
    requires k < |rom| / 4
    ensures |WordTexts(rom)| == |rom| / 4 && |WordTexts(rom)[k]| == 8 && LowerHex(WordTexts(rom)[k])
  {
    BytesHexLower(Reversed(rom[4 * k..4 * k + 4]));
  }

  predicate Inside(rom: seq<byte>, addr: nat) {
    addr % 4 == 0 && addr < |rom|
  }

  lemma {:induction false} HitsInside(rom: seq<byte>, addr: nat, multipleOf8: bool)
    requires |rom| % 4 == 0
    ensures |WordTexts(rom)| == |rom| / 4
    ensures Hits(WordTexts(rom), multipleOf8, addr) <==> Inside(rom, addr) && (addr % 8 == 0) == multipleOf8
  {}

  lemma {:induction false} WordAt(rom: seq<byte>, addr: nat)
    requires |rom| % 4 == 0 && Inside(rom, addr)
    ensures addr / 4 < |WordTexts(rom)| && addr + 4 <= |rom|
    ensures var text := WordTexts(rom)[addr / 4];
            AllHex(text) && HexValue(text) == LittleEndian(rom[addr..addr + 4])
  {
    var k := addr / 4;
    assert addr == 4 * k;
    assert WordTexts(rom)[k] == WordText(rom, k);
    ReversedHex(rom[addr..addr + 4]);
  }

  /** One of the two functions, at any address. */
  lemma {:induction false} RomFunction(rom: seq<byte>, multipleOf8: bool, addr: nat)
    requires |rom| % 4 == 0
    ensures var lines := ["@ 1000"] + WordTexts(rom);
            if Hits(WordTexts(rom), multipleOf8, addr) then
              ReadRom(lines, multipleOf8, addr) == Some(WordTexts(rom)[addr / 4])
            else ReadRom(lines, multipleOf8, addr) == None
  {
    PrintedWords(rom);
    ArmsDecode(WordTexts(rom), multipleOf8, addr);
  }

  /** For every image, the two generated functions return at a multiple of 4 inside the ROM the
      little-endian word of the bytes there, and their default everywhere else. */
  lemma {:induction false} RomFunctionsCorrect(rom: seq<byte>, addr: nat)
    requires |rom| % 4 == 0
    ensures var lines := ["@ 1000"] + WordTexts(rom);
            if Inside(rom, addr) then
              var text := ReadRom(lines, addr % 8 == 0, addr);
              && text.Some? && AllHex(text.value)
              && addr + 4 <= |rom| && HexValue(text.value) == LittleEndian(rom[addr..addr + 4])
              && ReadRom(lines, addr % 8 != 0, addr) == None
            else ReadRom(lines, true, addr) == None && ReadRom(lines, false, addr) == None
  {
    var first := addr % 8 == 0;
    RomFunction(rom, first, addr);
    RomFunction(rom, !first, addr);
    HitsInside(rom, addr, first);
    HitsInside(rom, addr, !first);
    if Inside(rom, addr) {
      WordAt(rom, addr);
    }
  }

  /** Each address inside has exactly one arm in exactly one function, and no other has any. */
  lemma {:induction false} OneArmEach(rom: seq<byte>, addr: nat)
    requires |rom| % 4 == 0
    ensures var lines := ["@ 1000"] + WordTexts(rom);
            var words := Words(lines, |lines|);
            CountArms(Arms(words, true), addr) + CountArms(Arms(words, false), addr) ==
            if Inside(rom, addr) then 1 else 0
  {
    PrintedWords(rom);
    ArmsDecode(WordTexts(rom), true, addr);
    ArmsDecode(WordTexts(rom), false, addr);
  }

  // ---- write_hex_to_buff ----

  /** `hexToInt`: anything that is no digit counts as 0. */
  function HexToInt(c: char): (d: nat)
    ensures d < 16
    ensures IsHexDigit(c) ==> d == DigitValue(c)
    ensures !IsHexDigit(c) ==> d == 0
  {
    if '0' <= c <= '9' then c as int - '0' as int
    else if 'a' <= c <= 'f' then c as int - 'a' as int + 10
    else if 'A' <= c <= 'F' then c as int - 'A' as int + 10
    else 0
  }

  /** Byte k of a line of two-digit numbers, counted from its end. */
  function LineByte(line: string, k: nat): byte
    requires 2 * k + 2 <= |line|
  {
    HexToInt(line[|line| - 1 - 2 * k]) + 16 * HexToInt(line[|line| - 2 - 2 * k])
  }

  /** Two digits are read as one number, the first of them the higher one. */
  lemma {:induction false} LineByteIs(line: string, k: nat)
    requires 2 * k + 2 <= |line|
    requires IsHexDigit(line[|line| - 2 - 2 * k]) && IsHexDigit(line[|line| - 1 - 2 * k])
    ensures LineByte(line, k) == 16 * DigitValue(line[|line| - 2 - 2 * k]) + DigitValue(line[|line| - 1 - 2 * k])
  {}

  /** `buff` points at index `start` of the array. */
  method WriteHexToBuff(line: string, buff: array<byte>, start: nat) returns (pos: nat)
    requires |line| % 2 == 0 && start + |line| / 2 <= buff.Length
    modifies buff
    ensures pos == |line| / 2
    ensures forall k :: 0 <= k < pos ==> buff[start + k] == LineByte(line, k)
    ensures forall x :: 0 <= x < buff.Length && !(start <= x < start + pos) ==> buff[x] == old(buff[x])
  {
    pos := 0;
    var i := |line| - 1;
    while i >= 0
      invariant 2 * pos + i + 1 == |line| && -1 <= i
      invariant forall k :: 0 <= k < pos ==> buff[start + k] == LineByte(line, k)
      invariant forall x :: 0 <= x < buff.Length && !(start <= x < start + pos) ==> buff[x] == old(buff[x])
      decreases i + 1
    {
      buff[start + pos] := HexToInt(line[i]) + HexToInt(line[i - 1]) * 16;
      pos := pos + 1;
      i := i - 2;
    }
  }

  lemma {:induction false} BytesHexAt(bytes: seq<byte>, i: nat)
    requires i < |bytes|
    ensures BytesHex(bytes)[2 * i] == HexDigit(bytes[i] / 16)
    ensures BytesHex(bytes)[2 * i + 1] == HexDigit(bytes[i] % 16)
  {
    if i > 0 {
      BytesHexAt(bytes[1..], i - 1);
    }
  }

  /** Parsing a printed word gives its bytes back, whatever its length. */
  lemma {:induction false} PrintedParses(bytes: seq<byte>, k: nat)
    requires k < |bytes|
    ensures LineByte(BytesHex(Reversed(bytes)), k) == bytes[k]
  {
    BytesHexAt(Reversed(bytes), |bytes| - 1 - k);
  }

  // ---- words and arms by position ----

  /** The lines that are no notes. */
  function WordLines(lines: seq<string>, n: nat): (ks: seq<nat>)
    requires n <= |lines|
    ensures forall k, l :: 0 <= k < l < |ks| ==> ks[k] < ks[l]
    ensures forall k :: 0 <= k < |ks| ==> ks[k] < n
    ensures forall i :: i in ks <==> 0 <= i < n && (lines[i] == "" || lines[i][0] != '@')
  {
    if n == 0 then []
    else if IsNote(lines[n - 1]) then WordLines(lines, n - 1)
    else WordLines(lines, n - 1) + [n - 1]
  }

  /** The words are those lines, in order. */
  lemma {:induction false} WordsByPosition(lines: seq<string>, n: nat)
    requires n <= |lines|
    ensures Words(lines, n) == Pick(lines, WordLines(lines, n))
  {
    if n > 0 {
      WordsByPosition(lines, n - 1);
      if !IsNote(lines[n - 1]) {
        PickLast(lines, WordLines(lines, n - 1), n - 1);
      }
    }
  }

  /** The arms of a function are those of the words at its addresses, in increasing order. */
  lemma {:induction false} ArmsByPosition(words: seq<string>, multipleOf8: bool, arm: Arm)
    ensures arm in Arms(words, multipleOf8) <==>
            && arm.addr % 4 == 0 && arm.addr / 4 < |words| && arm.word == words[arm.addr / 4]
            && (arm.addr % 8 == 0 <==> multipleOf8)
    ensures forall i, j :: 0 <= i < j < |Arms(words, multipleOf8)| ==>
              Arms(words, multipleOf8)[i].addr < Arms(words, multipleOf8)[j].addr < 4 * |words|
  {
    if words != [] {
      var k := |words| - 1;
      var before := Arms(words[..k], multipleOf8);
      ArmsByPosition(words[..k], multipleOf8, arm);
      forall i | 0 <= i < |before|
        ensures before[i].addr < 4 * k
      {
        ArmsByPosition(words[..k], multipleOf8, before[i]);
      }
    }
  }
}
