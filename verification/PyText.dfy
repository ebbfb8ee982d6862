/** The string operations of Python that the scripts rely on: `sep.join`, `split(sep)`,
    `int(s, 16)`, `bytes.hex` and the `{:08x}` format. */
module PyText {
  import opened Wrappers

  lemma {:induction false} ConcatAssociates<T>(a: seq<T>, b: seq<T>, c: seq<T>)
    ensures (a + b) + c == a + (b + c)
  {}

  // ---- join and split ----

  function Join(sep: char, parts: seq<string>): string {
    if |parts| == 0 then ""
    else if |parts| == 1 then parts[0]
    else parts[0] + [sep] + Join(sep, parts[1..])
  }

  function Split(sep: char, s: string): (parts: seq<string>)
    ensures |parts| >= 1
  {
    if s == "" then [""]
    else
      var rest := Split(sep, s[1..]);
      if s[0] == sep then [""] + rest else [[s[0]] + rest[0]] + rest[1..]
  }

  lemma {:induction false} SplitWithoutSeparator(sep: char, s: string)
    requires sep !in s
    ensures Split(sep, s) == [s]
  {
    if s != "" {
      SplitWithoutSeparator(sep, s[1..]);
      assert s == [s[0]] + s[1..];
    }
  }

  lemma {:induction false} SplitAtSeparator(sep: char, head: string, tail: string)
    requires sep !in head
    ensures Split(sep, head + [sep] + tail) == [head] + Split(sep, tail)
  {
    var s := head + [sep] + tail;
    if head == "" {
      assert s[1..] == tail;
    } else {
      SplitAtSeparator(sep, head[1..], tail);
      assert s[1..] == head[1..] + [sep] + tail;
      assert head == [head[0]] + head[1..];
    }
  }

  lemma {:induction false} SplitPair(sep: char, head: string, tail: string)
    requires sep !in head && sep !in tail
    ensures Split(sep, head + [sep] + tail) == [head, tail]
  {
    SplitAtSeparator(sep, head, tail);
    SplitWithoutSeparator(sep, tail);
  }

  /** Splitting undoes joining, except that the empty list comes back as a list holding
      one empty string. */
  lemma {:induction false} SplitJoin(sep: char, parts: seq<string>)
    requires forall p :: p in parts ==> sep !in p
    ensures Split(sep, Join(sep, parts)) == if parts == [] then [""] else parts
  {
    if |parts| == 1 {
      SplitWithoutSeparator(sep, parts[0]);
    } else if |parts| > 1 {
      SplitJoin(sep, parts[1..]);
      SplitAtSeparator(sep, parts[0], Join(sep, parts[1..]));
      assert parts == [parts[0]] + parts[1..];
    }
  }

  // ---- hexadecimal ----

  predicate IsHexDigit(c: char) {
    '0' <= c <= '9' || 'a' <= c <= 'f' || 'A' <= c <= 'F'
  }

  predicate AllHex(s: string) {
    forall i :: 0 <= i < |s| ==> IsHexDigit(s[i])
  }

  /** The digits that `{:x}` and the simulators print. */
  predicate LowerHex(s: string) {
    forall i :: 0 <= i < |s| ==> IsLowerDigit(s[i])
  }

  predicate IsLowerDigit(c: char) {
    '0' <= c <= '9' || 'a' <= c <= 'f'
  }

  function DigitValue(c: char): (d: nat)
    requires IsHexDigit(c)
    ensures d < 16
  {
    if c <= '9' then c as int - '0' as int
    else if c <= 'F' then c as int - 'A' as int + 10
    else c as int - 'a' as int + 10
  }

  function HexDigit(d: nat): (c: char)
    requires d < 16
    ensures IsHexDigit(c) && DigitValue(c) == d && IsLowerDigit(c)
  {
    if d < 10 then (d + '0' as int) as char else (d - 10 + 'a' as int) as char
  }

  /** The digits in the order of their values, upper case and lower case, and no others. */
  lemma {:induction false} DigitsInOrder(c: char, d: nat)
    requires d < 16
    ensures IsHexDigit(c) <==> c in "0123456789abcdefABCDEF"
    ensures IsHexDigit("0123456789abcdef"[d]) && DigitValue("0123456789abcdef"[d]) == d
    ensures IsHexDigit("0123456789ABCDEF"[d]) && DigitValue("0123456789ABCDEF"[d]) == d
    ensures HexDigit(d) == "0123456789abcdef"[d]
  {
    assert IsHexDigit(c) ==>
        c == if c <= '9' then "0123456789abcdefABCDEF"[c as int - '0' as int]
             else if c <= 'F' then "0123456789abcdefABCDEF"[c as int - 'A' as int + 16]
             else "0123456789abcdefABCDEF"[c as int - 'a' as int + 10];
  }

  function HexValue(s: string): nat
    requires AllHex(s)
  {
    if s == "" then 0 else 16 * HexValue(s[..|s| - 1]) + DigitValue(s[|s| - 1])
  }

  function Without(c: char, s: string): string {
    if s == "" then "" else if s[0] == c then Without(c, s[1..]) else [s[0]] + Without(c, s[1..])
  }

  lemma {:induction false} WithoutConcat(c: char, s: string, t: string)
    ensures Without(c, s + t) == Without(c, s) + Without(c, t)
  {
    if s == "" {
      assert s + t == t;
    } else {
      WithoutConcat(c, s[1..], t);
      assert (s + t)[0] == s[0] && (s + t)[1..] == s[1..] + t;
      if s[0] != c {
        ConcatAssociates([s[0]], Without(c, s[1..]), Without(c, t));
      }
    }
  }

  lemma {:induction false} WithoutOne(c: char, d: char)
    ensures Without(c, "") == "" && Without(c, [d]) == if d == c then "" else [d]
  {
    assert [d][1..] == "";
  }

  lemma {:induction false} HexHasNoUnderscore(s: string)
    requires AllHex(s)
    ensures Without('_', s) == s
  {
    if s != "" {
      HexHasNoUnderscore(s[1..]);
      assert s == [s[0]] + s[1..];
    }
  }

  predicate IsBlank(c: char) {
    c == ' ' || '\t' <= c <= '\r'
  }

  function Stripped(s: string): string
    decreases |s|
  {
    if s != "" && IsBlank(s[0]) then Stripped(s[1..])
    else if s != "" && IsBlank(s[|s| - 1]) then Stripped(s[..|s| - 1])
    else s
  }

  /** Digits, with single underscores between them. */
  predicate Grouped(s: string) {
    && s != "" && IsHexDigit(s[0]) && IsHexDigit(s[|s| - 1])
    && (forall i :: 0 <= i < |s| ==> IsHexDigit(s[i]) || s[i] == '_')
    && (forall i :: 0 <= i < |s| - 1 ==> s[i] == '_' ==> s[i + 1] != '_')
  }

  lemma {:induction false} OnlyUnderscores(s: string)
    requires forall i :: 0 <= i < |s| ==> IsHexDigit(s[i]) || s[i] == '_'
    ensures AllHex(Without('_', s))
  {
    if s != "" {
      OnlyUnderscores(s[1..]);
    }
  }

  /** What is left after the optional `0x` and the one underscore allowed behind it. */
  function Unprefixed(s: string): string {
    if |s| >= 2 && s[0] == '0' && s[1] in {'x', 'X'} then
      if |s| >= 3 && s[2] == '_' then s[3..] else s[2..]
    else s
  }

  function ParseUnsigned16(s: string): Option<nat> {
    var digits := Unprefixed(s);
    if Grouped(digits) then
      OnlyUnderscores(digits);
      Some(HexValue(Without('_', digits)))
    else None
  }

  /** `int(s, 16)` on ASCII text; `None` is the `ValueError`. */
  function ParseInt16(s: string): Option<int> {
    var t := Stripped(s);
    if t != "" && t[0] == '-' then Negated(ParseUnsigned16(t[1..]))
    else if t != "" && t[0] == '+' then ParseUnsigned16(t[1..])
    else ParseUnsigned16(t)
  }

  function Negated(n: Option<int>): Option<int> {
    if n == None then None else Some(-n.value)
  }

  function Pow16(n: nat): (p: nat)
    ensures p > 0
  {
    if n == 0 then 1 else 16 * Pow16(n - 1)
  }

  lemma {:induction false} HexValueSnoc(s: string, c: char)
    requires AllHex(s) && IsHexDigit(c)
    ensures AllHex(s + [c]) && HexValue(s + [c]) == 16 * HexValue(s) + DigitValue(c)
  {
    assert (s + [c])[..|s|] == s;
  }

  lemma {:induction false} HexValueConcat(s: string, t: string)
    requires AllHex(s) && AllHex(t)
    ensures AllHex(s + t) && HexValue(s + t) == HexValue(s) * Pow16(|t|) + HexValue(t)
  {
    if t == "" {
      assert s + t == s;
    } else {
      var n := |t| - 1;
      HexValueConcat(s, t[..n]);
      HexValueSnoc(s + t[..n], t[n]);
      assert s + t == (s + t[..n]) + [t[n]];
      ShiftByDigit(HexValue(s), Pow16(n));
    }
  }

  lemma {:induction false} ShiftByDigit(a: nat, p: nat)
    ensures 16 * (a * p) == a * (16 * p)
  {}

  /** Among lower-case strings of one length, equal numbers are equal strings. */
  lemma {:induction false} HexValueInjective(s: string, t: string)
    requires LowerHex(s) && LowerHex(t) && |s| == |t|
    requires AllHex(s) && AllHex(t) && HexValue(s) == HexValue(t)
    ensures s == t
  {
    if s != "" {
      var n := |s| - 1;
      LastDigit(HexValue(s[..n]), DigitValue(s[n]), HexValue(t[..n]), DigitValue(t[n]));
      HexValueInjective(s[..n], t[..n]);
      DigitInjective(s[n], t[n]);
      assert s == s[..n] + [s[n]] && t == t[..n] + [t[n]];
    }
  }

  lemma {:induction false} DigitInjective(c: char, d: char)
    requires IsLowerDigit(c) && IsLowerDigit(d)
    requires DigitValue(c) == DigitValue(d)
    ensures c == d
  {
    assert c as int == d as int;
  }

  lemma {:induction false} LastDigit(a: nat, c: nat, b: nat, d: nat)
    requires c < 16 && d < 16 && 16 * a + c == 16 * b + d
    ensures a == b && c == d
  {}

  function HexDigits(n: nat): (s: string)
    ensures s != "" && LowerHex(s) && AllHex(s)
  {
    if n < 16 then [HexDigit(n)] else HexDigits(n / 16) + [HexDigit(n % 16)]
  }

  function ZeroPad(s: string, width: nat): (r: string)
    ensures |r| >= width && |r| >= |s|
    ensures |s| <= width ==> |r| == width
    ensures |s| >= width ==> r == s
    decreases width - |s|
  {
    if |s| >= width then s else ZeroPad("0" + s, width)
  }

  /** `{:08x}`: the sign counts as one of the 8 places. */
  function Format08x(n: int): string {
    if n < 0 then "-" + ZeroPad(HexDigits(-n), 7) else ZeroPad(HexDigits(n), 8)
  }

  lemma {:induction false} HexDigitsValue(n: nat)
    ensures HexValue(HexDigits(n)) == n
  {
    var s := HexDigits(n);
    if n >= 16 {
      HexDigitsValue(n / 16);
      assert s[..|s| - 1] == HexDigits(n / 16);
    } else {
      assert s[..|s| - 1] == "";
    }
  }

  lemma {:induction false} ZeroPadValue(s: string, width: nat)
    requires LowerHex(s) && AllHex(s)
    ensures LowerHex(ZeroPad(s, width)) && AllHex(ZeroPad(s, width))
    ensures HexValue(ZeroPad(s, width)) == HexValue(s)
    decreases width - |s|
  {
    if |s| < width {
      HexValueConcat("0", s);
      assert HexValue("0") == 0;
      ZeroPadValue("0" + s, width);
    }
  }

  /** `int` reads back what `{:08x}` prints, for every integer. */
  lemma {:induction false} FormatParse(n: int)
    ensures ParseInt16(Format08x(n)) == Some(n)
    ensures |Format08x(n)| >= 8 && ':' !in Format08x(n)
  {
    var digits := if n < 0 then ZeroPad(HexDigits(-n), 7) else ZeroPad(HexDigits(n), 8);
    PaddedDigits(if n < 0 then -n else n, if n < 0 then 7 else 8);
    assert Format08x(n) == if n < 0 then "-" + digits else digits;
    if n < 0 {
      MinusSign(digits);
    } else {
      PlainDigits(digits);
    }
  }

  lemma {:induction false} NoLeadingZero(n: nat)
    requires n > 0
    ensures HexDigits(n)[0] != '0'
  {
    if n >= 16 {
      NoLeadingZero(n / 16);
    } else {
      assert DigitValue('0') == 0 && DigitValue(HexDigit(n)) == n;
    }
  }

  /** It prints lower-case digits, behind a sign when it needs one, in at least 8 places; there are more
      only when no zero leads. */
  lemma {:induction false} FormatShape(n: int)
    ensures var s, sign := Format08x(n), if n < 0 then 1 else 0;
            && |s| >= 8 && (n < 0 ==> s[0] == '-') && LowerHex(s[sign..])
            && (|s| == 8 || s[sign] != '0')
  {
    var size, width := if n < 0 then -n else n, if n < 0 then 7 else 8;
    var digits := ZeroPad(HexDigits(size), width);
    ZeroPadValue(HexDigits(size), width);
    if |digits| > width {
      NoLeadingZero(size);
    }
    assert Format08x(n) == if n < 0 then "-" + digits else digits;
    assert n < 0 ==> Format08x(n)[1..] == digits;
  }

  lemma {:induction false} PaddedDigits(n: nat, width: nat)
    ensures var s := ZeroPad(HexDigits(n), width);
            && s != "" && AllHex(s) && HexValue(s) == n && ':' !in s
  {
    HexDigitsValue(n);
    ZeroPadValue(HexDigits(n), width);
    var s := ZeroPad(HexDigits(n), width);
    assert forall i :: 0 <= i < |s| ==> IsLowerDigit(s[i]);
  }

  lemma {:induction false} MinusSign(s: string)
    requires s != "" && AllHex(s)
    ensures ParseInt16("-" + s) == Negated(Some(HexValue(s)))
  {
    var t := "-" + s;
    assert t[1..] == s;
    assert Stripped(t) == t by {
      assert IsHexDigit(s[|s| - 1]) && t[|t| - 1] == s[|s| - 1];
    }
    NoPrefix(s);
  }

  lemma {:induction false} NoPrefix(s: string)
    requires s != "" && AllHex(s)
    ensures ParseUnsigned16(s) == Some(HexValue(s))
  {
    assert !IsHexDigit('x') && !IsHexDigit('X');
    assert IsHexDigit(s[0]) && IsHexDigit(s[|s| - 1]);
    HexHasNoUnderscore(s);
  }

  /** A string of hexadecimal digits is never taken for a prefixed or a signed one. */
  lemma {:induction false} PlainDigits(s: string)
    requires s != "" && AllHex(s)
    ensures ParseInt16(s) == Some(HexValue(s))
  {
    assert Stripped(s) == s by {
      assert IsHexDigit(s[0]) && IsHexDigit(s[|s| - 1]);
    }
    assert IsHexDigit(s[0]);
    NoPrefix(s);
  }

  lemma {:induction false} LowerDigits(s: string)
    requires s != "" && LowerHex(s)
    ensures AllHex(s) && ':' !in s && ';' !in s && ParseInt16(s) == Some(HexValue(s))
  {
    assert AllHex(s);
    assert ':' !in s && ';' !in s by {
      assert forall i :: 0 <= i < |s| ==> IsLowerDigit(s[i]);
    }
    PlainDigits(s);
  }

  // ---- what int(s, 16) takes ----

  /** Tab, line feed, vertical tab, form feed, carriage return and space count as blanks, and they do not
      matter at either end of a number. */
  lemma {:induction false} BlanksIgnored(b: char, s: string)
    ensures IsBlank(b) <==> b as int in {9, 10, 11, 12, 13, 32}
    ensures b as int in {9, 10, 11, 12, 13, 32} ==>
              ParseInt16([b] + s) == ParseInt16(s) && ParseInt16(s + [b]) == ParseInt16(s)
  {
    if IsBlank(b) {
      StrippedFront(b, s);
      StrippedBack(b, s);
    }
  }

  lemma {:induction false} StrippedFront(b: char, s: string)
    requires IsBlank(b)
    ensures Stripped([b] + s) == Stripped(s)
  {
    assert ([b] + s)[1..] == s;
  }

  lemma {:induction false} StrippedBack(b: char, s: string)
    requires IsBlank(b)
    ensures Stripped(s + [b]) == Stripped(s)
    decreases |s|
  {
    if s != "" && IsBlank(s[0]) {
      assert (s + [b])[1..] == s[1..] + [b];
      StrippedBack(b, s[1..]);
    } else if s == "" {
      assert s + [b] == [b] + s;
      StrippedFront(b, s);
    } else {
      assert (s + [b])[..|s + [b]| - 1] == s;
    }
  }

  lemma {:induction false} Signs(s: string)
    requires s != "" && AllHex(s)
    ensures ParseInt16("-" + s) == Negated(ParseInt16(s)) && ParseInt16("+" + s) == ParseInt16(s)
  {
    PlainDigits(s);
    MinusSign(s);
    PlusSign(s);
  }

  lemma {:induction false} PlusSign(s: string)
    requires s != "" && AllHex(s)
    ensures ParseInt16("+" + s) == Some(HexValue(s))
  {
    var t := "+" + s;
    assert t[1..] == s;
    assert Stripped(t) == t by {
      assert IsHexDigit(s[|s| - 1]) && t[|t| - 1] == s[|s| - 1];
    }
    NoPrefix(s);
  }

  lemma {:induction false} PrefixGoes(x: char, s: string)
    requires (x == 'x' || x == 'X') && Grouped(s)
    ensures Unprefixed(s) == s && Unprefixed(['0', x] + s) == s && Unprefixed(['0', x, '_'] + s) == s
  {
    var t, u := ['0', x] + s, ['0', x, '_'] + s;
    assert !IsHexDigit('x') && !IsHexDigit('X') && !IsHexDigit('_');
    assert t[2] == s[0] && t[2..] == s;
    assert u[2] == '_' && u[3..] == s;
  }

  /** A prefix, with at most one underscore behind it, changes nothing for digits in groups. */
  lemma {:induction false} Prefixes(x: char, s: string)
    requires (x == 'x' || x == 'X') && Grouped(s)
    ensures AllHex(Without('_', s)) && ParseUnsigned16(s) == Some(HexValue(Without('_', s)))
    ensures ParseUnsigned16(['0', x] + s) == ParseUnsigned16(['0', x, '_'] + s) == ParseUnsigned16(s)
  {
    OnlyUnderscores(s);
    PrefixGoes(x, s);
  }

  /** Groups are non-empty runs of digits, one underscore between two of them. */
  lemma {:induction false} OneGroup(s: string)
    requires '_' !in s
    ensures Grouped(s) <==> s != "" && AllHex(s)
  {
    if s != "" && AllHex(s) {
      assert IsHexDigit(s[0]) && IsHexDigit(s[|s| - 1]);
    }
  }

  lemma {:induction false} GroupsJoin(s: string, t: string)
    ensures Grouped(s + ['_'] + t) <==> Grouped(s) && Grouped(t)
  {
    var u := s + ['_'] + t;
    JoinedAt(s, t);
    if Grouped(u) {
      JoinedEnds(s, t);
    }
  }

  lemma {:induction false} JoinedAt(s: string, t: string)
    ensures var u, m := s + ['_'] + t, |s|;
            && |u| == m + 1 + |t| && u[m] == '_' && !IsHexDigit('_')
            && (forall i :: 0 <= i < |s| ==> u[i] == s[i])
            && (forall i :: 0 <= i < |t| ==> u[m + 1 + i] == t[i])
  {}

  lemma {:induction false} JoinedEnds(s: string, t: string)
    requires Grouped(s + ['_'] + t)
    ensures s != "" && t != "" && IsHexDigit(s[|s| - 1]) && IsHexDigit(t[0])
  {
    var u, m := s + ['_'] + t, |s|;
    JoinedAt(s, t);
    assert m > 0;
    assert u[m - 1] == s[m - 1] && IsHexDigit(u[m - 1]);
    assert u[|u| - 1] != '_';
    assert IsHexDigit(u[m + 1]) && t[0] == u[m + 1];
  }

  /** Nothing else is a number: without a prefix, a text that is not digits in groups is refused. */
  lemma {:induction false} NothingElse(s: string)
    requires Unprefixed(s) == s && !Grouped(s)
    ensures ParseUnsigned16(s) == None
  {}

  // ---- bytes ----

  type byte = b: int | 0 <= b < 256

  /** `bytes.hex`: two digits a byte, first byte first. */
  function BytesHex(bytes: seq<byte>): (s: string)
    ensures AllHex(s) && |s| == 2 * |bytes|
  {
    if bytes == [] then "" else ByteHex(bytes[0]) + BytesHex(bytes[1..])
  }

  function ByteHex(b: byte): (s: string)
    ensures AllHex(s) && |s| == 2
  {
    [HexDigit(b / 16), HexDigit(b % 16)]
  }

  lemma {:induction false} ByteHexValue(b: byte)
    ensures HexValue(ByteHex(b)) == b
  {
    var h, l := HexDigit(b / 16), HexDigit(b % 16);
    HexValueSnoc("", h);
    HexValueSnoc([h], l);
    assert "" + [h] == [h] && [h] + [l] == [h, l];
  }

  /** The text of the 4 bytes from 4k on, highest byte first. */
  function WordText(rom: seq<byte>, k: nat): string
    requires 4 * k + 4 <= |rom|
  {
    BytesHex(Reversed(rom[4 * k..4 * k + 4]))
  }

  function Reversed<T>(s: seq<T>): (r: seq<T>)
    ensures |r| == |s|
    ensures forall i :: 0 <= i < |s| ==> r[i] == s[|s| - 1 - i]
  {
    seq(|s|, i requires 0 <= i < |s| => s[|s| - 1 - i])
  }

  /** The number whose little-endian bytes these are. */
  function LittleEndian(bytes: seq<byte>): nat {
    if bytes == [] then 0 else bytes[0] + 256 * LittleEndian(bytes[1..])
  }

  /** Printing the reversed bytes in hexadecimal prints the little-endian number. */
  lemma {:induction false} ReversedHex(bytes: seq<byte>)
    ensures HexValue(BytesHex(Reversed(bytes))) == LittleEndian(bytes)
  {
    if bytes != [] {
      var last := [bytes[0]];
      ReversedHex(bytes[1..]);
      assert Reversed(bytes) == Reversed(bytes[1..]) + last;
      BytesHexConcat(Reversed(bytes[1..]), last);
      HexValueConcat(BytesHex(Reversed(bytes[1..])), BytesHex(last));
      assert BytesHex(last) == ByteHex(bytes[0]) + BytesHex([]) == ByteHex(bytes[0]);
      ByteHexValue(bytes[0]);
      assert Pow16(2) == 16 * Pow16(1) && Pow16(1) == 16 * Pow16(0);
    }
  }

  lemma {:induction false} BytesHexLower(bytes: seq<byte>)
    ensures LowerHex(BytesHex(bytes))
  {
    if bytes != [] {
      BytesHexLower(bytes[1..]);
    }
  }

  lemma {:induction false} BytesHexConcat(a: seq<byte>, b: seq<byte>)
    ensures BytesHex(a + b) == BytesHex(a) + BytesHex(b)
  {
    if a == [] {
      assert a + b == b;
    } else {
      BytesHexConcat(a[1..], b);
      assert (a + b)[0] == a[0] && (a + b)[1..] == a[1..] + b;
      ConcatAssociates(ByteHex(a[0]), BytesHex(a[1..]), BytesHex(b));
    }
  }
}
