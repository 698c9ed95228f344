/** The Python string operations the decoders are built from: UTF-8
    decoding (on ASCII), NUL stripping, `str.split`, `str.strip`,
    `str.join`, `hexlify` and `str()` of a small integer. */
module Text {
  import opened Bytes

  const NUL: char := 0 as char

  // ---------------------------------------------------------------------
  // Decoding bytes into text.

  /** `bytes.decode('utf-8', 'ignore')` on ASCII: a byte below 0x80 is
      its own character; a byte from 0x80 up is dropped. */
  function AsciiDecode(bs: seq<Byte>): (s: string)
    ensures |s| <= |bs|
    ensures forall i :: 0 <= i < |s| ==> s[i] as int < 128
    ensures (forall i :: 0 <= i < |bs| ==> bs[i] < 128) ==>
              |s| == |bs| && forall i :: 0 <= i < |s| ==> s[i] as int == bs[i]
  {
    if bs == [] then []
    else
      var last := bs[|bs| - 1];
      AsciiDecode(bs[..|bs| - 1]) + (if last < 128 then [last as char] else [])
  }

  /** `s.replace('\x00', '')`. */
  function RemoveNul(s: string): (r: string)
    ensures NUL !in r
    ensures |r| <= |s|
  {
    if s == [] then []
    else RemoveNul(s[..|s| - 1]) + (if s[|s| - 1] == NUL then [] else [s[|s| - 1]])
  }

  /** `s.rstrip('\x00')`. */
  function RStripNul(s: string): (r: string)
    ensures r <= s
    ensures r == [] || r[|r| - 1] != NUL
    ensures forall i :: |r| <= i < |s| ==> s[i] == NUL
  {
    if s != [] && s[|s| - 1] == NUL then RStripNul(s[..|s| - 1]) else s
  }

  /** `s.rstrip('\x00').replace('\x00', '')`, the two steps as written. */
  function StripNuls(s: string): string
  {
    RemoveNul(RStripNul(s))
  }

  /** The `rstrip` step changes nothing that the `replace` step keeps:
      stripping NULs is removing every NUL. */
  lemma {:induction false} StripNulsIsRemoveNul(s: string)
    ensures StripNuls(s) == RemoveNul(s)
  {
    if s != [] && s[|s| - 1] == NUL {
      StripNulsIsRemoveNul(s[..|s| - 1]);
    }
  }

  /** Removing NULs from text that has none changes nothing. */
  lemma {:induction false} RemoveNulNoNul(s: string)
    requires NUL !in s
    ensures RemoveNul(s) == s
  {
    if s != [] {
      RemoveNulNoNul(s[..|s| - 1]);
      assert s == s[..|s| - 1] + [s[|s| - 1]];
    }
  }

  // ---------------------------------------------------------------------
  // str.split, str.join and str.strip.

  /** `sep.join(ps)`. */
  function Join(ps: seq<string>, sep: string): string
  {
    if |ps| == 0 then []
    else if |ps| == 1 then ps[0]
    else ps[0] + sep + Join(ps[1..], sep)
  }

  /** `s.split(sep)` for a one-character separator: the maximal pieces
      between separators, one more piece than there are separators, so
      `''.split(';') == ['']`. */
  function Split(s: string, sep: char): (ps: seq<string>)
    ensures |ps| >= 1
    ensures forall i :: 0 <= i < |ps| ==> sep !in ps[i]
    ensures Join(ps, [sep]) == s
    ensures (sep in s) <==> |ps| > 1
  {
    if s == [] then [[]]
    else
      var rest := Split(s[1..], sep);
      if s[0] == sep then
        [[]] + rest
      else
        assert s == [s[0]] + s[1..];
        [[s[0]] + rest[0]] + rest[1..]
  }

  /** Splitting the joined pieces gives the pieces back: `Split` is the
      inverse of `Join` on separator-free pieces. */
  lemma {:induction false} SplitJoin(ps: seq<string>, sep: char)
    requires |ps| >= 1
    requires forall i :: 0 <= i < |ps| ==> sep !in ps[i]
    ensures Split(Join(ps, [sep]), sep) == ps
  {
    if |ps| == 1 {
      SplitNoSep(ps[0], sep);
    } else {
      SplitJoin(ps[1..], sep);
      SplitPrefix(ps[0], Join(ps[1..], [sep]), sep);
    }
  }

  lemma {:induction false} SplitNoSep(s: string, sep: char)
    requires sep !in s
    ensures Split(s, sep) == [s]
  {
    if s != [] {
      SplitNoSep(s[1..], sep);
    }
  }

  lemma {:induction false} SplitPrefix(a: string, b: string, sep: char)
    requires sep !in a
    ensures Split(a + [sep] + b, sep) == [a] + Split(b, sep)
  {
    if a != [] {
      var s := a + [sep] + b;
      assert s[1..] == a[1..] + [sep] + b;
      assert s[0] == a[0] && a[0] != sep;
      var rest := Split(s[1..], sep);
      SplitPrefix(a[1..], b, sep);
      assert rest[0] == a[1..] && rest[1..] == Split(b, sep);
      assert Split(s, sep) == [[s[0]] + rest[0]] + rest[1..];
      assert [a[0]] + a[1..] == a;
    } else {
      assert (a + [sep] + b)[1..] == b;
    }
  }

  /** `c.isspace()` for a single character: the ASCII controls TAB, LF,
      VT, FF, CR and the separators 0x1C-0x1F, SPACE, and the Unicode
      white-space characters. */
  predicate IsSpace(c: char)
  {
    var n := c as int;
    (9 <= n <= 13) || (28 <= n <= 32) || n == 0x85 || n == 0xA0 || n == 0x1680 ||
    (0x2000 <= n <= 0x200A) || n == 0x2028 || n == 0x2029 || n == 0x202F ||
    n == 0x205F || n == 0x3000
  }

  /** `s.lstrip()`. */
  function LStrip(s: string): (r: string)
    ensures |r| <= |s| && r == s[|s| - |r|..]
    ensures r == [] || !IsSpace(r[0])
    ensures forall i :: 0 <= i < |s| - |r| ==> IsSpace(s[i])
  {
    if s != [] && IsSpace(s[0]) then LStrip(s[1..]) else s
  }

  /** `s.rstrip()`. */
  function RStrip(s: string): (r: string)
    ensures r <= s
    ensures r == [] || !IsSpace(r[|r| - 1])
    ensures forall i :: |r| <= i < |s| ==> IsSpace(s[i])
  {
    if s != [] && IsSpace(s[|s| - 1]) then RStrip(s[..|s| - 1]) else s
  }

  /** `s.strip()`: the text between the leading and the trailing white
      space; the result neither starts nor ends with white space. */
  function Strip(s: string): (r: string)
    ensures r == [] || (!IsSpace(r[0]) && !IsSpace(r[|r| - 1]))
  {
    RStrip(LStrip(s))
  }

  /** Stripping twice is stripping once. */
  lemma StripIdempotent(s: string)
    ensures Strip(Strip(s)) == Strip(s)
  {
    var r := Strip(s);
    assert LStrip(r) == r;
    assert RStrip(r) == r;
  }

  // ---------------------------------------------------------------------
  // Digits.

  const HexDigits: string := "0123456789abcdef"

  /** The lower-case hexadecimal digit of `n`. */
  function HexDigit(n: nat): (c: char)
    requires n < 16
    ensures c in HexDigits
  {
    HexDigits[n]
  }

  /** The value of a lower-case hexadecimal digit. */
  function HexValue(c: char): (n: nat)
    ensures n < 16
    ensures c in HexDigits ==> HexDigit(n) == c
  {
    if '0' <= c <= '9' then c as int - '0' as int
    else if 'a' <= c <= 'f' then c as int - 'a' as int + 10
    else 0
  }

  lemma HexValueOfDigit(n: nat)
    requires n < 16
    ensures HexValue(HexDigit(n)) == n
  {
  }

  /** `'%02x' % b`, what `hexlify` writes for one byte. */
  function Hex2(b: Byte): (s: string)
    ensures |s| == 2 && s[0] in HexDigits && s[1] in HexDigits
  {
    [HexDigit(b / 16), HexDigit(b % 16)]
  }

  /** The byte written by Hex2. */
  function UnHex2(s: string): (b: nat)
    requires |s| == 2
    ensures b < 256
  {
    HexValue(s[0]) * 16 + HexValue(s[1])
  }

  lemma UnHex2Hex2(b: Byte)
    ensures UnHex2(Hex2(b)) == b
  {
    HexValueOfDigit(b / 16);
    HexValueOfDigit(b % 16);
  }

  /** `binascii.hexlify(bs).decode()`: two lower-case digits per byte. */
  function Hexlify(bs: seq<Byte>): (s: string)
    ensures |s| == 2 * |bs|
    ensures forall i :: 0 <= i < |s| ==> s[i] in HexDigits
  {
    if bs == [] then [] else Hex2(bs[0]) + Hexlify(bs[1..])
  }

  /** The decimal digit character of `n`. */
  function DecimalDigit(n: nat): (c: char)
    requires n < 10
    ensures '0' <= c <= '9'
  {
    ('0' as int + n) as char
  }

  /** `str(n)` for a non-negative integer. */
  function DecimalString(n: nat): (s: string)
    ensures |s| >= 1
    ensures forall i :: 0 <= i < |s| ==> '0' <= s[i] <= '9'
    ensures n < 10 <==> |s| == 1
  {
    if n < 10 then [DecimalDigit(n)]
    else DecimalString(n / 10) + [DecimalDigit(n % 10)]
  }

  /** Python's clamped slice `s[i:j]` for non-negative bounds. */
  function Slice<T>(s: seq<T>, i: nat, j: nat): (r: seq<T>)
    ensures |r| <= |s|
    ensures j <= |s| && i <= j ==> r == s[i..j]
  {
    var lo := if i < |s| then i else |s|;
    var hi := if j < |s| then j else |s|;
    if lo <= hi then s[lo..hi] else []
  }
}
