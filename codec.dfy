/** The static decoders of the extraction engine: pure functions of the
    bytes a field handler has read. */
module Codec {
  import opened Wrappers
  import opened Bytes
  import opened Text
  import opened Metadata

  // ---------------------------------------------------------------------
  // Endianness marker.

  /** The order word, read little-endian from bytes 4..7, that marks a
      little-endian buffer. */
  const LittleEndianWord: nat := 0x12345678

  /** `'<'` when the order word is the marker, `'>'` for every other word. */
  function OrderOfWord(word: nat): (o: ByteOrder)
    ensures o == Little <==> word == LittleEndianWord
  {
    if word == LittleEndianWord then Little else Big
  }

  /** Read little-endian, exactly the bytes `78 56 34 12` give the marker. */
  lemma {:induction false} MarkerBytes(bs: seq<Byte>)
    requires |bs| == 4
    ensures FromBytes(bs, Little) == LittleEndianWord <==> bs == [0x78, 0x56, 0x34, 0x12]
  {
    var marker: seq<Byte> := [0x78, 0x56, 0x34, 0x12];
    var word: seq<Byte> := [0x12, 0x34, 0x56, 0x78];
    assert Reverse(marker) == word;
    assert BigEndianValue(word[..1]) == 0x12;
    assert BigEndianValue(word[..2]) == 0x1234 by { assert word[..2][..1] == word[..1]; }
    assert BigEndianValue(word[..3]) == 0x123456 by { assert word[..3][..2] == word[..2]; }
    assert BigEndianValue(word) == LittleEndianWord by { assert word[..4][..3] == word[..3]; }
    if FromBytes(bs, Little) == LittleEndianWord {
      BigEndianInjective(Reverse(bs), word);
      ReverseReverse(bs);
      ReverseReverse(marker);
    }
  }

  // ---------------------------------------------------------------------
  // Strings.

  /** A string field: the bytes read, reversed when the order is `'<'`,
      decoded, with every NUL removed. */
  function DecodeString(raw: seq<Byte>, order: ByteOrder): (s: string)
    ensures NUL !in s
    ensures |s| <= |raw|
  {
    StripNuls(AsciiDecode(if order == Little then Reverse(raw) else raw))
  }

  /** The characters of the non-zero bytes, in order. */
  function NonZeroChars(bs: seq<Byte>): string
  {
    if bs == [] then []
    else
      var last := bs[|bs| - 1];
      NonZeroChars(bs[..|bs| - 1]) + (if last == 0 then [] else [last as char])
  }

  /** Read big-endian, ASCII bytes decode to themselves with the zero
      bytes left out. */
  lemma {:induction false} DecodeStringBigAscii(raw: seq<Byte>)
    requires forall i :: 0 <= i < |raw| ==> raw[i] < 128
    ensures DecodeString(raw, Big) == NonZeroChars(raw)
  {
    StripNulsIsRemoveNul(AsciiDecode(raw));
    RemoveNulAscii(raw);
  }

  lemma {:induction false} RemoveNulAscii(raw: seq<Byte>)
    requires forall i :: 0 <= i < |raw| ==> raw[i] < 128
    ensures RemoveNul(AsciiDecode(raw)) == NonZeroChars(raw)
  {
    if raw != [] {
      var init := raw[..|raw| - 1];
      RemoveNulAscii(init);
      var d := AsciiDecode(raw);
      assert d == AsciiDecode(init) + [raw[|raw| - 1] as char];
      assert d[..|d| - 1] == AsciiDecode(init);
    }
  }

  /** Without zero bytes, the characters are the bytes themselves. */
  lemma {:induction false} NonZeroCharsAll(bs: seq<Byte>)
    requires forall i :: 0 <= i < |bs| ==> 0 < bs[i] < 128
    ensures |NonZeroChars(bs)| == |bs|
    ensures forall i :: 0 <= i < |bs| ==> NonZeroChars(bs)[i] as int == bs[i]
  {
    if bs != [] {
      NonZeroCharsAll(bs[..|bs| - 1]);
    }
  }

  /** Read little-endian, a string is the big-endian reading of the
      reversed bytes. */
  lemma DecodeStringLittle(raw: seq<Byte>)
    ensures DecodeString(raw, Little) == DecodeString(Reverse(raw), Big)
  {
  }

  // ---------------------------------------------------------------------
  // Timecode.

  /** `[s[i:i+2] for i in range(0, len(s), 2)]`. */
  function Chunks2(s: string): seq<string>
    decreases |s|
  {
    if |s| == 0 then []
    else if |s| <= 2 then [s]
    else [s[..2]] + Chunks2(s[2..])
  }

  /** `''.join(ss)`. */
  function Concat(ss: seq<string>): string
  {
    if ss == [] then [] else ss[0] + Concat(ss[1..])
  }

  /** The hexlified bytes, one two-digit string per byte. */
  function HexPairs(bs: seq<Byte>): (ps: seq<string>)
    ensures |ps| == |bs|
    ensures forall i :: 0 <= i < |bs| ==> ps[i] == Hex2(bs[i])
  {
    seq(|bs|, i requires 0 <= i < |bs| => Hex2(bs[i]))
  }

  /** `_bytes_to_time_code`, step by step: hexlify, cut into byte pairs,
      reverse the pairs, join, cut into pairs again, join with `':'`. */
  function TimeCode(tc: seq<Byte>): string
  {
    var hexTc := Hexlify(tc);
    var reversedTc := Concat(Reverse(Chunks2(hexTc)));
    Join(Chunks2(reversedTc), ":")
  }

  lemma {:induction false} ChunksOfHexlify(bs: seq<Byte>)
    ensures Chunks2(Hexlify(bs)) == HexPairs(bs)
  {
    if bs != [] {
      ChunksOfHexlify(bs[1..]);
      var h := Hexlify(bs);
      assert h[..2] == Hex2(bs[0]) && h[2..] == Hexlify(bs[1..]);
      assert HexPairs(bs) == [Hex2(bs[0])] + HexPairs(bs[1..]);
      if |bs| == 1 {
        assert h == Hex2(bs[0]);
      }
    }
  }

  lemma {:induction false} ConcatHexPairs(bs: seq<Byte>)
    ensures Concat(HexPairs(bs)) == Hexlify(bs)
  {
    if bs != [] {
      ConcatHexPairs(bs[1..]);
      assert HexPairs(bs)[1..] == HexPairs(bs[1..]);
    }
  }

  /** The timecode is the hex of the bytes, last byte first, as two-digit
      groups joined by `':'`. */
  lemma TimeCodeReversesBytes(tc: seq<Byte>)
    ensures TimeCode(tc) == Join(HexPairs(Reverse(tc)), ":")
  {
    ChunksOfHexlify(tc);
    assert Reverse(HexPairs(tc)) == HexPairs(Reverse(tc));
    ConcatHexPairs(Reverse(tc));
    ChunksOfHexlify(Reverse(tc));
  }

  /** Four bytes `b0 b1 b2 b3` give `hex(b3):hex(b2):hex(b1):hex(b0)`,
      eleven characters. */
  lemma TimeCodeOfFour(tc: seq<Byte>)
    requires |tc| == 4
    ensures TimeCode(tc) == Hex2(tc[3]) + ":" + Hex2(tc[2]) + ":" + Hex2(tc[1]) + ":" + Hex2(tc[0])
    ensures |TimeCode(tc)| == 11
  {
    TimeCodeReversesBytes(tc);
    var rev := Reverse(tc);
    assert rev == [tc[3], tc[2], tc[1], tc[0]];
    var ps := HexPairs(rev);
    var a, b, c, d := Hex2(tc[3]), Hex2(tc[2]), Hex2(tc[1]), Hex2(tc[0]);
    assert ps == [a, b, c, d];
    JoinFour(a, b, c, d, ":");
    assert |a + ":" + b + ":" + c + ":" + d| == 11;
  }

  lemma JoinFour(a: string, b: string, c: string, d: string, sep: string)
    ensures Join([a, b, c, d], sep) == a + sep + b + sep + c + sep + d
  {
    var ps := [a, b, c, d];
    assert ps[1..] == [b, c, d] && ps[1..][1..] == [c, d] && ps[1..][1..][1..] == [d];
    assert Join([c, d], sep) == c + sep + d;
    assert Join([b, c, d], sep) == b + sep + (c + sep + d);
  }

  /** The bytes a four-byte timecode was made from. */
  function ParseTimeCode(s: string): (bs: seq<Byte>)
    requires |s| == 11
    ensures |bs| == 4
  {
    [UnHex2(s[9..11]), UnHex2(s[6..8]), UnHex2(s[3..5]), UnHex2(s[0..2])]
  }

  /** A four-byte timecode determines its bytes. */
  lemma TimeCodeRoundTrip(tc: seq<Byte>)
    requires |tc| == 4
    ensures |TimeCode(tc)| == 11
    ensures ParseTimeCode(TimeCode(tc)) == tc
  {
    TimeCodeOfFour(tc);
    var s := TimeCode(tc);
    assert s[0..2] == Hex2(tc[3]) && s[3..5] == Hex2(tc[2]);
    assert s[6..8] == Hex2(tc[1]) && s[9..11] == Hex2(tc[0]);
    UnHex2Hex2(tc[0]);
    UnHex2Hex2(tc[1]);
    UnHex2Hex2(tc[2]);
    UnHex2Hex2(tc[3]);
  }

  // ---------------------------------------------------------------------
  // User string.

  /** The key of a `key:value` piece: the text before its first `':'`,
      stripped. */
  function PairKey(p: string): string
  {
    Strip(Split(p, ':')[0])
  }

  /** The value of a piece holding `':'`: the text between its first and
      second `':'`, stripped. */
  function PairValue(p: string): string
    requires ':' in p
  {
    Strip(Split(p, ':')[1])
  }

  /** The entry a piece contributes: its key and value when it holds
      `':'`, nothing otherwise. */
  function Entry(p: string): (e: Option<(string, string)>)
    ensures e.Some? <==> ':' in p
  {
    if ':' in p then Some((PairKey(p), PairValue(p))) else None
  }

  /** The entry is present and has key `k`. */
  predicate HasKey(e: Option<(string, string)>, k: string)
  {
    e.Some? && e.value.0 == k
  }

  /** A dictionary built entry by entry, in order: a later entry
      overwrites an earlier one with the same key. */
  function AddEntries(es: seq<Option<(string, string)>>): map<string, string>
  {
    if es == [] then map[]
    else
      var m := AddEntries(es[..|es| - 1]);
      var e := es[|es| - 1];
      if e.Some? then m[e.value.0 := e.value.1] else m
  }

  /** The entries of the pieces, in order. */
  function Entries(ps: seq<string>): (es: seq<Option<(string, string)>>)
    ensures |es| == |ps|
    ensures forall i :: 0 <= i < |ps| ==> es[i] == Entry(ps[i])
  {
    seq(|ps|, i requires 0 <= i < |ps| => Entry(ps[i]))
  }

  /** `_split_user_string`: split on `';'`, keep the `key:value` pieces. */
  function SplitUserString(s: string): map<string, string>
  {
    AddEntries(Entries(Split(s, ';')))
  }

  /** A key is in the dictionary iff some entry has it. */
  lemma {:induction false} AddEntriesKeys(es: seq<Option<(string, string)>>, k: string)
    ensures k in AddEntries(es) <==> exists i :: 0 <= i < |es| && HasKey(es[i], k)
  {
    if es != [] {
      var init := es[..|es| - 1];
      AddEntriesKeys(init, k);
      if HasKey(es[|es| - 1], k) {
      } else if exists i :: 0 <= i < |es| && HasKey(es[i], k) {
        var i :| 0 <= i < |es| && HasKey(es[i], k);
        assert init[i] == es[i];
      }
    }
  }

  /** The value of a key comes from the last entry that has it. */
  lemma {:induction false} AddEntriesLast(es: seq<Option<(string, string)>>, k: string, i: nat)
    requires i < |es| && HasKey(es[i], k)
    requires forall j :: i < j < |es| ==> !HasKey(es[j], k)
    ensures k in AddEntries(es) && AddEntries(es)[k] == es[i].value.1
  {
    if i < |es| - 1 {
      var init := es[..|es| - 1];
      assert !HasKey(es[|es| - 1], k);
      assert init[i] == es[i];
      AddEntriesLast(init, k, i);
    }
  }

  /** `_split_user_string`: a key is present iff some `;`-separated piece
      holding `':'` has it as its stripped key, and its value is the
      stripped value of the last such piece. */
  lemma SplitUserStringEntries(s: string, k: string)
    ensures var ps := Split(s, ';');
      k in SplitUserString(s) <==> exists i :: 0 <= i < |ps| && HasKey(Entry(ps[i]), k)
    ensures var ps := Split(s, ';');
      forall i :: 0 <= i < |ps| && HasKey(Entry(ps[i]), k) && LastWithKey(ps, k, i) ==>
        k in SplitUserString(s) && SplitUserString(s)[k] == PairValue(ps[i])
  {
    var ps := Split(s, ';');
    var es := Entries(ps);
    AddEntriesKeys(es, k);
    forall i | 0 <= i < |ps| && HasKey(Entry(ps[i]), k) && LastWithKey(ps, k, i)
      ensures k in SplitUserString(s) && SplitUserString(s)[k] == PairValue(ps[i])
    {
      AddEntriesLast(es, k, i);
    }
  }

  /** No piece after the `i`-th has key `k`. */
  predicate LastWithKey(ps: seq<string>, k: string, i: nat)
  {
    forall j :: i < j < |ps| ==> !HasKey(Entry(ps[j]), k)
  }

  /** The empty string gives the empty dictionary. */
  lemma SplitUserStringEmpty()
    ensures SplitUserString("") == map[]
  {
    assert Split("", ';') == [""];
    assert Entries([""]) == [None];
  }

  /** A piece `k:v` with no `':'` and no outer white space in `k` and `v`
      names `k` and gives `v`. */
  lemma PairOf(k: string, v: string)
    requires ':' !in k && ':' !in v
    requires Strip(k) == k && Strip(v) == v
    ensures Entry(k + ":" + v) == Some((k, v))
  {
    SplitPair(k, v);
    var p := k + ":" + v;
    assert ':' in p by { assert p[|k|] == ':'; }
  }

  lemma SplitPair(k: string, v: string)
    requires ':' !in k && ':' !in v
    ensures Split(k + ":" + v, ':') == [k, v]
  {
    var ps := [k, v];
    assert ps[1..] == [v];
    assert Join(ps, ":") == k + ":" + v;
    SplitJoin(ps, ':');
  }

  lemma AddEntriesTwo(a: (string, string), b: (string, string))
    ensures AddEntries([Some(a), Some(b)]) == map[a.0 := a.1, b.0 := b.1]
  {
    var es := [Some(a), Some(b)];
    assert es[..1] == [Some(a)] && es[..1][..0] == [];
    assert AddEntries([Some(a)]) == map[a.0 := a.1];
  }

  lemma SplitTwo(p1: string, p2: string)
    requires ';' !in p1 && ';' !in p2
    ensures Split(p1 + ";" + p2, ';') == [p1, p2]
  {
    var pieces := [p1, p2];
    assert pieces[1..] == [p2];
    assert Join(pieces, ";") == p1 + ";" + p2;
    SplitJoin(pieces, ';');
  }

  lemma NotInPair(c: char, k: string, v: string)
    requires c != ':' && c !in k && c !in v
    ensures c !in k + ":" + v
  {
  }

  lemma SplitTwoPairs(k1: string, v1: string, k2: string, v2: string)
    requires ':' !in k1 && ':' !in v1 && ':' !in k2 && ':' !in v2
    requires ';' !in k1 && ';' !in v1 && ';' !in k2 && ';' !in v2
    ensures var p1, p2 := k1 + ":" + v1, k2 + ":" + v2;
      p1 + ";" + p2 == k1 + ":" + v1 + ";" + k2 + ":" + v2 && Split(p1 + ";" + p2, ';') == [p1, p2]
  {
    var p1, p2 := k1 + ":" + v1, k2 + ":" + v2;
    NotInPair(';', k1, v1);
    NotInPair(';', k2, v2);
    SplitTwo(p1, p2);
  }

  lemma UserStringOfTwo(p1: string, p2: string)
    requires Split(p1 + ";" + p2, ';') == [p1, p2]
    ensures SplitUserString(p1 + ";" + p2) == AddEntries([Entry(p1), Entry(p2)])
  {
    assert Entries([p1, p2]) == [Entry(p1), Entry(p2)];
  }

  /** Two `key:value` pieces give their two entries. */
  lemma SplitUserStringTwo(k1: string, v1: string, k2: string, v2: string)
    requires ':' !in k1 && ':' !in v1 && ':' !in k2 && ':' !in v2
    requires ';' !in k1 && ';' !in v1 && ';' !in k2 && ';' !in v2
    requires Strip(k1) == k1 && Strip(v1) == v1 && Strip(k2) == k2 && Strip(v2) == v2
    ensures SplitUserString(k1 + ":" + v1 + ";" + k2 + ":" + v2) == map[k1 := v1, k2 := v2]
  {
    var p1, p2 := k1 + ":" + v1, k2 + ":" + v2;
    SplitTwoPairs(k1, v1, k2, v2);
    UserStringOfTwo(p1, p2);
    PairOf(k1, v1);
    PairOf(k2, v2);
    AddEntriesTwo((k1, v1), (k2, v2));
  }

  // ---------------------------------------------------------------------
  // BCD dates, times and offsets.

  /** `f"{b >> 4}{b & 0x0F}"`: the two nibbles of a byte in decimal. */
  function BcdPair(b: Byte): string
  {
    DecimalString(b / 16) + DecimalString(b % 16)
  }

  /** Both nibbles are decimal digits. */
  predicate ValidBcd(b: Byte)
  {
    b / 16 < 10 && b % 16 < 10
  }

  /** The digit string: one pair per byte, the pairs in reverse order when
      the order is `'>'`. */
  function BcdDigits(bcd: seq<Byte>, order: ByteOrder): string
  {
    var pairs := seq(|bcd|, i requires 0 <= i < |bcd| => BcdPair(bcd[i]));
    Concat(if order == Big then Reverse(pairs) else pairs)
  }

  /** `_bcd_to_str`: the digit string sliced as a date (4-2-2), a time
      (2-2-2-2) or an offset (prefix, then digits 4-5 and 6-7); any other
      format gives the digit string itself. */
  function BcdToStr(bcd: seq<Byte>, format: string, spacer: string, order: ByteOrder,
                    prefix: Option<string>): string
  {
    var d := BcdDigits(bcd, order);
    var pre := if prefix.None? then "" else prefix.value;
    if format == "date" then
      Slice(d, 0, 4) + spacer + Slice(d, 4, 6) + spacer + Slice(d, 6, 8)
    else if format == "time" then
      Slice(d, 0, 2) + spacer + Slice(d, 2, 4) + spacer + Slice(d, 4, 6) + spacer + Slice(d, 6, 8)
    else if format == "offset" then
      pre + Slice(d, 4, 6) + spacer + Slice(d, 6, 8)
    else d
  }

  /** The two digits of a valid BCD byte. */
  function Digits(b: Byte): string
    requires ValidBcd(b)
  {
    [DecimalDigit(b / 16), DecimalDigit(b % 16)]
  }

  lemma BcdPairValid(b: Byte)
    requires ValidBcd(b)
    ensures BcdPair(b) == Digits(b)
  {
  }

  /** Read `'<'`, valid BCD bytes give their digits in byte order; read
      `'>'`, in reverse byte order. */
  lemma {:induction false} BcdDigitsValid(bcd: seq<Byte>)
    requires forall i :: 0 <= i < |bcd| ==> ValidBcd(bcd[i])
    ensures |BcdDigits(bcd, Little)| == 2 * |bcd|
    ensures forall i :: 0 <= i < |bcd| ==> BcdDigits(bcd, Little)[2 * i..2 * i + 2] == Digits(bcd[i])
  {
    if bcd != [] {
      BcdDigitsValid(bcd[1..]);
      var pairs := seq(|bcd|, i requires 0 <= i < |bcd| => BcdPair(bcd[i]));
      var rest := seq(|bcd| - 1, i requires 0 <= i < |bcd| - 1 => BcdPair(bcd[1..][i]));
      assert pairs[1..] == rest;
      BcdPairValid(bcd[0]);
      var d := BcdDigits(bcd, Little);
      assert d == Digits(bcd[0]) + BcdDigits(bcd[1..], Little);
      forall i | 0 <= i < |bcd| ensures d[2 * i..2 * i + 2] == Digits(bcd[i]) {
        if i > 0 {
          assert d[2 * i..2 * i + 2] == BcdDigits(bcd[1..], Little)[2 * (i - 1)..2 * (i - 1) + 2];
        }
      }
    }
  }

  /** `'>'` reads the bytes in reverse order. */
  lemma BcdDigitsBig(bcd: seq<Byte>)
    ensures BcdDigits(bcd, Big) == BcdDigits(Reverse(bcd), Little)
  {
    var pairs := seq(|bcd|, i requires 0 <= i < |bcd| => BcdPair(bcd[i]));
    var rb := Reverse(bcd);
    var rpairs := seq(|rb|, i requires 0 <= i < |rb| => BcdPair(rb[i]));
    var rev := Reverse(pairs);
    forall i | 0 <= i < |bcd| ensures rev[i] == rpairs[i] {
      assert rev[i] == pairs[|bcd| - 1 - i];
      assert rb[i] == bcd[|bcd| - 1 - i];
    }
    assert rev == rpairs;
  }

  /** The bytes a digit string of valid BCD came from. */
  function ParseBcd(d: string): (bs: seq<Byte>)
    requires |d| % 2 == 0
    requires forall i :: 0 <= i < |d| ==> '0' <= d[i] <= '9'
    ensures |bs| == |d| / 2
  {
    seq(|d| / 2, i requires 0 <= i < |d| / 2 =>
      (d[2 * i] as int - '0' as int) * 16 + (d[2 * i + 1] as int - '0' as int))
  }

  /** Valid BCD bytes are recovered from their digit string. */
  lemma BcdRoundTrip(bcd: seq<Byte>)
    requires forall i :: 0 <= i < |bcd| ==> ValidBcd(bcd[i])
    ensures var d := BcdDigits(bcd, Little);
      |d| % 2 == 0 && (forall i :: 0 <= i < |d| ==> '0' <= d[i] <= '9') && ParseBcd(d) == bcd
  {
    BcdDigitsValid(bcd);
    var d := BcdDigits(bcd, Little);
    forall i | 0 <= i < |d| ensures '0' <= d[i] <= '9' {
      var j := i / 2;
      assert d[2 * j..2 * j + 2] == Digits(bcd[j]);
      assert d[i] == Digits(bcd[j])[i - 2 * j];
    }
    forall i | 0 <= i < |bcd| ensures ParseBcd(d)[i] == bcd[i] {
      assert d[2 * i] == d[2 * i..2 * i + 2][0] && d[2 * i + 1] == d[2 * i..2 * i + 2][1];
    }
  }

  /** A date from four valid BCD bytes read `'<'`: the digits of the first
      two bytes, the third, the fourth, with the spacer between. */
  lemma BcdDateLittle(bcd: seq<Byte>, spacer: string, prefix: Option<string>)
    requires |bcd| == 4 && forall i :: 0 <= i < 4 ==> ValidBcd(bcd[i])
    ensures BcdToStr(bcd, "date", spacer, Little, prefix) ==
      Digits(bcd[0]) + Digits(bcd[1]) + spacer + Digits(bcd[2]) + spacer + Digits(bcd[3])
    ensures BcdToStr(bcd, "time", spacer, Little, prefix) ==
      Digits(bcd[0]) + spacer + Digits(bcd[1]) + spacer + Digits(bcd[2]) + spacer + Digits(bcd[3])
    ensures BcdToStr(bcd, "offset", spacer, Little, prefix) ==
      (if prefix.None? then "" else prefix.value) + Digits(bcd[2]) + spacer + Digits(bcd[3])
  {
    BcdDigitsValid(bcd);
    var d := BcdDigits(bcd, Little);
    assert d[0..2] == Digits(bcd[0]) && d[2..4] == Digits(bcd[1]);
    assert d[4..6] == Digits(bcd[2]) && d[6..8] == Digits(bcd[3]);
    assert d[0..4] == d[0..2] + d[2..4];
  }

  /** Four bytes read `'<'` give their four pairs in order. */
  lemma BcdDigitsFour(bcd: seq<Byte>)
    requires |bcd| == 4
    ensures BcdDigits(bcd, Little) == BcdPair(bcd[0]) + BcdPair(bcd[1]) + BcdPair(bcd[2]) + BcdPair(bcd[3])
  {
    var pairs := seq(|bcd|, i requires 0 <= i < |bcd| => BcdPair(bcd[i]));
    assert pairs == [BcdPair(bcd[0]), BcdPair(bcd[1]), BcdPair(bcd[2]), BcdPair(bcd[3])];
    ConcatFour(BcdPair(bcd[0]), BcdPair(bcd[1]), BcdPair(bcd[2]), BcdPair(bcd[3]));
  }

  lemma ConcatFour(a: string, b: string, c: string, d: string)
    ensures Concat([a, b, c, d]) == a + b + c + d
  {
    var ps := [a, b, c, d];
    assert ps[1..] == [b, c, d] && ps[1..][1..] == [c, d] && ps[1..][1..][1..] == [d];
    assert [d][1..] == [];
    assert Concat([d]) == d;
    assert Concat([c, d]) == c + d;
    assert Concat([b, c, d]) == b + (c + d);
  }

  /** The date and time layouts cut the digit string at fixed places,
      whatever the bytes were. */
  lemma BcdSlices(bcd: seq<Byte>, spacer: string, order: ByteOrder, prefix: Option<string>)
    requires |BcdDigits(bcd, order)| >= 8
    ensures var d := BcdDigits(bcd, order);
      BcdToStr(bcd, "date", spacer, order, prefix) == d[0..4] + spacer + d[4..6] + spacer + d[6..8] &&
      BcdToStr(bcd, "time", spacer, order, prefix) ==
        d[0..2] + spacer + d[2..4] + spacer + d[4..6] + spacer + d[6..8]
  {
  }

  /** Where four concatenated pieces sit in the whole, the first `n`
      characters long and the others two. */
  lemma PiecesSlices(p0: string, p1: string, p2: string, p3: string, n: nat)
    requires |p0| == n && |p1| == 2 && |p2| == 2 && |p3| == 2
    ensures var d := p0 + p1 + p2 + p3;
      d[0..n] == p0 && d[n..n + 2] == p1 && d[n + 2..n + 4] == p2 && d[n + 4..n + 6] == p3 &&
      d[0..n + 2] == p0 + p1
  {
    var d := p0 + p1 + p2 + p3;
    assert d == (p0 + p1) + p2 + p3;
  }

  /** The date and time layouts of four bytes read `'<'`, in terms of their
      pairs when each pair is two digits. */
  lemma BcdLayoutsFour(bs: seq<Byte>, spacer: string)
    requires |bs| == 4 && forall i :: 0 <= i < 4 ==> |BcdPair(bs[i])| == 2
    ensures var p0, p1, p2, p3 := BcdPair(bs[0]), BcdPair(bs[1]), BcdPair(bs[2]), BcdPair(bs[3]);
      BcdToStr(bs, "date", spacer, Little, None) == p0 + p1 + spacer + p2 + spacer + p3 &&
      BcdToStr(bs, "time", spacer, Little, None) == p0 + spacer + p1 + spacer + p2 + spacer + p3
  {
    BcdDigitsFour(bs);
    var p0, p1, p2, p3 := BcdPair(bs[0]), BcdPair(bs[1]), BcdPair(bs[2]), BcdPair(bs[3]);
    PiecesSlices(p0, p1, p2, p3, 2);
    assert (p0 + p1)[0..2] == p0 && (p0 + p1)[2..4] == p1;
    BcdSlices(bs, spacer, Little, None);
  }

  /** The examples `12 34 56 78`: `'1234/56/78'` and `'12:34:56:78'` read
      `'<'`. */
  lemma BcdExamplesLittle(bs: seq<Byte>)
    requires bs == [0x12, 0x34, 0x56, 0x78]
    ensures BcdToStr(bs, "date", "/", Little, None) == "1234/56/78"
    ensures BcdToStr(bs, "time", ":", Little, None) == "12:34:56:78"
  {
    assert "12" + "34" + "/" + "56" + "/" + "78" == "1234/56/78";
    assert "12" + ":" + "34" + ":" + "56" + ":" + "78" == "12:34:56:78";
    assert BcdPair(0x12) == "12" && BcdPair(0x34) == "34";
    assert BcdPair(0x56) == "56" && BcdPair(0x78) == "78";
    BcdLayoutsFour(bs, "/");
    BcdLayoutsFour(bs, ":");
  }

  /** Read `'>'`, every layout is the layout of the reversed bytes read
      `'<'`. */
  lemma BcdToStrBig(bcd: seq<Byte>, format: string, spacer: string, prefix: Option<string>)
    ensures BcdToStr(bcd, format, spacer, Big, prefix) == BcdToStr(Reverse(bcd), format, spacer, Little, prefix)
  {
    BcdDigitsBig(bcd);
  }

  /** The same bytes read `'>'`: `'7856/34/12'` and `'78:56:34:12'`. */
  lemma BcdExamplesBig(bs: seq<Byte>)
    requires bs == [0x12, 0x34, 0x56, 0x78]
    ensures BcdToStr(bs, "date", "/", Big, None) == "7856/34/12"
    ensures BcdToStr(bs, "time", ":", Big, None) == "78:56:34:12"
  {
    assert Reverse(bs) == [0x78, 0x56, 0x34, 0x12];
    BcdToStrBig(bs, "date", "/", None);
    BcdToStrBig(bs, "time", ":", None);
    BcdExamplesReversed(Reverse(bs));
  }

  /** The reversed example bytes read `'<'`. */
  lemma BcdExamplesReversed(rs: seq<Byte>)
    requires rs == [0x78, 0x56, 0x34, 0x12]
    ensures BcdToStr(rs, "date", "/", Little, None) == "7856/34/12"
    ensures BcdToStr(rs, "time", ":", Little, None) == "78:56:34:12"
  {
    assert "78" + "56" + "/" + "34" + "/" + "12" == "7856/34/12";
    assert "78" + ":" + "56" + ":" + "34" + ":" + "12" == "78:56:34:12";
    assert BcdPair(0x12) == "12" && BcdPair(0x34) == "34";
    assert BcdPair(0x56) == "56" && BcdPair(0x78) == "78";
    BcdLayoutsFour(rs, "/");
    BcdLayoutsFour(rs, ":");
  }

  /** The pairs of `AB` and `00`: `10` and `11` are two digits each. */
  lemma WidePairs()
    ensures BcdPair(0xAB) == "1011" && BcdPair(0) == "00"
  {
    assert DecimalString(10) == "10" && DecimalString(11) == "11";
  }

  /** A nibble above 9 is written with two digits, so the slices no longer
      fall on byte boundaries: `AB 00 00 00` read `'<'` gives
      `'1011/00/00'`. */
  lemma BcdWideNibble(bs: seq<Byte>)
    requires bs == [0xAB, 0, 0, 0]
    ensures BcdDigits(bs, Little) == "1011000000"
    ensures BcdToStr(bs, "date", "/", Little, None) == "1011/00/00"
  {
    assert "1011" + "00" + "00" + "00" == "1011000000";
    assert "1011" + "/" + "00" + "/" + "00" == "1011/00/00";
    BcdDigitsFour(bs);
    WidePairs();
    PiecesSlices("1011", "00", "00", "00", 4);
    BcdSlices(bs, "/", Little, None);
  }

  // ---------------------------------------------------------------------
  // TStop sentinels.

  /** The least value whose T-stop exponent `((data / 1000) - 1) / 2`
      reaches 1024: from there on the float `2 ** exponent` exceeds the
      largest double and raises `OverflowError`. */
  const TStopOverflowAt := 2049000

  /** `_convert_data_to_tstop`: the sentinel codes -3, -2 and -1 are
      labels; every other value goes through the T-stop formula, which
      overflows once its exponent reaches 1024. */
  function ConvertDataToTStop(data: int): (r: Result<Value, Error>)
    ensures r.Failure? <==> ((data as real) / 1000.0 - 1.0) / 2.0 >= 1024.0
    ensures r.Failure? <==> data >= TStopOverflowAt
    ensures r.Failure? ==> r.error == OverflowError
    ensures r.Success? ==> (r.value.Text? <==> -3 <= data <= -1)
    ensures r.Success? && !r.value.Text? ==> r.value == TStopFormula(data)
  {
    if data == -3 then Success(Text("NearClose"))
    else if data == -2 then Success(Text("Close"))
    else if data == -1 then Success(Text("Invalid"))
    else if data >= TStopOverflowAt then Failure(OverflowError)
    else Success(TStopFormula(data))
  }

  // ---------------------------------------------------------------------
  // Bits.

  /** `(value >> position) & 1`: bit `position` of `value`. */
  function BitOfWord(value: nat, position: nat): (b: nat)
    ensures b == Bit(value, position)
    ensures b < 2
  {
    ShiftAndOne(value, position);
    BitAnd(ShiftRight(value, position), 1)
  }

  // ---------------------------------------------------------------------
  // UUID.

  /** `uuid.UUID(bytes_le=b).bytes`: the first three fields (4, 2 and 2
      bytes) are stored little-endian and are turned around. */
  function BytesLeOrder(b: seq<Byte>): (r: seq<Byte>)
    requires |b| == 16
    ensures |r| == 16
  {
    Reverse(b[0..4]) + Reverse(b[4..6]) + Reverse(b[6..8]) + b[8..16]
  }

  lemma BytesLeOrderInvolution(b: seq<Byte>)
    requires |b| == 16
    ensures BytesLeOrder(BytesLeOrder(b)) == b
  {
    var r := BytesLeOrder(b);
    assert r[0..4] == Reverse(b[0..4]) && r[4..6] == Reverse(b[4..6]);
    assert r[6..8] == Reverse(b[6..8]) && r[8..16] == b[8..16];
  }

  /** `str(uuid.UUID(bytes_le=b))`: 32 lower-case hex digits of the
      reordered bytes, grouped 8-4-4-4-12 with `'-'`. */
  function UuidText(b: seq<Byte>): (s: string)
    requires |b| == 16
    ensures |s| == 36
    ensures s[8] == '-' && s[13] == '-' && s[18] == '-' && s[23] == '-'
    ensures forall i :: 0 <= i < 36 && i !in {8, 13, 18, 23} ==> s[i] in HexDigits
  {
    var h := Hexlify(BytesLeOrder(b));
    h[..8] + "-" + h[8..12] + "-" + h[12..16] + "-" + h[16..20] + "-" + h[20..]
  }

  /** The bytes named by hex digit pairs. */
  function Unhexlify(h: string): (bs: seq<Byte>)
    requires |h| % 2 == 0
    ensures |bs| == |h| / 2
  {
    seq(|h| / 2, i requires 0 <= i < |h| / 2 => UnHex2(h[2 * i..2 * i + 2]))
  }

  /** A slice past the first part of a concatenation is a slice of the
      second part. */
  lemma SliceAfter(a: string, b: string, j: nat, k: nat)
    requires j <= k <= |b|
    ensures (a + b)[|a| + j..|a| + k] == b[j..k]
  {
  }

  lemma {:induction false} HexlifyAt(bs: seq<Byte>, i: nat)
    requires i < |bs|
    ensures Hexlify(bs)[2 * i..2 * i + 2] == Hex2(bs[i])
  {
    var head, tail := Hex2(bs[0]), Hexlify(bs[1..]);
    assert Hexlify(bs) == head + tail;
    if i > 0 {
      HexlifyAt(bs[1..], i - 1);
      assert bs[1..][i - 1] == bs[i];
      SliceAfter(head, tail, 2 * (i - 1), 2 * (i - 1) + 2);
    } else {
      assert (head + tail)[0..2] == head;
    }
  }

  lemma UnhexlifyHexlify(bs: seq<Byte>)
    ensures Unhexlify(Hexlify(bs)) == bs
  {
    forall i | 0 <= i < |bs| ensures Unhexlify(Hexlify(bs))[i] == bs[i] {
      HexlifyAt(bs, i);
      UnHex2Hex2(bs[i]);
    }
  }

  /** The bytes a UUID text was made from: drop the dashes, read the hex,
      undo the little-endian reordering. */
  function ParseUuid(s: string): (b: seq<Byte>)
    requires |s| == 36
    ensures |b| == 16
  {
    var h := s[..8] + s[9..13] + s[14..18] + s[19..23] + s[24..];
    BytesLeOrder(Unhexlify(h))
  }

  /** The UUID text determines the 16 bytes it was made from. */
  lemma UuidRoundTrip(b: seq<Byte>)
    requires |b| == 16
    ensures ParseUuid(UuidText(b)) == b
  {
    var h := Hexlify(BytesLeOrder(b));
    var s := UuidText(b);
    assert s[..8] == h[..8] && s[9..13] == h[8..12] && s[14..18] == h[12..16];
    assert s[19..23] == h[16..20] && s[24..] == h[20..];
    assert h == h[..8] + h[8..12] + h[12..16] + h[16..20] + h[20..];
    UnhexlifyHexlify(BytesLeOrder(b));
    BytesLeOrderInvolution(b);
  }

  // ---------------------------------------------------------------------
  // Frame lines.

  /** The frame-line type word: 1 is a master line, 2 an auxiliary one,
      anything else inactive. */
  function FrameLineTypeName(code: int): (name: string)
    ensures name == "Master" <==> code == 1
    ensures name == "Aux" <==> code == 2
    ensures name == "Inactive" <==> code != 1 && code != 2
  {
    if code == 1 then "Master" else if code == 2 then "Aux" else "Inactive"
  }

  /** The output key `FrameLine{number}{part}`. */
  function FrameLineKey(number: string, part: string): string
  {
    "FrameLine" + number + part
  }
}
