/** Hexadecimal display and parsing of byte strings. The parser follows the
    Rust standard library closely: Unicode whitespace is dropped, the length
    test counts UTF-8 bytes, and each byte pair goes through
    `u8::from_str_radix(pair, 16)`, which also accepts a leading `'+'`. */
module Hex {
  import opened Bytes
  import opened Errors

  /** Why `parse_hex` failed (the source reports these as message strings). */
  datatype HexError = OddLength | InvalidPair(hi: byte, lo: byte)

  datatype ParseResult = Parsed(bytes: seq<byte>) | Failed(error: HexError)

  /** The lower-case digit of a nibble. */
  function HexDigit(n: nat): (c: char)
    requires n < 16
  {
    if n < 10 then (0x30 + n) as char else (0x61 + n - 10) as char
  }

  /** A lower-case hex digit is plain ASCII, not whitespace, not a sign, and
      reads back as its nibble. */
  lemma HexDigitFacts(n: nat)
    requires n < 16
    ensures HexDigit(n) as int < 0x80 && HexDigit(n) != '+' && !IsWhitespace(HexDigit(n))
    ensures DigitValue(HexDigit(n) as int) == Some(n)
  {
  }

  /** `{:02x}` of one byte: high nibble first. */
  function HexByte(b: byte): (r: string)
  {
    [HexDigit(b / 16), HexDigit(b % 16)]
  }

  /** `bytes_to_hex`. */
  function BytesToHex(bytes: seq<byte>): (r: string)
    ensures |r| == 2 * |bytes|
  {
    if |bytes| == 0 then "" else HexByte(bytes[0]) + BytesToHex(bytes[1..])
  }

  /** `bytes_to_hex_spaced`: a single space before every byte but the first. */
  function BytesToHexSpaced(bytes: seq<byte>): (r: string)
    ensures |bytes| == 0 ==> r == ""
    ensures |bytes| > 0 ==> |r| == 3 * |bytes| - 1
  {
    if |bytes| == 0 then ""
    else if |bytes| == 1 then HexByte(bytes[0])
    else HexByte(bytes[0]) + " " + BytesToHexSpaced(bytes[1..])
  }

  /** Byte `i` appears as two lower-case digits, high nibble first, at
      offset `2i` of the compact form. */
  lemma {:induction false} BytesToHexLayout(bytes: seq<byte>)
    ensures forall i :: 0 <= i < |bytes| ==>
      BytesToHex(bytes)[2 * i] == HexDigit(bytes[i] / 16) && BytesToHex(bytes)[2 * i + 1] == HexDigit(bytes[i] % 16)
  {
    if |bytes| > 0 {
      BytesToHexLayout(bytes[1..]);
      var r := BytesToHex(bytes);
      var rest := BytesToHex(bytes[1..]);
      assert forall i :: 1 <= i < |bytes| ==> r[2 * i] == rest[2 * (i - 1)] && r[2 * i + 1] == rest[2 * (i - 1) + 1];
    }
  }

  /** Byte `i` appears at offset `3i` of the spaced form, and a single space
      follows every byte but the last. */
  lemma {:induction false} BytesToHexSpacedLayout(bytes: seq<byte>)
    ensures forall i :: 0 <= i < |bytes| ==>
      BytesToHexSpaced(bytes)[3 * i] == HexDigit(bytes[i] / 16) && BytesToHexSpaced(bytes)[3 * i + 1] == HexDigit(bytes[i] % 16)
    ensures forall i :: 0 <= i < |bytes| - 1 ==> BytesToHexSpaced(bytes)[3 * i + 2] == ' '
  {
    if |bytes| > 1 {
      BytesToHexSpacedLayout(bytes[1..]);
      var r := BytesToHexSpaced(bytes);
      var rest := BytesToHexSpaced(bytes[1..]);
      assert r[2] == ' ';
      assert forall i :: 1 <= i < |bytes| ==> r[3 * i] == rest[3 * (i - 1)] && r[3 * i + 1] == rest[3 * (i - 1) + 1];
      forall i | 1 <= i < |bytes| - 1
        ensures r[3 * i + 2] == ' '
      {
        var j := i - 1;
        assert r[3 * i + 2] == rest[3 * j + 2];
      }
    }
  }

  /** Rust's `char::is_whitespace`: the Unicode `White_Space` property. */
  predicate IsWhitespace(c: char)
  {
    var n := c as int;
    || 0x09 <= n <= 0x0D || n == 0x20 || n == 0x85 || n == 0xA0 || n == 0x1680
    || 0x2000 <= n <= 0x200A || n == 0x2028 || n == 0x2029 || n == 0x202F
    || n == 0x205F || n == 0x3000
  }

  /** The characters of `s` that are not whitespace, in order. */
  function RemoveWhitespace(s: string): (r: string)
    ensures |r| <= |s|
  {
    if |s| == 0 then ""
    else if IsWhitespace(s[0]) then RemoveWhitespace(s[1..])
    else [s[0]] + RemoveWhitespace(s[1..])
  }

  /** The cleaned string holds no whitespace, and cleaning leaves a string
      unchanged exactly when it had none to begin with. */
  lemma {:induction false} RemoveWhitespaceMeaning(s: string)
    ensures forall i :: 0 <= i < |RemoveWhitespace(s)| ==> !IsWhitespace(RemoveWhitespace(s)[i])
    ensures RemoveWhitespace(s) == s <==> forall i :: 0 <= i < |s| ==> !IsWhitespace(s[i])
  {
    if |s| > 0 {
      RemoveWhitespaceMeaning(s[1..]);
      if IsWhitespace(s[0]) {
        assert |RemoveWhitespace(s)| < |s|;
      } else {
        assert forall i :: 1 <= i < |s| ==> s[i] == s[1..][i - 1];
      }
    }
  }

  /** UTF-8 encoding of one scalar value. */
  function Utf8Char(c: char): (r: seq<byte>)
    ensures 1 <= |r| <= 4
    ensures |r| == 1 <==> c as int < 0x80
    ensures c as int < 0x80 ==> r[0] == c as int
  {
    var n := c as int;
    if n < 0x80 then [n]
    else if n < 0x800 then [0xC0 + n / 0x40, 0x80 + n % 0x40]
    else if n < 0x1_0000 then [0xE0 + n / 0x1000, 0x80 + n / 0x40 % 0x40, 0x80 + n % 0x40]
    else [0xF0 + n / 0x4_0000, 0x80 + n / 0x1000 % 0x40, 0x80 + n / 0x40 % 0x40, 0x80 + n % 0x40]
  }

  /** `str::as_bytes`: the UTF-8 encoding of a string. */
  function Utf8(s: string): (r: seq<byte>)
    ensures |r| >= |s|
  {
    if |s| == 0 then [] else Utf8Char(s[0]) + Utf8(s[1..])
  }

  /** A byte that is an ASCII hex digit: `0-9`, `a-f` or `A-F`. */
  predicate IsHexDigitByte(b: byte)
  {
    || '0' as int <= b <= '9' as int
    || 'a' as int <= b <= 'f' as int
    || 'A' as int <= b <= 'F' as int
  }

  /** An ASCII letter in lower case; every other byte unchanged. */
  function LowerAscii(b: byte): byte
  {
    if 'A' as int <= b <= 'Z' as int then b + 0x20 else b
  }

  /** The value of an ASCII hex digit, upper or lower case: exactly the hex
      digits have one, and it is the nibble whose lower-case digit is the
      given digit in lower case. */
  function DigitValue(b: byte): (r: Option<nat>)
    ensures r.Some? <==> IsHexDigitByte(b)
    ensures r.Some? ==> r.value < 16 && HexDigit(r.value) as int == LowerAscii(b)
  {
    if 0x30 <= b <= 0x39 then Some(b - 0x30)
    else if 0x61 <= b <= 0x66 then Some(b - 0x61 + 10)
    else if 0x41 <= b <= 0x46 then Some(b - 0x41 + 10)
    else None
  }

  /** `u8::from_str_radix` on a two-character string: two hex digits, read
      high nibble first, or a `'+'` sign followed by one digit. A `'-'` sign
      is never accepted for an unsigned type. */
  function PairValue(hi: byte, lo: byte): (r: Option<byte>)
    ensures hi == '+' as int ==> (r.Some? <==> DigitValue(lo).Some?)
    ensures hi == '+' as int && r.Some? ==> r.value == DigitValue(lo).value
    ensures hi != '+' as int ==> (r.Some? <==> DigitValue(hi).Some? && DigitValue(lo).Some?)
    ensures hi != '+' as int && r.Some? ==> r.value == 16 * DigitValue(hi).value + DigitValue(lo).value
  {
    if hi == '+' as int then
      match DigitValue(lo)
      case None => None
      case Some(v) => Some(v)
    else
      match (DigitValue(hi), DigitValue(lo))
      case (Some(h), Some(l)) => Some(16 * h + l)
      case _ => None
  }

  /** The value of the `k`-th byte pair of `b`. */
  function PairAt(b: seq<byte>, k: nat): Option<byte>
    requires 2 * k + 1 < |b|
  {
    PairValue(b[2 * k], b[2 * k + 1])
  }

  /** The pair loop of `parse_hex`, stopping at the first invalid pair. */
  function ParsePairs(b: seq<byte>): (r: ParseResult)
    requires |b| % 2 == 0
    ensures r.Parsed? ==> 2 * |r.bytes| == |b|
    ensures r.Failed? ==> r.error.InvalidPair?
    decreases |b|
  {
    if |b| == 0 then Parsed([])
    else
      match PairValue(b[0], b[1])
      case None => Failed(InvalidPair(b[0], b[1]))
      case Some(v) =>
        match ParsePairs(b[2..])
        case Failed(e) => Failed(e)
        case Parsed(rest) => Parsed([v] + rest)
  }

  /** The pair loop succeeds exactly when every pair is valid, and then
      byte `k` is the value of pair `k`; otherwise it reports the first
      invalid pair. */
  lemma {:induction false} ParsePairsMeaning(b: seq<byte>)
    requires |b| % 2 == 0
    ensures var r := ParsePairs(b);
      && (r.Parsed? <==> forall k :: 0 <= k < |b| / 2 ==> PairAt(b, k).Some?)
      && (r.Parsed? ==> |r.bytes| == |b| / 2 && forall k :: 0 <= k < |r.bytes| ==> PairAt(b, k) == Some(r.bytes[k]))
      && (r.Failed? ==> exists k :: (0 <= k < |b| / 2 && PairAt(b, k).None?
            && r.error == InvalidPair(b[2 * k], b[2 * k + 1])
            && forall j :: 0 <= j < k ==> PairAt(b, j).Some?))
    decreases |b|
  {
    if |b| > 0 {
      var rest := b[2..];
      ParsePairsMeaning(rest);
      forall k | 1 <= k < |b| / 2
        ensures PairAt(b, k) == PairAt(rest, k - 1)
      {
        assert b[2 * k] == rest[2 * (k - 1)] && b[2 * k + 1] == rest[2 * (k - 1) + 1];
      }
      var r := ParsePairs(b);
      if PairAt(b, 0).Some? {
        var rr := ParsePairs(rest);
        if rr.Parsed? {
          assert r.bytes == [PairAt(b, 0).value] + rr.bytes;
          forall k | 0 <= k < |r.bytes|
            ensures PairAt(b, k) == Some(r.bytes[k])
          {
            if k > 0 {
              assert r.bytes[k] == rr.bytes[k - 1];
            }
          }
        } else {
          var k' :| 0 <= k' < |rest| / 2 && PairAt(rest, k').None?
            && rr.error == InvalidPair(rest[2 * k'], rest[2 * k' + 1])
            && forall j :: 0 <= j < k' ==> PairAt(rest, j).Some?;
          var k := k' + 1;
          assert b[2 * k] == rest[2 * k'] && b[2 * k + 1] == rest[2 * k' + 1];
          assert PairAt(b, k).None?;
          forall j | 0 <= j < k
            ensures PairAt(b, j).Some?
          {
            if j > 0 {
              assert PairAt(b, j) == PairAt(rest, j - 1);
            }
          }
        }
      }
    }
  }

  /** `parse_hex`. */
  function ParseHex(s: string): (r: ParseResult)
    ensures r == Failed(OddLength) <==> |Utf8(RemoveWhitespace(s))| % 2 == 1
    ensures r.Parsed? ==> 2 * |r.bytes| == |Utf8(RemoveWhitespace(s))|
  {
    ParseCleaned(Utf8(RemoveWhitespace(s)))
  }

  /** The length test and the pair loop of `parse_hex`, applied to the UTF-8
      bytes of the cleaned string. */
  function ParseCleaned(cleaned: seq<byte>): (r: ParseResult)
    ensures r == Failed(OddLength) <==> |cleaned| % 2 == 1
    ensures r.Parsed? ==> 2 * |r.bytes| == |cleaned|
  {
    if |cleaned| % 2 != 0 then Failed(OddLength) else ParsePairs(cleaned)
  }

  /** What `parse_hex` returns, in terms of the UTF-8 bytes `c` of the
      string with its whitespace removed: an odd count is `OddLength`;
      otherwise it succeeds exactly when every byte pair of `c` is valid,
      byte `k` being the value of pair `k`, and fails at the first invalid
      pair. */
  lemma ParseHexMeaning(s: string)
    ensures var c := Utf8(RemoveWhitespace(s)); var r := ParseHex(s);
      && (r == Failed(OddLength) <==> |c| % 2 == 1)
      && (r.Parsed? <==> |c| % 2 == 0 && forall k :: 0 <= k < |c| / 2 ==> PairAt(c, k).Some?)
      && (r.Parsed? ==> |r.bytes| == |c| / 2 && forall k :: 0 <= k < |r.bytes| ==> PairAt(c, k) == Some(r.bytes[k]))
      && (r.Failed? && |c| % 2 == 0 ==> exists k :: (0 <= k < |c| / 2 && PairAt(c, k).None?
            && r.error == InvalidPair(c[2 * k], c[2 * k + 1])
            && forall j :: 0 <= j < k ==> PairAt(c, j).Some?))
  {
    var c := Utf8(RemoveWhitespace(s));
    if |c| % 2 == 0 {
      ParsePairsMeaning(c);
    }
  }

  /** Upper-case digits read as their lower-case forms: `"Ab"` parses as
      `0xAB`. */
  lemma UpperCaseVector()
    ensures ParseHex("Ab") == Parsed([0xAB])
  {
    assert "Ab"[1..] == "b" && "b"[1..] == "";
    assert RemoveWhitespace("Ab") == "Ab";
    assert Utf8("Ab") == [0x41, 0x62];
  }

  // ---- round trips ----

  lemma {:induction false} RemoveWhitespaceAppend(a: string, b: string)
    ensures RemoveWhitespace(a + b) == RemoveWhitespace(a) + RemoveWhitespace(b)
  {
    if |a| > 0 {
      assert (a + b)[1..] == a[1..] + b;
      RemoveWhitespaceAppend(a[1..], b);
    } else {
      assert a + b == b;
    }
  }

  lemma {:induction false} Utf8Append(a: string, b: string)
    ensures Utf8(a + b) == Utf8(a) + Utf8(b)
  {
    if |a| > 0 {
      assert (a + b)[1..] == a[1..] + b;
      Utf8Append(a[1..], b);
    } else {
      assert a + b == b;
    }
  }

  lemma HexByteFacts(b: byte)
    ensures RemoveWhitespace(HexByte(b)) == HexByte(b)
    ensures Utf8(HexByte(b)) == [HexByte(b)[0] as int, HexByte(b)[1] as int]
    ensures PairValue(HexByte(b)[0] as int, HexByte(b)[1] as int) == Some(b)
  {
    var h := HexByte(b);
    HexDigitFacts(b / 16);
    HexDigitFacts(b % 16);
    assert h[1..] == [h[1]] && h[1..][1..] == [];
    assert RemoveWhitespace(h[1..]) == [h[1]] + RemoveWhitespace(h[1..][1..]);
    assert Utf8(h[1..]) == Utf8Char(h[1]) + Utf8(h[1..][1..]);
  }

  /** Whitespace never changes the parse: it is removed before anything else. */
  lemma WhitespaceIgnored(a: string, b: string)
    ensures ParseHex(a + " " + b) == ParseHex(a + b)
  {
    assert RemoveWhitespace(" ") == "" by {
      assert " "[1..] == "";
    }
    calc {
      RemoveWhitespace(a + " " + b);
      { RemoveWhitespaceAppend(a + " ", b); }
      RemoveWhitespace(a + " ") + RemoveWhitespace(b);
      { RemoveWhitespaceAppend(a, " "); }
      RemoveWhitespace(a) + RemoveWhitespace(b);
      { RemoveWhitespaceAppend(a, b); }
      RemoveWhitespace(a + b);
    }
  }

  /** Parsing a string and parsing its whitespace-free form agree. */
  lemma ParseIgnoresWhitespace(s: string)
    ensures ParseHex(RemoveWhitespace(s)) == ParseHex(s)
  {
    RemoveWhitespaceMeaning(s);
    RemoveWhitespaceMeaning(RemoveWhitespace(s));
  }

  lemma {:induction false} ParseCompact(bytes: seq<byte>)
    ensures RemoveWhitespace(BytesToHex(bytes)) == BytesToHex(bytes)
    ensures Utf8(BytesToHex(bytes)) == CompactCodes(bytes)
    ensures ParsePairs(CompactCodes(bytes)) == Parsed(bytes)
  {
    if |bytes| > 0 {
      var h := HexByte(bytes[0]);
      var rest := BytesToHex(bytes[1..]);
      ParseCompact(bytes[1..]);
      HexByteFacts(bytes[0]);
      RemoveWhitespaceAppend(h, rest);
      Utf8Append(h, rest);
      var u := CompactCodes(bytes);
      assert u[..2] == [h[0] as int, h[1] as int];
      assert u[2..] == CompactCodes(bytes[1..]);
      assert [bytes[0]] + bytes[1..] == bytes;
    }
  }

  /** The UTF-8 bytes of `BytesToHex(bytes)`, two ASCII codes per byte. */
  function CompactCodes(bytes: seq<byte>): (r: seq<byte>)
    ensures |r| == 2 * |bytes|
  {
    if |bytes| == 0 then []
    else [HexByte(bytes[0])[0] as int, HexByte(bytes[0])[1] as int] + CompactCodes(bytes[1..])
  }

  lemma DoubleIsEven(n: nat)
    ensures (2 * n) % 2 == 0
  {
  }

  /** Parsing the compact hex form gives the bytes back. */
  lemma HexRoundTrip(bytes: seq<byte>)
    ensures ParseHex(BytesToHex(bytes)) == Parsed(bytes)
  {
    calc {
      ParseHex(BytesToHex(bytes));
      ParseCleaned(Utf8(RemoveWhitespace(BytesToHex(bytes))));
      { ParseCompact(bytes); }
      ParseCleaned(CompactCodes(bytes));
      { ParseCompact(bytes); DoubleIsEven(|bytes|); }
      Parsed(bytes);
    }
  }

  lemma {:induction false} SpacedCleansToCompact(bytes: seq<byte>)
    ensures RemoveWhitespace(BytesToHexSpaced(bytes)) == BytesToHex(bytes)
  {
    if |bytes| == 1 {
      HexByteFacts(bytes[0]);
      assert BytesToHex(bytes) == HexByte(bytes[0]) + "";
    } else if |bytes| > 1 {
      var h := HexByte(bytes[0]);
      SpacedCleansToCompact(bytes[1..]);
      HexByteFacts(bytes[0]);
      RemoveWhitespaceAppend(h + " ", BytesToHexSpaced(bytes[1..]));
      RemoveWhitespaceAppend(h, " ");
      assert RemoveWhitespace(" ") == "" by {
        assert " "[1..] == "";
      }
    }
  }

  /** Parsing the spaced hex form gives the bytes back. */
  lemma HexSpacedRoundTrip(bytes: seq<byte>)
    ensures ParseHex(BytesToHexSpaced(bytes)) == Parsed(bytes)
  {
    calc {
      ParseHex(BytesToHexSpaced(bytes));
      ParseCleaned(Utf8(RemoveWhitespace(BytesToHexSpaced(bytes))));
      { SpacedCleansToCompact(bytes); ParseCompact(bytes); }
      ParseCleaned(CompactCodes(bytes));
      { ParseCompact(bytes); DoubleIsEven(|bytes|); }
      Parsed(bytes);
    }
  }

  /** Unit-test vectors of the two formatters in hex.rs. */
  lemma FormatVectors()
    ensures BytesToHex([0xDE, 0xAD, 0xBE, 0xEF]) == "deadbeef"
    ensures BytesToHexSpaced([0xDE, 0xAB]) == "de ab"
  {
    assert [0xDE, 0xAD, 0xBE, 0xEF][1..] == [0xAD, 0xBE, 0xEF];
    assert [0xAD, 0xBE, 0xEF][1..] == [0xBE, 0xEF];
    assert [0xBE, 0xEF][1..] == [0xEF];
    assert HexByte(0xDE) == "de" && HexByte(0xAD) == "ad" && HexByte(0xBE) == "be" && HexByte(0xEF) == "ef";
    assert HexByte(0xAB) == "ab";
    assert [0xDE, 0xAB][1..] == [0xAB];
  }

  /** Error vectors of `parse_hex`: an odd digit count, a non-hex pair. */
  lemma ParseErrorVectors()
    ensures ParseHex("abc") == Failed(OddLength)
    ensures ParseHex("zz") == Failed(InvalidPair(0x7A, 0x7A))
  {
    assert "abc"[1..] == "bc" && "bc"[1..] == "c" && "c"[1..] == "";
    assert "zz"[1..] == "z" && "z"[1..] == "";
  }

  /** `from_str_radix` accepts a `'+'` sign but, for an unsigned type, no
      `'-'` sign, so `"+f"` parses as `0x0F` and `"-f"` is rejected. */
  lemma SignVectors()
    ensures ParseHex("+f") == Parsed([0x0F])
    ensures ParseHex("-f") == Failed(InvalidPair(0x2D, 0x66))
  {
    assert "+f"[1..] == "f" && "f"[1..] == "";
    assert "-f"[1..] == "f";
  }
}
