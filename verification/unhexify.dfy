/**
  The decoder inside `Unhexify.run()`: scan the `--data` string left to
  right, keeping hex digits and skipping whitespace, stop at the first other
  character and report its 0-based position; reject an odd number of kept
  digits; otherwise cut the digits into pairs and turn each pair into one
  byte, high nibble first.

  `Decode` is the specification of the whole decoder, built from
  `FirstInvalid` (where the scan stops) and `HexDigits` (what it keeps).
  `Run` is the scan loop as the source writes it, proved to compute `Decode`.
  The lemmas state the decoder's promises about `Decode`.
 */
module Unhexify {
  import opened Chunking

  /** Swift's `UInt8`. */
  type uint8 = x: int | 0 <= x < 0x100

  datatype Option<T> = None | Some(value: T)

  /** The two failures `run()` reports before it exits, and its success. */
  datatype DecodeResult =
    | Ok(bytes: seq<uint8>)
    | InvalidCharacter(position: nat)
    | Malformed

  /** The three branches of the scan: keep, skip, fail. */
  datatype CharClass = HexDigit | Whitespace | Invalid

  /** A hex digit: `0-9`, `a-f`, `A-F`. */
  predicate IsHexDigit(c: char)
  {
    '0' <= c <= '9' || 'a' <= c <= 'f' || 'A' <= c <= 'F'
  }

  /** `Character.isWhitespace`: the scalars with the Unicode White_Space property. */
  predicate IsWhitespace(c: char)
  {
    || '\t' <= c <= '\r'
    || c == ' ' || c == '\U{0085}' || c == '\U{00A0}' || c == '\U{1680}'
    || '\U{2000}' <= c <= '\U{200A}'
    || c == '\U{2028}' || c == '\U{2029}' || c == '\U{202F}' || c == '\U{205F}' || c == '\U{3000}'
  }

  /** Which branch of the scan a character takes; the hex test comes first. */
  function Classify(c: char): CharClass
  {
    if IsHexDigit(c) then HexDigit
    else if IsWhitespace(c) then Whitespace
    else Invalid
  }

  /** The value of one hex digit, either case. */
  function DigitValue(c: char): (v: nat)
    requires IsHexDigit(c)
    ensures v < 16
  {
    if '0' <= c <= '9' then c as int - '0' as int
    else if 'a' <= c <= 'f' then c as int - 'a' as int + 10
    else c as int - 'A' as int + 10
  }

  /** The value of a run of hex digits, most significant digit first. */
  function HexValue(s: string): nat
    requires forall i :: 0 <= i < |s| ==> IsHexDigit(s[i])
  {
    if s == [] then 0 else 16 * HexValue(s[..|s| - 1]) + DigitValue(s[|s| - 1])
  }

  /**
    `UInt8(String, radix: 16)`: nothing for an empty string, for a character
    that is not a hex digit, or for a value above 255.
   */
  function ParseUInt8(s: string): Option<uint8>
  {
    if s == [] || exists i :: 0 <= i < |s| && !IsHexDigit(s[i]) then None
    else if HexValue(s) < 0x100 then Some(HexValue(s))
    else None
  }

  /** A pair of hex digits always parses, to sixteen times the first digit plus the second. */
  lemma ParsePair(s: string)
    requires |s| == 2 && IsHexDigit(s[0]) && IsHexDigit(s[1])
    ensures ParseUInt8(s) == Some(16 * DigitValue(s[0]) + DigitValue(s[1]))
  {
    assert s[..1][..0] == [];
    assert HexValue(s) == 16 * HexValue(s[..1]) + DigitValue(s[1]);
  }

  /** A string that parses holds hex digits only; a parsed pair is high nibble first. */
  lemma ParsedPairs(pairs: seq<string>)
    requires forall i :: 0 <= i < |pairs| ==> ParseUInt8(pairs[i]).Some?
    ensures forall i :: 0 <= i < |pairs| && |pairs[i]| == 2 ==>
              && IsHexDigit(pairs[i][0]) && IsHexDigit(pairs[i][1])
              && ParseUInt8(pairs[i]) == Some(16 * DigitValue(pairs[i][0]) + DigitValue(pairs[i][1]))
  {
    forall i | 0 <= i < |pairs| && |pairs[i]| == 2
      ensures ParseUInt8(pairs[i]) == Some(16 * DigitValue(pairs[i][0]) + DigitValue(pairs[i][1]))
    {
      ParsePair(pairs[i]);
    }
  }

  /**
    `pairs.map { UInt8(String($0), radix: 16)! }`: the unwrap demands that
    every pair parses. One byte per pair, in order; a pair of two characters
    gives sixteen times its first digit plus its second.
   */
  function PairsToBytes(pairs: seq<string>): (b: seq<uint8>)
    requires forall i :: 0 <= i < |pairs| ==> ParseUInt8(pairs[i]).Some?
    ensures |b| == |pairs|
    ensures forall i :: 0 <= i < |b| && |pairs[i]| == 2 ==>
              && IsHexDigit(pairs[i][0]) && IsHexDigit(pairs[i][1])
              && b[i] == 16 * DigitValue(pairs[i][0]) + DigitValue(pairs[i][1])
  {
    ParsedPairs(pairs);
    seq(|pairs|, i requires 0 <= i < |pairs| => ParseUInt8(pairs[i]).value)
  }

  /** Parsing the two lower-case hex digits of a byte gives that byte back. */
  lemma ParseUInt8Inverse(v: uint8)
    ensures ParseUInt8([HexChar(v / 16), HexChar(v % 16)]) == Some(v)
  {
    ParsePair([HexChar(v / 16), HexChar(v % 16)]);
  }

  /**
    Where the scan stops: the index of the first character that is neither a
    hex digit nor whitespace, if there is one.
   */
  function FirstInvalid(s: string): (r: Option<nat>)
    ensures r.Some? ==> r.value < |s|
  {
    if s == [] then None
    else if Classify(s[0]) == Invalid then Some(0)
    else match FirstInvalid(s[1..])
      case None => None
      case Some(p) => Some(p + 1)
  }

  /**
    The scan stops at the first character that is neither a hex digit nor
    whitespace, and runs to the end when there is none.
   */
  lemma {:induction false} FirstInvalidSpec(s: string)
    ensures FirstInvalid(s).Some? ==>
              var p := FirstInvalid(s).value;
              && Classify(s[p]) == Invalid
              && forall j :: 0 <= j < p ==> Classify(s[j]) != Invalid
    ensures FirstInvalid(s).None? ==> forall j :: 0 <= j < |s| ==> Classify(s[j]) != Invalid
  {
    if s != [] && Classify(s[0]) != Invalid {
      FirstInvalidSpec(s[1..]);
      forall j | 1 <= j < |s| ensures s[j] == s[1..][j - 1] {}
    }
  }

  /** What the scan keeps: the hex digits of `s`, in order. */
  function HexDigits(s: string): (d: string)
    ensures |d| <= |s|
    ensures forall i :: 0 <= i < |d| ==> IsHexDigit(d[i])
  {
    if s == [] then []
    else (if IsHexDigit(s[0]) then [s[0]] else []) + HexDigits(s[1..])
  }

  /** The whole decoder. */
  function Decode(data: string): (r: DecodeResult)
    ensures r.Ok? ==> |r.bytes| == |HexDigits(data)| / 2
  {
    match FirstInvalid(data)
    case Some(p) => InvalidCharacter(p)
    case None =>
      var digits := HexDigits(data);
      if |digits| % 2 != 0 then Malformed
      else
        PairsParse(digits);
        ChunkedPairs(digits);
        Ok(PairsToBytes(Chunked(digits, 2)))
  }

  /**
    Every pair the decoder forms from scanned digits parses, so the force
    unwrap never traps once the scan accepts only ASCII hex digits.
   */
  lemma PairsParse(digits: string)
    requires |digits| % 2 == 0
    requires forall i :: 0 <= i < |digits| ==> IsHexDigit(digits[i])
    ensures forall i :: 0 <= i < |Chunked(digits, 2)| ==> ParseUInt8(Chunked(digits, 2)[i]).Some?
  {
    ChunkedPairs(digits);
    forall i | 0 <= i < |digits| / 2 ensures ParseUInt8(Chunked(digits, 2)[i]).Some? {
      ParsePair(Chunked(digits, 2)[i]);
    }
  }

  /**
    `run()` up to the point where the bytes are handed to the file writer:
    `inputData` collects the hex digits and `position` counts every
    character consumed; the first character that is neither stops the scan.
   */
  method Run(data: string) returns (r: DecodeResult)
    ensures r == Decode(data)
  {
    var inputData: string := [];
    var position: nat := 0;
    for i := 0 to |data|
      invariant position == i
      invariant inputData == HexDigits(data[..i])
      invariant FirstInvalid(data[..i]) == None
    {
      var ch := data[i];
      ScanStep(data, i);
      if IsHexDigit(ch) {
        inputData := inputData + [ch];
        position := position + 1;
      } else if IsWhitespace(ch) {
        position := position + 1;
        continue;
      } else {
        return InvalidCharacter(position);
      }
    }
    assert data[..|data|] == data;

    if |inputData| % 2 != 0 {
      return Malformed;
    }

    PairsParse(inputData);
    var pairs := Chunked(inputData, 2);
    var byteData := PairsToBytes(pairs);
    return Ok(byteData);
  }

  /**
    One iteration of the scan over the prefix consumed so far: a hex digit
    is kept, a hex digit or whitespace lets the scan go on, and any other
    character after a clean prefix is the one the decoder reports.
   */
  lemma ScanStep(data: string, i: nat)
    requires i < |data|
    ensures HexDigits(data[..i + 1]) ==
              HexDigits(data[..i]) + (if IsHexDigit(data[i]) then [data[i]] else [])
    ensures FirstInvalid(data[..i]) == None && Classify(data[i]) != Invalid ==>
              FirstInvalid(data[..i + 1]) == None
    ensures FirstInvalid(data[..i]) == None && Classify(data[i]) == Invalid ==>
              Decode(data) == InvalidCharacter(i)
  {
    var prefix := data[..i + 1];
    assert prefix == data[..i] + [data[i]];
    HexDigitsAppend(data[..i], data[i]);
    FirstInvalidConcat(data[..i], [data[i]]);
    assert data == prefix + data[i + 1..];
    FirstInvalidConcat(prefix, data[i + 1..]);
  }

  // ---------------------------------------------------------------------
  // The filter

  /** Filtering distributes over concatenation. */
  lemma {:induction false} HexDigitsConcat(a: string, b: string)
    ensures HexDigits(a + b) == HexDigits(a) + HexDigits(b)
  {
    if a != [] {
      assert (a + b)[0] == a[0] && (a + b)[1..] == a[1..] + b;
      HexDigitsConcat(a[1..], b);
      var head := if IsHexDigit(a[0]) then [a[0]] else [];
      assert head + HexDigits(a[1..]) + HexDigits(b) == head + (HexDigits(a[1..]) + HexDigits(b));
    } else {
      assert a + b == b;
    }
  }

  /** One scan step: a hex digit is appended, anything else leaves the digits alone. */
  lemma HexDigitsAppend(s: string, c: char)
    ensures HexDigits(s + [c]) == HexDigits(s) + (if IsHexDigit(c) then [c] else [])
  {
    HexDigitsConcat(s, [c]);
  }

  /** A string of hex digits only is its own filter. */
  lemma {:induction false} HexDigitsAllHex(s: string)
    requires forall i :: 0 <= i < |s| ==> IsHexDigit(s[i])
    ensures HexDigits(s) == s
  {
    if s != [] {
      HexDigitsAllHex(s[1..]);
    }
  }

  /** A string of whitespace only contributes no digits. */
  lemma {:induction false} HexDigitsWhitespace(w: string)
    requires forall i :: 0 <= i < |w| ==> IsWhitespace(w[i])
    ensures HexDigits(w) == []
  {
    if w != [] {
      HexDigitsWhitespace(w[1..]);
    }
  }

  // ---------------------------------------------------------------------
  // The three outcomes

  /**
    The decoder reports `InvalidCharacter(p)` exactly when `p` is the index
    of the first character that is neither a hex digit nor whitespace,
    whatever the number of digits: this check comes before the parity check.
   */
  lemma DecodeInvalidCharacter(data: string, p: nat)
    ensures Decode(data) == InvalidCharacter(p) <==>
              && p < |data|
              && !IsHexDigit(data[p]) && !IsWhitespace(data[p])
              && forall j :: 0 <= j < p ==> IsHexDigit(data[j]) || IsWhitespace(data[j])
  {
    FirstInvalidSpec(data);
    match FirstInvalid(data)
    case Some(q) =>
      assert Classify(data[q]) == Invalid;
    case None =>
  }

  /**
    The decoder reports `Malformed` exactly when every character is a hex
    digit or whitespace and the number of hex digits is odd.
   */
  lemma DecodeMalformed(data: string)
    ensures Decode(data) == Malformed <==>
              && (forall j :: 0 <= j < |data| ==> IsHexDigit(data[j]) || IsWhitespace(data[j]))
              && |HexDigits(data)| % 2 == 1
  {
    FirstInvalidSpec(data);
    match FirstInvalid(data)
    case Some(q) =>
      assert Classify(data[q]) == Invalid;
    case None =>
  }

  /**
    The decoder succeeds exactly when every character is a hex digit or
    whitespace and there is an even number of digits; then it yields half
    as many bytes as digits, and byte `i` is made of digits `2i` (high
    nibble) and `2i + 1` (low nibble) of the filtered digits.
   */
  lemma DecodeOk(data: string)
    ensures Decode(data).Ok? <==>
              && (forall j :: 0 <= j < |data| ==> IsHexDigit(data[j]) || IsWhitespace(data[j]))
              && |HexDigits(data)| % 2 == 0
    ensures Decode(data).Ok? ==>
              var d, b := HexDigits(data), Decode(data).bytes;
              && |b| == |d| / 2
              && forall i :: 0 <= i < |b| ==>
                   b[i] == 16 * DigitValue(d[2 * i]) + DigitValue(d[2 * i + 1])
  {
    FirstInvalidSpec(data);
    match FirstInvalid(data)
    case Some(q) =>
      assert Classify(data[q]) == Invalid;
    case None =>
      var d := HexDigits(data);
      if |d| % 2 == 0 {
        ChunkedPairs(d);
        var pairs := Chunked(d, 2);
        var b := Decode(data).bytes;
        forall i | 0 <= i < |b|
          ensures b[i] == 16 * DigitValue(d[2 * i]) + DigitValue(d[2 * i + 1])
        {
          assert pairs[i] == [d[2 * i], d[2 * i + 1]];
        }
      }
  }

  // ---------------------------------------------------------------------
  // Insensitivity to whitespace and to letter case

  /** A position shifted right by `n`, if there is one. */
  function Shift(o: Option<nat>, n: nat): Option<nat>
  {
    match o
    case None => None
    case Some(p) => Some(p + n)
  }

  /** The scan of `a + x` stops inside `a` if it stops there at all, and otherwise where it stops in `x`. */
  lemma {:induction false} FirstInvalidConcat(a: string, x: string)
    ensures FirstInvalid(a + x) == if FirstInvalid(a).Some? then FirstInvalid(a) else Shift(FirstInvalid(x), |a|)
  {
    if a != [] {
      assert (a + x)[0] == a[0] && (a + x)[1..] == a[1..] + x;
      FirstInvalidConcat(a[1..], x);
    } else {
      assert a + x == x;
    }
  }

  /** Whitespace never stops the scan. */
  lemma {:induction false} FirstInvalidWhitespace(w: string)
    requires forall i :: 0 <= i < |w| ==> IsWhitespace(w[i])
    ensures FirstInvalid(w) == None
  {
    if w != [] {
      FirstInvalidWhitespace(w[1..]);
    }
  }

  /**
    Inserting whitespace anywhere changes nothing but the position of an
    invalid character that follows it.
   */
  lemma WhitespaceInsensitive(a: string, w: string, b: string)
    requires forall i :: 0 <= i < |w| ==> IsWhitespace(w[i])
    ensures Decode(a + b).InvalidCharacter? ==>
              var p := Decode(a + b).position;
              Decode(a + w + b) == InvalidCharacter(if p < |a| then p else p + |w|)
    ensures !Decode(a + b).InvalidCharacter? ==> Decode(a + w + b) == Decode(a + b)
  {
    ScanSkipsWhitespace(a, w, b);
    DigitsSkipWhitespace(a, w, b);
    if FirstInvalid(a + b).None? {
      DecodeDependsOnScan(a + b, a + w + b);
    }
  }

  lemma ScanSkipsWhitespace(a: string, w: string, b: string)
    requires forall i :: 0 <= i < |w| ==> IsWhitespace(w[i])
    ensures FirstInvalid(a + w + b) ==
              match FirstInvalid(a + b)
              case None => None
              case Some(p) => Some(if p < |a| then p else p + |w|)
  {
    var x := w + b;
    assert a + w + b == a + x;
    FirstInvalidConcat(a, x);
    FirstInvalidConcat(a, b);
    if FirstInvalid(a).None? {
      FirstInvalidWhitespace(w);
      FirstInvalidConcat(w, b);
      assert FirstInvalid(a + w + b) == Shift(Shift(FirstInvalid(b), |w|), |a|);
      assert FirstInvalid(a + b) == Shift(FirstInvalid(b), |a|);
    }
  }

  lemma DigitsSkipWhitespace(a: string, w: string, b: string)
    requires forall i :: 0 <= i < |w| ==> IsWhitespace(w[i])
    ensures HexDigits(a + w + b) == HexDigits(a + b)
  {
    assert a + w + b == a + (w + b);
    HexDigitsWhitespace(w);
    HexDigitsConcat(w, b);
    HexDigitsConcat(a, w + b);
    HexDigitsConcat(a, b);
  }

  /** The decoder sees its input only through where the scan stops and what it keeps. */
  lemma DecodeDependsOnScan(s: string, t: string)
    requires FirstInvalid(s) == FirstInvalid(t) && HexDigits(s) == HexDigits(t)
    ensures Decode(s) == Decode(t)
  {
  }

  /** ASCII lower-casing of one character. */
  function LowerAscii(c: char): char
  {
    if 'A' <= c <= 'Z' then (c as int - 'A' as int + 'a' as int) as char else c
  }

  /** ASCII lower-casing of a string: no upper-case ASCII letter is left. */
  function Lower(s: string): (t: string)
    ensures forall i :: 0 <= i < |t| ==> !('A' <= t[i] <= 'Z')
  {
    seq(|s|, i requires 0 <= i < |s| => LowerAscii(s[i]))
  }

  lemma LowerAsciiClass(c: char)
    ensures Classify(LowerAscii(c)) == Classify(c)
    ensures IsHexDigit(c) ==> DigitValue(LowerAscii(c)) == DigitValue(c)
  {
  }

  lemma LowerConcat(x: string, y: string)
    ensures Lower(x + y) == Lower(x) + Lower(y)
  {
  }

  lemma LowerTail(s: string)
    requires s != []
    ensures Lower(s)[0] == LowerAscii(s[0]) && Lower(s)[1..] == Lower(s[1..])
  {
  }

  lemma {:induction false} HexDigitsLower(s: string)
    ensures HexDigits(Lower(s)) == Lower(HexDigits(s))
  {
    if s != [] {
      LowerTail(s);
      HexDigitsLower(s[1..]);
      LowerAsciiClass(s[0]);
      var head := if IsHexDigit(s[0]) then [s[0]] else [];
      LowerConcat(head, HexDigits(s[1..]));
      assert Lower(head) == if IsHexDigit(s[0]) then [LowerAscii(s[0])] else [];
    }
  }

  lemma {:induction false} FirstInvalidLower(s: string)
    ensures FirstInvalid(Lower(s)) == FirstInvalid(s)
  {
    if s != [] {
      LowerTail(s);
      FirstInvalidLower(s[1..]);
      LowerAsciiClass(s[0]);
    }
  }

  /**
    Letter case does not matter: lower-casing the input gives the same
    result, including the same position of an invalid character.
   */
  lemma CaseInsensitive(s: string)
    ensures Decode(Lower(s)) == Decode(s)
  {
    var t := Lower(s);
    FirstInvalidLower(s);
    HexDigitsLower(s);
    DecodeOk(s);
    DecodeOk(t);
    if Decode(s).Ok? {
      var d := HexDigits(s);
      var b, c := Decode(s).bytes, Decode(t).bytes;
      assert |Lower(d)| == |d|;
      forall i | 0 <= i < |b| ensures c[i] == b[i] {
        assert Lower(d)[2 * i] == LowerAscii(d[2 * i]);
        assert Lower(d)[2 * i + 1] == LowerAscii(d[2 * i + 1]);
        LowerAsciiClass(d[2 * i]);
        LowerAsciiClass(d[2 * i + 1]);
      }
    }
  }

  // ---------------------------------------------------------------------
  // Round trip

  /** The lower-case hex digit of a nibble. */
  function HexChar(n: nat): (c: char)
    requires n < 16
    ensures IsHexDigit(c) && DigitValue(c) == n
  {
    if n < 10 then ('0' as int + n) as char else ('a' as int + n - 10) as char
  }

  /** Two hex digits per byte, high nibble first, no separators. */
  function Encode(bytes: seq<uint8>): (s: string)
    ensures |s| == 2 * |bytes|
  {
    if bytes == [] then []
    else [HexChar(bytes[0] / 16), HexChar(bytes[0] % 16)] + Encode(bytes[1..])
  }

  lemma {:induction false} EncodeAt(bytes: seq<uint8>, i: nat)
    requires i < |bytes|
    ensures Encode(bytes)[2 * i] == HexChar(bytes[i] / 16)
    ensures Encode(bytes)[2 * i + 1] == HexChar(bytes[i] % 16)
  {
    if i > 0 {
      EncodeAt(bytes[1..], i - 1);
    }
  }

  /** Decoding the hex encoding of any bytes gives the bytes back. */
  lemma RoundTrip(bytes: seq<uint8>)
    ensures Decode(Encode(bytes)) == Ok(bytes)
  {
    var s := Encode(bytes);
    forall k | 0 <= k < |s| ensures IsHexDigit(s[k]) {
      EncodeAt(bytes, k / 2);
      assert k == 2 * (k / 2) || k == 2 * (k / 2) + 1;
    }
    HexDigitsAllHex(s);
    DecodeOk(s);
    var b := Decode(s).bytes;
    forall i | 0 <= i < |bytes| ensures b[i] == bytes[i] {
      EncodeAt(bytes, i);
    }
  }

  // ---------------------------------------------------------------------
  // Examples

  /** The first bad character is reported by its index among all characters. */
  lemma ExampleInvalidCharacter()
    ensures Decode("ab#cd") == InvalidCharacter(2)
    ensures Decode(" a#") == InvalidCharacter(2)
  {
    DecodeInvalidCharacter("ab#cd", 2);
    DecodeInvalidCharacter(" a#", 2);
  }

  /** A bad character wins over an odd digit count. */
  lemma ExampleInvalidBeforeParity()
    ensures Decode("abc#") == InvalidCharacter(3)
  {
    DecodeInvalidCharacter("abc#", 3);
  }

  lemma ExampleMalformed()
    ensures Decode("abc") == Malformed
  {
    HexDigitsAllHex("abc");
    DecodeMalformed("abc");
  }

  lemma ExampleEmpty()
    ensures Decode("") == Ok([])
  {
  }

  lemma ExampleHello()
    ensures Decode("48656c6c6f") == Ok([0x48, 0x65, 0x6c, 0x6c, 0x6f])
  {
    var hello: seq<uint8> := [0x48, 0x65, 0x6c, 0x6c, 0x6f];
    assert Encode(hello[4..]) == "6f";
    assert Encode(hello[3..]) == "6c6f";
    assert Encode(hello[2..]) == "6c6c6f";
    assert Encode(hello[1..]) == "656c6c6f";
    assert Encode(hello) == "48656c6c6f";
    RoundTrip(hello);
  }

  lemma ExampleWhitespace()
    ensures Decode("ab cd") == Decode("abcd")
  {
    WhitespaceInsensitive("ab", " ", "cd");
    assert "ab" + " " + "cd" == "ab cd" && "ab" + "cd" == "abcd";
  }

  /**
    The scan works on scalars: a space followed by a combining acute accent
    is two characters here, and the accent stops the scan at position 1.
   */
  lemma ExampleCombiningMark()
    ensures Decode(" \U{0301}ab") == InvalidCharacter(1)
  {
    DecodeInvalidCharacter(" \U{0301}ab", 1);
  }

  lemma ExampleCase()
    ensures Decode("AaBbCcDd") == Decode("aabbccdd")
  {
    assert Lower("AaBbCcDd") == "aabbccdd";
    CaseInsensitive("AaBbCcDd");
  }

  // ---------------------------------------------------------------------
  // Fullwidth digits, as the source classifies them

  /**
    `Character.isHexDigit` as Swift defines it: the ASCII hex digits and
    their fullwidth forms U+FF10-FF19, U+FF21-FF26, U+FF41-FF46.
   */
  predicate SwiftIsHexDigit(c: char)
  {
    || IsHexDigit(c)
    || '\U{FF10}' <= c <= '\U{FF19}' || '\U{FF21}' <= c <= '\U{FF26}' || '\U{FF41}' <= c <= '\U{FF46}'
  }

  /** What the scan keeps as written: the characters `isHexDigit` accepts, in order. */
  function SwiftHexDigits(s: string): (d: string)
    ensures |d| <= |s|
    ensures forall i :: 0 <= i < |d| ==> SwiftIsHexDigit(d[i])
  {
    if s == [] then []
    else (if SwiftIsHexDigit(s[0]) then [s[0]] else []) + SwiftHexDigits(s[1..])
  }

  /**
    With Swift's classification the scan keeps two fullwidth ones ("１１")
    whole, their count is even, and their single pair does not parse as a
    `UInt8`, so the force unwrap traps. With ASCII classification the
    decoder reports the first of them as an invalid character instead.
   */
  lemma FullwidthDigitsTrap()
    ensures var s := "\U{FF11}\U{FF11}";
      var kept := SwiftHexDigits(s);
      && kept == s
      && |kept| % 2 == 0 && Chunked(kept, 2) == [s]
      && ParseUInt8(Chunked(kept, 2)[0]) == None
      && Decode(s) == InvalidCharacter(0)
  {
    var s := "\U{FF11}\U{FF11}";
    assert SwiftHexDigits(s[1..][1..]) == [];
    assert SwiftHexDigits(s[1..]) == [s[1]];
    assert SwiftHexDigits(s) == [s[0]] + [s[1]] == s;
    assert s[..2] == s;
    assert Chunked(s, 2) == [s] + Chunked(s[2..], 2);
    assert !IsHexDigit(s[0]);
    DecodeInvalidCharacter(s, 0);
  }
}
