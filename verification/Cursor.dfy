/**
 Page cursors: an offset printed in decimal and encoded with the URL-safe alphabet of RFC 4648
 section 5. Decoding is as lenient as CPython's: it takes both alphabets, skips foreign characters,
 and stops at a completed padding.
 */
module Cursor {
  import opened Common
  import opened Decimal

  type Octet = x: int | 0 <= x < 256

  type Sextet = x: int | 0 <= x < 64

  datatype CursorError = InvalidCursor | InvalidLimit | NumberTooLong

  // ----- The alphabet -----

  function Symbol(v: Sextet): char {
    if v < 26 then (v + 'A' as int) as char
    else if v < 52 then (v - 26 + 'a' as int) as char
    else if v < 62 then (v - 52 + '0' as int) as char
    else if v == 62 then '-' else '_'
  }

  /** Value of a character of either alphabet; the decoder maps the URL-safe pair to the other one. */
  function SymbolValue(c: char): Option<Sextet> {
    if 'A' <= c <= 'Z' then Some(c as int - 'A' as int)
    else if 'a' <= c <= 'z' then Some(c as int - 'a' as int + 26)
    else if '0' <= c <= '9' then Some(c as int - '0' as int + 52)
    else if c == '-' || c == '+' then Some(62)
    else if c == '_' || c == '/' then Some(63)
    else None
  }

  lemma SymbolHasItsValue(v: Sextet)
    ensures SymbolValue(Symbol(v)) == Some(v) && Symbol(v) != '=' && Symbol(v) as int < 128
  {
  }

  // ----- Encoding -----

  /** Three octets as four groups of six bits. */
  function First(a: Octet): Sextet { a / 4 }
  function Second(a: Octet, b: Octet): Sextet { a % 4 * 16 + b / 16 }
  function Third(b: Octet, c: Octet): Sextet { b % 16 * 4 + c / 64 }
  function Fourth(c: Octet): Sextet { c % 64 }

  function Encode64(data: seq<Octet>): string {
    if data == [] then ""
    else if |data| == 1 then
      [Symbol(First(data[0])), Symbol(Second(data[0], 0)), '=', '=']
    else if |data| == 2 then
      [Symbol(First(data[0])), Symbol(Second(data[0], data[1])), Symbol(Third(data[1], 0)), '=']
    else
      [Symbol(First(data[0])), Symbol(Second(data[0], data[1])), Symbol(Third(data[1], data[2])), Symbol(Fourth(data[2]))]
      + Encode64(data[3..])
  }

  // ----- Decoding -----

  /** The octet that a character completes at a position of its group of four, if any. */
  function Completed(quad: nat, left: nat, v: Sextet): seq<Octet>
    requires quad < 4 && left < 64 && (quad == 2 ==> left < 16) && (quad == 3 ==> left < 4)
  {
    match quad
    case 0 => []
    case 1 => [left * 4 + v / 16]
    case 2 => [left * 16 + v / 4]
    case _ => [left * 64 + v]
  }

  /** The bits of a character that the next one completes. */
  function Leftover(quad: nat, v: Sextet): nat
    requires quad < 4
  {
    match quad
    case 0 => v
    case 1 => v % 16
    case 2 => v % 4
    case _ => 0
  }

  /** Octets in front of what the rest of a text decodes to. */
  function Then(front: seq<Octet>, rest: Option<seq<Octet>>): Option<seq<Octet>> {
    if rest.None? then None else Some(front + rest.value)
  }

  lemma ThenTogether(a: seq<Octet>, b: seq<Octet>, rest: Option<seq<Octet>>)
    ensures Then(a, Then(b, rest)) == Then(a + b, rest)
    ensures Then([], rest) == rest && Then(a, Some([])) == Some(a)
  {
    if rest.Some? {
      assert a + (b + rest.value) == a + b + rest.value;
      assert [] + rest.value == rest.value;
    }
    assert a + [] == a;
  }

  /**
   The decoder's loop from some point on: position in the group of four, bits left over, and padding
   seen. No octets without a complete group or its padding.
   */
  function Decode64(text: string, quad: nat, left: nat, pads: nat): Option<seq<Octet>>
    requires quad < 4 && left < 64 && (quad == 2 ==> left < 16) && (quad == 3 ==> left < 4)
    decreases |text|
  {
    if text == "" then
      if quad == 0 then Some([]) else None
    else if text[0] == '=' then
      if quad >= 2 && quad + pads + 1 >= 4 then Some([])
      else Decode64(text[1..], quad, left, if quad >= 2 then pads + 1 else pads)
    else
      var value := SymbolValue(text[0]);
      if value.None? then Decode64(text[1..], quad, left, pads)
      else
        Then(Completed(quad, left, value.value), Decode64(text[1..], (quad + 1) % 4, Leftover(quad, value.value), 0))
  }

  lemma DecodeFirst(v: Sextet, rest: string)
    ensures Decode64([Symbol(v)] + rest, 0, 0, 0) == Decode64(rest, 1, v, 0)
  {
    ThenTogether([], [], Decode64(rest, 1, v, 0));
    SymbolHasItsValue(v);
    assert ([Symbol(v)] + rest)[1..] == rest;
    hide Symbol, SymbolValue;
  }

  lemma DecodeSecond(v: Sextet, left: Sextet, rest: string)
    ensures Decode64([Symbol(v)] + rest, 1, left, 0) == Then([left * 4 + v / 16], Decode64(rest, 2, v % 16, 0))
  {
    SymbolHasItsValue(v);
    assert ([Symbol(v)] + rest)[1..] == rest;
    hide Symbol, SymbolValue;
  }

  lemma DecodeThird(v: Sextet, left: Sextet, rest: string)
    requires left < 16
    ensures Decode64([Symbol(v)] + rest, 2, left, 0) == Then([left * 16 + v / 4], Decode64(rest, 3, v % 4, 0))
  {
    SymbolHasItsValue(v);
    assert ([Symbol(v)] + rest)[1..] == rest;
    hide Symbol, SymbolValue;
  }

  lemma DecodeFourth(v: Sextet, left: Sextet, rest: string)
    requires left < 4
    ensures Decode64([Symbol(v)] + rest, 3, left, 0) == Then([left * 64 + v], Decode64(rest, 0, 0, 0))
  {
    SymbolHasItsValue(v);
    assert ([Symbol(v)] + rest)[1..] == rest;
    hide Symbol, SymbolValue;
  }

  lemma PadDecodes(quad: nat, left: nat, text: string)
    requires (quad == 2 && left < 16 && text == "==") || (quad == 3 && left < 4 && text == "=")
    ensures Decode64(text, quad, left, 0) == Some([])
  {
    if quad == 2 {
      assert text[1..] == "=";
    }
  }

  lemma DecodeOne(s0: Sextet, s1: Sextet)
    requires s1 % 16 == 0
    ensures Decode64([Symbol(s0), Symbol(s1), '=', '='], 0, 0, 0) == Some([s0 * 4 + s1 / 16])
  {
    hide Decode64, Symbol;
    assert [Symbol(s0), Symbol(s1), '=', '='] == [Symbol(s0)] + ([Symbol(s1)] + "==");
    DecodeFirst(s0, [Symbol(s1)] + "==");
    DecodeSecond(s1, s0, "==");
    PadDecodes(2, 0, "==");
    ThenTogether([s0 * 4 + s1 / 16], [], None);
  }

  lemma DecodeTwo(s0: Sextet, s1: Sextet, s2: Sextet)
    requires s2 % 4 == 0
    ensures Decode64([Symbol(s0), Symbol(s1), Symbol(s2), '='], 0, 0, 0) == Some([s0 * 4 + s1 / 16, s1 % 16 * 16 + s2 / 4])
  {
    hide Decode64, Symbol;
    assert [Symbol(s0), Symbol(s1), Symbol(s2), '='] == [Symbol(s0)] + ([Symbol(s1)] + ([Symbol(s2)] + "="));
    DecodeFirst(s0, [Symbol(s1)] + ([Symbol(s2)] + "="));
    DecodeSecond(s1, s0, [Symbol(s2)] + "=");
    DecodeThird(s2, s1 % 16, "=");
    PadDecodes(3, 0, "=");
    var x: Octet, y: Octet := s0 * 4 + s1 / 16, s1 % 16 * 16 + s2 / 4;
    ThenTogether([x], [y], Some([]));
    ThenTogether([x, y], [], None);
    assert [x] + [y] == [x, y];
  }

  lemma DecodeThree(s0: Sextet, s1: Sextet, s2: Sextet, s3: Sextet, rest: string)
    ensures Decode64([Symbol(s0), Symbol(s1), Symbol(s2), Symbol(s3)] + rest, 0, 0, 0) ==
            Then([s0 * 4 + s1 / 16, s1 % 16 * 16 + s2 / 4, s2 % 4 * 64 + s3], Decode64(rest, 0, 0, 0))
  {
    hide Decode64, Symbol;
    var r3 := [Symbol(s3)] + rest;
    var r2 := [Symbol(s2)] + r3;
    var r1 := [Symbol(s1)] + r2;
    assert [Symbol(s0), Symbol(s1), Symbol(s2), Symbol(s3)] + rest == [Symbol(s0)] + r1;
    DecodeFirst(s0, r1);
    DecodeSecond(s1, s0, r2);
    DecodeThird(s2, s1 % 16, r3);
    DecodeFourth(s3, s2 % 4, rest);
    var x: Octet, y: Octet, z: Octet := s0 * 4 + s1 / 16, s1 % 16 * 16 + s2 / 4, s2 % 4 * 64 + s3;
    ThenTogether([y], [z], Decode64(rest, 0, 0, 0));
    ThenTogether([x], [y, z], Decode64(rest, 0, 0, 0));
    assert [y] + [z] == [y, z] && [x] + [y, z] == [x, y, z];
    hide Then;
  }

  /** Splitting octets into groups of six bits and putting them together again. */
  lemma BitsRegroup(a: Octet, b: Octet, c: Octet)
    ensures First(a) * 4 + Second(a, b) / 16 == a
    ensures Second(a, b) % 16 * 16 + Third(b, c) / 4 == b
    ensures Third(b, c) % 4 * 64 + Fourth(c) == c
    ensures Second(a, 0) % 16 == 0 && Third(b, 0) % 4 == 0
  {
  }

  lemma DecodeGroup(a: Octet, b: Octet, c: Octet, rest: string)
    ensures Decode64([Symbol(First(a)), Symbol(Second(a, b)), Symbol(Third(b, c)), Symbol(Fourth(c))] + rest, 0, 0, 0)
         == Then([a, b, c], Decode64(rest, 0, 0, 0))
  {
    hide *;
    BitsRegroup(a, b, c);
    DecodeThree(First(a), Second(a, b), Third(b, c), Fourth(c), rest);
  }

  lemma DecodeOneOctet(a: Octet)
    ensures Decode64([Symbol(First(a)), Symbol(Second(a, 0)), '=', '='], 0, 0, 0) == Some([a])
  {
    hide *;
    BitsRegroup(a, 0, 0);
    DecodeOne(First(a), Second(a, 0));
  }

  lemma DecodeTwoOctets(a: Octet, b: Octet)
    ensures Decode64([Symbol(First(a)), Symbol(Second(a, b)), Symbol(Third(b, 0)), '='], 0, 0, 0) == Some([a, b])
  {
    hide *;
    BitsRegroup(a, b, 0);
    DecodeTwo(First(a), Second(a, b), Third(b, 0));
  }

  /** Decoding undoes encoding, for any octets. */
  lemma {:induction false} DecodeUndoesEncode(data: seq<Octet>)
    ensures Decode64(Encode64(data), 0, 0, 0) == Some(data)
  {
    hide Decode64, Symbol, First, Second, Third, Fourth;
    if data == [] {
      DecodeNothing();
    } else if |data| == 1 {
      DecodeOneOctet(data[0]);
      assert data == [data[0]];
    } else if |data| == 2 {
      DecodeTwoOctets(data[0], data[1]);
      assert data == [data[0], data[1]];
    } else {
      DecodeUndoesEncode(data[3..]);
      DecodeGroup(data[0], data[1], data[2], Encode64(data[3..]));
      assert data == [data[0], data[1], data[2]] + data[3..];
    }
  }

  lemma DecodeNothing()
    ensures Decode64("", 0, 0, 0) == Some([])
  {
  }

  // ----- Text and integers -----

  predicate IsAscii(s: string) {
    forall c :: c in s ==> c as int < 128
  }

  function Octets(s: string): (r: seq<Octet>)
    requires IsAscii(s)
    ensures |r| == |s| && forall i :: 0 <= i < |s| ==> r[i] == s[i] as int
  {
    if s == "" then []
    else
      assert s[0] in s && forall c :: c in s[1..] ==> c in s;
      [s[0] as int] + Octets(s[1..])
  }

  /** The text of ASCII octets; octets above 127 are an error. */
  function AsciiText(data: seq<Octet>): (r: Option<string>)
    ensures r.Some? <==> forall i :: 0 <= i < |data| ==> data[i] < 128
    ensures r.Some? ==> |r.value| == |data| && forall i :: 0 <= i < |data| ==> r.value[i] as int == data[i]
  {
    if data == [] then Some("")
    else
      var rest := AsciiText(data[1..]);
      if data[0] >= 128 || rest.None? then None else Some([data[0] as char] + rest.value)
  }

  /** What `int` skips around an ASCII numeral. */
  predicate IsAsciiSpace(c: char) {
    c == ' ' || '\t' <= c <= '\r'
  }

  function TrimLeft(s: string): string {
    if s != "" && IsAsciiSpace(s[0]) then TrimLeft(s[1..]) else s
  }

  function TrimRight(s: string): string {
    if s != "" && IsAsciiSpace(s[|s| - 1]) then TrimRight(s[..|s| - 1]) else s
  }

  /** Digits with single underscores between them. */
  predicate IsNumeral(s: string) {
    && s != "" && IsDigit(s[0]) && IsDigit(s[|s| - 1])
    && (forall i :: 0 <= i < |s| ==> IsDigit(s[i]) || s[i] == '_')
    && forall i :: 0 <= i < |s| - 1 ==> IsDigit(s[i]) || IsDigit(s[i + 1])
  }

  function WithoutUnderscores(s: string): (r: string)
    requires forall i :: 0 <= i < |s| ==> IsDigit(s[i]) || s[i] == '_'
    ensures AllDigits(r)
  {
    if s == "" then ""
    else if s[0] == '_' then WithoutUnderscores(s[1..])
    else [s[0]] + WithoutUnderscores(s[1..])
  }

  /** Python's `int` of an ASCII string. */
  function ParseInt(s: string): Option<int> {
    var trimmed := TrimRight(TrimLeft(s));
    var signed := trimmed != "" && (trimmed[0] == '-' || trimmed[0] == '+');
    var body := if signed then trimmed[1..] else trimmed;
    if !IsNumeral(body) then None
    else
      var magnitude := ParseDigits(WithoutUnderscores(body));
      if magnitude.None? then None
      else
        var value: int := magnitude.value;
        Some(if signed && trimmed[0] == '-' then -value else value)
  }

  // ----- Cursors -----

  function EncodeCursor(offset: Option<nat>): Result<Option<string>, CursorError> {
    if offset.None? then Success(None)
    else if |Text(offset.value)| > MAX_DIGITS then Failure(NumberTooLong)
    else
      TextIsAscii(offset.value);
      Success(Some(Encode64(Octets(Text(offset.value)))))
  }

  function DecodeCursor(raw: Option<string>): (r: Result<nat, CursorError>)
  {
    if raw.None? || raw.value == "" then Success(0)
    else if !IsAscii(raw.value) then Failure(InvalidCursor)
    else
      var data := Decode64(raw.value, 0, 0, 0);
      if data.None? then Failure(InvalidCursor)
      else
        var text := AsciiText(data.value);
        if text.None? then Failure(InvalidCursor)
        else
          var offset := ParseInt(text.value);
          if offset.None? || offset.value < 0 then Failure(InvalidCursor) else Success(offset.value)
  }

  lemma TextIsAscii(n: nat)
    ensures IsAscii(Text(n))
  {
    assert AllDigits(Text(n));
  }

  lemma {:induction false} DigitsHaveNoUnderscores(s: string)
    requires AllDigits(s)
    ensures WithoutUnderscores(s) == s
  {
    if s != "" {
      assert IsDigit(s[0]);
      DigitsHaveNoUnderscores(s[1..]);
      assert s == [s[0]] + s[1..];
    }
  }

  /** `int` undoes `str` up to the limit both share. */
  lemma ParseIntOfText(n: nat)
    ensures ParseInt(Text(n)) == if |Text(n)| <= 4300 then Some(n) else None
  {
    DigitsParse(Text(n));
    NumberOfText(n);
    hide Text, ParseInt;
  }

  lemma DigitsAreNumerals(s: string)
    requires s != "" && AllDigits(s)
    ensures TrimLeft(s) == s && TrimRight(s) == s && IsNumeral(s)
  {
    assert forall i :: 0 <= i < |s| ==> s[i] in s;
  }

  lemma DigitsParse(s: string)
    requires s != "" && AllDigits(s)
    ensures ParseInt(s) == if |s| <= 4300 then Some(Number(s)) else None
  {
    DigitsAreNumerals(s);
    DigitsHaveNoUnderscores(s);
    assert !(s[0] == '-' || s[0] == '+') by {
      assert IsDigit(s[0]);
    }
    hide TrimLeft, TrimRight, WithoutUnderscores, Number, IsNumeral;
  }

  lemma {:induction false} EncodingIsAscii(data: seq<Octet>)
    ensures IsAscii(Encode64(data))
  {
    if |data| >= 3 {
      EncodingIsAscii(data[3..]);
    }
  }

  lemma AsciiTextOfOctets(s: string)
    requires IsAscii(s)
    ensures AsciiText(Octets(s)) == Some(s)
  {
    assert forall i :: 0 <= i < |s| ==> s[i] in s;
    assert AsciiText(Octets(s)).value == s;
  }

  /**
   The round trip, for every offset: decoding an encoded offset gives it back exactly when its
   numeral has at most 4300 digits, and a longer one is refused already when it is encoded.
   */
  lemma CursorRoundTrip(n: nat)
    ensures EncodeCursor(Some(n)).Success? <==> |Text(n)| <= 4300
    ensures EncodeCursor(Some(n)).Success? ==>
              EncodeCursor(Some(n)).value.Some? && DecodeCursor(EncodeCursor(Some(n)).value) == Success(n)
  {
    if |Text(n)| <= MAX_DIGITS {
      TextIsAscii(n);
      var data := Octets(Text(n));
      EncodingIsAscii(data);
      DecodeUndoesEncode(data);
      assert Encode64(data) != "";
      AsciiTextOfOctets(Text(n));
      ParseIntOfText(n);
      hide Encode64, Decode64, Octets, AsciiText, ParseInt, Text, IsAscii;
    }
  }

  // ----- The page window -----

  datatype PageWindow = PageWindow(offset: nat, limit: nat)

  /** A window is granted exactly for a positive limit and a good cursor, and its limit is capped. */
  function GetPageWindow(rawLimit: Option<string>, rawCursor: Option<string>, defaultLimit: nat, maxLimit: nat)
    : (r: Result<PageWindow, CursorError>)
    ensures r.Success? && maxLimit > 0 ==> 0 < r.value.limit <= maxLimit
    ensures r.Success? ==> DecodeCursor(rawCursor) == Success(r.value.offset)
  {
    var limit := if rawLimit.None? then Some(defaultLimit) else ParseInt(rawLimit.value);
    if limit.None? || limit.value <= 0 then Failure(InvalidLimit)
    else
      var offset := DecodeCursor(rawCursor);
      if offset.Failure? then Failure(offset.error)
      else Success(PageWindow(offset.value, if limit.value < maxLimit then limit.value else maxLimit))
  }

  /** The window of printed numbers: the default or the capped limit, at the encoded offset. */
  lemma WindowOfPrintedNumbers(limit: Option<nat>, offset: nat, defaultLimit: nat, maxLimit: nat)
    requires EncodeCursor(Some(offset)).Success?
    requires limit.Some? ==> |Text(limit.value)| <= 4300
    ensures
      var rawLimit := if limit.None? then None else Some(Text(limit.value));
      var wanted := if limit.None? then defaultLimit else limit.value;
      GetPageWindow(rawLimit, EncodeCursor(Some(offset)).value, defaultLimit, maxLimit) ==
      if wanted == 0 then Failure(InvalidLimit)
      else Success(PageWindow(offset, if wanted < maxLimit then wanted else maxLimit))
  {
    hide EncodeCursor, DecodeCursor, ParseInt, Text, AllDigits;
    CursorRoundTrip(offset);
    if limit.Some? {
      ParseIntOfText(limit.value);
    }
  }

  // ----- What the decoder tolerates -----

  /** Characters of neither alphabet are skipped wherever they stand. */
  lemma {:induction false} ForeignCharactersAreSkipped(before: string, c: char, after: string, quad: nat, left: nat, pads: nat)
    requires quad < 4 && left < 64 && (quad == 2 ==> left < 16) && (quad == 3 ==> left < 4)
    requires SymbolValue(c).None? && c != '='
    ensures Decode64(before + [c] + after, quad, left, pads) == Decode64(before + after, quad, left, pads)
    decreases |before|
  {
    hide SymbolValue;
    if before == "" {
      assert before + [c] + after == [c] + after && before + after == after;
      assert ([c] + after)[1..] == after;
    } else {
      var rest := before[1..];
      assert (before + [c] + after)[1..] == rest + [c] + after && (before + after)[1..] == rest + after;
      var v := SymbolValue(before[0]);
      if before[0] == '=' {
        ForeignCharactersAreSkipped(rest, c, after, quad, left, if quad >= 2 then pads + 1 else pads);
      } else if v.None? {
        ForeignCharactersAreSkipped(rest, c, after, quad, left, pads);
      } else {
        ForeignCharactersAreSkipped(rest, c, after, (quad + 1) % 4, Leftover(quad, v.value), 0);
      }
    }
  }

  function SymbolCount(text: string): nat {
    if text == "" then 0
    else (if SymbolValue(text[0]).Some? then 1 else 0) + SymbolCount(text[1..])
  }

  lemma NextQuad(quad: nat, n: nat)
    requires quad < 4
    ensures ((quad + 1) % 4 + n) % 4 == (quad + (1 + n)) % 4
  {
  }

  lemma DecodesWithRest(text: string, quad: nat, left: nat, pads: nat)
    requires quad < 4 && left < 64 && (quad == 2 ==> left < 16) && (quad == 3 ==> left < 4)
    requires text != "" && text[0] != '='
    ensures Decode64(text, quad, left, pads).Some? <==>
            match SymbolValue(text[0])
            case None => Decode64(text[1..], quad, left, pads).Some?
            case Some(v) => Decode64(text[1..], (quad + 1) % 4, Leftover(quad, v), 0).Some?
  {
    hide SymbolValue, Completed, Leftover;
  }

  /** Without padding a text decodes exactly when its symbols make up whole groups of four. */
  lemma {:induction false} UnpaddedNeedsWholeGroups(text: string, quad: nat, left: nat, pads: nat)
    requires quad < 4 && left < 64 && (quad == 2 ==> left < 16) && (quad == 3 ==> left < 4)
    requires '=' !in text
    ensures Decode64(text, quad, left, pads).Some? <==> (quad + SymbolCount(text)) % 4 == 0
    decreases |text|
  {
    hide SymbolValue;
    if text != "" {
      assert text[0] in text && forall c :: c in text[1..] ==> c in text;
      DecodesWithRest(text, quad, left, pads);
      hide Decode64;
      var v := SymbolValue(text[0]);
      if v.None? {
        UnpaddedNeedsWholeGroups(text[1..], quad, left, pads);
      } else {
        NextQuad(quad, SymbolCount(text[1..]));
        UnpaddedNeedsWholeGroups(text[1..], (quad + 1) % 4, Leftover(quad, v.value), 0);
      }
    }
  }

  // ----- Negative offsets -----

  lemma NothingToTrim(digits: string)
    requires digits != "" && AllDigits(digits)
    ensures TrimRight(TrimLeft("-" + digits)) == "-" + digits
  {
    var s := "-" + digits;
    assert s[|s| - 1] == digits[|digits| - 1] && digits[|digits| - 1] in digits;
    assert TrimLeft(s) == s;
  }

  lemma SignedDigitsParse(digits: string)
    requires digits != "" && AllDigits(digits) && |digits| <= 4300
    ensures ParseInt("-" + digits) == Some(-(Number(digits) as int))
  {
    hide TrimLeft, TrimRight, WithoutUnderscores, Number, IsNumeral, AllDigits;
    NothingToTrim(digits);
    assert ("-" + digits)[1..] == digits && ("-" + digits)[0] == '-';
    DigitsAreNumerals(digits);
    DigitsHaveNoUnderscores(digits);
  }

  /** An encoded negative number is refused. */
  lemma NegativeCursorsAreRefused(n: nat)
    requires 0 < n && |Text(n)| <= 4300
    ensures IsAscii("-" + Text(n))
    ensures DecodeCursor(Some(Encode64(Octets("-" + Text(n))))) == Failure(InvalidCursor)
  {
    TextIsAscii(n);
    var data := Octets("-" + Text(n));
    EncodingIsAscii(data);
    DecodeUndoesEncode(data);
    assert Encode64(data) != "";
    AsciiTextOfOctets("-" + Text(n));
    SignedDigitsParse(Text(n));
    NumberOfText(n);
    hide Encode64, Decode64, Octets, AsciiText, ParseInt, Text, IsAscii, Number;
  }
}
