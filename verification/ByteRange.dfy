/**
 Partial downloads. The header is parsed into a byte range or ignored; the reference is the meaning
 RFC 9110 section 14.1.2 gives a range: the set of byte positions it selects.
 */
module ByteRange {
  import opened Common
  import opened Decimal

  // ----- The parser -----

  /** Parsing can select the whole file, a part of it, answer 416, or fail on an oversized numeral. */
  datatype Outcome = Whole | Part(first: int, last: int) | NotSatisfiable | OversizedNumeral

  function StripLeft(s: string): string {
    if s != [] && IsSpace(s[0]) then StripLeft(s[1..]) else s
  }

  function StripRight(s: string): string {
    if s != [] && IsSpace(s[|s| - 1]) then StripRight(s[..|s| - 1]) else s
  }

  function Strip(s: string): string {
    StripRight(StripLeft(s))
  }

  function DigitRun(s: string): (n: nat)
    ensures n <= |s| && AllDigits(s[..n])
    ensures n < |s| ==> !IsDigit(s[n])
  {
    if s == [] || !IsDigit(s[0]) then 0
    else
      var n := DigitRun(s[1..]);
      assert s[..1 + n] == [s[0]] + s[1..][..n];
      1 + n
  }

  /** Whole-string match of `bytes=`, digits, a dash, digits; gives the two runs of digits. */
  function MatchRange(text: string): Option<(string, string)> {
    if |text| < 6 || text[..6] != "bytes=" then None
    else
      var body := text[6..];
      var n := DigitRun(body);
      if n < |body| && body[n] == '-' && AllDigits(body[n + 1..]) then Some((body[..n], body[n + 1..])) else None
  }

  function ParseSuffix(lengthText: string, size: nat): Outcome
    requires AllDigits(lengthText)
  {
    var length := ParseDigits(lengthText);
    if length.None? then OversizedNumeral
    else if length.value <= 0 then Whole
    else if length.value >= size then Part(0, size - 1)
    else Part(size - length.value, size - 1)
  }

  function ParseInterval(firstText: string, lastText: string, size: nat): Outcome
    requires AllDigits(firstText) && AllDigits(lastText)
  {
    var first := ParseDigits(firstText);
    if first.None? then OversizedNumeral
    else if first.value >= size then NotSatisfiable
    else if lastText == "" then Part(first.value, size - 1)
    else
      var last := ParseDigits(lastText);
      if last.None? then OversizedNumeral
      else if last.value < first.value then Whole
      else Part(first.value, if last.value < size - 1 then last.value else size - 1)
  }

  function ParseRangeHeader(header: Option<string>, size: nat): Outcome {
    if header.None? || header.value == "" || ',' in header.value then Whole
    else
      var texts := MatchRange(Strip(header.value));
      if texts.None? || texts.value == ("", "") then Whole
      else if texts.value.0 == "" then
        assert AllDigits(texts.value.1);
        ParseSuffix(texts.value.1, size)
      else
        assert AllDigits(texts.value.0) && AllDigits(texts.value.1);
        ParseInterval(texts.value.0, texts.value.1, size)
  }

  // ----- What RFC 9110 says a range selects -----

  function Spec(firstText: string, lastText: string): string {
    "bytes=" + firstText + "-" + lastText
  }

  /** An interval is invalid when its last position is given and lies before the first. */
  predicate Valid(firstText: string, lastText: string)
    requires AllDigits(firstText) && AllDigits(lastText)
  {
    firstText != "" && lastText != "" ==> Number(firstText) <= Number(lastText)
  }

  /** The positions a range selects in a representation of this size. */
  predicate Selects(firstText: string, lastText: string, size: nat, position: nat)
    requires AllDigits(firstText) && AllDigits(lastText)
  {
    && position < size
    && (firstText != "" ==> Number(firstText) <= position && (lastText != "" ==> position <= Number(lastText)))
    && (firstText == "" ==> size - Number(lastText) <= position)
  }

  ghost predicate Satisfiable(firstText: string, lastText: string, size: nat)
    requires AllDigits(firstText) && AllDigits(lastText)
  {
    exists position: nat :: Selects(firstText, lastText, size, position)
  }

  lemma RunStopsAtDash(digits: string, rest: string)
    requires AllDigits(digits)
    ensures DigitRun(digits + ['-'] + rest) == |digits|
  {
    var text := digits + ['-'] + rest;
    var n := DigitRun(text);
    assert text[|digits|] == '-';
    assert forall i :: 0 <= i < n ==> IsDigit(text[i]) by {
      assert forall i :: 0 <= i < n ==> text[i] in text[..n];
    }
    assert forall i :: 0 <= i < |digits| ==> IsDigit(text[i]);
  }

  lemma PrintedMatches(firstText: string, lastText: string)
    requires AllDigits(firstText) && AllDigits(lastText)
    ensures MatchRange(Spec(firstText, lastText)) == Some((firstText, lastText))
  {
    var body := firstText + ['-'] + lastText;
    assert Spec(firstText, lastText) == "bytes=" + body;
    assert Spec(firstText, lastText)[6..] == body && Spec(firstText, lastText)[..6] == "bytes=";
    RunStopsAtDash(firstText, lastText);
    assert body[|firstText| + 1..] == lastText && body[..|firstText|] == firstText;
    hide DigitRun, Spec, AllDigits;
  }

  /** The regular expression accepts exactly the printed single ranges. */
  lemma MatchIsExact(text: string, firstText: string, lastText: string)
    ensures MatchRange(text) == Some((firstText, lastText)) <==>
            text == Spec(firstText, lastText) && AllDigits(firstText) && AllDigits(lastText)
  {
    if text == Spec(firstText, lastText) && AllDigits(firstText) && AllDigits(lastText) {
      PrintedMatches(firstText, lastText);
      hide *;
    }
  }

  lemma StripKeepsSpec(firstText: string, lastText: string)
    requires AllDigits(firstText) && AllDigits(lastText)
    ensures Strip(Spec(firstText, lastText)) == Spec(firstText, lastText)
  {
    var text := Spec(firstText, lastText);
    assert text[0] == 'b';
    assert text[|text| - 1] == '-' || IsDigit(text[|text| - 1]);
  }

  lemma SpecHasNoComma(firstText: string, lastText: string)
    requires AllDigits(firstText) && AllDigits(lastText)
    ensures ',' !in Spec(firstText, lastText)
  {
  }

  /** A printed range reaches the arithmetic untouched. */
  lemma ParsesTexts(firstText: string, lastText: string, size: nat)
    requires AllDigits(firstText) && AllDigits(lastText)
    ensures ParseRangeHeader(Some(Spec(firstText, lastText)), size) ==
            if firstText == "" && lastText == "" then Whole
            else if firstText == "" then ParseSuffix(lastText, size)
            else ParseInterval(firstText, lastText, size)
  {
    StripKeepsSpec(firstText, lastText);
    SpecHasNoComma(firstText, lastText);
    MatchIsExact(Spec(firstText, lastText), firstText, lastText);
    hide Strip, MatchRange, ParseSuffix, ParseInterval;
  }

  /** Everything that is not a single printed range between whitespace is ignored. */
  lemma OtherHeadersAreIgnored(header: Option<string>, size: nat)
    ensures ParseRangeHeader(header, size) != Whole ==>
      && header.Some?
      && ',' !in header.value
      && exists firstText, lastText ::
           && AllDigits(firstText) && AllDigits(lastText)
           && Strip(header.value) == Spec(firstText, lastText)
           && ParseRangeHeader(header, size) == ParseRangeHeader(Some(Spec(firstText, lastText)), size)
  {
    if ParseRangeHeader(header, size) != Whole {
      var texts := MatchRange(Strip(header.value)).value;
      MatchIsExact(Strip(header.value), texts.0, texts.1);
      StripKeepsSpec(texts.0, texts.1);
      SpecHasNoComma(texts.0, texts.1);
    }
  }

  /**
   A part is served exactly for the valid satisfiable ranges with numerals of at most 4300 digits,
   and it is the selected set of positions.
   */
  lemma ServesExactlyTheSelection(firstText: string, lastText: string, size: nat)
    requires AllDigits(firstText) && AllDigits(lastText) && size > 0
    requires |firstText| <= 4300 && |lastText| <= 4300
    ensures
      var outcome := ParseRangeHeader(Some(Spec(firstText, lastText)), size);
      && (outcome.Part? <==> (firstText != "" || lastText != "")
                             && Valid(firstText, lastText) && Satisfiable(firstText, lastText, size))
      && (outcome.Part? ==> 0 <= outcome.first <= outcome.last < size
                            && forall i: nat :: outcome.first <= i <= outcome.last <==> Selects(firstText, lastText, size, i))
  {
    ParsesTexts(firstText, lastText, size);
    var outcome := ParseRangeHeader(Some(Spec(firstText, lastText)), size);
    hide ParseRangeHeader, Number, Spec;
    if outcome.Part? {
      assert Selects(firstText, lastText, size, outcome.first);
    }
  }

  /**
   The answer is 416 exactly when a first position is given beyond the end, valid range or not. So
   the unsatisfiable `bytes=-0` gets the whole file, and an invalid range gets 416 or the whole
   file depending on its first position.
   */
  lemma RejectsExactlyBeyondTheEnd(firstText: string, lastText: string, size: nat)
    requires AllDigits(firstText) && AllDigits(lastText)
    requires |firstText| <= 4300 && |lastText| <= 4300
    ensures
      var outcome := ParseRangeHeader(Some(Spec(firstText, lastText)), size);
      && (outcome == NotSatisfiable <==> firstText != "" && Number(firstText) >= size)
      && (size > 0 && (firstText != "" || lastText != "") ==>
            ((outcome == NotSatisfiable <==> Valid(firstText, lastText) && !Satisfiable(firstText, lastText, size)) <==>
             !(firstText == "" && Number(lastText) == 0)
             && !(!Valid(firstText, lastText) && Number(firstText) >= size)))
  {
    ParsesTexts(firstText, lastText, size);
    hide ParseRangeHeader, Number, Spec;
    if size > 0 && (firstText != "" || lastText != "") && Valid(firstText, lastText) {
      if firstText != "" && Number(firstText) < size {
        assert Selects(firstText, lastText, size, Number(firstText));
      } else if firstText == "" && Number(lastText) > 0 {
        assert Selects(firstText, lastText, size, size - 1);
      }
    }
  }

  /** The unsatisfiable suffix of no bytes gets the whole file, and the invalid 20-5 a 416 or the whole file. */
  lemma RangesServedUnlikeTheirMeaning()
    ensures ParseRangeHeader(Some("bytes=-0"), 10) == Whole && !Satisfiable("", "0", 10)
    ensures !Valid("20", "5") && ParseRangeHeader(Some("bytes=20-5"), 10) == NotSatisfiable
    ensures ParseRangeHeader(Some("bytes=20-5"), 30) == Whole
  {
    assert "bytes=-0" == Spec("", "0") && "bytes=20-5" == Spec("20", "5");
    ParsesTexts("", "0", 10);
    ParsesTexts("20", "5", 10);
    ParsesTexts("20", "5", 30);
    NumeralsOfTwo();
    hide ParseRangeHeader, Number, Spec;
  }

  lemma NumeralsOfTwo()
    ensures Number("0") == 0 && Number("5") == 5 && Number("20") == 20
  {
    assert "0"[..0] == "" && "5"[..0] == "" && "2"[..0] == "" && "20"[..1] == "2";
    assert Number("2") == 2;
  }

  /** A numeral the code has to read fails the request exactly when it is longer than 4300 digits. */
  lemma FailsExactlyOnOversizedNumerals(firstText: string, lastText: string, size: nat)
    requires AllDigits(firstText) && AllDigits(lastText)
    ensures ParseRangeHeader(Some(Spec(firstText, lastText)), size) == OversizedNumeral <==>
            || |firstText| > 4300
            || (|lastText| > 4300 && (firstText == "" || Number(firstText) < size))
  {
    ParsesTexts(firstText, lastText, size);
    hide ParseRangeHeader, Number, Spec;
  }

  /** Whatever the header, a served part lies within a non-empty file. */
  lemma PartsAreInBounds(header: Option<string>, size: nat)
    requires ParseRangeHeader(header, size).Part?
    ensures var part := ParseRangeHeader(header, size);
            && (size > 0 ==> 0 <= part.first <= part.last < size)
            && (size == 0 ==> part.first == 0 && part.last == -1)
  {
  }

  /** Printing an in-bounds range and parsing it gives the range back, up to the numeral limit. */
  lemma PrintedRangeParsesBack(first: nat, last: nat, size: nat)
    requires first <= last < size
    ensures ParseRangeHeader(Some(Spec(Text(first), Text(last))), size) == Part(first, last) <==>
            |Text(first)| <= 4300 && |Text(last)| <= 4300
  {
    ParsesTexts(Text(first), Text(last), size);
    NumberOfText(first);
    NumberOfText(last);
    hide ParseRangeHeader, Text, Number, Spec;
  }

  // ----- The response headers -----

  function ContentRange(first: nat, last: nat, size: nat): string {
    "bytes " + Text(first) + "-" + Text(last) + "/" + Text(size)
  }

  /** The Content-Range text names one range of one size only. */
  lemma ContentRangeIsUnambiguous(first: nat, last: nat, size: nat, first': nat, last': nat, size': nat)
    requires ContentRange(first, last, size) == ContentRange(first', last', size')
    ensures first == first' && last == last' && size == size'
  {
    SplitThree(Text(first), Text(last), Text(size), Text(first'), Text(last'), Text(size'));
    TextIsInjective(first, first');
    TextIsInjective(last, last');
    TextIsInjective(size, size');
  }

  lemma SplitThree(a: string, b: string, c: string, a': string, b': string, c': string)
    requires AllDigits(a) && AllDigits(b) && AllDigits(a') && AllDigits(b')
    requires "bytes " + a + "-" + b + "/" + c == "bytes " + a' + "-" + b' + "/" + c'
    ensures a == a' && b == b' && c == c'
  {
    var tail, tail' := b + ['/'] + c, b' + ['/'] + c';
    assert ("bytes " + a + "-" + b + "/" + c)[6..] == a + ['-'] + tail;
    assert ("bytes " + a' + "-" + b' + "/" + c')[6..] == a' + ['-'] + tail';
    SplitIsUnique(a, '-', tail, a', '-', tail');
    SplitIsUnique(b, '/', c, b', '/', c');
  }

  // ----- Whitespace around the header -----

  lemma {:induction false} StripLeftSkips(space: string, text: string)
    requires IsBlank(space)
    ensures StripLeft(space + text) == StripLeft(text)
  {
    if space == "" {
      assert space + text == text;
    } else {
      assert space[0] in space && (space + text)[1..] == space[1..] + text;
      assert forall c :: c in space[1..] ==> c in space;
      StripLeftSkips(space[1..], text);
    }
  }

  lemma {:induction false} StripRightSkips(text: string, space: string)
    requires IsBlank(space)
    ensures StripRight(text + space) == StripRight(text)
    decreases |space|
  {
    if space == "" {
      assert text + space == text;
    } else {
      var init := space[..|space| - 1];
      assert space[|space| - 1] in space && (text + space)[..|text + space| - 1] == text + init;
      assert forall c :: c in init ==> c in space;
      StripRightSkips(text, init);
    }
  }

  /** Whitespace around a single range makes no difference. */
  lemma SurroundingSpaceIsIgnored(left: string, firstText: string, lastText: string, right: string, size: nat)
    requires IsBlank(left) && IsBlank(right) && AllDigits(firstText) && AllDigits(lastText)
    ensures ParseRangeHeader(Some(left + Spec(firstText, lastText) + right), size)
         == ParseRangeHeader(Some(Spec(firstText, lastText)), size)
  {
    var text := Spec(firstText, lastText);
    assert left + text + right == left + (text + right);
    StripLeftSkips(left, text + right);
    assert StripLeft(text + right) == text + right by {
      assert (text + right)[0] == 'b';
    }
    StripRightSkips(text, right);
    StripKeepsSpec(firstText, lastText);
    SpecHasNoComma(firstText, lastText);
    assert StripLeft(text) == text by {
      assert text[0] == 'b';
    }
    assert ',' !in left + text + right;
    hide Spec, StripLeft, StripRight, MatchRange, ParseSuffix, ParseInterval;
  }
}
