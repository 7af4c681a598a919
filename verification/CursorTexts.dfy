/**
 Which texts the cursor and limit parameters are read from, exactly: the alphabets and the padding the
 decoder takes, and the forms of an integer.
 */
module CursorTexts {
  import opened Common
  import opened Cursor
  import opened Decimal

  // ----- Alphabets and padding -----

  /** Besides the encoder's own alphabet only the standard one's `+` and `/` mean something. */
  lemma AlphabetsExactly(c: char, v: Sextet)
    ensures SymbolValue(c) == Some(v) <==> c == Symbol(v) || (c == '+' && v == 62) || (c == '/' && v == 63)
  {
  }

  function Pads(k: nat): string {
    if k == 0 then "" else "=" + Pads(k - 1)
  }

  lemma {:induction false} PadsDecide(quad: nat, left: nat, pads: nat, k: nat)
    requires quad < 4 && left < 64 && (quad == 2 ==> left < 16) && (quad == 3 ==> left < 4)
    requires quad >= 2 ==> quad + pads < 4
    ensures Decode64(Pads(k), quad, left, pads).Some? <==> quad == 0 || (quad >= 2 && quad + pads + k >= 4)
    decreases k
  {
    if k > 0 {
      assert Pads(k)[0] == '=' && Pads(k)[1..] == Pads(k - 1);
      if quad < 2 {
        PadsDecide(quad, left, pads, k - 1);
      } else if quad + pads + 1 < 4 {
        PadsDecide(quad, left, pads + 1, k - 1);
      }
    }
  }

  lemma {:induction false} PaddingDecides(text: string, quad: nat, left: nat, k: nat)
    requires quad < 4 && left < 64 && (quad == 2 ==> left < 16) && (quad == 3 ==> left < 4)
    requires '=' !in text
    ensures var rest := (quad + SymbolCount(text)) % 4;
            Decode64(text + Pads(k), quad, left, 0).Some? <==> rest == 0 || (rest == 2 && k >= 2) || (rest == 3 && k >= 1)
    decreases |text|
  {
    hide SymbolValue;
    if text == "" {
      assert text + Pads(k) == Pads(k);
      PadsDecide(quad, left, 0, k);
    } else {
      hide Decode64, Pads, Completed, Then;
      assert text[0] in text && forall c :: c in text[1..] ==> c in text;
      var padded := text + Pads(k);
      assert padded[0] == text[0] && padded[1..] == text[1..] + Pads(k);
      DecodesWithRest(padded, quad, left, 0);
      var v := SymbolValue(text[0]);
      if v.None? {
        PaddingDecides(text[1..], quad, left, k);
      } else {
        NextQuad(quad, SymbolCount(text[1..]));
        PaddingDecides(text[1..], (quad + 1) % 4, Leftover(quad, v.value), k);
      }
    }
  }

  /** A text decodes exactly when its symbols fill whole groups of four, or padding completes the last one. */
  lemma PaddingExactly(text: string, k: nat)
    requires '=' !in text
    ensures var rest := SymbolCount(text) % 4;
            Decode64(text + Pads(k), 0, 0, 0).Some? <==> rest == 0 || (rest == 2 && k >= 2) || (rest == 3 && k >= 1)
  {
    PaddingDecides(text, 0, 0, k);
  }

  // ----- The forms of an integer -----

  predicate AllSpaces(s: string) {
    forall c :: c in s ==> c as int == 32 || 9 <= c as int <= 13
  }

  /** Groups of digits with an underscore between each two. */
  function Joined(groups: seq<string>): string {
    if groups == [] then "" else if |groups| == 1 then groups[0] else groups[0] + "_" + Joined(groups[1..])
  }

  function Flat(groups: seq<string>): string {
    if groups == [] then "" else groups[0] + Flat(groups[1..])
  }

  predicate DigitGroups(groups: seq<string>) {
    groups != [] && forall i :: 0 <= i < |groups| ==> groups[i] != "" && AllDigits(groups[i])
  }

  function Signed(sign: Option<char>, body: string): string {
    if sign.None? then body else [sign.value] + body
  }

  /** Spaces, a sign if any, digit groups, spaces. */
  predicate IntText(s: string, left: string, sign: Option<char>, groups: seq<string>, right: string) {
    && AllSpaces(left) && AllSpaces(right) && (sign == None || sign == Some('+') || sign == Some('-')) && DigitGroups(groups)
    && s == left + Signed(sign, Joined(groups)) + right
  }

  lemma {:induction false} DigitsAndRest(digits: string, rest: string)
    requires AllDigits(digits) && (forall i :: 0 <= i < |rest| ==> IsDigit(rest[i]) || rest[i] == '_')
    ensures forall i :: 0 <= i < |digits + rest| ==> IsDigit((digits + rest)[i]) || (digits + rest)[i] == '_'
    ensures WithoutUnderscores(digits + rest) == digits + WithoutUnderscores(rest)
  {
    if digits == "" {
      assert digits + rest == rest;
    } else {
      assert digits[0] in digits && IsDigit(digits[0]);
      DigitsAndRest(digits[1..], rest);
      assert digits + rest == [digits[0]] + (digits[1..] + rest);
    }
  }

  /** Joined digit groups make a numeral, whose digits are those of the groups. */
  lemma {:induction false} JoinedIsNumeral(groups: seq<string>)
    requires DigitGroups(groups)
    ensures IsNumeral(Joined(groups)) && WithoutUnderscores(Joined(groups)) == Flat(groups)
    decreases |groups|
  {
    var first := groups[0];
    assert first[0] in first && first[|first| - 1] in first;
    if |groups| == 1 {
      DigitsHaveNoUnderscores(first);
      DigitsAreNumerals(first);
      assert Flat(groups[1..]) == "" && first + "" == first;
    } else {
      JoinedIsNumeral(groups[1..]);
      var rest := "_" + Joined(groups[1..]);
      assert rest[1..] == Joined(groups[1..]);
      DigitsAndRest(first, rest);
      assert Joined(groups) == first + rest;
      NumeralInFront(first, Joined(groups[1..]));
    }
  }

  lemma NumeralInFront(first: string, rest: string)
    requires first != "" && AllDigits(first) && IsNumeral(rest)
    ensures IsNumeral(first + ("_" + rest))
  {
    var s := first + ("_" + rest);
    forall i | 0 <= i < |first| ensures IsDigit(s[i]) {
      assert first[i] in first;
    }
    assert forall i :: |first| < i < |s| ==> s[i] == rest[i - |first| - 1];
  }

  lemma SplitAtUnderscore(s: string, i: nat)
    requires IsNumeral(s) && i < |s| && s[i] == '_' && forall j :: 0 <= j < i ==> s[j] != '_'
    ensures s[..i] != "" && AllDigits(s[..i]) && IsNumeral(s[i + 1..]) && s == s[..i] + "_" + s[i + 1..]
  {
    var rest := s[i + 1..];
    assert forall j :: 0 <= j < |rest| ==> rest[j] == s[i + 1 + j];
  }

  lemma OneMoreGroup(first: string, groups: seq<string>)
    requires first != "" && AllDigits(first) && DigitGroups(groups)
    ensures DigitGroups([first] + groups) && Joined([first] + groups) == first + "_" + Joined(groups)
  {
    assert ([first] + groups)[1..] == groups;
  }

  /** A numeral falls into digit groups at its underscores. */
  lemma {:induction false} NumeralIsJoined(s: string) returns (groups: seq<string>)
    requires IsNumeral(s)
    ensures DigitGroups(groups) && s == Joined(groups)
    decreases |s|
  {
    if i :| 0 <= i < |s| && s[i] == '_' && forall j :: 0 <= j < i ==> s[j] != '_' {
      SplitAtUnderscore(s, i);
      hide IsNumeral, Joined, DigitGroups;
      var rest := NumeralIsJoined(s[i + 1..]);
      OneMoreGroup(s[..i], rest);
      groups := [s[..i]] + rest;
    } else {
      NoFirstUnderscore(s, |s|);
      groups := [s];
      assert AllDigits(s);
    }
  }

  lemma {:induction false} NoFirstUnderscore(s: string, n: nat)
    requires n <= |s|
    requires forall i :: 0 <= i < |s| && s[i] == '_' ==> exists j :: 0 <= j < i && s[j] == '_'
    ensures forall i :: 0 <= i < n ==> s[i] != '_'
  {
    if n > 0 {
      NoFirstUnderscore(s, n - 1);
    }
  }

  lemma {:induction false} TrimsSpaces(left: string, s: string, right: string)
    requires AllSpaces(left) && AllSpaces(right) && s != "" && !IsAsciiSpace(s[0]) && !IsAsciiSpace(s[|s| - 1])
    ensures TrimRight(TrimLeft(left + s + right)) == s
    decreases |left|
  {
    if left == "" {
      assert left + s + right == s + right;
      TrimsRight(s, right);
    } else {
      assert left[0] in left && (left + s + right)[1..] == left[1..] + s + right;
      assert forall c :: c in left[1..] ==> c in left;
      TrimsSpaces(left[1..], s, right);
    }
  }

  lemma {:induction false} TrimsRight(s: string, right: string)
    requires AllSpaces(right) && s != "" && !IsAsciiSpace(s[|s| - 1])
    ensures TrimRight(s + right) == s
  {
    if right == "" {
      assert s + right == s;
    } else {
      var last := |right| - 1;
      assert right[last] in right && (s + right)[..|s + right| - 1] == s + right[..last];
      assert forall c :: c in right[..last] ==> c in right;
      TrimsRight(s, right[..last]);
    }
  }

  lemma {:induction false} LeftSpaces(s: string) returns (left: string)
    ensures s == left + TrimLeft(s) && AllSpaces(left)
    ensures TrimLeft(s) == "" || !IsAsciiSpace(TrimLeft(s)[0])
  {
    if s != "" && IsAsciiSpace(s[0]) {
      var rest := LeftSpaces(s[1..]);
      left := [s[0]] + rest;
    } else {
      left := "";
    }
  }

  lemma {:induction false} RightSpaces(s: string) returns (right: string)
    ensures s == TrimRight(s) + right && AllSpaces(right)
  {
    if s != "" && IsAsciiSpace(s[|s| - 1]) {
      var init := RightSpaces(s[..|s| - 1]);
      right := init + [s[|s| - 1]];
      assert s == s[..|s| - 1] + [s[|s| - 1]];
    } else {
      right := "";
    }
  }

  lemma SignedNumeral(sign: Option<char>, body: string)
    requires (sign == None || sign == Some('+') || sign == Some('-')) && IsNumeral(body)
    ensures var s := Signed(sign, body);
            && s != "" && !IsAsciiSpace(s[0]) && !IsAsciiSpace(s[|s| - 1])
            && (if sign.None? then s[0] != '-' && s[0] != '+' else s[0] == sign.value && s[1..] == body)
  {
    var s := Signed(sign, body);
    assert s[|s| - 1] == body[|body| - 1];
    hide IsNumeral;
  }

  lemma ParseTrimmed(s: string, sign: Option<char>, body: string)
    requires TrimRight(TrimLeft(s)) == Signed(sign, body) && IsNumeral(body)
    requires sign == None || sign == Some('+') || sign == Some('-')
    ensures var magnitude := ParseDigits(WithoutUnderscores(body));
            ParseInt(s) == if magnitude.None? then None
                           else Some(if sign == Some('-') then -(magnitude.value as int) else magnitude.value as int)
  {
    SignedNumeral(sign, body);
    hide TrimLeft, TrimRight, IsNumeral, WithoutUnderscores, ParseDigits, IsAsciiSpace;
  }

  /** An integer is read from every text of its form, up to 4300 digits. */
  lemma IntTextsParse(s: string, left: string, sign: Option<char>, groups: seq<string>, right: string)
    requires IntText(s, left, sign, groups, right)
    ensures AllDigits(Flat(groups))
    ensures ParseInt(s) == if |Flat(groups)| > 4300 then None
                           else Some(if sign == Some('-') then -(Number(Flat(groups)) as int) else Number(Flat(groups)) as int)
  {
    hide TrimLeft, TrimRight, Number, Joined, Flat, DigitGroups, AllSpaces, IsAsciiSpace, ParseInt, Signed, IsNumeral;
    JoinedIsNumeral(groups);
    SignedNumeral(sign, Joined(groups));
    TrimsSpaces(left, Signed(sign, Joined(groups)), right);
    ParseTrimmed(s, sign, Joined(groups));
    FlatIsDigits(groups);
  }

  lemma {:induction false} FlatIsDigits(groups: seq<string>)
    requires DigitGroups(groups)
    ensures AllDigits(Flat(groups))
  {
    if |groups| > 1 {
      FlatIsDigits(groups[1..]);
    }
  }

  lemma UnsignedText(trimmed: string) returns (sign: Option<char>, body: string)
    ensures sign == None || sign == Some('+') || sign == Some('-')
    ensures trimmed == Signed(sign, body)
    ensures body == if trimmed != "" && (trimmed[0] == '-' || trimmed[0] == '+') then trimmed[1..] else trimmed
  {
    if trimmed != "" && (trimmed[0] == '-' || trimmed[0] == '+') {
      sign, body := Some(trimmed[0]), trimmed[1..];
    } else {
      sign, body := None, trimmed;
    }
  }

  /** And from no other. */
  lemma ParsedIntsHaveTheirForm(s: string) returns (left: string, sign: Option<char>, groups: seq<string>, right: string)
    requires ParseInt(s).Some?
    ensures IntText(s, left, sign, groups, right)
  {
    hide TrimLeft, TrimRight, IsNumeral, Joined, DigitGroups, AllSpaces, IsAsciiSpace, Signed, WithoutUnderscores, ParseDigits;
    left := LeftSpaces(s);
    right := RightSpaces(TrimLeft(s));
    var trimmed := TrimRight(TrimLeft(s));
    var body: string;
    sign, body := UnsignedText(trimmed);
    groups := NumeralIsJoined(body);
    assert left + (trimmed + right) == left + trimmed + right;
  }

  // ----- Refusals -----

  /** Without a cursor the first page is meant. */
  lemma NoCursorIsTheStart()
    ensures DecodeCursor(None) == Success(0) && DecodeCursor(Some("")) == Success(0)
  {
  }

  /** A character outside ASCII spoils a cursor, although other foreign characters are skipped. */
  lemma ForeignScriptsAreRefused(raw: string, c: char)
    requires c in raw && c as int >= 128
    ensures DecodeCursor(Some(raw)) == Failure(InvalidCursor)
  {
  }

  /** A window is refused for its limit first, then for its cursor. */
  lemma RefusedWindows(rawLimit: Option<string>, rawCursor: Option<string>, defaultLimit: nat, maxLimit: nat)
    requires GetPageWindow(rawLimit, rawCursor, defaultLimit, maxLimit).Failure?
    ensures var limit := if rawLimit.None? then Some(defaultLimit as int) else ParseInt(rawLimit.value);
            GetPageWindow(rawLimit, rawCursor, defaultLimit, maxLimit) ==
              Failure(if limit.None? || limit.value <= 0 then InvalidLimit else InvalidCursor)
  {
    hide ParseInt, Decode64, AsciiText, IsAscii;
  }
}
