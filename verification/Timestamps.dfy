/**
 Creation times as text. The server prints date, time and, unless they are zero, microseconds; the
 client orders messages by comparing these texts. For the characters that occur (digits, dashes,
 colons, dots, T and Z) the locale comparison orders texts as code points do.
 */
module Timestamps {
  import opened Decimal
  import opened Ordering

  /** Year, month, day, hour, minute and second in UTC, and microseconds. */
  datatype Stamp = Stamp(fields: seq<nat>, micro: nat)

  const WIDTHS: seq<nat> := [4, 2, 2, 2, 2, 2]
  const LEADS: seq<string> := ["", "-", "-", "T", ":", ":"]

  function Power10(w: nat): (p: nat)
    ensures p > 0
  {
    if w == 0 then 1 else 10 * Power10(w - 1)
  }

  /** A number printed with leading zeros. */
  function Pad(w: nat, n: nat): (s: string)
    ensures |s| == w
  {
    if w == 0 then "" else Pad(w - 1, n / 10) + [DigitChar(n % 10)]
  }

  predicate Fit(widths: seq<nat>, values: seq<nat>) {
    |widths| == |values| && forall i :: 0 <= i < |values| ==> values[i] < Power10(widths[i])
  }

  predicate Printable(t: Stamp) {
    Fit(WIDTHS, t.fields) && t.micro < Power10(6)
  }

  function FieldsText(widths: seq<nat>, leads: seq<string>, values: seq<nat>): string
    requires |widths| == |leads| == |values|
  {
    if values == [] then "" else leads[0] + Pad(widths[0], values[0]) + FieldsText(widths[1..], leads[1..], values[1..])
  }

  function MicroText(micro: nat): string {
    if micro == 0 then "Z" else "." + Pad(6, micro) + "Z"
  }

  function StampText(t: Stamp): string
    requires Printable(t)
  {
    FieldsText(WIDTHS, LEADS, t.fields) + MicroText(t.micro)
  }

  /** Later fields only count when the earlier ones agree. */
  predicate FieldsLess(a: seq<nat>, b: seq<nat>)
    requires |a| == |b|
  {
    a != [] && (a[0] < b[0] || (a[0] == b[0] && FieldsLess(a[1..], b[1..])))
  }

  predicate Earlier(a: Stamp, b: Stamp)
    requires |a.fields| == |b.fields|
  {
    FieldsLess(a.fields, b.fields) || (a.fields == b.fields && a.micro < b.micro)
  }

  // ----- Text order -----

  lemma {:induction false} LessOfConcat(a: string, b: string, s: string, t: string)
    requires |a| == |b|
    ensures StringLess(a + s, b + t) <==> StringLess(a, b) || (a == b && StringLess(s, t))
  {
    if a == "" {
      assert a + s == s && b + t == t;
    } else {
      LessOfConcat(a[1..], b[1..], s, t);
      assert (a + s)[1..] == a[1..] + s && (b + t)[1..] == b[1..] + t;
      assert a == [a[0]] + a[1..] && b == [b[0]] + b[1..];
    }
  }

  /** Numbers of one width order as their texts do. */
  lemma {:induction false} PadOrder(w: nat, m: nat, n: nat)
    requires m < Power10(w) && n < Power10(w)
    ensures StringLess(Pad(w, m), Pad(w, n)) <==> m < n
    ensures Pad(w, m) == Pad(w, n) <==> m == n
  {
    if w > 0 {
      PadOrder(w - 1, m / 10, n / 10);
      PadOrder(w - 1, n / 10, m / 10);
      var x, y := [DigitChar(m % 10)], [DigitChar(n % 10)];
      LessOfConcat(Pad(w - 1, m / 10), Pad(w - 1, n / 10), x, y);
      DigitOrder(m % 10, n % 10);
      SplitPad(w, m, n);
    }
  }

  lemma DigitOrder(x: nat, y: nat)
    requires x < 10 && y < 10
    ensures StringLess([DigitChar(x)], [DigitChar(y)]) <==> x < y
    ensures DigitChar(x) == DigitChar(y) <==> x == y
  {
    assert DigitValue(DigitChar(x)) == x && DigitValue(DigitChar(y)) == y;
  }

  lemma SplitPad(w: nat, m: nat, n: nat)
    requires w > 0
    ensures Pad(w, m) == Pad(w, n) <==>
            Pad(w - 1, m / 10) == Pad(w - 1, n / 10) && DigitChar(m % 10) == DigitChar(n % 10)
  {
    assert Pad(w, m)[..w - 1] == Pad(w - 1, m / 10) && Pad(w, n)[..w - 1] == Pad(w - 1, n / 10);
    assert Pad(w, m)[w - 1] == DigitChar(m % 10) && Pad(w, n)[w - 1] == DigitChar(n % 10);
  }

  lemma {:induction false} FieldsOrder(widths: seq<nat>, leads: seq<string>, a: seq<nat>, b: seq<nat>)
    requires |leads| == |widths| && Fit(widths, a) && Fit(widths, b)
    ensures |FieldsText(widths, leads, a)| == |FieldsText(widths, leads, b)|
    ensures StringLess(FieldsText(widths, leads, a), FieldsText(widths, leads, b)) <==> FieldsLess(a, b)
    ensures FieldsText(widths, leads, a) == FieldsText(widths, leads, b) <==> a == b
    decreases |a|
  {
    hide StringLess, Pad;
    if a != [] {
      FieldsOrder(widths[1..], leads[1..], a[1..], b[1..]);
      PadOrder(widths[0], a[0], b[0]);
      var p, q := Pad(widths[0], a[0]), Pad(widths[0], b[0]);
      var s, t := FieldsText(widths[1..], leads[1..], a[1..]), FieldsText(widths[1..], leads[1..], b[1..]);
      FieldOrderStep(leads[0], p, q, s, t);
      assert a == [a[0]] + a[1..] && b == [b[0]] + b[1..];
    } else {
      EmptyIsNotLess();
    }
  }

  lemma EmptyIsNotLess()
    ensures !StringLess("", "")
  {
  }

  lemma FieldOrderStep(lead: string, p: string, q: string, s: string, t: string)
    requires |p| == |q| && |s| == |t|
    ensures StringLess(lead + p + s, lead + q + t) <==> StringLess(p, q) || (p == q && StringLess(s, t))
    ensures lead + p + s == lead + q + t <==> p == q && s == t
  {
    assert lead + p + s == lead + (p + s) && lead + q + t == lead + (q + t);
    LessOfConcat(lead, lead, p + s, q + t);
    StringTrichotomy(lead, lead);
    LessOfConcat(p, q, s, t);
    SameConcat(lead, p + s, q + t);
    if p + s == q + t {
      assert p == (p + s)[..|p|] && q == (q + t)[..|q|];
      assert s == (p + s)[|p|..] && t == (q + t)[|q|..];
    }
  }

  lemma SameConcat(lead: string, s: string, t: string)
    ensures lead + s == lead + t <==> s == t
  {
    assert (lead + s)[|lead|..] == s && (lead + t)[|lead|..] == t;
  }

  /** Whole seconds print no dot, and a dot sorts before the Z. */
  lemma MicroOrder(m: nat, n: nat)
    requires m < Power10(6) && n < Power10(6)
    ensures StringLess(MicroText(m), MicroText(n)) <==> m != 0 && (n == 0 || m < n)
  {
    if m != 0 && n != 0 {
      PadOrder(6, m, n);
      FieldOrderStep(".", Pad(6, m), Pad(6, n), "Z", "Z");
      StringTrichotomy("Z", "Z");
    } else if m != 0 {
      assert MicroText(m)[0] == '.';
    } else if n != 0 {
      assert MicroText(n)[0] == '.';
    }
  }

  /** The order of the texts: by second, and within a second whole seconds last. */
  lemma TextOrder(a: Stamp, b: Stamp)
    requires Printable(a) && Printable(b)
    ensures StringLess(StampText(a), StampText(b)) <==>
            FieldsLess(a.fields, b.fields) || (a.fields == b.fields && a.micro != 0 && (b.micro == 0 || a.micro < b.micro))
  {
    FieldsOrder(WIDTHS, LEADS, a.fields, b.fields);
    MicroOrder(a.micro, b.micro);
    LessOfConcat(FieldsText(WIDTHS, LEADS, a.fields), FieldsText(WIDTHS, LEADS, b.fields), MicroText(a.micro), MicroText(b.micro));
    hide FieldsText, MicroText, FieldsLess, StringLess, Fit;
  }

  /** Two times within one second of which exactly one is the whole second. */
  predicate Clash(a: Stamp, b: Stamp) {
    a.fields == b.fields && (a.micro == 0) != (b.micro == 0)
  }

  lemma {:induction false} FieldsTrichotomy(a: seq<nat>, b: seq<nat>)
    requires |a| == |b|
    ensures FieldsLess(a, b) || a == b || FieldsLess(b, a)
    ensures FieldsLess(a, b) ==> a != b && !FieldsLess(b, a)
    decreases |a|
  {
    if a != [] {
      FieldsTrichotomy(a[1..], b[1..]);
      assert a == [a[0]] + a[1..] && b == [b[0]] + b[1..];
    }
  }

  /** Comparing texts compares times exactly when the two do not clash. */
  lemma TextOrderIsTimeOrderExactly(a: Stamp, b: Stamp)
    requires Printable(a) && Printable(b)
    ensures (StringLess(StampText(a), StampText(b)) <==> Earlier(a, b)) <==> !Clash(a, b)
  {
    TextOrder(a, b);
    FieldsTrichotomy(a.fields, b.fields);
    hide StringLess, StampText, FieldsLess;
  }

  /** Different times have different texts. */
  lemma TextTellsTimesApart(a: Stamp, b: Stamp)
    requires Printable(a) && Printable(b)
    ensures StampText(a) == StampText(b) <==> a == b
  {
    TextOrder(a, b);
    TextOrder(b, a);
    FieldsTrichotomy(a.fields, b.fields);
    StringTrichotomy(StampText(a), StampText(b));
    hide StringLess, StampText, FieldsLess, Printable;
  }
}
