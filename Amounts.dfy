/** Cleaning of amount cells: `pd.to_numeric(col.astype(str).str.replace(",", ""),
    errors="coerce").fillna(0)`. Amounts are exact reals; a small decimal
    grammar stands in for pandas' number parser. */
module Amounts {
  import opened Wrappers
  import opened Text

  /** str.replace(",", ""): every comma removed, all else kept in order. */
  function RemoveCommas(s: string): (r: string)
    ensures ',' !in r
    ensures |r| <= |s|
    ensures ',' !in s ==> r == s
  {
    if s == [] then []
    else if s[0] == ',' then RemoveCommas(s[1..])
    else [s[0]] + RemoveCommas(s[1..])
  }

  lemma {:induction false} RemoveCommasAppend(a: string, b: string)
    ensures RemoveCommas(a + b) == RemoveCommas(a) + RemoveCommas(b)
  {
    if a != [] {
      assert (a + b)[1..] == a[1..] + b;
      RemoveCommasAppend(a[1..], b);
    } else {
      assert a + b == b;
    }
  }

  function Pow10(n: nat): (r: nat)
    ensures r >= 1
  {
    if n == 0 then 1 else 10 * Pow10(n - 1)
  }

  predicate AllDigits(s: string) {
    forall k :: 0 <= k < |s| ==> IsDigit(s[k])
  }

  /** The number a string of decimal digits denotes. */
  function DigitsValue(d: string): nat
    requires AllDigits(d)
  {
    if d == [] then 0 else DigitsValue(d[..|d| - 1]) * 10 + (d[|d| - 1] as int - '0' as int)
  }

  /** The value of the decimal whose integer digits are w and whose
      fraction digits are f. */
  function DecimalValue(w: string, f: string): real
    requires AllDigits(w) && AllDigits(f)
  {
    DigitsValue(w) as real + DigitsValue(f) as real / Pow10(|f|) as real
  }

  /** An unsigned decimal: digits, optionally '.' and more digits, with at
      least one digit in all. */
  function ParseUnsigned(b: string): Option<real> {
    var i := RunEnd(b, 0, IsDigit);
    if i == |b| then
      if i == 0 then None else Some(DecimalValue(b, ""))
    else if b[i] == '.' && AllDigits(b[i + 1..]) && (i > 0 || i + 1 < |b|) then
      Some(DecimalValue(b[..i], b[i + 1..]))
    else None
  }

  /** The decimal grammar accepted here: an optional '+' or '-' sign, then an
      unsigned decimal. */
  function ParseDecimal(s: string): Option<real> {
    if |s| > 0 && (s[0] == '-' || s[0] == '+') then
      match ParseUnsigned(s[1..])
      case Some(v) => Some(if s[0] == '-' then -v else v)
      case None => None
    else ParseUnsigned(s)
  }

  /** One cleaned amount: commas removed, parsed, 0 when it does not parse. */
  function CleanAmount(s: string): real {
    ParseDecimal(RemoveCommas(s)).GetOr(0.0)
  }

  /** Commas anywhere in a cell do not change its cleaned amount. */
  lemma CleanAmountIgnoresComma(s: string, k: nat)
    requires k <= |s|
    ensures CleanAmount(s[..k] + "," + s[k..]) == CleanAmount(s)
  {
    RemoveCommasInsert(s[..k], s[k..]);
    assert s[..k] + s[k..] == s;
  }

  lemma RemoveCommasInsert(a: string, b: string)
    ensures RemoveCommas(a + "," + b) == RemoveCommas(a + b)
  {
    var x, y := RemoveCommas(a), RemoveCommas(b);
    RemoveCommasAppend(a + ",", b);
    RemoveCommasAppend(a, ",");
    assert RemoveCommas(",") == [];
    assert RemoveCommas(a + ",") == x;
    RemoveCommasAppend(a, b);
  }

  // ---- A writer of amounts, the partner that the parser inverts ----

  function DigitChar(n: nat): char
    requires n < 10
  {
    ('0' as int + n) as char
  }

  /** The decimal digits of n, without leading zeros. */
  function NatDigits(n: nat): (r: string)
    ensures AllDigits(r) && |r| >= 1
  {
    if n < 10 then [DigitChar(n)] else NatDigits(n / 10) + [DigitChar(n % 10)]
  }

  /** n written with exactly w digits, including leading zeros. */
  function PadDigits(n: nat, w: nat): (r: string)
    ensures AllDigits(r) && |r| == w
  {
    if w == 0 then [] else PadDigits(n / 10, w - 1) + [DigitChar(n % 10)]
  }

  /** Groups of three digits separated by commas, as on a bank statement. */
  function GroupThousands(d: string): string {
    if |d| <= 3 then d else GroupThousands(d[..|d| - 3]) + "," + d[|d| - 3..]
  }

  /** The fractional part of a rendered amount: "" or '.' and w digits. */
  function FracText(frac: nat, width: nat): string {
    if width == 0 then "" else "." + PadDigits(frac, width)
  }

  function SignText(negative: bool): string {
    if negative then "-" else ""
  }

  /** An amount as a statement prints it: "-1,234.50" is Render(true, 1234, 50, 2). */
  function Render(negative: bool, whole: nat, frac: nat, width: nat): string {
    SignText(negative) + GroupThousands(NatDigits(whole)) + FracText(frac, width)
  }

  /** The value Render writes. */
  function RenderedValue(negative: bool, whole: nat, frac: nat, width: nat): real {
    var v := whole as real + frac as real / Pow10(width) as real;
    if negative then -v else v
  }

  lemma {:induction false} DigitsValueAppend(a: string, c: char)
    requires AllDigits(a) && IsDigit(c)
    ensures AllDigits(a + [c]) && DigitsValue(a + [c]) == DigitsValue(a) * 10 + (c as int - '0' as int)
  {
    assert (a + [c])[..|a + [c]| - 1] == a;
  }

  lemma {:induction false} NatDigitsValue(n: nat)
    ensures DigitsValue(NatDigits(n)) == n
  {
    if n >= 10 {
      NatDigitsValue(n / 10);
      DigitsValueAppend(NatDigits(n / 10), DigitChar(n % 10));
    } else {
      assert NatDigits(n)[..0] == [];
    }
  }

  lemma {:induction false} PadDigitsValue(n: nat, w: nat)
    requires n < Pow10(w)
    ensures DigitsValue(PadDigits(n, w)) == n
  {
    if w > 0 {
      assert n / 10 < Pow10(w - 1);
      PadDigitsValue(n / 10, w - 1);
      DigitsValueAppend(PadDigits(n / 10, w - 1), DigitChar(n % 10));
    }
  }

  lemma RemoveCommas3(a: string, b: string, c: string)
    ensures RemoveCommas(a + b + c) == RemoveCommas(a) + RemoveCommas(b) + RemoveCommas(c)
  {
    RemoveCommasAppend(a + b, c);
    RemoveCommasAppend(a, b);
  }

  lemma DigitsNoComma(d: string)
    requires AllDigits(d)
    ensures ',' !in d
  {
    assert forall k :: 0 <= k < |d| ==> d[k] != ',' by {
      forall k | 0 <= k < |d| ensures d[k] != ',' { assert IsDigit(d[k]); }
    }
  }

  lemma FracTextDigits(frac: nat, width: nat)
    ensures ',' !in FracText(frac, width)
    ensures width > 0 ==> FracText(frac, width) == ['.'] + PadDigits(frac, width)
  {
    if width > 0 {
      var p := PadDigits(frac, width);
      assert FracText(frac, width) == ['.'] + p;
      DigitsNoComma(p);
    }
  }

  /** The separators GroupThousands adds are exactly what RemoveCommas takes away. */
  lemma {:induction false} GroupThousandsCommas(d: string)
    ensures RemoveCommas(GroupThousands(d)) == RemoveCommas(d)
  {
    if |d| > 3 {
      var a, b := d[..|d| - 3], d[|d| - 3..];
      var g := GroupThousands(a);
      calc {
        RemoveCommas(GroupThousands(d));
        RemoveCommas(g + "," + b);
        { RemoveCommas3(g, ",", b); }
        RemoveCommas(g) + RemoveCommas(",") + RemoveCommas(b);
        { assert RemoveCommas(",") == []; GroupThousandsCommas(a); }
        RemoveCommas(a) + RemoveCommas(b);
        { RemoveCommasAppend(a, b); }
        RemoveCommas(a + b);
        { assert a + b == d; }
        RemoveCommas(d);
      }
    }
  }

  lemma RemoveCommasAround(a: string, b: string, c: string)
    requires ',' !in a && ',' !in c
    ensures RemoveCommas(a + b + c) == a + RemoveCommas(b) + c
  {
    RemoveCommas3(a, b, c);
  }

  /** The comma-free text of a rendered amount. */
  lemma RenderWithoutCommas(negative: bool, whole: nat, frac: nat, width: nat)
    ensures RemoveCommas(Render(negative, whole, frac, width))
         == SignText(negative) + (NatDigits(whole) + FracText(frac, width))
  {
    var d := NatDigits(whole);
    var sign, g, tail := SignText(negative), GroupThousands(d), FracText(frac, width);
    assert Render(negative, whole, frac, width) == sign + g + tail;
    assert RemoveCommas(sign + g + tail) == sign + RemoveCommas(g) + tail by {
      FracTextDigits(frac, width);
      assert ',' !in sign;
      RemoveCommasAround(sign, g, tail);
    }
    assert RemoveCommas(g) == d by {
      GroupThousandsCommas(d);
      DigitsNoComma(d);
    }
    assert sign + d + tail == sign + (d + tail);
  }

  lemma ParseUnsignedWhole(d: string)
    requires AllDigits(d) && |d| >= 1
    ensures ParseUnsigned(d) == Some(DecimalValue(d, ""))
  {
    RunEndIs(d, 0, |d|, IsDigit);
  }

  lemma ParseUnsignedFraction(d: string, p: string)
    requires AllDigits(d) && AllDigits(p) && |d| + |p| >= 1
    ensures ParseUnsigned(d + ['.'] + p) == Some(DecimalValue(d, p))
  {
    var b := d + ['.'] + p;
    var i := |d|;
    RunEndIs(b, 0, i, IsDigit);
    assert b[..i] == d && b[i] == '.' && b[i + 1..] == p;
  }

  /** The unsigned part of a rendered amount parses to its value. */
  lemma ParseUnsignedRendered(whole: nat, frac: nat, width: nat)
    requires frac < Pow10(width)
    ensures ParseUnsigned(NatDigits(whole) + FracText(frac, width)) == Some(RenderedValue(false, whole, frac, width))
  {
    if width == 0 {
      ParseUnsignedRenderedWhole(whole);
    } else {
      ParseUnsignedRenderedFraction(whole, frac, width);
    }
  }

  lemma ParseUnsignedRenderedWhole(whole: nat)
    ensures ParseUnsigned(NatDigits(whole) + FracText(0, 0)) == Some(RenderedValue(false, whole, 0, 0))
  {
    var d := NatDigits(whole);
    assert d + FracText(0, 0) == d;
    assert ParseUnsigned(d) == Some(DecimalValue(d, "")) by { ParseUnsignedWhole(d); }
    assert DigitsValue(d) == whole by { NatDigitsValue(whole); }
  }

  lemma ParseUnsignedRenderedFraction(whole: nat, frac: nat, width: nat)
    requires width > 0 && frac < Pow10(width)
    ensures ParseUnsigned(NatDigits(whole) + FracText(frac, width)) == Some(RenderedValue(false, whole, frac, width))
  {
    var d, p := NatDigits(whole), PadDigits(frac, width);
    assert d + FracText(frac, width) == d + ['.'] + p;
    assert ParseUnsigned(d + ['.'] + p) == Some(DecimalValue(d, p)) by { ParseUnsignedFraction(d, p); }
    assert DecimalValue(d, p) == RenderedValue(false, whole, frac, width) by {
      NatDigitsValue(whole);
      PadDigitsValue(frac, width);
      DecimalValueOf(d, p, whole, frac);
    }
  }

  lemma DecimalValueOf(w: string, f: string, a: nat, b: nat)
    requires AllDigits(w) && AllDigits(f) && DigitsValue(w) == a && DigitsValue(f) == b
    ensures DecimalValue(w, f) == a as real + b as real / Pow10(|f|) as real
  {
  }

  /** A sign, if any, in front of a text that starts with a digit or '.'. */
  lemma ParseWithSign(sign: string, body: string, v: real)
    requires sign == "" || sign == "+" || sign == "-"
    requires |body| > 0 && (IsDigit(body[0]) || body[0] == '.') && ParseUnsigned(body) == Some(v)
    ensures ParseDecimal(sign + body) == Some(if sign == "-" then -v else v)
  {
    var t := sign + body;
    if sign == "" {
      assert t == body;
    } else {
      assert t[0] == sign[0];
      assert t[1..] == body;
    }
  }

  lemma ParseDecimalWhole(sign: string, w: string)
    requires sign == "" || sign == "+" || sign == "-"
    requires AllDigits(w) && |w| >= 1
    ensures ParseDecimal(sign + w) == Some(if sign == "-" then -DecimalValue(w, "") else DecimalValue(w, ""))
  {
    ParseUnsignedWhole(w);
    ParseWithSign(sign, w, DecimalValue(w, ""));
  }

  lemma ParseDecimalFraction(sign: string, w: string, f: string)
    requires sign == "" || sign == "+" || sign == "-"
    requires AllDigits(w) && AllDigits(f) && |w| + |f| >= 1
    ensures ParseDecimal(sign + w + ['.'] + f) == Some(if sign == "-" then -DecimalValue(w, f) else DecimalValue(w, f))
  {
    var b := w + ['.'] + f;
    ParseUnsignedFraction(w, f);
    assert IsDigit(b[0]) || b[0] == '.' by {
      if |w| > 0 { assert b[0] == w[0]; } else { assert b[0] == '.'; }
    }
    ParseWithSign(sign, b, DecimalValue(w, f));
    assert sign + w + ['.'] + f == sign + b;
  }

  /** The value of every text in the grammar: an optional sign, then
      integer digits w alone, or w, '.' and fraction digits f with at least
      one digit in all ("+5" is 5, ".5" is 0.5, "-3." is -3). */
  lemma ParseDecimalValue(sign: string, w: string, f: string)
    requires sign == "" || sign == "+" || sign == "-"
    requires AllDigits(w) && AllDigits(f)
    ensures |w| >= 1 ==>
      ParseDecimal(sign + w) == Some(if sign == "-" then -DecimalValue(w, "") else DecimalValue(w, ""))
    ensures |w| + |f| >= 1 ==>
      ParseDecimal(sign + w + ['.'] + f) == Some(if sign == "-" then -DecimalValue(w, f) else DecimalValue(w, f))
  {
    if |w| >= 1 {
      ParseDecimalWhole(sign, w);
    }
    if |w| + |f| >= 1 {
      ParseDecimalFraction(sign, w, f);
    }
  }

  /** Parsing inverts rendering: the cleaned value of a rendered amount,
      thousands separators and all, is the amount itself (the fraction must
      fit its width). */
  lemma CleanRender(negative: bool, whole: nat, frac: nat, width: nat)
    requires frac < Pow10(width)
    ensures CleanAmount(Render(negative, whole, frac, width)) == RenderedValue(negative, whole, frac, width)
  {
    var d := NatDigits(whole);
    var body := d + FracText(frac, width);
    RenderWithoutCommas(negative, whole, frac, width);
    ParseUnsignedRendered(whole, frac, width);
    assert body[0] == d[0] && IsDigit(d[0]);
    ParseWithSign(SignText(negative), body, RenderedValue(false, whole, frac, width));
  }

  /** Cell texts that hold no number clean to 0: the empty cell, Python's
      "None" and pandas' "nan". */
  lemma CleanUnparseable()
    ensures CleanAmount("") == 0.0
    ensures CleanAmount("None") == 0.0
    ensures CleanAmount("nan") == 0.0
    ensures CleanAmount("-") == 0.0
    ensures CleanAmount(".") == 0.0
  {
    assert RunEnd("None", 0, IsDigit) == 0;
    assert RunEnd("nan", 0, IsDigit) == 0;
    assert RunEnd(".", 0, IsDigit) == 0;
  }

  // ---------------- The grammar the parser accepts ----------------

  /** `digits ('.' digits?)? | '.' digits`: all digits, or one '.' with
      digits on either side of it, with at least one digit in all. */
  predicate IsUnsignedDecimal(b: string) {
    || (|b| > 0 && AllDigits(b))
    || exists i :: 0 <= i < |b| && b[i] == '.' && AllDigits(b[..i]) && AllDigits(b[i + 1..]) && |b| > 1
  }

  /** `[+-]?` in front of an unsigned decimal. */
  predicate IsDecimal(t: string) {
    || IsUnsignedDecimal(t)
    || (|t| > 0 && (t[0] == '+' || t[0] == '-') && IsUnsignedDecimal(t[1..]))
  }

  /** The unsigned parser succeeds exactly on the unsigned grammar. */
  lemma ParseUnsignedGrammar(b: string)
    ensures ParseUnsigned(b).Some? <==> IsUnsignedDecimal(b)
  {
    if ParseUnsigned(b).Some? {
      ParseUnsignedSound(b);
    } else if IsUnsignedDecimal(b) {
      ParseUnsignedComplete(b);
    }
  }

  lemma ParseUnsignedSound(b: string)
    requires ParseUnsigned(b).Some?
    ensures IsUnsignedDecimal(b)
  {
    var i := RunEnd(b, 0, IsDigit);
    if i < |b| {
      assert b[i] == '.' && |b| > 1;
      assert AllDigits(b[..i]) by {
        forall k | 0 <= k < i ensures IsDigit(b[..i][k]) {
          assert b[..i][k] == b[k];
        }
      }
    }
  }

  lemma ParseUnsignedComplete(b: string)
    requires IsUnsignedDecimal(b)
    ensures ParseUnsigned(b).Some?
  {
    if |b| > 0 && AllDigits(b) {
      RunEndIs(b, 0, |b|, IsDigit);
    } else {
      var j :| 0 <= j < |b| && b[j] == '.' && AllDigits(b[..j]) && AllDigits(b[j + 1..]) && |b| > 1;
      forall k | 0 <= k < j ensures IsDigit(b[k]) {
        assert b[..j][k] == b[k];
      }
      RunEndIs(b, 0, j, IsDigit);
    }
  }

  /** The parser succeeds exactly on the decimal grammar; every other text
      is "not a number" to it. */
  lemma ParseDecimalGrammar(t: string)
    ensures ParseDecimal(t).Some? <==> IsDecimal(t)
  {
    ParseUnsignedGrammar(t);
    if |t| > 0 && (t[0] == '+' || t[0] == '-') {
      ParseUnsignedGrammar(t[1..]);
      UnsignedChars(t);
    }
  }

  /** An unsigned decimal holds only digits and '.', and at least one digit. */
  lemma UnsignedChars(b: string)
    ensures IsUnsignedDecimal(b) ==>
      && (forall k :: 0 <= k < |b| ==> IsDigit(b[k]) || b[k] == '.')
      && exists k :: 0 <= k < |b| && IsDigit(b[k])
  {
    if IsUnsignedDecimal(b) && AllDigits(b) {
      assert IsDigit(b[0]);
    } else if IsUnsignedDecimal(b) {
      var i :| 0 <= i < |b| && b[i] == '.' && AllDigits(b[..i]) && AllDigits(b[i + 1..]) && |b| > 1;
      forall k | 0 <= k < |b| ensures IsDigit(b[k]) || b[k] == '.' {
        if k < i {
          assert b[..i][k] == b[k];
        } else if k > i {
          assert b[i + 1..][k - i - 1] == b[k];
        }
      }
      if i > 0 {
        assert b[..i][0] == b[0];
      } else {
        assert b[i + 1..][0] == b[1];
      }
    }
  }

  /** Every text the parser accepts is made of digits, a '.', and at most a
      leading sign, and holds at least one digit. */
  lemma ParsedChars(t: string)
    ensures ParseDecimal(t).Some? ==>
      && (forall k :: 0 <= k < |t| ==> IsDigit(t[k]) || t[k] == '.' || (k == 0 && (t[k] == '+' || t[k] == '-')))
      && exists k :: 0 <= k < |t| && IsDigit(t[k])
  {
    ParseDecimalGrammar(t);
    UnsignedChars(t);
    if |t| > 0 {
      var u := t[1..];
      UnsignedChars(u);
      if IsUnsignedDecimal(u) && (t[0] == '+' || t[0] == '-') {
        forall k | 0 < k < |t| ensures IsDigit(t[k]) || t[k] == '.' {
          assert u[k - 1] == t[k];
        }
        var j :| 0 <= j < |u| && IsDigit(u[j]);
        assert t[j + 1] == u[j];
      }
    }
  }

  /** Cleaning gives 0 whenever the comma-free text is outside the grammar. */
  lemma CleanOutsideGrammar(s: string)
    requires !IsDecimal(RemoveCommas(s))
    ensures CleanAmount(s) == 0.0
  {
    ParseDecimalGrammar(RemoveCommas(s));
  }

  /** A character other than a digit, a '.' or a leading sign, anywhere in
      the comma-free text, makes the cell clean to 0. */
  lemma CleanForeignChar(s: string, k: nat)
    requires k < |RemoveCommas(s)|
    requires var c := RemoveCommas(s)[k]; !IsDigit(c) && c != '.' && !(k == 0 && (c == '+' || c == '-'))
    ensures CleanAmount(s) == 0.0
  {
    ParsedChars(RemoveCommas(s));
  }

  /** A cell without a single digit cleans to 0. */
  lemma CleanNoDigit(s: string)
    requires forall k :: 0 <= k < |RemoveCommas(s)| ==> !IsDigit(RemoveCommas(s)[k])
    ensures CleanAmount(s) == 0.0
  {
    ParsedChars(RemoveCommas(s));
  }

  /** A cell as printed on a statement, cleaned. */
  lemma CleanExample()
    ensures CleanAmount("1,234.50") == 1234.5
  {
    assert "1,234.50" == Render(false, 1234, 50, 2) by {
      assert NatDigits(1234) == "1234" by {
        assert NatDigits(1) == "1";
        assert NatDigits(12) == "12";
        assert NatDigits(123) == "123";
      }
      assert GroupThousands("1234") == "1,234" by {
        assert "1234"[..1] == "1" && "1234"[1..] == "234";
      }
      assert PadDigits(50, 2) == "50" by {
        assert PadDigits(5, 1) == "5";
      }
    }
    assert RenderedValue(false, 1234, 50, 2) == 1234.5 by {
      assert Pow10(2) == 100;
    }
    assert 50 < Pow10(2);
    CleanRender(false, 1234, 50, 2);
  }
}
