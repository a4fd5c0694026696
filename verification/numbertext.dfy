/** The two locale-number helpers of `api/subasta_logic.py`: the Spanish-format
    integer cleaner applied to scraped amounts, and the display formatter
    (`.` for thousands, `,` for decimals). */
module NumberText {
  import opened Text
  import opened Results

  // ---------------------------------------------------------------------------
  // limpiar_entero_por_texto
  // ---------------------------------------------------------------------------

  /** The cleaner exactly as the source chains it: drop dots, turn commas into
      dots, drop spaces, strip, then cut at the first comma (a branch no input
      reaches, see `CommaBranchDead`) or else at the first dot. */
  function CleanInteger(texto: string): (r: string)
    ensures '.' !in r && ',' !in r && ' ' !in r
  {
    var t0 := Remove(Replace(Remove(texto, '.'), ',', '.'), ' ');
    var t := Strip(t0);
    StripChars(t0);
    if ',' in t then Before(t, ',')
    else if '.' in t then Before(t, '.')
    else t
  }

  /** The text the cleaner works on before cutting: dots and spaces removed. */
  function Undotted(texto: string): string
  {
    Remove(Remove(texto, '.'), ' ')
  }

  /** The cleaner keeps the input's digits up to its first comma (the decimal
      separator), with dots and spaces gone; blanks before that point are
      stripped from the front only, and an input without a comma is stripped
      at both ends. So "123.456,78" becomes "123456". */
  lemma CleanIntegerCutsAtFirstComma(texto: string)
    ensures var u := Undotted(texto);
      CleanInteger(texto) == if ',' in u then LStrip(Before(u, ',')) else Strip(u)
  {
    var v := Remove(texto, '.');
    var u := Undotted(texto);
    RemoveReplaceCommute(v, ',', '.', ' ');
    var t0 := Replace(u, ',', '.');
    assert Remove(Replace(v, ',', '.'), ' ') == t0;
    var t := Strip(t0);
    CommaBranchDead(texto);
    assert '.' !in u;
    if ',' in u {
      var k :| 0 <= k < |u| && u[k] == ',';
      assert t0[k] == '.';
      StripMembership(t0, '.');
      BeforeStrip(t0, '.');
      BeforeReplace(u, ',', '.');
    } else {
      ReplaceAbsent(u, ',', '.');
      StripMembership(t0, '.');
    }
  }

  /** The source's `if ',' in texto` test never succeeds: by then every comma
      has become a dot. */
  lemma CommaBranchDead(texto: string)
    ensures ',' !in Strip(Remove(Replace(Remove(texto, '.'), ',', '.'), ' '))
  {
    StripChars(Remove(Replace(Remove(texto, '.'), ',', '.'), ' '));
  }

  lemma {:induction false} RemoveReplaceCommute(s: string, a: char, b: char, c: char)
    requires c != a && c != b
    ensures Remove(Replace(s, a, b), c) == Replace(Remove(s, c), a, b)
    decreases |s|
  {
    if s != [] {
      RemoveReplaceCommute(s[1..], a, b, c);
      assert Replace(s, a, b)[1..] == Replace(s[1..], a, b);
    }
  }

  lemma ReplaceAbsent(s: string, a: char, b: char)
    requires a !in s
    ensures Replace(s, a, b) == s
  {
  }

  /** Before the first `a`, replacing `a` by a fresh `b` changes nothing. */
  lemma {:induction false} BeforeReplace(u: string, a: char, b: char)
    requires b !in u && a != b
    ensures Before(Replace(u, a, b), b) == Before(u, a)
    decreases |u|
  {
    if u != [] {
      assert Replace(u, a, b)[1..] == Replace(u[1..], a, b);
      BeforeReplace(u[1..], a, b);
    }
  }

  /** Cutting at a non-blank `c` commutes with stripping, except that blanks just
      before the cut survive. */
  lemma BeforeStrip(s: string, c: char)
    requires c in s && !IsSpace(c)
    ensures Before(Strip(s), c) == LStrip(Before(s, c))
  {
    var l := LStrip(s);
    BeforeLStrip(s, c);
    assert c in l;
    BeforeRStrip(l, c);
  }

  /** Trailing blanks come after the first non-blank `c`, so cutting ignores them. */
  lemma BeforeRStrip(l: string, c: char)
    requires c in l && !IsSpace(c)
    ensures Before(RStrip(l), c) == Before(l, c)
  {
    var r := RStrip(l);
    var p := |Before(l, c)|;
    assert c in r by {
      assert l[p] == c;
      assert p < |r| && r[p] == c;
    }
    assert l == r + l[|r|..];
    BeforeAppendHit(r, l[|r|..], c);
  }

  lemma {:induction false} BeforeLStrip(s: string, c: char)
    requires !IsSpace(c)
    ensures Before(LStrip(s), c) == LStrip(Before(s, c))
    decreases |s|
  {
    if s != [] && IsSpace(s[0]) {
      BeforeLStrip(s[1..], c);
    } else if s != [] {
      var b := Before(s, c);
      assert b == [] || b[0] == s[0];
      LStripIdle(b);
    }
  }

  /** `LStrip` is the identity on text that does not start with a blank. */
  lemma LStripIdle(s: string)
    requires s == [] || !IsSpace(s[0])
    ensures LStrip(s) == s
  {
  }

  lemma {:induction false} BeforeAppendHit(a: string, b: string, c: char)
    requires c in a
    ensures Before(a + b, c) == Before(a, c)
    decreases |a|
  {
    assert (a + b)[0] == a[0];
    if a[0] != c {
      assert (a + b)[1..] == a[1..] + b;
      BeforeAppendHit(a[1..], b, c);
    }
  }

  // ---------------------------------------------------------------------------
  // Decimal digits
  // ---------------------------------------------------------------------------

  predicate IsDigit(c: char)
  {
    '0' <= c <= '9'
  }

  predicate AllDigits(s: string)
  {
    forall i :: 0 <= i < |s| ==> IsDigit(s[i])
  }

  function DigitChar(d: nat): (c: char)
    requires d < 10
    ensures IsDigit(c)
  {
    ('0' as int + d) as char
  }

  /** `str(n)` for a natural number. */
  function NatToString(n: nat): (r: string)
    ensures |r| >= 1 && AllDigits(r)
    ensures r[0] == '0' ==> n == 0
    decreases n
  {
    if n < 10 then [DigitChar(n)] else NatToString(n / 10) + [DigitChar(n % 10)]
  }

  /** The number a string of decimal digits denotes. */
  function DigitsValue(s: string): nat
    requires AllDigits(s)
    decreases |s|
  {
    if s == [] then 0
    else DigitsValue(s[..|s| - 1]) * 10 + (s[|s| - 1] as int - '0' as int)
  }

  /** Reading back what `NatToString` writes gives the number. */
  lemma {:induction false} NatToStringRoundTrip(n: nat)
    ensures DigitsValue(NatToString(n)) == n
    decreases n
  {
    if n >= 10 {
      var a := NatToString(n / 10);
      var s := a + [DigitChar(n % 10)];
      assert s[..|s| - 1] == a;
      NatToStringRoundTrip(n / 10);
    }
  }

  function Pad2(m: nat): (r: string)
    requires m < 100
    ensures |r| == 2 && AllDigits(r)
  {
    [DigitChar(m / 10), DigitChar(m % 10)]
  }

  function Pad3(m: nat): (r: string)
    requires m < 1000
    ensures |r| == 3 && AllDigits(r)
  {
    [DigitChar(m / 100), DigitChar((m / 10) % 10), DigitChar(m % 10)]
  }

  lemma Pad2RoundTrip(m: nat)
    requires m < 100
    ensures DigitsValue(Pad2(m)) == m
  {
    var s := Pad2(m);
    assert s[..1][..0] == [];
    assert DigitsValue(s[..1]) == m / 10;
  }

  /** Three more digits at the end of `str(n)` are `n % 1000`, zero-padded. */
  lemma NatToStringSplit3(n: nat)
    requires n >= 1000
    ensures NatToString(n) == NatToString(n / 1000) + Pad3(n % 1000)
  {
    var q := n / 1000;
    var r := n % 1000;
    assert n / 10 / 10 == n / 100;
    assert n / 100 / 10 == q;
    assert (n / 100) % 10 == r / 100;
    assert (n / 10) % 10 == (r / 10) % 10;
    assert n % 10 == r % 10;
    assert NatToString(n / 100) == NatToString(q) + [DigitChar(r / 100)];
    assert NatToString(n / 10) == NatToString(q) + [DigitChar(r / 100), DigitChar((r / 10) % 10)];
  }

  // ---------------------------------------------------------------------------
  // formatear_numero
  // ---------------------------------------------------------------------------

  /** The digits of `n` with `sep` between groups of three, counted from the
      right (the `,` option of Python's format mini-language). */
  function Grouped(n: nat, sep: char): (r: string)
    requires !IsDigit(sep)
    ensures |r| >= 1 && IsDigit(r[0])
    ensures forall x :: x in r ==> IsDigit(x) || x == sep
    decreases n
  {
    if n < 1000 then NatToString(n)
    else Grouped(n / 1000, sep) + [sep] + Pad3(n % 1000)
  }

  function Abs(c: int): nat
  {
    if c < 0 then -c else c
  }

  function Sign(c: int): string
  {
    if c < 0 then "-" else ""
  }

  /** `f"{num:,.2f}"` for an amount of `cents` hundredths. */
  function EnglishFormat(cents: int): string
  {
    Sign(cents) + Grouped(Abs(cents) / 100, ',') + "." + Pad2(Abs(cents) % 100)
  }

  /** What `formatear_numero` may be given: a number (as a whole count of
      cents), a value `float()` rejects, or `None`. */
  datatype Numero = Amount(cents: int) | Unparseable(text: string) | NoneValue

  /** `formatear_numero`: English grouping, then the three-step separator swap
      through a placeholder `X`; what is not a number is shown as `str()`
      shows it. */
  function FormatearNumero(numero: Numero): (r: string)
    ensures numero.Amount? ==> r == SpanishFormat(numero.cents)
    ensures numero.Unparseable? ==> r == numero.text
    ensures numero.NoneValue? ==> r == "None"
  {
    match numero
    case Amount(c) =>
      var s, n, p := Sign(c), Abs(c) / 100, Pad2(Abs(c) % 100);
      SwapPass(s, n, ',', 'X', '.', '.', p, ',', 'X');
      SwapPass(s, n, 'X', 'X', '.', ',', p, '.', ',');
      SwapPass(s, n, 'X', '.', ',', ',', p, 'X', '.');
      Replace(Replace(Replace(EnglishFormat(c), ',', 'X'), '.', ','), 'X', '.')
    case Unparseable(s) => s
    case NoneValue => "None"
  }

  /** The Spanish rendering, defined directly: sign, `.`-grouped euros, `,`,
      two-digit cents. */
  function SpanishFormat(cents: int): string
  {
    Sign(cents) + Grouped(Abs(cents) / 100, '.') + "," + Pad2(Abs(cents) % 100)
  }

  /** Renaming the group separator of a grouped number. */
  lemma {:induction false} ReplaceGrouped(n: nat, a: char, b: char)
    requires !IsDigit(a) && !IsDigit(b)
    ensures Replace(Grouped(n, a), a, b) == Grouped(n, b)
    decreases n
  {
    if n >= 1000 {
      ReplaceGrouped(n / 1000, a, b);
      ReplaceAppend(Grouped(n / 1000, a) + [a], Pad3(n % 1000), a, b);
      ReplaceAppend(Grouped(n / 1000, a), [a], a, b);
      ReplaceAbsent(Pad3(n % 1000), a, b);
    } else {
      ReplaceAbsent(NatToString(n), a, b);
    }
  }

  /** `Replace` acts on each piece of a four-piece concatenation separately. */
  lemma ReplaceAppend4(a: string, b: string, c: string, d: string, x: char, y: char)
    ensures Replace(a + b + c + d, x, y)
         == Replace(a, x, y) + Replace(b, x, y) + Replace(c, x, y) + Replace(d, x, y)
  {
    ReplaceAppend(a + b + c, d, x, y);
    ReplaceAppend(a + b, c, x, y);
    ReplaceAppend(a, b, x, y);
  }

  /** One separator-swap pass over a sign, a grouped number, a one-character
      decimal mark and the digits of the cents. */
  lemma SwapPass(sign: string, n: nat, g: char, g': char, mark: char, mark': char,
                 p: string, x: char, y: char)
    requires sign == "" || sign == "-"
    requires AllDigits(p)
    requires !IsDigit(g) && !IsDigit(g') && !IsDigit(x) && !IsDigit(y)
    requires x != '-'
    requires g' == (if g == x then y else g) && mark' == (if mark == x then y else mark)
    ensures Replace(sign + Grouped(n, g) + [mark] + p, x, y) == sign + Grouped(n, g') + [mark'] + p
  {
    ReplaceAppend4(sign, Grouped(n, g), [mark], p, x, y);
    ReplaceAbsent(sign, x, y);
    assert forall k :: 0 <= k < |p| ==> p[k] != x;
    ReplaceAbsent(p, x, y);
    assert Replace([mark], x, y) == [mark'];
    if g == x {
      ReplaceGrouped(n, g, y);
    } else {
      assert x !in Grouped(n, g);
      ReplaceAbsent(Grouped(n, g), x, y);
    }
  }

  /** Dropping the group separators of a grouped number leaves `str(n)`. */
  lemma {:induction false} RemoveGrouped(n: nat, sep: char)
    requires !IsDigit(sep)
    ensures Remove(Grouped(n, sep), sep) == NatToString(n)
    decreases n
  {
    if n >= 1000 {
      RemoveGrouped(n / 1000, sep);
      RemoveAppend(Grouped(n / 1000, sep) + [sep], Pad3(n % 1000), sep);
      RemoveAppend(Grouped(n / 1000, sep), [sep], sep);
      RemoveAbsent(Pad3(n % 1000), sep);
      NatToStringSplit3(n);
    } else {
      RemoveAbsent(NatToString(n), sep);
    }
  }

  /** Reads an amount in the Spanish display format back as cents: an optional
      `-`, digits possibly grouped with `.`, a `,` and exactly two digits. */
  function ParseImporte(s: string): Option<int>
  {
    if |s| > 0 && s[0] == '-' then
      match ParseUnsigned(s[1..])
      case Some(v) => Some(-(v as int))
      case None => None
    else ParseUnsigned(s)
  }

  /** The unsigned part of `ParseImporte`. */
  function ParseUnsigned(body: string): Option<nat>
  {
    if |body| < 4 || body[|body| - 3] != ',' then None
    else
      var whole := Remove(body[..|body| - 3], '.');
      var frac := body[|body| - 2..];
      if whole == [] || !AllDigits(whole) || !AllDigits(frac) then None
      else Some(DigitsValue(whole) * 100 + DigitsValue(frac))
  }

  /** The unsigned Spanish rendering of `n` euros and `m` cents reads back. */
  lemma ParseUnsignedRoundTrip(n: nat, m: nat)
    requires m < 100
    ensures ParseUnsigned(Grouped(n, '.') + "," + Pad2(m)) == Some(n * 100 + m)
  {
    var body := Grouped(n, '.') + "," + Pad2(m);
    assert body[..|body| - 3] == Grouped(n, '.');
    assert body[|body| - 2..] == Pad2(m);
    RemoveGrouped(n, '.');
    NatToStringRoundTrip(n);
    Pad2RoundTrip(m);
  }

  /** Reading back the Spanish format gives the amount. */
  lemma SpanishRoundTrip(cents: int)
    ensures ParseImporte(SpanishFormat(cents)) == Some(cents)
  {
    var n := Abs(cents) / 100;
    var m := Abs(cents) % 100;
    var body := Grouped(n, '.') + "," + Pad2(m);
    var s := SpanishFormat(cents);
    assert ParseUnsigned(body) == Some(Abs(cents)) by {
      ParseUnsignedRoundTrip(n, m);
    }
    assert IsDigit(body[0]);
    if cents < 0 {
      assert s == "-" + body;
      assert s[1..] == body;
    } else {
      assert s == body;
    }
  }

  /** What `formatear_numero` shows for an amount reads back as that amount. */
  lemma FormatearRoundTrip(cents: int)
    ensures ParseImporte(FormatearNumero(Amount(cents))) == Some(cents)
  {
    SpanishRoundTrip(cents);
  }

  /** With dots and spaces gone, a Spanish amount is its sign, its plain
      whole-euro digits, a comma and the cents. */
  lemma UndottedSpanish(cents: int)
    ensures Undotted(SpanishFormat(cents))
         == (Sign(cents) + NatToString(Abs(cents) / 100)) + ("," + Pad2(Abs(cents) % 100))
  {
    var n := Abs(cents) / 100;
    var p := Pad2(Abs(cents) % 100);
    var head := Sign(cents) + NatToString(n);
    var f := SpanishFormat(cents);
    assert Remove(f, '.') == head + ("," + p) by {
      assert f == (Sign(cents) + Grouped(n, '.')) + ("," + p);
      RemoveAppend(Sign(cents) + Grouped(n, '.'), "," + p, '.');
      RemoveAppend(Sign(cents), Grouped(n, '.'), '.');
      RemoveGrouped(n, '.');
      RemoveAbsent(Sign(cents), '.');
      RemoveAbsent("," + p, '.');
    }
    assert ' ' !in head + ("," + p) by {
      assert forall k :: 0 <= k < |head + ("," + p)| ==> (head + ("," + p))[k] != ' ';
    }
    RemoveAbsent(head + ("," + p), ' ');
  }

  /** Cleaning a Spanish amount keeps its sign and its whole-euro digits. */
  lemma CleanSpanish(cents: int)
    ensures CleanInteger(SpanishFormat(cents)) == Sign(cents) + NatToString(Abs(cents) / 100)
  {
    UndottedSpanish(cents);
    var head := Sign(cents) + NatToString(Abs(cents) / 100);
    var tail := "," + Pad2(Abs(cents) % 100);
    var u := Undotted(SpanishFormat(cents));
    assert Before(u, ',') == head by {
      assert forall k :: 0 <= k < |head| ==> head[k] != ',';
      BeforeAppend(head, tail, ',');
      assert Before(tail, ',') == [];
    }
    assert ',' in u by { assert u[|head|] == ','; }
    assert LStrip(head) == head by { LStripIdle(head); }
    CleanIntegerCutsAtFirstComma(SpanishFormat(cents));
  }

  /** Cleaning a formatted amount recovers its whole-euro digits (with the sign
      of a negative amount): the cleaner inverts the formatter's integer part. */
  lemma CleanFormatted(cents: int)
    ensures CleanInteger(FormatearNumero(Amount(cents))) == Sign(cents) + NatToString(Abs(cents) / 100)
  {
    CleanSpanish(cents);
  }

  /** Dots out of "a.b,d": the digit groups closed up, the comma kept. */
  lemma UndottedGroupedAmount(a: string, b: string, d: string)
    requires AllDigits(a) && AllDigits(b) && AllDigits(d)
    ensures Undotted(a + "." + b + "," + d) == (a + b) + ("," + d)
  {
    var s := a + "." + b + "," + d;
    var u := (a + b) + ("," + d);
    assert Remove(s, '.') == u by {
      DotsOutOfAmount(a, b, d);
    }
    assert ' ' !in u by {
      assert forall k :: 0 <= k < |u| ==> u[k] != ' ';
    }
    RemoveAbsent(u, ' ');
  }

  lemma DotsOutOfAmount(a: string, b: string, d: string)
    requires AllDigits(a) && AllDigits(b) && AllDigits(d)
    ensures Remove(a + "." + b + "," + d, '.') == (a + b) + ("," + d)
  {
    var s1 := a + ".";
    var s2 := s1 + b;
    var s3 := s2 + ",";
    assert Remove(s1, '.') == a by {
      RemoveAppend(a, ".", '.');
      NoDotInDigits(a);
    }
    assert Remove(s2, '.') == a + b by {
      RemoveAppend(s1, b, '.');
      NoDotInDigits(b);
    }
    assert Remove(s3, '.') == a + b + "," by {
      RemoveAppend(s2, ",", '.');
    }
    assert Remove(s3 + d, '.') == a + b + "," + d by {
      RemoveAppend(s3, d, '.');
      NoDotInDigits(d);
    }
    assert a + b + "," + d == (a + b) + ("," + d);
  }

  lemma NoDotInDigits(a: string)
    requires AllDigits(a)
    ensures Remove(a, '.') == a
  {
    assert forall k :: 0 <= k < |a| ==> a[k] != '.';
    RemoveAbsent(a, '.');
  }

  /** A scraped amount with one thousands dot and decimals, "a.b,d", cleans to
      the whole digits "ab": "123.456,78" gives "123456". */
  lemma CleanGroupedAmount(a: string, b: string, d: string)
    requires AllDigits(a) && AllDigits(b) && AllDigits(d)
    ensures CleanInteger(a + "." + b + "," + d) == a + b
  {
    var s := a + "." + b + "," + d;
    UndottedGroupedAmount(a, b, d);
    var u := (a + b) + ("," + d);
    assert forall k :: 0 <= k < |a + b| ==> (a + b)[k] != ',';
    BeforeAppend(a + b, "," + d, ',');
    assert Before("," + d, ',') == [];
    assert u[|a + b|] == ',';
    assert a + b == [] || IsDigit((a + b)[0]);
    LStripIdle(a + b);
    CleanIntegerCutsAtFirstComma(s);
  }

  /** 1234567.80 shown the Spanish way. */
  lemma SpanishFormatExample()
    ensures SpanishFormat(123456780) == "1.234.567,80"
  {
    assert Abs(123456780) / 100 == 1234567 && Abs(123456780) % 100 == 80;
    assert NatToString(1) == "1";
    assert Pad3(234) == "234";
    assert Pad3(567) == "567";
    assert Pad2(80) == "80";
    assert Grouped(1, '.') == "1";
    assert Grouped(1234, '.') == "1" + "." + "234";
    assert Grouped(1234567, '.') == "1" + "." + "234" + "." + "567";
    assert "1" + "." + "234" + "." + "567" + "," + "80" == "1.234.567,80";
  }
  lemma FormatearExample()
    ensures FormatearNumero(Amount(123456780)) == "1.234.567,80"
  {
    SpanishFormatExample();
  }
}
