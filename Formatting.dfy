/** Regional number formatting: `.` separates thousands and `,` separates
    decimals (formato_entero and formato_decimal in PNSC.py). */
module Formatting {
  import opened Cells

  /** What formato_entero may be handed: a missing value (None or NaN), an
      integer, a float given exactly as a whole number of hundredths, or text. */
  datatype Valor = Nulo | Entero(n: int) | Centesimas(h: int) | Texto(s: string)

  predicate IsDigit(c: char) { '0' <= c <= '9' }

  predicate AllDigits(s: string) { forall i :: 0 <= i < |s| ==> IsDigit(s[i]) }

  function Abs(n: int): nat { if n < 0 then -n else n }

  function Sign(n: int): string { if n < 0 then "-" else "" }

  function DigitChar(d: nat): (c: char)
    requires d < 10
    ensures IsDigit(c) && c as int - '0' as int == d
  {
    (48 + d) as char
  }

  /** The number a string of decimal digits denotes, most significant first. */
  function ValueOf(s: string): nat
    requires AllDigits(s)
  {
    if s == [] then 0 else ValueOf(s[..|s| - 1]) * 10 + (s[|s| - 1] as int - '0' as int)
  }

  /** The decimal text of `n`, as str(n) gives it. */
  function Digits(n: nat): (r: string)
    ensures |r| >= 1 && AllDigits(r)
  {
    if n < 10 then [DigitChar(n)] else Digits(n / 10) + [DigitChar(n % 10)]
  }

  /** The decimal text of `n` has no leading zero and denotes `n`. */
  lemma {:induction false} DigitsValue(n: nat)
    ensures Digits(n)[0] == '0' ==> n == 0
    ensures ValueOf(Digits(n)) == n
  {
    if n >= 10 {
      DigitsValue(n / 10);
      var r := Digits(n);
      assert r[..|r| - 1] == Digits(n / 10);
    }
  }

  /** Appending a digit to a positive number appends its character. */
  lemma DigitsSnoc(n: nat, k: nat)
    requires 0 < n && k < 10
    ensures Digits(10 * n + k) == Digits(n) + [DigitChar(k)]
  {
    assert (10 * n + k) / 10 == n && (10 * n + k) % 10 == k;
  }

  /** `s` with every occurrence of `c` removed, order kept. */
  function Without(s: string, c: char): (r: string)
    ensures forall i :: 0 <= i < |r| ==> r[i] != c
  {
    if s == [] then [] else (if s[0] == c then [] else [s[0]]) + Without(s[1..], c)
  }

  /** Python's str.replace for a single character. */
  function Replace(s: string, a: char, b: char): string
  {
    seq(|s|, i requires 0 <= i < |s| => if s[i] == a then b else s[i])
  }

  /** `g` is a run of digits split by `sep` into groups counted from the
      right: every group after the first has exactly three digits and the
      first has one to three. Equivalently, `sep` sits exactly at the
      positions whose distance from the end is a multiple of four. */
  predicate WellGrouped(g: string, sep: char)
  {
    && |g| % 4 != 0
    && forall i :: 0 <= i < |g| ==> if (|g| - i) % 4 == 0 then g[i] == sep else IsDigit(g[i])
  }

  /** Inserts `sep` between groups of three digits, counting from the right
      (the `,` option of Python's format mini-language, with `sep` for `,`). */
  function GroupWith(d: string, sep: char): (g: string)
    requires AllDigits(d) && !IsDigit(sep)
    decreases |d|
  {
    if |d| <= 3 then d else GroupWith(d[..|d| - 3], sep) + [sep] + d[|d| - 3..]
  }

  /** Removing the separators from a grouped number gives the digits back. */
  lemma {:induction false} GroupWithUngroups(d: string, sep: char)
    requires AllDigits(d) && !IsDigit(sep)
    ensures Without(GroupWith(d, sep), sep) == d
    decreases |d|
  {
    if |d| <= 3 {
      WithoutAbsent(d, sep);
    } else {
      var head, tail := d[..|d| - 3], d[|d| - 3..];
      var front := GroupWith(head, sep);
      GroupWithUngroups(head, sep);
      assert GroupWith(d, sep) == front + [sep] + tail;
      UngroupStep(front, tail, sep);
      assert head + tail == d;
    }
  }

  lemma UngroupStep(front: string, tail: string, sep: char)
    requires forall i :: 0 <= i < |tail| ==> tail[i] != sep
    ensures Without(front + [sep] + tail, sep) == Without(front, sep) + tail
  {
    var st := [sep] + tail;
    assert Without(st, sep) == tail by {
      assert st[1..] == tail;
      WithoutAbsent(tail, sep);
    }
    assert Without(front + [sep] + tail, sep) == Without(front, sep) + Without(st, sep) by {
      assert front + [sep] + tail == front + st;
      WithoutAppend(front, st, sep);
    }
  }

  /** GroupWith produces the grouping pattern. */
  lemma {:induction false} GroupWithShape(d: string, sep: char)
    requires AllDigits(d) && |d| >= 1 && !IsDigit(sep)
    ensures WellGrouped(GroupWith(d, sep), sep)
    decreases |d|
  {
    if |d| > 3 {
      var head, tail := d[..|d| - 3], d[|d| - 3..];
      GroupWithShape(head, sep);
      assert GroupWith(d, sep) == GroupWith(head, sep) + [sep] + tail;
      GroupedSnoc(GroupWith(head, sep), tail, sep);
    }
  }

  /** One more separator and group of three digits keeps the pattern. */
  lemma GroupedSnoc(front: string, tail: string, sep: char)
    requires WellGrouped(front, sep) && |tail| == 3 && AllDigits(tail)
    ensures WellGrouped(front + [sep] + tail, sep)
  {
    var g := front + [sep] + tail;
    assert |g| == |front| + 4;
    forall i | 0 <= i < |g|
      ensures if (|g| - i) % 4 == 0 then g[i] == sep else IsDigit(g[i])
    {
      if i < |front| {
        assert (|g| - i) % 4 == (|front| - i) % 4;
        assert g[i] == front[i];
      } else if i == |front| {
        assert |g| - i == 4;
      } else {
        assert 0 < |g| - i < 4;
        assert g[i] == tail[i - |front| - 1];
      }
    }
  }

  lemma {:induction false} WithoutAppend(a: string, b: string, c: char)
    ensures Without(a + b, c) == Without(a, c) + Without(b, c)
  {
    if a != [] {
      assert (a + b)[1..] == a[1..] + b;
      WithoutAppend(a[1..], b, c);
    } else {
      assert a + b == b;
    }
  }

  lemma {:induction false} WithoutAbsent(s: string, c: char)
    requires forall i :: 0 <= i < |s| ==> s[i] != c
    ensures Without(s, c) == s
  {
    if s != [] {
      WithoutAbsent(s[1..], c);
    }
  }

  lemma ReplaceAppend(x: string, y: string, a: char, b: char)
    ensures Replace(x + y, a, b) == Replace(x, a, b) + Replace(y, a, b)
  {
  }

  lemma ReplaceAbsent(s: string, a: char, b: char)
    requires forall i :: 0 <= i < |s| ==> s[i] != a
    ensures Replace(s, a, b) == s
  {
  }

  /** Only digits and the separator occur in a grouped number. */
  lemma GroupedChars(d: string, sep: char, c: char)
    requires AllDigits(d) && |d| >= 1 && !IsDigit(sep) && !IsDigit(c) && c != sep
    ensures forall i :: 0 <= i < |GroupWith(d, sep)| ==> GroupWith(d, sep)[i] != c
  {
    var g := GroupWith(d, sep);
    GroupWithShape(d, sep);
  }

  lemma ReplaceSnoc(front: string, tail: string, a: char, b: char)
    requires forall i :: 0 <= i < |tail| ==> tail[i] != a
    ensures Replace(front + [a] + tail, a, b) == Replace(front, a, b) + [b] + tail
  {
    var r := Replace(front + [a] + tail, a, b);
    assert |r| == |front| + 1 + |tail|;
    forall i | 0 <= i < |r| ensures r[i] == (Replace(front, a, b) + [b] + tail)[i] {
      if i < |front| {
        assert (front + [a] + tail)[i] == front[i];
      } else if i == |front| {
        assert (front + [a] + tail)[i] == a;
      } else {
        assert (front + [a] + tail)[i] == tail[i - |front| - 1];
      }
    }
  }

  /** Replacing the separator of a grouped number regroups it with another. */
  lemma {:induction false} RegroupWith(d: string, a: char, b: char)
    requires AllDigits(d) && !IsDigit(a) && !IsDigit(b)
    ensures Replace(GroupWith(d, a), a, b) == GroupWith(d, b)
    decreases |d|
  {
    if |d| <= 3 {
      ReplaceAbsent(d, a, b);
    } else {
      var front, tail := d[..|d| - 3], d[|d| - 3..];
      RegroupWith(front, a, b);
      assert GroupWith(d, a) == GroupWith(front, a) + [a] + tail;
      assert GroupWith(d, b) == GroupWith(front, b) + [b] + tail;
      ReplaceSnoc(GroupWith(front, a), tail, a, b);
    }
  }

  /** Python's int() on text: an optional sign followed by decimal digits. */
  function ParseInt(s: string): Option<int>
  {
    if |s| > 0 && (s[0] == '-' || s[0] == '+') then
      if |s| > 1 && AllDigits(s[1..]) then
        var m: int := ValueOf(s[1..]);
        Some(if s[0] == '-' then -m else m)
      else None
    else if |s| > 0 && AllDigits(s) then Some(ValueOf(s))
    else None
  }

  /** Python's int() on a float: truncation toward zero. */
  function TruncateToInt(h: int): (n: int)
    ensures Abs(n) * 100 <= Abs(h) < (Abs(n) + 1) * 100
    ensures n != 0 ==> (n < 0 <==> h < 0)
  {
    if h >= 0 then h / 100 else -((-h) / 100)
  }

  /** f"{n:,}": the comma-grouped decimal text of an integer. */
  function PyThousands(n: int): string
  {
    Sign(n) + GroupWith(Digits(Abs(n)), ',')
  }

  /** f"{n:,}".replace(",", "."). */
  function Miles(n: int): string
  {
    Replace(PyThousands(n), ',', '.')
  }

  /** formato_entero: `.`-grouped integer text, "0" for a missing or empty
      value and for text that int() rejects. */
  function FormatoEntero(v: Valor): (r: string)
    ensures v.Nulo? || v == Texto("") ==> r == "0"
    ensures v.Texto? && ParseInt(v.s).None? ==> r == "0"
    ensures v.Texto? && ParseInt(v.s).Some? ==> r == Miles(ParseInt(v.s).value)
    ensures v.Entero? ==> r == Miles(v.n)
    ensures v.Centesimas? ==> r == Miles(TruncateToInt(v.h))
  {
    match v
    case Nulo => "0"
    case Texto(s) =>
      if s == "" then "0"
      else (match ParseInt(s)
            case Some(n) => Miles(n)
            case None => "0")
    case Entero(n) => Miles(n)
    case Centesimas(h) => Miles(TruncateToInt(h))
  }

  /** Grouping with `,` and then replacing it by `.` is grouping with `.`. */
  lemma MilesIsDotGrouping(n: int)
    ensures Miles(n) == Sign(n) + GroupWith(Digits(Abs(n)), '.')
  {
    ReplaceAppend(Sign(n), GroupWith(Digits(Abs(n)), ','), ',', '.');
    ReplaceAbsent(Sign(n), ',', '.');
    RegroupWith(Digits(Abs(n)), ',', '.');
  }

  /** The formatted integer is an optional `-` followed by the digits of |n|
      split by `.` into groups (first 1-3 digits, then exactly 3 each); with
      the dots removed it is the plain decimal text of |n|. */
  lemma FormatoEnteroShape(n: int)
    ensures var r := FormatoEntero(Entero(n));
            var g := if n < 0 then r[1..] else r;
            && (|r| > 0 && r[0] == '-' <==> n < 0)
            && WellGrouped(g, '.')
            && Without(g, '.') == Digits(Abs(n))
  {
    var d := Digits(Abs(n));
    var g := GroupWith(d, '.');
    MilesIsDotGrouping(n);
    GroupWithShape(d, '.');
    GroupWithUngroups(d, '.');
    var r := FormatoEntero(Entero(n));
    assert r == Sign(n) + g;
    if n < 0 {
      assert r[1..] == g;
    } else {
      assert r == g && g[0] != '-';
    }
  }

  /** Removing the dots from formato_entero(n) and reading it back with
      int() yields n again. */
  lemma FormatoEnteroRoundTrip(n: int)
    ensures ParseInt(Without(FormatoEntero(Entero(n)), '.')) == Some(n)
  {
    var d := Digits(Abs(n));
    assert Without(FormatoEntero(Entero(n)), '.') == Sign(n) + d by {
      var g := GroupWith(d, '.');
      MilesIsDotGrouping(n);
      GroupWithUngroups(d, '.');
      WithoutAppend(Sign(n), g, '.');
      WithoutAbsent(Sign(n), '.');
    }
    ParseSignedDigits(n);
  }

  /** int() reads an optional '-' followed by the digits of |n| as n. */
  lemma ParseSignedDigits(n: int)
    ensures ParseInt(Sign(n) + Digits(Abs(n))) == Some(n)
  {
    var d := Digits(Abs(n));
    var t := Sign(n) + d;
    DigitsValue(Abs(n));
    if n < 0 {
      assert t[0] == '-' && t[1..] == d;
    } else {
      assert t == d && IsDigit(t[0]);
    }
  }

  lemma FormatoEnteroExample()
    ensures FormatoEntero(Entero(1234567)) == "1.234.567"
  {
    DigitsExample();
    GroupExample();
    MilesIsDotGrouping(1234567);
    assert Sign(1234567) == "" && Abs(1234567) == 1234567;
    assert Miles(1234567) == "1.234.567";
  }

  lemma DigitsExample()
    ensures Digits(1234) == "1234"
    ensures Digits(1234567) == "1234567"
  {
    assert Digits(1) == "1";
    DigitsSnoc(1, 2);
    assert Digits(12) == "12";
    DigitsSnoc(12, 3);
    assert Digits(123) == "123";
    DigitsSnoc(123, 4);
    assert Digits(1234) == "1234";
    DigitsSnoc(1234, 5);
    assert Digits(12345) == "12345";
    DigitsSnoc(12345, 6);
    assert Digits(123456) == "123456";
    DigitsSnoc(123456, 7);
  }

  lemma GroupExample()
    ensures GroupWith("1234", '.') == "1.234"
    ensures GroupWith("1234567", '.') == "1.234.567"
  {
    assert GroupWith("1", '.') == "1";
    assert GroupWith("1234", '.') == "1.234";
  }

  /** int() on a float truncates toward zero before grouping. */
  lemma FormatoEnteroTruncates()
    ensures FormatoEntero(Centesimas(-123456)) == "-1.234"
  {
    assert TruncateToInt(-123456) == -1234;
    DigitsExample();
    GroupExample();
    MilesIsDotGrouping(-1234);
    assert Sign(-1234) == "-" && Abs(-1234) == 1234;
    assert Miles(-1234) == "-1.234";
  }

  function TwoDigits(m: nat): (r: string)
    requires m < 100
    ensures |r| == 2 && AllDigits(r) && ValueOf(r) == m
  {
    var r := [DigitChar(m / 10), DigitChar(m % 10)];
    assert r[..1] == [DigitChar(m / 10)] && r[..1][..0] == [];
    assert ValueOf(r[..1]) == m / 10;
    r
  }

  /** f"{x:,.2f}" for x = h / 100: comma-grouped integer part, `.`, two decimals. */
  function PyFixed2(h: int): string
  {
    Sign(h) + GroupWith(Digits(Abs(h) / 100), ',') + "." + TwoDigits(Abs(h) % 100)
  }

  /** .replace(",", "X").replace(".", ",").replace("X", ".") */
  function SwapSeparators(s: string): string
  {
    Replace(Replace(Replace(s, ',', 'X'), '.', ','), 'X', '.')
  }

  /** formato_decimal on a value given as a whole number of hundredths. */
  function FormatoDecimal(v: Option<int>): (r: string)
    ensures v.None? ==> r == "0,00"
  {
    match v
    case None => "0,00"
    case Some(h) => SwapSeparators(PyFixed2(h))
  }

  /** The separator swap turns Python's "1,234.50" into "1.234,50": the
      `.`-grouped integer part, a `,`, then exactly two digits, from which
      the value can be read back. */
  lemma FormatoDecimalShape(h: int)
    ensures var g := GroupWith(Digits(Abs(h) / 100), '.');
            var f := TwoDigits(Abs(h) % 100);
            && FormatoDecimal(Some(h)) == Sign(h) + g + "," + f
            && WellGrouped(g, '.')
            && |f| == 2 && AllDigits(f)
            && Without(g, '.') == Digits(Abs(h) / 100)
            && ValueOf(Without(g, '.')) * 100 + ValueOf(f) == Abs(h)
  {
    var d := Digits(Abs(h) / 100);
    SwapParts(h);
    GroupWithShape(d, '.');
    GroupWithUngroups(d, '.');
    DigitsValue(Abs(h) / 100);
  }

  /** The three replacements of formato_decimal, one after the other. */
  lemma SwapParts(h: int)
    ensures FormatoDecimal(Some(h))
         == Sign(h) + GroupWith(Digits(Abs(h) / 100), '.') + "," + TwoDigits(Abs(h) % 100)
  {
    var d := Digits(Abs(h) / 100);
    var f := TwoDigits(Abs(h) % 100);
    var s := Sign(h);
    var s1 := s + GroupWith(d, 'X') + "." + f;
    assert Replace(PyFixed2(h), ',', 'X') == s1 by {
      ReplaceAppend(s + GroupWith(d, ',') + ".", f, ',', 'X');
      ReplaceAppend(s + GroupWith(d, ','), ".", ',', 'X');
      ReplaceAppend(s, GroupWith(d, ','), ',', 'X');
      ReplaceAbsent(s, ',', 'X');
      ReplaceAbsent(".", ',', 'X');
      ReplaceAbsent(f, ',', 'X');
      RegroupWith(d, ',', 'X');
    }
    var s2 := s + GroupWith(d, 'X') + "," + f;
    assert Replace(s1, '.', ',') == s2 by {
      ReplaceAppend(s + GroupWith(d, 'X') + ".", f, '.', ',');
      ReplaceAppend(s + GroupWith(d, 'X'), ".", '.', ',');
      ReplaceAppend(s, GroupWith(d, 'X'), '.', ',');
      ReplaceAbsent(s, '.', ',');
      GroupedChars(d, 'X', '.');
      ReplaceAbsent(GroupWith(d, 'X'), '.', ',');
      ReplaceAbsent(f, '.', ',');
    }
    assert Replace(s2, 'X', '.') == s + GroupWith(d, '.') + "," + f by {
      ReplaceAppend(s + GroupWith(d, 'X') + ",", f, 'X', '.');
      ReplaceAppend(s + GroupWith(d, 'X'), ",", 'X', '.');
      ReplaceAppend(s, GroupWith(d, 'X'), 'X', '.');
      ReplaceAbsent(s, 'X', '.');
      ReplaceAbsent(",", 'X', '.');
      ReplaceAbsent(f, 'X', '.');
      RegroupWith(d, 'X', '.');
    }
  }

  lemma FormatoDecimalExample()
    ensures FormatoDecimal(Some(123450)) == "1.234,50"
  {
    assert Abs(123450) / 100 == 1234 && Abs(123450) % 100 == 50;
    DigitsExample();
    GroupExample();
    assert TwoDigits(50) == "50";
    SwapParts(123450);
    assert Sign(123450) == "";
    assert "" + "1.234" + "," + "50" == "1.234,50";
  }

  lemma FormatoDecimalSmallNegative()
    ensures FormatoDecimal(Some(-5)) == "-0,05"
  {
    SwapParts(-5);
    assert Sign(-5) == "-" && Abs(-5) / 100 == 0 && Abs(-5) % 100 == 5;
    assert Digits(0) == "0";
    assert GroupWith("0", '.') == "0";
    assert TwoDigits(5) == "05";
  }
}
