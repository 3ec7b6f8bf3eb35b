/** Character-level helpers shared by the bot's formatting rules: Python's
    `str.startswith`, slicing `s[:n]` / `s[n:]`, splitting on a separator, and
    decimal rendering and reading of natural numbers (`f"{n:04d}"`, `%d`, `%Y`). */
module Text {

  predicate IsDigit(c: char) {
    '0' <= c <= '9'
  }

  predicate AllDigits(s: string) {
    forall i :: 0 <= i < |s| ==> IsDigit(s[i])
  }

  function DigitChar(d: nat): (c: char)
    requires d < 10
    ensures IsDigit(c)
  {
    (48 + d) as char
  }

  function DigitValue(c: char): (d: nat)
    requires IsDigit(c)
    ensures d < 10 && DigitChar(d) == c
  {
    (c as int - 48) as nat
  }

  /** The number a string of decimal digits denotes (leading zeros allowed). */
  function Value(s: string): nat
    requires AllDigits(s)
  {
    if s == [] then 0 else Value(s[..|s| - 1]) * 10 + DigitValue(s[|s| - 1])
  }

  /** `n` in decimal, left-padded with '0' to at least `width` characters:
      Python's `f"{n:0{width}d}"` for a non-negative `n`. */
  function Decimal(n: nat, width: nat): (r: string)
    decreases n + width
  {
    if n < 10 && width <= 1 then [DigitChar(n)]
    else Decimal(n / 10, if width == 0 then 0 else width - 1) + [DigitChar(n % 10)]
  }

  /** What `Decimal` promises: only digits, at least `width` of them (and at
      least one), denoting `n`, and no leading zero beyond the padding. These
      four facts determine the string. */
  lemma DecimalDenotes(n: nat, width: nat)
    ensures AllDigits(Decimal(n, width))
    ensures |Decimal(n, width)| >= width && |Decimal(n, width)| >= 1
    ensures Value(Decimal(n, width)) == n
    ensures |Decimal(n, width)| > width && |Decimal(n, width)| > 1 ==> Decimal(n, width)[0] != '0'
  {
    DecimalShape(n, width);
    DecimalValue(n, width);
    DecimalNoLeadingZero(n, width);
  }

  lemma {:induction false} DecimalShape(n: nat, width: nat)
    ensures AllDigits(Decimal(n, width))
    ensures |Decimal(n, width)| >= width && |Decimal(n, width)| >= 1
    decreases n + width
  {
    if !(n < 10 && width <= 1) {
      DecimalShape(n / 10, if width == 0 then 0 else width - 1);
    }
  }

  lemma {:induction false} DecimalValue(n: nat, width: nat)
    ensures AllDigits(Decimal(n, width))
    ensures Value(Decimal(n, width)) == n
    decreases n + width
  {
    DecimalShape(n, width);
    var r := Decimal(n, width);
    if n < 10 && width <= 1 {
      assert r[..0] == [];
    } else {
      var head := Decimal(n / 10, if width == 0 then 0 else width - 1);
      DecimalValue(n / 10, if width == 0 then 0 else width - 1);
      assert r[..|r| - 1] == head;
    }
  }

  lemma {:induction false} DecimalNoLeadingZero(n: nat, width: nat)
    ensures |Decimal(n, width)| > width && |Decimal(n, width)| > 1 ==> Decimal(n, width)[0] != '0'
    decreases n + width
  {
    if !(n < 10 && width <= 1) {
      var w' := if width == 0 then 0 else width - 1;
      var head := Decimal(n / 10, w');
      DecimalShape(n / 10, w');
      DecimalNoLeadingZero(n / 10, w');
      if n / 10 < 10 && w' <= 1 {
        // the head is the single digit n / 10
        assert head == [DigitChar(n / 10)];
      } else {
        DecimalShape(n / 10 / 10, if w' == 0 then 0 else w' - 1);
      }
    }
  }

  /** With enough width the rendering has exactly `width` characters. */
  lemma {:induction false} DecimalExactWidth(n: nat, width: nat)
    requires 1 <= width && n < Pow10(width)
    ensures |Decimal(n, width)| == width
    decreases width
  {
    if !(n < 10 && width <= 1) {
      assert width >= 2;
      assert n / 10 < Pow10(width - 1);
      DecimalExactWidth(n / 10, width - 1);
    }
  }

  function Pow10(k: nat): (p: nat)
    ensures p >= 1
  {
    if k == 0 then 1 else 10 * Pow10(k - 1)
  }

  /** Python's `s.startswith(prefix)`. */
  predicate StartsWith(s: string, prefix: string) {
    |prefix| <= |s| && s[..|prefix|] == prefix
  }

  /** Python's `s[:n]` for `n >= 0`. */
  function Take(s: string, n: nat): (r: string)
    ensures |r| == if |s| < n then |s| else n
    ensures StartsWith(s, r)
  {
    if |s| <= n then s else s[..n]
  }

  /** Python's `s[n:]` for `n >= 0`. */
  function Drop(s: string, n: nat): (r: string)
    ensures |s| <= n ==> r == []
    ensures n <= |s| ==> Take(s, n) + r == s
  {
    if |s| <= n then [] else s[n..]
  }

  /** The pieces of `s` between occurrences of `sep`, in order (Python's `s.split(sep)`). */
  function Split(s: string, sep: char): (parts: seq<string>)
    ensures |parts| >= 1
    ensures forall k :: 0 <= k < |parts| ==> sep !in parts[k]
  {
    if s == [] then [[]]
    else
      var rest := Split(s[1..], sep);
      if s[0] == sep then [[]] + rest
      else [[s[0]] + rest[0]] + rest[1..]
  }

  /** Splitting a piece free of `sep` followed by `sep` and more text. */
  lemma {:induction false} SplitAfterPiece(a: string, sep: char, b: string)
    requires sep !in a
    ensures Split(a + [sep] + b, sep) == [a] + Split(b, sep)
  {
    if a == [] {
      assert a + [sep] + b == [sep] + b;
      assert ([sep] + b)[1..] == b;
    } else {
      SplitAfterPiece(a[1..], sep, b);
      assert (a + [sep] + b)[1..] == a[1..] + [sep] + b;
      assert [a[0]] + a[1..] == a;
    }
  }

  /** A string free of `sep` splits into itself. */
  lemma {:induction false} SplitWhole(a: string, sep: char)
    requires sep !in a
    ensures Split(a, sep) == [a]
  {
    if a != [] {
      SplitWhole(a[1..], sep);
      assert [a[0]] + a[1..] == a;
    }
  }
  /** The pieces put back together with `sep` between them (Python's `sep.join(parts)`). */
  function Join(parts: seq<string>, sep: char): string
    requires |parts| >= 1
  {
    if |parts| == 1 then parts[0] else parts[0] + [sep] + Join(parts[1..], sep)
  }

  /** Splitting loses nothing: joining the pieces gives the string back. */
  lemma {:induction false} SplitJoin(s: string, sep: char)
    ensures Join(Split(s, sep), sep) == s
  {
    if s != [] {
      var rest := Split(s[1..], sep);
      SplitJoin(s[1..], sep);
      if s[0] == sep {
        assert ([[]] + rest)[1..] == rest;
      } else if |rest| > 1 {
        assert ([[s[0]] + rest[0]] + rest[1..])[1..] == rest[1..];
      }
      assert [s[0]] + s[1..] == s;
    }
  }

  /** A string that splits into three pieces is those pieces joined by `sep`. */
  lemma SplitThree(s: string, sep: char)
    requires |Split(s, sep)| == 3
    ensures var p := Split(s, sep); s == p[0] + [sep] + p[1] + [sep] + p[2]
  {
    var p := Split(s, sep);
    SplitJoin(s, sep);
    assert Join(p[1..], sep) == p[1] + [sep] + p[2] by {
      assert p[1..][1..] == [p[2]];
    }
    assert Join(p, sep) == p[0] + [sep] + (p[1] + [sep] + p[2]);
  }
}
