/** `format_number` of the baking page on the non-negative whole numbers it is given: the
    number written with no decimals and with a comma between every three digits from the
    right, after which every comma is turned into a dot. */
module Formatting {
  import opened Records

  predicate IsDigit(c: char) { '0' <= c <= '9' }

  predicate AllDigits(s: string) { forall i :: 0 <= i < |s| ==> IsDigit(s[i]) }

  function DigitChar(d: nat): (c: char)
    requires d < 10
    ensures IsDigit(c) && (c == '0' <==> d == 0)
  {
    "0123456789"[d]
  }

  function DigitValue(c: char): (d: nat)
    requires IsDigit(c)
    ensures d < 10
  {
    (c as int - '0' as int) as nat
  }

  /** The plain decimal rendering of `n`, as Python's `str(n)` gives it. */
  function Decimal(n: nat): (s: string)
    ensures |s| >= 1 && AllDigits(s)
    ensures s[0] != '0' || n == 0
    ensures n == 0 ==> s == "0"
  {
    if n < 10 then [DigitChar(n)] else Decimal(n / 10) + [DigitChar(n % 10)]
  }

  /** Reading a string of digits back as a number (`int(s)`). */
  function ParseDecimal(s: string): (n: nat)
    requires AllDigits(s)
  {
    if s == [] then 0 else ParseDecimal(s[..|s| - 1]) * 10 + DigitValue(s[|s| - 1])
  }

  lemma DigitRoundTrip(d: nat)
    requires d < 10
    ensures DigitValue(DigitChar(d)) == d
  {
  }

  /** Parsing the decimal rendering of `n` gives `n` back. */
  lemma {:induction false} DecimalRoundTrip(n: nat)
    ensures ParseDecimal(Decimal(n)) == n
  {
    var s := Decimal(n);
    if n < 10 {
      DigitRoundTrip(n);
    } else {
      DecimalRoundTrip(n / 10);
      assert s[..|s| - 1] == Decimal(n / 10);
      DigitRoundTrip(n % 10);
    }
  }

  /** The `,` option of a format specification: `sep` between every three digits,
      counted from the right. */
  function GroupThousands(s: string, sep: char): (grouped: string)
  {
    if |s| <= 3 then s else GroupThousands(s[..|s| - 3], sep) + [sep] + s[|s| - 3..]
  }

  /** `str.replace(from, to)` for one-character strings. */
  function ReplaceChar(s: string, from: char, to: char): (replaced: string)
  {
    seq(|s|, i requires 0 <= i < |s| => if s[i] == from then to else s[i])
  }

  /** `format_number(n)` for a whole number `n >= 0`. */
  function FormatNumber(n: nat): (shown: string)
  {
    ReplaceChar(GroupThousands(Decimal(n), ','), ',', '.')
  }

  /** `s` with every `c` removed. */
  function RemoveChar(s: string, c: char): (removed: string)
  {
    if s == [] then [] else (if s[0] == c then [] else [s[0]]) + RemoveChar(s[1..], c)
  }

  /** `s.split(c)`: the pieces between the occurrences of `c`; there is always at least one. */
  function Split(s: string, c: char): (parts: seq<string>)
    ensures |parts| >= 1
  {
    if s == [] then [[]]
    else
      var rest := Split(s[1..], c);
      if s[0] == c then [[]] + rest else [[s[0]] + rest[0]] + rest[1..]
  }

  /** Splitting a string piece by piece gives the pieces of each part, in order. */
  lemma {:induction false} SplitConcat(a: string, b: string, c: char)
    ensures Split(a + [c] + b, c) == Split(a, c) + Split(b, c)
  {
    if a == [] {
      assert a + [c] + b == [c] + b;
      SplitCons(c, b, c);
    } else {
      SplitConcat(a[1..], b, c);
      SplitConcatCons(a[0], a[1..], b, c);
      assert a == [a[0]] + a[1..];
    }
  }

  lemma SplitConcatCons(h: char, t: string, b: string, c: char)
    requires Split(t + [c] + b, c) == Split(t, c) + Split(b, c)
    ensures Split([h] + t + [c] + b, c) == Split([h] + t, c) + Split(b, c)
  {
    assert [h] + t + [c] + b == [h] + (t + [c] + b);
    SplitCons(h, t + [c] + b, c);
    SplitCons(h, t, c);
    if h == c {
      AppendAssoc([[]], Split(t, c), Split(b, c));
    } else {
      PrependToFirst(h, Split(t, c), Split(b, c), c);
    }
  }

  lemma AppendAssoc<T>(p: seq<T>, q: seq<T>, r: seq<T>)
    ensures p + (q + r) == (p + q) + r
  {
  }

  lemma SplitCons(h: char, t: string, c: char)
    ensures Split([h] + t, c)
         == if h == c then [[]] + Split(t, c) else [[h] + Split(t, c)[0]] + Split(t, c)[1..]
  {
    assert ([h] + t)[1..] == t;
  }

  lemma PrependToFirst(h: char, p: seq<string>, q: seq<string>, c: char)
    requires |p| >= 1
    ensures [[h] + (p + q)[0]] + (p + q)[1..] == ([[h] + p[0]] + p[1..]) + q
  {
  }

  lemma {:induction false} SplitWithout(s: string, c: char)
    requires c !in s
    ensures Split(s, c) == [s]
  {
    if s != [] {
      SplitWithout(s[1..], c);
      assert [s[0]] + s[1..] == s;
    }
  }

  lemma ReplaceConcat(a: string, b: string, from: char, to: char)
    ensures ReplaceChar(a + b, from, to) == ReplaceChar(a, from, to) + ReplaceChar(b, from, to)
  {
  }

  lemma {:induction false} RemoveConcat(a: string, b: string, c: char)
    ensures RemoveChar(a + b, c) == RemoveChar(a, c) + RemoveChar(b, c)
  {
    if a == [] {
      assert a + b == b;
    } else {
      var h, t := a[0], a[1..];
      RemoveConcat(t, b, c);
      assert a + b == [h] + (t + b);
      assert a == [h] + t;
      RemoveCons(h, t + b, c);
      RemoveCons(h, t, c);
      var x := if h == c then [] else [h];
      assert x + (RemoveChar(t, c) + RemoveChar(b, c)) == (x + RemoveChar(t, c)) + RemoveChar(b, c);
    }
  }

  lemma RemoveCons(h: char, t: string, c: char)
    ensures RemoveChar([h] + t, c) == (if h == c then [] else [h]) + RemoveChar(t, c)
  {
    assert ([h] + t)[1..] == t;
  }

  lemma {:induction false} RemoveAbsent(s: string, c: char)
    requires c !in s
    ensures RemoveChar(s, c) == s
  {
    if s != [] {
      RemoveAbsent(s[1..], c);
      assert [s[0]] + s[1..] == s;
    }
  }

  lemma ReplaceAbsent(s: string, from: char, to: char)
    requires from !in s
    ensures ReplaceChar(s, from, to) == s
  {
  }

  /** Grouping with `,` and then replacing `,` by `.` is grouping with `.` directly. */
  lemma {:induction false} ReplaceSeparator(s: string)
    requires ',' !in s
    ensures ReplaceChar(GroupThousands(s, ','), ',', '.') == GroupThousands(s, '.')
    decreases |s|
  {
    if |s| <= 3 {
      ReplaceAbsent(s, ',', '.');
    } else {
      var head, tail := s[..|s| - 3], s[|s| - 3..];
      assert forall i :: 0 <= i < |head| ==> head[i] == s[i];
      ReplaceSeparator(head);
      ReplaceConcat(GroupThousands(head, ',') + [','], tail, ',', '.');
      ReplaceConcat(GroupThousands(head, ','), [','], ',', '.');
      ReplaceAbsent(tail, ',', '.');
    }
  }

  /** Removing the separators from a grouped digit string gives the digits back. */
  lemma {:induction false} UngroupThousands(s: string, sep: char)
    requires sep !in s
    ensures RemoveChar(GroupThousands(s, sep), sep) == s
    decreases |s|
  {
    if |s| <= 3 {
      RemoveAbsent(s, sep);
    } else {
      var head, tail := s[..|s| - 3], s[|s| - 3..];
      GroupStep(s, sep);
      AbsentFromParts(s, sep, |s| - 3);
      UngroupThousands(head, sep);
      RemoveConcat(GroupThousands(head, sep), [sep] + tail, sep);
      RemoveCons(sep, tail, sep);
      RemoveAbsent(tail, sep);
    }
  }

  /** One grouping step, with the three last digits split off. */
  lemma GroupStep(s: string, sep: char)
    requires |s| > 3
    ensures GroupThousands(s, sep) == GroupThousands(s[..|s| - 3], sep) + ([sep] + s[|s| - 3..])
    ensures s[..|s| - 3] + s[|s| - 3..] == s
  {
    var head, tail := s[..|s| - 3], s[|s| - 3..];
    assert head + tail == s by {
      assert forall i :: 0 <= i < |s| ==> (head + tail)[i] == s[i];
    }
    assert GroupThousands(s, sep) == GroupThousands(head, sep) + [sep] + tail;
    AppendAssoc(GroupThousands(head, sep), [sep], tail);
  }


  lemma AbsentFromParts(s: string, c: char, k: nat)
    requires c !in s && k <= |s|
    ensures c !in s[..k] && c !in s[k..]
  {
    assert forall i :: 0 <= i < k ==> s[..k][i] == s[i];
    assert forall i :: 0 <= i < |s| - k ==> s[k..][i] == s[k + i];
  }

  /** The groups of a grouped digit string: the first holds 1 to 3 digits and begins with the
      first digit of `s`, every later one holds exactly 3. */
  lemma {:induction false} GroupShape(s: string, sep: char)
    requires 1 <= |s| && AllDigits(s) && !IsDigit(sep)
    ensures var g := Split(GroupThousands(s, sep), sep);
      && 1 <= |g[0]| <= 3
      && g[0][0] == s[0]
      && (forall i :: 1 <= i < |g| ==> |g[i]| == 3)
      && (forall i :: 0 <= i < |g| ==> AllDigits(g[i]))
    decreases |s|
  {
    if |s| <= 3 {
      assert sep !in s;
      SplitWithout(s, sep);
    } else {
      var head, tail := s[..|s| - 3], s[|s| - 3..];
      assert AllDigits(head) && AllDigits(tail);
      assert sep !in tail;
      GroupShape(head, sep);
      SplitConcat(GroupThousands(head, sep), tail, sep);
      SplitWithout(tail, sep);
    }
  }

  /** What `format_number` produces: dot-separated groups of digits, the first of 1 to 3
      digits without a leading zero (unless `n == 0`), every later one of exactly 3; with
      the dots removed it is the decimal rendering of `n`, which parses back to `n`. */
  lemma FormatNumberShape(n: nat)
    ensures var g := Split(FormatNumber(n), '.');
      && 1 <= |g[0]| <= 3
      && (g[0][0] != '0' || n == 0)
      && (forall i :: 1 <= i < |g| ==> |g[i]| == 3)
      && (forall i :: 0 <= i < |g| ==> AllDigits(g[i]))
    ensures RemoveChar(FormatNumber(n), '.') == Decimal(n)
    ensures ParseDecimal(RemoveChar(FormatNumber(n), '.')) == n
  {
    var s := Decimal(n);
    assert ',' !in s && '.' !in s;
    ReplaceSeparator(s);
    GroupShape(s, '.');
    UngroupThousands(s, '.');
    DecimalRoundTrip(n);
  }

  /** The page's target, as it is displayed. */
  lemma TargetDisplay()
    ensures FormatNumber(TargetBaking) == "25.000"
  {
    assert Decimal(25000) == "25000";
    ReplaceSeparator("25000");
    assert GroupThousands("25000", '.') == "25.000";
  }
}
