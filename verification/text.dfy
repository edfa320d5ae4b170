/** The Python string built-ins the naming scheme relies on: `str(n)` for
    integers, `int(s)` on a string, `s.split(sep)` and the `<=` order on
    strings. Non-ASCII digits and non-ASCII white space, which Python's
    `int()` also accepts, are not modelled. */
module Text {
  import opened Wrappers

  predicate IsDigit(c: char)
  {
    '0' <= c <= '9'
  }

  predicate AllDigits(s: string)
  {
    forall i :: 0 <= i < |s| ==> IsDigit(s[i])
  }

  function DigitChar(d: nat): (c: char)
    requires d < 10
    ensures IsDigit(c)
  {
    ('0' as int + d) as char
  }

  function DigitValue(c: char): (d: nat)
    requires IsDigit(c)
    ensures d < 10
  {
    c as int - '0' as int
  }

  function Pow10(n: nat): (r: nat)
    ensures r >= 1
  {
    if n == 0 then 1 else 10 * Pow10(n - 1)
  }

  /** Python's `str(n)` for a non-negative integer: decimal, no leading zero. */
  function Dec(n: nat): (s: string)
    ensures 1 <= |s| && AllDigits(s)
    ensures n < 10 <==> |s| == 1
  {
    if n < 10 then [DigitChar(n)] else Dec(n / 10) + [DigitChar(n % 10)]
  }

  /** The value of a string of decimal digits. */
  function DecValue(s: string): nat
    requires AllDigits(s)
  {
    if |s| == 0 then 0 else 10 * DecValue(s[..|s| - 1]) + DigitValue(s[|s| - 1])
  }

  /** Python's `str(i)` for any integer. */
  function Str(i: int): (s: string)
    ensures i >= 0 ==> s == Dec(i)
    ensures i < 0 ==> |s| >= 2 && s[0] == '-' && AllDigits(s[1..])
  {
    if i < 0 then "-" + Dec(-i) else Dec(i)
  }

  lemma {:induction false} DecRoundTrip(n: nat)
    ensures DecValue(Dec(n)) == n
  {
    if n >= 10 {
      DecRoundTrip(n / 10);
      assert Dec(n)[..|Dec(n)| - 1] == Dec(n / 10);
    }
  }

  /** `str` is injective on natural numbers. */
  lemma DecInjective(a: nat, b: nat)
    requires Dec(a) == Dec(b)
    ensures a == b
  {
    DecRoundTrip(a);
    DecRoundTrip(b);
  }

  lemma DigitDec(d: nat)
    requires d < 10
    ensures Dec(d) == [DigitChar(d)]
  {
  }

  lemma DigitCharInjective(a: nat, b: nat)
    requires a < 10 && b < 10 && DigitChar(a) == DigitChar(b)
    ensures a == b
  {
  }

  /** Two decimals followed by equally long tails are equal only when both
      parts are. */
  lemma DecPrefix(a: nat, b: nat, s: string, t: string)
    requires Dec(a) + s == Dec(b) + t && |s| == |t|
    ensures a == b && s == t
  {
    var u, w := Dec(a) + s, Dec(b) + t;
    assert Dec(a) == u[..|Dec(a)|];
    assert Dec(b) == w[..|Dec(b)|];
    DecInjective(a, b);
    assert s == u[|Dec(a)|..];
  }

  lemma {:induction false} DecValueAppend(a: string, b: string)
    requires AllDigits(a) && AllDigits(b)
    ensures AllDigits(a + b)
    ensures DecValue(a + b) == DecValue(a) * Pow10(|b|) + DecValue(b)
    decreases |b|
  {
    if |b| == 0 {
      assert a + b == a;
    } else {
      var b' := b[..|b| - 1];
      assert (a + b)[..|a + b| - 1] == a + b';
      DecValueAppend(a, b');
      var x, p, y, d := DecValue(a), Pow10(|b'|), DecValue(b'), DigitValue(b[|b| - 1]);
      assert b[..|b| - 1] == b';
      assert DecValue(a + b) == 10 * DecValue(a + b') + d;
      assert DecValue(b) == 10 * y + d;
      Distribute(x, p, y, d);
    }
  }

  /** The number whose decimal is `str(a) + str(b)`. */
  function Glue(a: nat, b: nat): nat
  {
    a * Pow10(|Dec(b)|) + b
  }

  /** Reading back the concatenated decimals of a and b gives `Glue(a, b)`. */
  lemma GlueDec(a: nat, b: nat)
    ensures AllDigits(Dec(a) + Dec(b))
    ensures DecValue(Dec(a) + Dec(b)) == Glue(a, b)
  {
    DecValueAppend(Dec(a), Dec(b));
    DecRoundTrip(a);
    DecRoundTrip(b);
  }

  lemma GlueDec3(a: nat, b: nat, c: nat)
    ensures AllDigits(Dec(a) + Dec(b) + Dec(c))
    ensures DecValue(Dec(a) + Dec(b) + Dec(c)) == Glue(Glue(a, b), c)
  {
    GlueDec(a, b);
    DecValueAppend(Dec(a) + Dec(b), Dec(c));
    DecRoundTrip(c);
  }

  /** With a one-digit tail, gluing is `10 * a + b`; with a two-digit tail, `100 * a + b`. */
  lemma GlueSmall(a: nat, b: nat)
    ensures b < 10 ==> Glue(a, b) == 10 * a + b
    ensures 10 <= b < 100 ==> Glue(a, b) == 100 * a + b
  {
    if 10 <= b < 100 {
      assert |Dec(b)| == 2 by {
        assert Dec(b) == Dec(b / 10) + [DigitChar(b % 10)];
      }
    }
  }

  lemma Distribute(x: int, p: int, y: int, d: int)
    ensures 10 * (x * p + y) + d == x * (10 * p) + (10 * y + d)
  {
  }

  // ---------------------------------------------------------------- int()

  /** The ASCII white space Python's `int()` strips: space, tab, line feed,
      vertical tab, form feed and carriage return. The separators 0x1C-0x1F,
      which `str.strip()` removes, are not white space to `int()`. */
  predicate IsSpace(c: char)
  {
    c == ' ' || 9 <= c as int <= 13
  }

  function StripLeft(s: string): (t: string)
    ensures |t| <= |s| && t == s[|s| - |t|..]
    ensures |t| > 0 ==> !IsSpace(t[0])
  {
    if |s| > 0 && IsSpace(s[0]) then StripLeft(s[1..]) else s
  }

  function StripRight(s: string): (t: string)
    ensures |t| <= |s| && t == s[..|t|]
    ensures |t| > 0 ==> !IsSpace(t[|t| - 1])
  {
    if |s| > 0 && IsSpace(s[|s| - 1]) then StripRight(s[..|s| - 1]) else s
  }

  function Strip(s: string): string
  {
    StripRight(StripLeft(s))
  }

  /** Digits with single underscores between them, as Python's `int()` allows. */
  predicate ValidDigits(s: string)
  {
    && |s| >= 1
    && IsDigit(s[0])
    && IsDigit(s[|s| - 1])
    && (forall i :: 0 <= i < |s| ==> IsDigit(s[i]) || s[i] == '_')
    && (forall i :: 0 <= i < |s| - 1 && s[i] == '_' ==> IsDigit(s[i + 1]))
  }

  function DropUnderscores(s: string): (t: string)
    requires forall i :: 0 <= i < |s| ==> IsDigit(s[i]) || s[i] == '_'
    ensures AllDigits(t)
    ensures AllDigits(s) ==> t == s
  {
    if |s| == 0 then []
    else DropUnderscores(s[..|s| - 1]) + (if s[|s| - 1] == '_' then [] else [s[|s| - 1]])
  }

  /** Python's `int(s)` on a string: `None` exactly where it raises ValueError. */
  function PyInt(s: string): Option<int>
  {
    var t := Strip(s);
    if |t| > 0 && (t[0] == '-' || t[0] == '+') then
      if ValidDigits(t[1..]) then
        var v: int := DecValue(DropUnderscores(t[1..]));
        Some(if t[0] == '-' then -v else v)
      else None
    else if ValidDigits(t) then Some(DecValue(DropUnderscores(t)))
    else None
  }

  lemma StripNoSpaceEnds(s: string)
    requires |s| > 0 && !IsSpace(s[0]) && !IsSpace(s[|s| - 1])
    ensures Strip(s) == s
  {
  }

  /** A plain digit string reads back as its decimal value. */
  lemma PyIntDigits(s: string)
    requires |s| > 0 && AllDigits(s)
    ensures PyInt(s) == Some(DecValue(s) as int)
  {
    StripNoSpaceEnds(s);
  }

  /** `int(str(n)) == n` for every natural number. */
  lemma PyIntDec(n: nat)
    ensures PyInt(Dec(n)) == Some(n as int)
  {
    PyIntDigits(Dec(n));
    DecRoundTrip(n);
  }

  /** A minus sign after the first character makes `int()` raise. */
  lemma PyIntInnerMinus(s: string, i: nat)
    requires 0 < i < |s| && s[i] == '-'
    requires IsDigit(s[0]) && IsDigit(s[|s| - 1])
    ensures PyInt(s) == None
  {
    StripNoSpaceEnds(s);
  }

  /** A file, group, record or unit separator (0x1C-0x1F) is not white
      space to `int()`: a string that starts with one makes it raise. */
  lemma PyIntLeadingSeparator(s: string)
    requires |s| > 0 && 28 <= s[0] as int <= 31
    ensures PyInt(s) == None
  {
    assert !IsSpace(s[0]);
    assert StripLeft(s) == s;
    var t := Strip(s);
    if |t| > 0 {
      assert t[0] == s[0];
      assert !IsDigit(t[0]);
    }
  }

  // ---------------------------------------------------------------- split()

  /** Python's `s.split(sep)` for a one-character separator. */
  function Split(s: string, sep: char): (parts: seq<string>)
    ensures |parts| >= 1
    ensures forall i :: 0 <= i < |parts| ==> sep !in parts[i]
  {
    if |s| == 0 then [""]
    else
      var rest := Split(s[1..], sep);
      if s[0] == sep then [""] + rest else [[s[0]] + rest[0]] + rest[1..]
  }

  /** Python's `sep.join(parts)`. */
  function Join(parts: seq<string>, sep: char): string
    requires |parts| >= 1
  {
    if |parts| == 1 then parts[0] else parts[0] + [sep] + Join(parts[1..], sep)
  }

  /** Joining the pieces of a split gives back the string. */
  lemma {:induction false} JoinSplit(s: string, sep: char)
    ensures Join(Split(s, sep), sep) == s
  {
    if |s| > 0 {
      var rest := Split(s[1..], sep);
      JoinSplit(s[1..], sep);
      if s[0] == sep {
        assert ([""] + rest)[1..] == rest;
      } else {
        var parts := [[s[0]] + rest[0]] + rest[1..];
        if |rest| == 1 {
          assert parts == [[s[0]] + rest[0]];
        } else {
          assert parts[1..] == rest[1..];
          assert Join(rest, sep) == rest[0] + [sep] + Join(rest[1..], sep);
        }
      }
    }
  }

  lemma {:induction false} SplitPrefix(w: string, s: string, sep: char)
    requires sep !in w
    ensures Split(w + s, sep) == [w + Split(s, sep)[0]] + Split(s, sep)[1..]
    decreases |w|
  {
    if |w| > 0 {
      assert (w + s)[1..] == w[1..] + s;
      SplitPrefix(w[1..], s, sep);
      assert [w[0]] + (w[1..] + Split(s, sep)[0]) == w + Split(s, sep)[0];
    } else {
      assert w + s == s;
      assert w + Split(s, sep)[0] == Split(s, sep)[0];
      assert Split(s, sep) == [Split(s, sep)[0]] + Split(s, sep)[1..];
    }
  }

  /** Splitting a join of separator-free pieces gives back the pieces. */
  lemma {:induction false} SplitJoin(parts: seq<string>, sep: char)
    requires |parts| >= 1
    requires forall i :: 0 <= i < |parts| ==> sep !in parts[i]
    ensures Split(Join(parts, sep), sep) == parts
  {
    if |parts| == 1 {
      SplitPrefix(parts[0], "", sep);
      assert parts[0] + "" == parts[0];
    } else {
      var tail := Join(parts[1..], sep);
      SplitJoin(parts[1..], sep);
      SplitPrefix(parts[0], [sep] + tail, sep);
      assert parts[0] + [sep] + tail == parts[0] + ([sep] + tail);
      assert ([sep] + tail)[1..] == tail;
      assert Split([sep] + tail, sep) == [""] + parts[1..];
      assert parts[0] + "" == parts[0];
    }
  }

  // ---------------------------------------------------------------- ordering

  /** Python's `a <= b` on strings: lexicographic by code point. */
  predicate StrLe(a: string, b: string)
  {
    |a| == 0 || (|b| > 0 && (a[0] < b[0] || (a[0] == b[0] && StrLe(a[1..], b[1..]))))
  }

  lemma {:induction false} StrLeTotal(a: string, b: string)
    ensures StrLe(a, b) || StrLe(b, a)
  {
    if |a| > 0 && |b| > 0 && a[0] == b[0] {
      StrLeTotal(a[1..], b[1..]);
    }
  }

  lemma {:induction false} StrLeAntisymmetric(a: string, b: string)
    requires StrLe(a, b) && StrLe(b, a)
    ensures a == b
  {
    if |a| > 0 && |b| > 0 {
      StrLeAntisymmetric(a[1..], b[1..]);
      assert a == [a[0]] + a[1..] && b == [b[0]] + b[1..];
    }
  }

  /** `tuple(sorted([a, b]))` */
  function SortedPair(a: string, b: string): (string, string)
  {
    if StrLe(a, b) then (a, b) else (b, a)
  }

  /** The sorted pair forgets exactly the order of its two strings. */
  lemma SortedPairUnordered(a: string, b: string, c: string, d: string)
    ensures SortedPair(a, b) == SortedPair(c, d) <==> (a == c && b == d) || (a == d && b == c)
  {
    StrLeTotal(a, b);
    StrLeTotal(c, d);
    if StrLe(a, b) && StrLe(b, a) {
      StrLeAntisymmetric(a, b);
    }
    if StrLe(c, d) && StrLe(d, c) {
      StrLeAntisymmetric(c, d);
    }
  }
}
