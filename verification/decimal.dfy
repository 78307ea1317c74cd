/** Base-10 text of integers: Python's `str(n)` for ints, `int(text)` for
    base-10 text, the zero-padded fields `%02d`/`%04d` of date formats, and
    Python's lexicographic ordering of strings. */
module Decimal {
  import opened Base

  predicate IsDigit(c: char)
  {
    '0' <= c <= '9'
  }

  predicate AllDigits(s: string)
  {
    forall i | 0 <= i < |s| :: IsDigit(s[i])
  }

  function DigitChar(d: int): (c: char)
    requires 0 <= d < 10
    ensures IsDigit(c)
  {
    (48 + d) as char
  }

  function DigitValue(c: char): (d: int)
    requires IsDigit(c)
    ensures 0 <= d < 10
  {
    c as int - 48
  }

  function Pow10(n: nat): (p: nat)
    ensures p >= 1
  {
    if n == 0 then 1 else 10 * Pow10(n - 1)
  }

  /** Value of a digit string, most significant digit first. */
  function DigitsValue(s: string): nat
    requires AllDigits(s)
  {
    if |s| == 0 then 0 else DigitValue(s[0]) * Pow10(|s| - 1) + DigitsValue(s[1..])
  }

  lemma MulLe(a: int, b: int, c: nat)
    requires a <= b
    ensures a * c <= b * c
  {
  }

  lemma {:induction false} DigitsValueBound(s: string)
    requires AllDigits(s)
    ensures DigitsValue(s) < Pow10(|s|)
    ensures |s| > 0 && s[0] != '0' ==> DigitsValue(s) >= Pow10(|s| - 1)
    decreases |s|
  {
    if |s| > 0 {
      var p := Pow10(|s| - 1);
      DigitsValueBound(s[1..]);
      MulLe(DigitValue(s[0]), 9, p);
      assert DigitsValue(s) < 10 * p;
      if s[0] != '0' {
        MulLe(1, DigitValue(s[0]), p);
      }
    }
  }

  lemma ShiftDistributes(d: int, p: int, v: int)
    ensures d * (10 * p) + v * 10 == (d * p + v) * 10
  {
  }

  /** Appending a digit shifts the value one place and adds it. */
  lemma {:induction false} DigitsValueSnoc(s: string, c: char)
    requires AllDigits(s) && IsDigit(c)
    ensures AllDigits(s + [c])
    ensures DigitsValue(s + [c]) == DigitsValue(s) * 10 + DigitValue(c)
    decreases |s|
  {
    if |s| > 0 {
      assert (s + [c])[1..] == s[1..] + [c];
      DigitsValueSnoc(s[1..], c);
      var d, p, v := DigitValue(s[0]), Pow10(|s| - 1), DigitsValue(s[1..]);
      assert Pow10(|s|) == 10 * p;
      assert DigitsValue(s + [c]) == d * (10 * p) + (v * 10 + DigitValue(c));
      ShiftDistributes(d, p, v);
    } else {
      assert s + [c] == [c];
    }
  }

  /** `str(n)` for a non-negative int: digits without leading zeros. */
  function NatToString(n: nat): (s: string)
    ensures |s| > 0 && AllDigits(s)
    ensures |s| > 1 ==> s[0] != '0'
    ensures DigitsValue(s) == n
  {
    if n < 10 then [DigitChar(n)]
    else
      var init := NatToString(n / 10);
      DigitsValueSnoc(init, DigitChar(n % 10));
      init + [DigitChar(n % 10)]
  }

  /** `str(i)` for any int. */
  function IntToString(i: int): (s: string)
    ensures |s| > 0
    ensures i >= 0 ==> s == NatToString(i)
    ensures i < 0 ==> s == "-" + NatToString(-i)
  {
    if i < 0 then "-" + NatToString(-i) else NatToString(i)
  }

  /** `"%0{width}d" % n`: left-padded with zeros up to `width`, never cut. */
  function Pad(n: nat, width: nat): (s: string)
    ensures AllDigits(s)
    ensures |s| == if |NatToString(n)| >= width then |NatToString(n)| else width
    ensures DigitsValue(s) == n
    decreases width
  {
    var digits := NatToString(n);
    if |digits| >= width then digits
    else
      var rest := Pad(n, width - 1);
      assert DigitsValue(['0'] + rest) == DigitsValue(rest) by {
        assert (['0'] + rest)[1..] == rest;
      }
      ['0'] + rest
  }

  /** A number below 10^width pads to exactly `width` digits. */
  lemma PadExactWidth(n: nat, width: nat)
    requires 0 < width && n < Pow10(width)
    ensures |Pad(n, width)| == width
  {
    var s := NatToString(n);
    if |s| > width {
      DigitsValueBound(s);
      Pow10Mono(width, |s| - 1);
      assert false;
    }
  }

  lemma {:induction false} Pow10Mono(a: nat, b: nat)
    requires a <= b
    ensures Pow10(a) <= Pow10(b)
    decreases b
  {
    if a < b { Pow10Mono(a, b - 1); }
  }

  /** Python's string ordering: code point by code point, a proper prefix
      first. */
  predicate StrLess(a: string, b: string)
  {
    if |a| == 0 then |b| > 0
    else if |b| == 0 then false
    else if a[0] != b[0] then a[0] < b[0]
    else StrLess(a[1..], b[1..])
  }

  /** Equal-length digit strings order lexicographically exactly as their
      values order numerically. */
  lemma {:induction false} DigitStringOrder(a: string, b: string)
    requires AllDigits(a) && AllDigits(b) && |a| == |b|
    ensures StrLess(a, b) <==> DigitsValue(a) < DigitsValue(b)
    decreases |a|
  {
    if |a| > 0 {
      if a[0] == b[0] {
        DigitStringOrder(a[1..], b[1..]);
      } else if a[0] < b[0] {
        LeadingDigitDecides(a, b);
      } else {
        LeadingDigitDecides(b, a);
      }
    }
  }

  lemma LeadingDigitDecides(a: string, b: string)
    requires AllDigits(a) && AllDigits(b) && |a| == |b| > 0
    requires a[0] < b[0]
    ensures DigitsValue(a) < DigitsValue(b)
  {
    var p := Pow10(|a| - 1);
    DigitsValueBound(a[1..]);
    assert DigitsValue(a) == DigitValue(a[0]) * p + DigitsValue(a[1..]);
    assert DigitsValue(b) == DigitValue(b[0]) * p + DigitsValue(b[1..]);
    HigherDigitWins(DigitValue(a[0]), DigitValue(b[0]), p, DigitsValue(a[1..]), DigitsValue(b[1..]));
  }

  lemma HigherDigitWins(da: int, db: int, p: nat, ra: int, rb: int)
    requires da < db && 0 <= ra < p && 0 <= rb
    ensures da * p + ra < db * p + rb
  {
    MulLe(da + 1, db, p);
    assert (da + 1) * p == da * p + p;
  }

  /** Comparing two concatenations whose first parts have equal length
      compares the first parts, and the second parts only on a tie. */
  lemma {:induction false} StrLessConcat(x: string, y: string, x': string, y': string)
    requires |x| == |x'|
    ensures StrLess(x + y, x' + y') <==> StrLess(x, x') || (x == x' && StrLess(y, y'))
    decreases |x|
  {
    if |x| == 0 {
      assert x + y == y && x' + y' == y';
    } else {
      assert (x + y)[0] == x[0] && (x' + y')[0] == x'[0];
      assert (x + y)[1..] == x[1..] + y && (x' + y')[1..] == x'[1..] + y';
      StrLessConcat(x[1..], y, x'[1..], y');
      if x[0] == x'[0] {
        assert x == x' <==> x[1..] == x'[1..] by {
          assert x == [x[0]] + x[1..] && x' == [x'[0]] + x'[1..];
        }
      }
    }
  }

  lemma StrLessIrreflexive(a: string)
    ensures !StrLess(a, a)
  {
  }

  // ---------------------------------------------------------------------
  // Python int(text), base 10

  /** The ASCII characters Python counts as whitespace. */
  predicate IsSpace(c: char)
  {
    c == ' ' || 9 <= c as int <= 13 || 28 <= c as int <= 31
  }

  /** `text.strip()` on the ASCII whitespace characters. */
  function Strip(s: string): (t: string)
    ensures |t| <= |s|
    ensures |t| > 0 ==> !IsSpace(t[0]) && !IsSpace(t[|t| - 1])
    ensures (forall i | 0 <= i < |s| :: !IsSpace(s[i])) ==> t == s
  {
    if |s| > 0 && IsSpace(s[0]) then Strip(s[1..])
    else if |s| > 0 && IsSpace(s[|s| - 1]) then Strip(s[..|s| - 1])
    else s
  }

  /** Digits with single underscores between them, as `int` accepts. */
  predicate DigitGroups(s: string)
  {
    && |s| > 0
    && IsDigit(s[0]) && IsDigit(s[|s| - 1])
    && (forall i | 0 <= i < |s| :: IsDigit(s[i]) || s[i] == '_')
    && (forall i | 0 <= i < |s| - 1 :: !(s[i] == '_' && s[i + 1] == '_'))
  }

  function WithoutUnderscores(s: string): (t: string)
    requires forall i | 0 <= i < |s| :: IsDigit(s[i]) || s[i] == '_'
    ensures AllDigits(t)
    ensures AllDigits(s) ==> t == s
  {
    if |s| == 0 then []
    else if s[0] == '_' then WithoutUnderscores(s[1..])
    else [s[0]] + WithoutUnderscores(s[1..])
  }

  /** `int(text)`: surrounding whitespace, an optional sign, then digit
      groups; anything else is a ValueError, modelled as None. */
  function ParseInt(text: string): (r: Option<int>)
    ensures r.Some? ==> |Strip(text)| > 0
  {
    var t := Strip(text);
    if |t| > 0 && (t[0] == '-' || t[0] == '+') then
      var body := t[1..];
      if DigitGroups(body) then
        var n: int := DigitsValue(WithoutUnderscores(body));
        Some(if t[0] == '-' then -n else n)
      else None
    else if DigitGroups(t) then Some(DigitsValue(WithoutUnderscores(t)))
    else None
  }

  /** Text without a digit in it never parses. */
  lemma ParseIntNeedsDigit(text: string)
    requires forall i | 0 <= i < |text| :: !IsDigit(text[i])
    ensures ParseInt(text) == None
  {
    var t := Strip(text);
    assert forall i | 0 <= i < |t| :: !IsDigit(t[i]) by {
      StripKeepsChars(text);
      forall i | 0 <= i < |t| ensures !IsDigit(t[i]) {
        assert t[i] in t;
      }
    }
  }

  /** Stripping only removes characters. */
  lemma {:induction false} StripKeepsChars(s: string)
    ensures forall c | c in Strip(s) :: c in s
    decreases |s|
  {
    if |s| > 0 && IsSpace(s[0]) {
      StripKeepsChars(s[1..]);
      forall c | c in s[1..] ensures c in s {
        var k :| 0 <= k < |s[1..]| && s[1..][k] == c;
        assert s[k + 1] == c;
      }
    } else if |s| > 0 && IsSpace(s[|s| - 1]) {
      StripKeepsChars(s[..|s| - 1]);
      forall c | c in s[..|s| - 1] ensures c in s {
        var k :| 0 <= k < |s[..|s| - 1]| && s[..|s| - 1][k] == c;
        assert s[k] == c;
      }
    }
  }

  /** The text `str` prints for an int is read back by `int` as that int. */
  lemma IntStringRoundTrip(i: int)
    ensures ParseInt(IntToString(i)) == Some(i)
  {
    var s := IntToString(i);
    assert forall k | 0 <= k < |s| :: !IsSpace(s[k]);
    assert Strip(s) == s;
    if i < 0 {
      assert s[1..] == NatToString(-i);
    }
  }

  /** A plain digit string parses to its value. */
  lemma ParseDigits(s: string)
    requires |s| > 0 && AllDigits(s)
    ensures ParseInt(s) == Some(DigitsValue(s))
  {
    assert DigitGroups(s);
    ParseDigitGroups(s);
  }

  /** Leading zeros change nothing: `int("007") == 7`. */
  lemma ParseIntLeadingZeros(n: nat, width: nat)
    ensures ParseInt(Pad(n, width)) == Some(n)
  {
    ParseDigits(Pad(n, width));
  }

  /** Text that neither starts nor ends with whitespace is its own strip. */
  lemma StripNoEdgeSpace(t: string)
    requires |t| > 0 && !IsSpace(t[0]) && !IsSpace(t[|t| - 1])
    ensures Strip(t) == t
  {
  }

  /** A sign followed by digits parses to the digits' value, negated for `-`. */
  lemma ParseSignedDigits(t: string)
    requires |t| > 1 && (t[0] == '+' || t[0] == '-') && AllDigits(t[1..])
    ensures ParseInt(t) == Some(if t[0] == '-' then -(DigitsValue(t[1..]) as int) else DigitsValue(t[1..]))
  {
    assert t[|t| - 1] == t[1..][|t| - 2];
    StripNoEdgeSpace(t);
    assert DigitGroups(t[1..]);
  }

  /** Whitespace around the number is ignored. */
  lemma ParseIntSpaces(pre: string, t: string, post: string)
    requires forall i | 0 <= i < |pre| :: IsSpace(pre[i])
    requires forall i | 0 <= i < |post| :: IsSpace(post[i])
    requires |t| > 0 && !IsSpace(t[0]) && !IsSpace(t[|t| - 1])
    ensures ParseInt(pre + t + post) == ParseInt(t)
  {
    StripSurrounding(pre, t, post);
    assert Strip(t) == t;
  }

  /** `strip` removes exactly the whitespace around a word that neither
      starts nor ends with whitespace. */
  lemma {:induction false} StripSurrounding(pre: string, t: string, post: string)
    requires forall i | 0 <= i < |pre| :: IsSpace(pre[i])
    requires forall i | 0 <= i < |post| :: IsSpace(post[i])
    requires |t| > 0 && !IsSpace(t[0]) && !IsSpace(t[|t| - 1])
    ensures Strip(pre + t + post) == t
    decreases |pre| + |post|
  {
    var s := pre + t + post;
    if |pre| > 0 {
      assert s[0] == pre[0];
      assert s[1..] == pre[1..] + t + post;
      StripSurrounding(pre[1..], t, post);
    } else if |post| > 0 {
      assert s == t + post;
      assert s[|s| - 1] == post[|post| - 1];
      assert s[..|s| - 1] == pre + t + post[..|post| - 1];
      StripSurrounding(pre, t, post[..|post| - 1]);
    } else {
      assert s == t;
    }
  }

  lemma {:induction false} WithoutUnderscoresAppend(a: string, b: string)
    requires forall i | 0 <= i < |a| :: IsDigit(a[i]) || a[i] == '_'
    requires forall i | 0 <= i < |b| :: IsDigit(b[i]) || b[i] == '_'
    ensures forall i | 0 <= i < |a + b| :: IsDigit((a + b)[i]) || (a + b)[i] == '_'
    ensures WithoutUnderscores(a + b) == WithoutUnderscores(a) + WithoutUnderscores(b)
    decreases |a|
  {
    if |a| == 0 {
      assert a + b == b;
    } else {
      assert (a + b)[0] == a[0];
      assert (a + b)[1..] == a[1..] + b;
      WithoutUnderscoresAppend(a[1..], b);
      if a[0] != '_' {
        AppendAssoc([a[0]], WithoutUnderscores(a[1..]), WithoutUnderscores(b));
      }
    }
  }

  /** Digit groups without a sign parse to the value of their digits. */
  lemma ParseDigitGroups(s: string)
    requires DigitGroups(s)
    ensures ParseInt(s) == Some(DigitsValue(WithoutUnderscores(s)))
  {
    StripNoEdgeSpace(s);
  }

  /** An underscore between two digit groups is ignored: `int("1_2") == 12`. */
  lemma ParseIntUnderscore(s: string, k: nat)
    requires 0 < k < |s| - 1 && s[k] == '_'
    requires AllDigits(s[..k]) && AllDigits(s[k + 1..])
    ensures AllDigits(s[..k] + s[k + 1..])
    ensures ParseInt(s) == Some(DigitsValue(s[..k] + s[k + 1..]))
  {
    UnderscoreSplitsGroups(s, k);
    UnderscoreRemoved(s, k);
    ParseDigitGroups(s);
  }

  lemma UnderscoreSplitsGroups(s: string, k: nat)
    requires 0 < k < |s| - 1 && s[k] == '_'
    requires AllDigits(s[..k]) && AllDigits(s[k + 1..])
    ensures DigitGroups(s)
  {
    var a, b := s[..k], s[k + 1..];
    assert s[0] == a[0] && s[|s| - 1] == b[|b| - 1];
    forall i | 0 <= i < |s| ensures IsDigit(s[i]) || s[i] == '_' {
      if i < k {
        assert s[i] == a[i];
      } else if i > k {
        assert s[i] == b[i - k - 1];
      }
    }
    forall i | 0 <= i < |s| - 1 ensures !(s[i] == '_' && s[i + 1] == '_') {
      if i < k {
        assert s[i] == a[i];
      } else {
        assert s[i + 1] == b[i - k];
      }
    }
  }

  lemma UnderscoreRemoved(s: string, k: nat)
    requires 0 < k < |s| - 1 && s[k] == '_'
    requires AllDigits(s[..k]) && AllDigits(s[k + 1..])
    requires forall i | 0 <= i < |s| :: IsDigit(s[i]) || s[i] == '_'
    ensures WithoutUnderscores(s) == s[..k] + s[k + 1..]
  {
    var a, b := s[..k], s[k + 1..];
    assert s == a + s[k..];
    assert s[k..][1..] == b;
    WithoutUnderscoresAppend(a, s[k..]);
    assert WithoutUnderscores(s[k..]) == WithoutUnderscores(b);
  }
}
