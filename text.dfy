/** String operations the Python code takes from `str`: strip, lstrip, lower,
    startswith/endswith, substring search, and int/str conversion.
    Character classes are ASCII (see README, "Left out"). */
module Text {
  import opened Basics

  // ---------------------------------------------------------------------
  // Whitespace and stripping

  predicate IsSpace(c: char)
  {
    c == ' ' || c == '\t' || c == '\n' || c == '\r' || c == '\U{B}' || c == '\U{C}'
    || c == '\U{1C}' || c == '\U{1D}' || c == '\U{1E}' || c == '\U{1F}'
  }

  /** `s.lstrip()`: drops the leading whitespace and nothing else. */
  function StripLeft(s: string): (r: string)
    ensures |r| <= |s| && r == s[|s| - |r|..]
    ensures forall i :: 0 <= i < |s| - |r| ==> IsSpace(s[i])
    ensures r != [] ==> !IsSpace(r[0])
  {
    if s != [] && IsSpace(s[0]) then StripLeft(s[1..]) else s
  }

  /** `s.rstrip()`: drops the trailing whitespace and nothing else. */
  function StripRight(s: string): (r: string)
    ensures |r| <= |s| && r == s[..|r|]
    ensures forall i :: |r| <= i < |s| ==> IsSpace(s[i])
    ensures r != [] ==> !IsSpace(r[|r| - 1])
  {
    if s != [] && IsSpace(s[|s| - 1]) then StripRight(s[..|s| - 1]) else s
  }

  /** `s.strip()`. */
  function Strip(s: string): (r: string)
    ensures r != [] ==> !IsSpace(r[0]) && !IsSpace(r[|r| - 1])
    ensures |r| <= |s|
  {
    StripRight(StripLeft(s))
  }

  /** `s.lstrip(c)` for a single character `c`. */
  function StripLeading(s: string, c: char): (r: string)
    ensures |r| <= |s| && r == s[|s| - |r|..]
    ensures forall i :: 0 <= i < |s| - |r| ==> s[i] == c
    ensures r != [] ==> r[0] != c
  {
    if s != [] && s[0] == c then StripLeading(s[1..], c) else s
  }

  // ---------------------------------------------------------------------
  // Prefix, suffix, case

  predicate StartsWith(s: string, prefix: string)
  {
    prefix <= s
  }

  predicate EndsWith(s: string, suffix: string)
  {
    |suffix| <= |s| && s[|s| - |suffix|..] == suffix
  }

  function LowerChar(c: char): char
  {
    if 'A' <= c <= 'Z' then (c as int - 'A' as int + 'a' as int) as char else c
  }

  /** `s.lower()`. */
  function Lower(s: string): (r: string)
    ensures |r| == |s|
    ensures forall i :: 0 <= i < |s| ==> r[i] == LowerChar(s[i])
  {
    if s == [] then [] else [LowerChar(s[0])] + Lower(s[1..])
  }

  lemma {:induction false} LowerAppend(a: string, b: string)
    ensures Lower(a + b) == Lower(a) + Lower(b)
  {
    var l, r := Lower(a + b), Lower(a) + Lower(b);
    assert |l| == |r|;
    forall i | 0 <= i < |l| ensures l[i] == r[i] {
      if i < |a| { assert (a + b)[i] == a[i]; } else { assert (a + b)[i] == b[i - |a|]; }
    }
  }

  // ---------------------------------------------------------------------
  // Substring search: Python's `t in s`

  predicate OccursAt(s: string, t: string, i: int)
  {
    0 <= i && i + |t| <= |s| && s[i..i + |t|] == t
  }

  function Contains(s: string, t: string): (b: bool)
    decreases |s|
  {
    if t <= s then true
    else if |s| <= |t| then false
    else Contains(s[1..], t)
  }

  /** The recursive search agrees with "t occurs at some position of s". */
  lemma {:induction false} ContainsIff(s: string, t: string)
    ensures Contains(s, t) <==> exists i :: OccursAt(s, t, i)
    decreases |s|
  {
    if t <= s {
      assert OccursAt(s, t, 0);
    } else if |s| <= |t| {
      forall i | 0 <= i && i + |t| <= |s| ensures !OccursAt(s, t, i) {
        assert s[i..i + |t|] == s[..|t|];
      }
    } else {
      ContainsIff(s[1..], t);
      if Contains(s[1..], t) {
        var i :| OccursAt(s[1..], t, i);
        assert s[1..][i..i + |t|] == s[i + 1..i + 1 + |t|];
        assert OccursAt(s, t, i + 1);
      } else {
        forall i | 0 <= i && i + |t| <= |s| ensures !OccursAt(s, t, i) {
          if i == 0 {
            assert s[i..i + |t|] == s[..|t|];
          } else {
            assert s[1..][i - 1..i - 1 + |t|] == s[i..i + |t|];
            assert !OccursAt(s[1..], t, i - 1);
          }
        }
      }
    }
  }

  /** A word without the separator never occurs across it. */
  lemma NoOccurrenceOverSeparator(a: string, sep: char, b: string, t: string, i: int)
    requires sep !in t && 0 <= i <= |a| < i + |t| <= |a| + 1 + |b|
    ensures !OccursAt(a + [sep] + b, t, i)
  {
    var s := a + [sep] + b;
    assert s[i..i + |t|][|a| - i] == sep;
  }

  /** An occurrence in `a + [sep] + b` that does not cover the separator lies wholly in `a` or in `b`. */
  lemma OccurrenceSplits(a: string, sep: char, b: string, t: string, i: int)
    requires sep !in t && OccursAt(a + [sep] + b, t, i)
    ensures OccursAt(a, t, i) || OccursAt(b, t, i - |a| - 1)
  {
    var s := a + [sep] + b;
    if i <= |a| < i + |t| {
      NoOccurrenceOverSeparator(a, sep, b, t, i);
    } else if i + |t| <= |a| {
      assert s[i..i + |t|] == a[i..i + |t|];
    } else if i > |a| {
      assert s[i..i + |t|] == b[i - |a| - 1..i - |a| - 1 + |t|];
    }
  }

  /** A word without the separator occurs in `a + [sep] + b` exactly when it occurs in `a` or in `b`. */
  lemma ContainsAcrossSeparator(a: string, sep: char, b: string, t: string)
    requires sep !in t
    ensures Contains(a + [sep] + b, t) <==> Contains(a, t) || Contains(b, t)
  {
    var s := a + [sep] + b;
    ContainsIff(s, t);
    ContainsIff(a, t);
    ContainsIff(b, t);
    if Contains(s, t) {
      var i :| OccursAt(s, t, i);
      OccurrenceSplits(a, sep, b, t, i);
    }
    if Contains(a, t) {
      var i :| OccursAt(a, t, i);
      OccurrenceExtends(a, sep, b, t, i);
    }
    if Contains(b, t) {
      var i :| OccursAt(b, t, i);
      OccurrenceShifts(a, sep, b, t, i);
    }
  }

  /** An occurrence in `a` is one in `a + [sep] + b` at the same position. */
  lemma OccurrenceExtends(a: string, sep: char, b: string, t: string, i: int)
    requires OccursAt(a, t, i)
    ensures OccursAt(a + [sep] + b, t, i)
  {
    var s := a + [sep] + b;
    forall k | 0 <= k < |t| ensures s[i..i + |t|][k] == t[k] {
      assert s[i + k] == a[i + k];
    }
  }

  /** An occurrence in `b` is one in `a + [sep] + b`, shifted past `a` and the separator. */
  lemma OccurrenceShifts(a: string, sep: char, b: string, t: string, i: int)
    requires OccursAt(b, t, i)
    ensures OccursAt(a + [sep] + b, t, |a| + 1 + i)
  {
    var s := a + [sep] + b;
    var j := |a| + 1 + i;
    forall k | 0 <= k < |t| ensures s[j..j + |t|][k] == t[k] {
      assert s[j + k] == b[i + k];
      assert b[i..i + |t|][k] == b[i + k];
    }
  }

  // ---------------------------------------------------------------------
  // Decimal conversion: `str(n)` / f"{n}" and `int(s)`

  predicate IsDigit(c: char)
  {
    '0' <= c <= '9'
  }

  function DigitChar(d: nat): (c: char)
    requires d < 10
    ensures IsDigit(c)
  {
    ('0' as int + d) as char
  }

  function DigitValue(c: char): nat
    requires IsDigit(c)
  {
    c as int - '0' as int
  }

  function DigitsValue(s: string): nat
    requires forall i :: 0 <= i < |s| ==> IsDigit(s[i])
  {
    if s == [] then 0 else 10 * DigitsValue(s[..|s| - 1]) + DigitValue(s[|s| - 1])
  }

  /** `str(n)` for n >= 0. */
  function NatToDecimal(n: nat): (r: string)
    ensures r != []
    ensures forall i :: 0 <= i < |r| ==> IsDigit(r[i])
  {
    if n < 10 then [DigitChar(n)] else NatToDecimal(n / 10) + [DigitChar(n % 10)]
  }

  /** `str(i)` for any int. */
  function IntToDecimal(i: int): (r: string)
    ensures r != [] && !IsSpace(r[0]) && !IsSpace(r[|r| - 1])
  {
    if i < 0 then "-" + NatToDecimal(-i) else NatToDecimal(i)
  }

  /** `int(s)` on a string: optional surrounding whitespace, an optional sign, then ASCII digits;
      None where Python raises ValueError. */
  function ParseInt(s: string): (r: Option<int>)
  {
    var t := Strip(s);
    if t != [] && (t[0] == '-' || t[0] == '+') then
      var digits := t[1..];
      if digits != [] && forall i :: 0 <= i < |digits| ==> IsDigit(digits[i]) then
        Some(if t[0] == '-' then 0 - DigitsValue(digits) as int else DigitsValue(digits))
      else None
    else if t != [] && forall i :: 0 <= i < |t| ==> IsDigit(t[i]) then Some(DigitsValue(t))
    else None
  }

  lemma {:induction false} DigitsOfNat(n: nat)
    ensures DigitsValue(NatToDecimal(n)) == n
  {
    var r := NatToDecimal(n);
    if n >= 10 {
      DigitsOfNat(n / 10);
      assert r[..|r| - 1] == NatToDecimal(n / 10);
    }
  }

  lemma StripNoSpaceEnds(s: string)
    requires s != [] && !IsSpace(s[0]) && !IsSpace(s[|s| - 1])
    ensures Strip(s) == s
  {
  }

  /** Round trip: `int(str(i)) == i`. */
  lemma DecimalRoundTrip(i: int)
    ensures ParseInt(IntToDecimal(i)) == Some(i)
  {
    var s := IntToDecimal(i);
    StripNoSpaceEnds(s);
    if i < 0 {
      DigitsOfNat(-i);
      assert s[1..] == NatToDecimal(-i);
    } else {
      DigitsOfNat(i);
    }
  }
}
