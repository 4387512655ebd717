/**
 * String helpers shared by the model: Rust's `str::replace`, decimal
 * rendering of integers (what `format!("{}")` prints) and its parser,
 * and splitting on a separator character.
 */
module Text {
  import opened Wrappers

  /** `pat` occurs in `s` starting at index `i`. */
  predicate OccursAt(s: string, pat: string, i: nat)
  {
    i + |pat| <= |s| && s[i..i + |pat|] == pat
  }

  predicate Occurs(s: string, pat: string)
  {
    exists i: nat | i <= |s| :: OccursAt(s, pat, i)
  }

  /**
   * Rust's `str::replace`: every occurrence of `pat`, found scanning
   * left to right and never overlapping, is replaced by `rep`.
   */
  function Replace(s: string, pat: string, rep: string): (r: string)
    requires |pat| > 0
    decreases |s|
  {
    if |s| < |pat| then s
    else if s[..|pat|] == pat then rep + Replace(s[|pat|..], pat, rep)
    else [s[0]] + Replace(s[1..], pat, rep)
  }

  /** Replacing a pattern that does not occur leaves the string as it is. */
  lemma {:induction false} ReplaceAbsent(s: string, pat: string, rep: string)
    requires |pat| > 0 && !Occurs(s, pat)
    ensures Replace(s, pat, rep) == s
    decreases |s|
  {
    if |s| >= |pat| {
      assert !OccursAt(s, pat, 0);
      assert s[..|pat|] != pat;
      assert !Occurs(s[1..], pat) by {
        forall i: nat | i <= |s[1..]| && OccursAt(s[1..], pat, i)
          ensures false
        {
          assert s[1..][i..i + |pat|] == s[i + 1..i + 1 + |pat|];
          assert OccursAt(s, pat, i + 1);
        }
      }
      ReplaceAbsent(s[1..], pat, rep);
    }
  }

  /** A character found in neither the input nor the replacement is not in the output. */
  lemma {:induction false} ReplaceKeepsOut(s: string, pat: string, rep: string, c: char)
    requires |pat| > 0 && c !in s && c !in rep
    ensures c !in Replace(s, pat, rep)
    decreases |s|
  {
    if |s| >= |pat| {
      if s[..|pat|] == pat {
        ReplaceKeepsOut(s[|pat|..], pat, rep, c);
      } else {
        ReplaceKeepsOut(s[1..], pat, rep, c);
      }
    }
  }

  /** Replacing a one-character pattern by text without it removes every copy of that character. */
  lemma {:induction false} ReplaceRemovesChar(s: string, c: char, rep: string)
    requires c !in rep
    ensures c !in Replace(s, [c], rep)
    decreases |s|
  {
    if |s| >= 1 {
      if s[..1] == [c] {
        ReplaceRemovesChar(s[1..], c, rep);
      } else {
        assert s[0] != c by { assert s[..1] == [s[0]]; }
        ReplaceRemovesChar(s[1..], c, rep);
      }
    }
  }

  /** An occurrence of `pat` at the front is replaced, and the scan resumes after it. */
  lemma ReplaceFront(pat: string, rest: string, rep: string)
    requires |pat| > 0
    ensures Replace(pat + rest, pat, rep) == rep + Replace(rest, pat, rep)
  {
    assert (pat + rest)[..|pat|] == pat;
    assert (pat + rest)[|pat|..] == rest;
  }

  /** Text without the first character of `pat` is copied as it is, and the scan resumes after it. */
  lemma {:induction false} ReplaceKeepsPrefix(a: string, rest: string, pat: string, rep: string)
    requires |pat| > 0 && pat[0] !in a
    ensures Replace(a + rest, pat, rep) == a + Replace(rest, pat, rep)
    decreases |a|
  {
    if a != [] {
      var s := a + rest;
      assert s[0] == a[0];
      if |s| >= |pat| {
        assert s[..|pat|][0] == a[0];
      }
      assert s[1..] == a[1..] + rest;
      ReplaceKeepsPrefix(a[1..], rest, pat, rep);
      assert [a[0]] + a[1..] == a;
    } else {
      assert a + rest == rest;
    }
  }

  /**
   * A prefix `q` of the output that does not hold the first character of
   * `rep` was copied from the input: no replacement happened inside it.
   */
  lemma {:induction false} ReplaceOutputPrefix(t: string, pat: string, rep: string, q: string)
    requires |pat| > 0 && |rep| > 0 && rep[0] !in q
    requires |q| <= |Replace(t, pat, rep)| && Replace(t, pat, rep)[..|q|] == q
    ensures |q| <= |t| && t[..|q|] == q
    decreases |t|
  {
    if q != [] && |t| >= |pat| {
      var r := Replace(t, pat, rep);
      assert q[0] == r[0];
      assert t[..|pat|] != pat;
      assert r == [t[0]] + Replace(t[1..], pat, rep);
      assert Replace(t[1..], pat, rep)[..|q| - 1] == q[1..];
      ReplaceOutputPrefix(t[1..], pat, rep, q[1..]);
      assert t[..|q|] == [t[0]] + t[1..][..|q| - 1];
    }
  }

  /** Text without the first character of `pat` in front of text free of `pat` leaves it free of `pat`. */
  lemma NoPatternAfterPlain(a: string, t: string, pat: string)
    requires |pat| > 0 && pat[0] !in a && !Occurs(t, pat)
    ensures !Occurs(a + t, pat)
  {
    var r := a + t;
    forall i: nat | i <= |r|
      ensures !OccursAt(r, pat, i)
    {
      if i < |a| {
        assert r[i] == a[i] && r[i] != pat[0];
      } else {
        assert !OccursAt(t, pat, i - |a|);
        if i + |pat| <= |r| {
          assert r[i..i + |pat|] == t[i - |a|..i - |a| + |pat|];
        }
      }
    }
  }

  /** One character in front of text free of `pat` adds an occurrence only at the front. */
  lemma NoPatternAfterChar(c: char, t: string, pat: string)
    requires |pat| > 0 && !Occurs(t, pat) && !OccursAt([c] + t, pat, 0)
    ensures !Occurs([c] + t, pat)
  {
    var r := [c] + t;
    forall i: nat | 1 <= i <= |r|
      ensures !OccursAt(r, pat, i)
    {
      assert !OccursAt(t, pat, i - 1);
      if i + |pat| <= |r| {
        assert r[i..i + |pat|] == t[i - 1..i - 1 + |pat|];
      }
    }
  }

  /**
   * When the replacement neither holds the first character of `pat` nor
   * starts with a character of `pat`, no occurrence of `pat` survives.
   */
  lemma {:induction false} ReplaceLeavesNoPattern(s: string, pat: string, rep: string)
    requires |pat| > 0 && |rep| > 0 && pat[0] !in rep && rep[0] !in pat
    ensures !Occurs(Replace(s, pat, rep), pat)
    decreases |s|
  {
    var r := Replace(s, pat, rep);
    if |s| < |pat| {
      forall i: nat | i <= |r|
        ensures !OccursAt(r, pat, i)
      {
      }
    } else if s[..|pat|] == pat {
      ReplaceLeavesNoPattern(s[|pat|..], pat, rep);
      NoPatternAfterPlain(rep, Replace(s[|pat|..], pat, rep), pat);
    } else {
      var t := Replace(s[1..], pat, rep);
      ReplaceLeavesNoPattern(s[1..], pat, rep);
      assert r == [s[0]] + t;
      assert !OccursAt(r, pat, 0) by {
        if OccursAt(r, pat, 0) {
          assert r[..|pat|] == pat;
          assert t[..|pat| - 1] == r[1..|pat|] == pat[1..];
          ReplaceOutputPrefix(s[1..], pat, rep, pat[1..]);
        }
      }
      NoPatternAfterChar(s[0], t, pat);
    }
  }

  predicate IsDigit(c: char)
  {
    '0' <= c <= '9'
  }

  predicate AllDigits(s: string)
  {
    forall i :: 0 <= i < |s| ==> IsDigit(s[i])
  }

  function DigitChar(d: nat): (c: char)
    requires d < 10
    ensures IsDigit(c)
  {
    ('0' as int + d) as char
  }

  function DigitValue(c: char): (d: nat)
    requires IsDigit(c)
    ensures d < 10 && DigitChar(d) == c
  {
    c as int - '0' as int
  }

  /** Decimal digits of `n`, most significant first, no leading zero. */
  function NatToDecimal(n: nat): (r: string)
    ensures |r| >= 1 && AllDigits(r)
    decreases n
  {
    if n < 10 then [DigitChar(n)] else NatToDecimal(n / 10) + [DigitChar(n % 10)]
  }

  function DecimalToNat(s: string): nat
    requires AllDigits(s)
    decreases |s|
  {
    if s == [] then 0 else DecimalToNat(s[..|s| - 1]) * 10 + DigitValue(s[|s| - 1])
  }

  lemma {:induction false} NatDecimalRoundTrip(n: nat)
    ensures DecimalToNat(NatToDecimal(n)) == n
    decreases n
  {
    var s := NatToDecimal(n);
    if n >= 10 {
      NatDecimalRoundTrip(n / 10);
      assert s[..|s| - 1] == NatToDecimal(n / 10);
    }
  }

  /** What Rust's `{}` prints for a signed integer. */
  function IntToDecimal(i: int): (r: string)
    ensures |r| >= 1 && ' ' !in r
  {
    if i < 0 then "-" + NatToDecimal(-i) else NatToDecimal(i)
  }

  function ParseInt(s: string): Option<int>
  {
    if |s| >= 2 && s[0] == '-' && AllDigits(s[1..]) then Some(-(DecimalToNat(s[1..]) as int))
    else if |s| >= 1 && AllDigits(s) then Some(DecimalToNat(s))
    else None
  }

  lemma IntDecimalRoundTrip(i: int)
    ensures ParseInt(IntToDecimal(i)) == Some(i)
  {
    var s := IntToDecimal(i);
    if i < 0 {
      assert s[1..] == NatToDecimal(-i);
      assert |s| >= 2 && s[0] == '-' && AllDigits(s[1..]);
      NatDecimalRoundTrip(-i);
    } else {
      assert IsDigit(s[0]);
      NatDecimalRoundTrip(i);
    }
  }

  /** The pieces of `s` between occurrences of `sep` (always at least one piece). */
  function Split(s: string, sep: char): (r: seq<string>)
    ensures |r| >= 1
    decreases |s|
  {
    if s == [] then [[]]
    else if s[0] == sep then [[]] + Split(s[1..], sep)
    else var rest := Split(s[1..], sep); [[s[0]] + rest[0]] + rest[1..]
  }

  /** Splitting `a`, then `sep`, then `b` yields `a` followed by the pieces of `b`. */
  lemma {:induction false} SplitAfter(a: string, sep: char, b: string)
    requires sep !in a
    ensures Split(a + [sep] + b, sep) == [a] + Split(b, sep)
    decreases |a|
  {
    if a == [] {
      assert a + [sep] + b == [sep] + b;
      assert ([sep] + b)[1..] == b;
    } else {
      SplitAfter(a[1..], sep, b);
      assert (a + [sep] + b)[1..] == a[1..] + [sep] + b;
      assert [a[0]] + a[1..] == a;
    }
  }

  /** A string without the separator is one piece. */
  lemma {:induction false} SplitWhole(a: string, sep: char)
    requires sep !in a
    ensures Split(a, sep) == [a]
    decreases |a|
  {
    if a != [] {
      SplitWhole(a[1..], sep);
      assert [a[0]] + a[1..] == a;
    }
  }
}
