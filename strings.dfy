/** The JavaScript string operations the firmware routes rely on: number-to-string
    conversion, a lenient parseInt, first-occurrence replace, split, join,
    endsWith and toLowerCase.  A `char` is one Unicode scalar value, not a UTF-16
    code unit. */
module Strings {
  import opened Wrappers

  predicate IsDigit(c: char) { '0' <= c <= '9' }

  function DigitValue(c: char): (d: nat)
    requires IsDigit(c)
    ensures d < 10
  {
    c as int - '0' as int
  }

  function DigitChar(d: nat): (c: char)
    requires d < 10
    ensures IsDigit(c) && DigitValue(c) == d
  {
    ('0' as int + d) as char
  }

  predicate AllDigits(s: string) { forall i :: 0 <= i < |s| ==> IsDigit(s[i]) }

  /** The decimal rendering of a non-negative integer, as a template literal prints it. */
  function Decimal(n: nat): (r: string)
    ensures r != [] && AllDigits(r)
    ensures r[0] == '0' ==> n == 0 && r == "0"
  {
    if n < 10 then [DigitChar(n)] else Decimal(n / 10) + [DigitChar(n % 10)]
  }

  /** The value of a non-empty run of decimal digits, most significant first. */
  function DigitsValue(ds: string): nat
    requires AllDigits(ds)
  {
    if ds == [] then 0 else DigitsValue(ds[..|ds| - 1]) * 10 + DigitValue(ds[|ds| - 1])
  }

  /** The longest prefix of `s` made of decimal digits. */
  function LeadingDigits(s: string): (r: string)
    ensures r <= s && AllDigits(r)
    ensures |r| < |s| ==> !IsDigit(s[|r|])
  {
    if s == [] || !IsDigit(s[0]) then [] else [s[0]] + LeadingDigits(s[1..])
  }

  /** parseInt with the default radix, restricted to unsigned decimal input: the value of
      the leading digits, or None (JavaScript's NaN) when there are none. */
  function ParseInt(s: string): (r: Option<nat>)
    ensures r.Some? <==> s != [] && IsDigit(s[0])
  {
    var ds := LeadingDigits(s);
    if ds == [] then None else Some(DigitsValue(ds))
  }

  lemma {:induction false} DecimalValue(n: nat)
    ensures DigitsValue(Decimal(n)) == n
  {
    if n >= 10 {
      DecimalValue(n / 10);
      var d := Decimal(n);
      assert d[..|d| - 1] == Decimal(n / 10);
    }
  }

  lemma {:induction false} LeadingDigitsOfDigits(ds: string, rest: string)
    requires AllDigits(ds)
    requires rest == [] || !IsDigit(rest[0])
    ensures LeadingDigits(ds + rest) == ds
  {
    if ds != [] {
      assert (ds + rest)[1..] == ds[1..] + rest;
      LeadingDigitsOfDigits(ds[1..], rest);
    }
  }

  /** parseInt reads back a decimal rendering, whatever non-digit text follows it. */
  lemma ParseDecimal(n: nat, rest: string)
    requires rest == [] || !IsDigit(rest[0])
    ensures ParseInt(Decimal(n) + rest) == Some(n)
  {
    LeadingDigitsOfDigits(Decimal(n), rest);
    DecimalValue(n);
  }

  lemma DecimalInjective(m: nat, n: nat)
    ensures Decimal(m) == Decimal(n) <==> m == n
  {
    DecimalValue(m);
    DecimalValue(n);
  }

  // ---------------------------------------------------------------------------
  // Substrings and String.prototype.replace with a string pattern

  predicate OccursAt(s: string, pat: string, i: nat)
  {
    i + |pat| <= |s| && s[i..i + |pat|] == pat
  }

  predicate Contains(s: string, pat: string)
  {
    exists i: nat :: i + |pat| <= |s| && OccursAt(s, pat, i)
  }

  predicate EndsWith(s: string, suffix: string)
  {
    |suffix| <= |s| && s[|s| - |suffix|..] == suffix
  }

  /** `s.replace(pat, '')`: removes the first occurrence of `pat`, if any. */
  function RemoveFirst(s: string, pat: string): (r: string)
    ensures r == s || |r| == |s| - |pat|
    decreases |s|
  {
    if |s| < |pat| then s
    else if s[..|pat|] == pat then s[|pat|..]
    else [s[0]] + RemoveFirst(s[1..], pat)
  }

  /** Occurrences in the tail of a text are the text's own occurrences, one place later. */
  lemma OccursInTail(s: string, pat: string, j: nat)
    requires s != []
    ensures OccursAt(s[1..], pat, j) <==> OccursAt(s, pat, j + 1)
  {
    if j + 1 + |pat| <= |s| {
      assert s[1..][j..j + |pat|] == s[j + 1..j + 1 + |pat|];
    }
  }

  /** When no occurrence starts inside `a`, the removal happens in `b`. */
  lemma {:induction false} RemoveFirstAfter(a: string, b: string, pat: string)
    requires forall j: nat :: j < |a| ==> !OccursAt(a + b, pat, j)
    ensures RemoveFirst(a + b, pat) == a + RemoveFirst(b, pat)
    decreases |a|
  {
    var s := a + b;
    if a == [] {
      assert s == b;
    } else if |s| < |pat| {
      assert RemoveFirst(b, pat) == b;
    } else {
      assert !OccursAt(s, pat, 0);
      assert s[..|pat|] != pat;
      assert s[1..] == a[1..] + b;
      forall j: nat | j < |a[1..]| ensures !OccursAt(a[1..] + b, pat, j) {
        assert !OccursAt(s, pat, j + 1);
        OccursInTail(s, pat, j);
      }
      RemoveFirstAfter(a[1..], b, pat);
      assert a == [a[0]] + a[1..];
    }
  }

  /** A text without the pattern is left as it is. */
  lemma RemoveFirstAbsent(s: string, pat: string)
    requires !Contains(s, pat)
    ensures RemoveFirst(s, pat) == s
  {
    assert s + [] == s;
    if |pat| > 0 {
      RemoveFirstAfter(s, [], pat);
    } else {
      assert OccursAt(s, pat, 0);
    }
  }

  /** When `a` already contains the pattern, what follows `a` is untouched. */
  lemma {:induction false} RemoveFirstWithin(a: string, b: string, pat: string)
    requires Contains(a, pat)
    ensures RemoveFirst(a + b, pat) == RemoveFirst(a, pat) + b
    decreases |a|
  {
    var i: nat :| i + |pat| <= |a| && OccursAt(a, pat, i);
    var s := a + b;
    assert s[..|pat|] == a[..|pat|];
    if a[..|pat|] != pat {
      assert i > 0;
      OccursInTail(a, pat, i - 1);
      assert Contains(a[1..], pat);
      assert s[1..] == a[1..] + b;
      RemoveFirstWithin(a[1..], b, pat);
      assert RemoveFirst(s, pat) == [s[0]] + RemoveFirst(s[1..], pat);
      assert RemoveFirst(a, pat) == [a[0]] + RemoveFirst(a[1..], pat);
    } else {
      assert s[|pat|..] == a[|pat|..] + b;
    }
  }

  // ---------------------------------------------------------------------------
  // String.prototype.split and Array.prototype.join with a one-character separator

  /** `s.split(sep)`: the maximal separator-free segments, empty ones included. */
  function Split(s: string, sep: char): (r: seq<string>)
    ensures |r| >= 1
    ensures forall k :: 0 <= k < |r| ==> sep !in r[k]
  {
    if s == [] then [[]]
    else
      var rest := Split(s[1..], sep);
      if s[0] == sep then [[]] + rest else [[s[0]] + rest[0]] + rest[1..]
  }

  /** `parts.join(sep)`; the join of no parts is the empty string. */
  function Join(parts: seq<string>, sep: char): string
  {
    if parts == [] then []
    else if |parts| == 1 then parts[0]
    else parts[0] + [sep] + Join(parts[1..], sep)
  }

  /** Splitting loses nothing: joining the segments gives the text back. */
  lemma {:induction false} JoinSplit(s: string, sep: char)
    ensures Join(Split(s, sep), sep) == s
  {
    if s != [] {
      var rest := Split(s[1..], sep);
      JoinSplit(s[1..], sep);
      if s[0] != sep {
        if |rest| > 1 {
          assert rest == [rest[0]] + rest[1..];
          assert Join(rest, sep) == rest[0] + [sep] + Join(rest[1..], sep);
        }
      }
    }
  }

  lemma {:induction false} SplitWithoutSeparator(s: string, sep: char)
    requires sep !in s
    ensures Split(s, sep) == [s]
  {
    if s != [] {
      assert s[0] in s;
      SplitWithoutSeparator(s[1..], sep);
      assert s == [s[0]] + s[1..];
    }
  }

  /** Appending a separator and a separator-free segment appends exactly that segment. */
  lemma {:induction false} SplitAppend(a: string, sep: char, d: string)
    requires sep !in d
    ensures Split(a + [sep] + d, sep) == Split(a, sep) + [d]
  {
    var s := a + [sep] + d;
    if a == [] {
      assert s == [sep] + d;
      assert s[1..] == d;
      SplitWithoutSeparator(d, sep);
    } else {
      assert s[1..] == a[1..] + [sep] + d;
      SplitAppend(a[1..], sep, d);
    }
  }

  // ---------------------------------------------------------------------------
  // String.prototype.toLowerCase on ASCII letters

  function LowerChar(c: char): char
  {
    if 'A' <= c <= 'Z' then (c as int + 32) as char else c
  }

  function ToLower(s: string): (r: string)
    ensures |r| == |s|
    ensures forall i :: 0 <= i < |s| ==> r[i] == LowerChar(s[i])
  {
    if s == [] then [] else [LowerChar(s[0])] + ToLower(s[1..])
  }
}
