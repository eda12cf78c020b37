/** The few `str` operations the services rely on: Python's ordering of
    strings, `str(n)` for a natural number, `str.replace` and `str.endswith`. */
module Strings {

  /** Python's `a <= b` on `str`: lexicographic by code point, a proper prefix first.
      (Dafny's own `<` on sequences is the proper-prefix relation, not this order.) */
  predicate LexLe(a: string, b: string)
    decreases |a|
  {
    |a| == 0 || (|b| > 0 && (a[0] < b[0] || (a[0] == b[0] && LexLe(a[1..], b[1..]))))
  }

  /** Python's `a < b` on `str`. */
  predicate LexLt(a: string, b: string)
  {
    LexLe(a, b) && a != b
  }

  lemma {:induction false} LexLeReflexive(a: string)
    ensures LexLe(a, a)
    decreases |a|
  {
    if |a| > 0 { LexLeReflexive(a[1..]); }
  }

  lemma {:induction false} LexLeTotal(a: string, b: string)
    ensures LexLe(a, b) || LexLe(b, a)
    decreases |a|
  {
    if |a| > 0 && |b| > 0 && a[0] == b[0] { LexLeTotal(a[1..], b[1..]); }
  }

  lemma {:induction false} LexLeAntisymmetric(a: string, b: string)
    requires LexLe(a, b) && LexLe(b, a)
    ensures a == b
    decreases |a|
  {
    if |a| > 0 {
      LexLeAntisymmetric(a[1..], b[1..]);
      assert a == [a[0]] + a[1..] && b == [b[0]] + b[1..];
    }
  }

  lemma {:induction false} LexLeTransitive(a: string, b: string, c: string)
    requires LexLe(a, b) && LexLe(b, c)
    ensures LexLe(a, c)
    decreases |a|
  {
    if |a| > 0 && a[0] == b[0] && b[0] == c[0] { LexLeTransitive(a[1..], b[1..], c[1..]); }
  }

  predicate IsDigit(c: char)
  {
    '0' <= c <= '9'
  }

  function DigitChar(d: nat): (c: char)
    requires d < 10
    ensures IsDigit(c)
  {
    (48 + d) as char
  }

  /** `str(n)` for a natural number: its decimal digits, without leading zeros. */
  function NatToString(n: nat): (s: string)
    ensures |s| > 0
    ensures forall i :: 0 <= i < |s| ==> IsDigit(s[i])
    ensures (n < 10) == (|s| == 1)
    decreases n
  {
    if n < 10 then [DigitChar(n)] else NatToString(n / 10) + [DigitChar(n % 10)]
  }

  /** Distinct numbers print differently. */
  lemma {:induction false} NatToStringInjective(a: nat, b: nat)
    requires NatToString(a) == NatToString(b)
    ensures a == b
    decreases a
  {
    var sa, sb := NatToString(a), NatToString(b);
    assert sa[|sa| - 1] == DigitChar(a % 10) && sb[|sb| - 1] == DigitChar(b % 10);
    if a >= 10 && b >= 10 {
      assert sa[..|sa| - 1] == NatToString(a / 10);
      assert sb[..|sb| - 1] == NatToString(b / 10);
      NatToStringInjective(a / 10, b / 10);
    }
  }

  /** `s.endswith(suffix)`. */
  predicate EndsWith(s: string, suffix: string)
  {
    |suffix| <= |s| && s[|s| - |suffix|..] == suffix
  }

  /** `s.replace(pat, rep)`: every non-overlapping occurrence of `pat`, scanned
      from the left, is replaced by `rep`. */
  function ReplaceAll(s: string, pat: string, rep: string): string
    requires |pat| > 0
    decreases |s|
  {
    if |s| < |pat| then s
    else if s[..|pat|] == pat then rep + ReplaceAll(s[|pat|..], pat, rep)
    else [s[0]] + ReplaceAll(s[1..], pat, rep)
  }

  /** A string lacking some character of `pat` contains no occurrence of `pat`
      and is left alone. */
  lemma {:induction false} ReplaceAllAbsent(s: string, pat: string, rep: string, c: char)
    requires |pat| > 0 && c in pat && c !in s
    ensures ReplaceAll(s, pat, rep) == s
    decreases |s|
  {
    if |s| >= |pat| {
      ReplaceAllAbsent(s[1..], pat, rep, c);
      assert s == [s[0]] + s[1..];
    }
  }

  /** A leading occurrence of `pat` is replaced and the scan resumes after it. */
  lemma ReplaceAllLeading(pat: string, s: string, rep: string)
    requires |pat| > 0
    ensures ReplaceAll(pat + s, pat, rep) == rep + ReplaceAll(s, pat, rep)
  {
    assert (pat + s)[..|pat|] == pat;
    assert (pat + s)[|pat|..] == s;
  }

  /** A trailing `suffix` is the only occurrence when its first character does
      not appear before it; replacing it by nothing strips it. */
  lemma {:induction false} ReplaceAllTrailing(n: string, suffix: string)
    requires |suffix| > 0 && suffix[0] !in n
    ensures ReplaceAll(n + suffix, suffix, "") == n
    decreases |n|
  {
    if |n| == 0 {
      assert n + suffix == suffix;
      assert suffix[..|suffix|] == suffix && suffix[|suffix|..] == "";
    } else {
      var s := n + suffix;
      assert s[0] == n[0] != suffix[0];
      assert s[..|suffix|] != suffix by { assert s[..|suffix|][0] != suffix[0]; }
      assert s[1..] == n[1..] + suffix;
      ReplaceAllTrailing(n[1..], suffix);
      assert n == [n[0]] + n[1..];
    }
  }

  /** `pat` occurs in `s` starting at position `p`. */
  predicate OccursAt(s: string, pat: string, p: int)
  {
    0 <= p && p + |pat| <= |s| && s[p..p + |pat|] == pat
  }

  /** `pat in s` for strings: `pat` occurs somewhere in `s`. */
  predicate Contains(s: string, pat: string)
  {
    exists p | 0 <= p <= |s| :: OccursAt(s, pat, p)
  }

  /** A `suffix` whose first character does not recur in it, appended to a
      string that does not contain it, occurs only at the end; replacing it
      by nothing gives the string back. */
  lemma {:induction false} ReplaceAllOnlySuffix(n: string, suffix: string)
    requires |suffix| > 0 && suffix[0] !in suffix[1..]
    requires !Contains(n, suffix)
    ensures ReplaceAll(n + suffix, suffix, "") == n
    decreases |n|
  {
    var s := n + suffix;
    if |n| == 0 {
      assert s == suffix;
      assert suffix[..|suffix|] == suffix && suffix[|suffix|..] == "";
    } else {
      assert s[..|suffix|] != suffix by {
        if |n| >= |suffix| {
          assert !OccursAt(n, suffix, 0);
          assert n[0..0 + |suffix|] == s[..|suffix|];
        } else {
          assert suffix[|n|] == suffix[1..][|n| - 1];
          assert s[..|suffix|][|n|] == suffix[0] != suffix[|n|];
        }
      }
      assert s[1..] == n[1..] + suffix;
      assert !Contains(n[1..], suffix) by {
        forall p | OccursAt(n[1..], suffix, p) ensures OccursAt(n, suffix, p + 1) {
          assert n[1..][p..p + |suffix|] == n[p + 1..p + 1 + |suffix|];
        }
      }
      ReplaceAllOnlySuffix(n[1..], suffix);
      assert n == [n[0]] + n[1..];
    }
  }

  /** `repr` of a list of strings, `['a', 'b']`, with each name between single
      quotes. */
  function ListRepr(xs: seq<string>): (r: string)
    ensures |r| >= 2 && r[0] == '[' && r[|r| - 1] == ']'
  {
    "[" + JoinQuoted(xs) + "]"
  }

  /** The quoted names separated by `, `. */
  function JoinQuoted(xs: seq<string>): string
  {
    if |xs| == 0 then ""
    else if |xs| == 1 then "'" + xs[0] + "'"
    else JoinQuoted(xs[..|xs| - 1]) + ", '" + xs[|xs| - 1] + "'"
  }

  lemma ListReprExample()
    ensures ListRepr(["slot_id", "x"]) == "['slot_id', 'x']"
  {
    assert ["slot_id", "x"][..1] == ["slot_id"];
  }
}
