/**
 * The handful of Python `str` operations the handler and the Paddle dtype
 * helpers rely on: `find`/`index`/`in`, slicing, `split`, `int()` on a numeral
 * and `replace`, each with the Python semantics the callers depend on.
 */
module PyStr {
  import opened Common

  /** `pat` occurs in `s` starting at index `k`. */
  predicate OccursAt(s: string, pat: string, k: int)
  {
    0 <= k && k + |pat| <= |s| && s[k..k + |pat|] == pat
  }

  lemma OccursAtTail(s: string, pat: string, j: int)
    requires |s| > 0 && 1 <= j
    ensures OccursAt(s[1..], pat, j - 1) <==> OccursAt(s, pat, j)
  {
    if j - 1 + |pat| <= |s[1..]| {
      assert s[1..][j - 1..j - 1 + |pat|] == s[j..j + |pat|];
    }
  }

  /** `str.find`: the index of the first occurrence of `pat`, or -1. */
  function Find(s: string, pat: string): (r: int)
    ensures -1 <= r
    ensures r == -1 ==> forall j :: !OccursAt(s, pat, j)
    ensures r != -1 ==> OccursAt(s, pat, r) && forall j :: 0 <= j < r ==> !OccursAt(s, pat, j)
    decreases |s|
  {
    if |s| < |pat| then -1
    else if s[..|pat|] == pat then 0
    else
      var r := Find(s[1..], pat);
      assert forall j :: 1 <= j ==> (OccursAt(s[1..], pat, j - 1) <==> OccursAt(s, pat, j)) by {
        forall j | 1 <= j { OccursAtTail(s, pat, j); }
      }
      assert !OccursAt(s, pat, 0);
      if r == -1 then -1 else r + 1
  }

  /** An occurrence with none before it is what `find` reports. */
  lemma FindIs(s: string, pat: string, k: int)
    requires OccursAt(s, pat, k)
    requires forall j :: 0 <= j < k ==> !OccursAt(s, pat, j)
    ensures Find(s, pat) == k
  {
  }

  /** Python's `pat in s`. */
  predicate Contains(s: string, pat: string)
  {
    Find(s, pat) != -1
  }

  /** `str.index`: like `find`, but a missing substring raises ValueError. */
  function Index(s: string, pat: string): (r: Result<nat>)
    ensures r.Ok? <==> Contains(s, pat)
    ensures r.Ok? ==> r.value == Find(s, pat)
  {
    var i := Find(s, pat);
    if i == -1 then Err(ValueError) else Ok(i)
  }

  /** `s[a:b]` for non-negative bounds: both ends are clamped to `len(s)`. */
  function Slice(s: string, a: nat, b: nat): (r: string)
    ensures a <= b <= |s| ==> r == s[a..b]
    ensures b <= a ==> r == []
  {
    var lo := if a < |s| then a else |s|;
    var hi := if b < |s| then b else |s|;
    if hi <= lo then [] else s[lo..hi]
  }

  /** An occurrence inside the right part of a concatenation. */
  lemma OccursShift(a: string, b: string, pat: string, j: int)
    requires j >= |a|
    ensures OccursAt(a + b, pat, j) <==> OccursAt(b, pat, j - |a|)
  {
    if j + |pat| <= |a + b| {
      assert (a + b)[j..j + |pat|] == b[j - |a|..j - |a| + |pat|];
    }
  }

  /** An occurrence inside the left part of a concatenation. */
  lemma OccursPrefix(a: string, b: string, pat: string, j: int)
    requires 0 <= j && j + |pat| <= |a|
    ensures OccursAt(a + b, pat, j) <==> OccursAt(a, pat, j)
  {
    assert (a + b)[j..j + |pat|] == a[j..j + |pat|];
  }

  /** A pattern that occurs also has each of its prefixes occurring there. */
  lemma OccursPrefixPattern(s: string, pat: string, m: nat, j: int)
    requires m <= |pat|
    ensures OccursAt(s, pat, j) ==> OccursAt(s, pat[..m], j)
  {
    if OccursAt(s, pat, j) {
      assert s[j..j + m] == s[j..j + |pat|][..m];
    }
  }

  /** A pattern cannot start inside a prefix that lacks its first character. */
  lemma NoOccurrenceInPrefix(a: string, b: string, pat: string)
    requires |pat| > 0 && pat[0] !in a
    ensures forall j :: 0 <= j < |a| ==> !OccursAt(a + b, pat, j)
  {
    forall j | 0 <= j < |a| ensures !OccursAt(a + b, pat, j) {
      if j + |pat| <= |a + b| {
        assert (a + b)[j..j + |pat|][0] == a[j];
      }
    }
  }

  /** A pattern cannot occur where its first two characters never appear side by side. */
  lemma NoOccurrenceByPairs(s: string, pat: string)
    requires |pat| >= 2
    requires forall k :: 0 <= k < |s| - 1 ==> s[k] != pat[0] || s[k + 1] != pat[1]
    ensures forall k :: !OccursAt(s, pat, k)
  {
    forall k | 0 <= k && k + |pat| <= |s| ensures !OccursAt(s, pat, k) {
      assert s[k..k + |pat|][0] == s[k] && s[k..k + |pat|][1] == s[k + 1];
    }
  }

  // ---------------------------------------------------------------------
  // str.split(c) and its inverse, c.join(parts)

  /** `s.split(c)` for a one-character separator. */
  function Split(s: string, c: char): (r: seq<string>)
    ensures |r| >= 1
    ensures forall i :: 0 <= i < |r| ==> c !in r[i]
    decreases |s|
  {
    if s == [] then [""]
    else
      var rest := Split(s[1..], c);
      if s[0] == c then [""] + rest
      else [[s[0]] + rest[0]] + rest[1..]
  }

  /** `c.join(parts)`. */
  function Join(parts: seq<string>, c: char): string
    requires |parts| >= 1
  {
    if |parts| == 1 then parts[0] else parts[0] + [c] + Join(parts[1..], c)
  }

  lemma {:induction false} JoinSplit(s: string, c: char)
    ensures Join(Split(s, c), c) == s
    decreases |s|
  {
    if s != [] {
      var rest := Split(s[1..], c);
      JoinSplit(s[1..], c);
      if s[0] == c {
        assert Split(s, c) == [""] + rest;
        assert ([""] + rest)[1..] == rest;
      } else {
        var r := [[s[0]] + rest[0]] + rest[1..];
        assert Split(s, c) == r;
        if |rest| == 1 {
          assert Join(rest, c) == rest[0];
        } else {
          assert r[1..] == rest[1..];
          assert Join(rest, c) == rest[0] + [c] + Join(rest[1..], c);
        }
        assert s == [s[0]] + s[1..];
      }
    }
  }

  lemma {:induction false} SplitNoSeparator(x: string, c: char)
    requires c !in x
    ensures Split(x, c) == [x]
    decreases |x|
  {
    if x != [] {
      SplitNoSeparator(x[1..], c);
      assert [x[0]] + x[1..] == x;
    }
  }

  lemma {:induction false} SplitAtSeparator(x: string, y: string, c: char)
    requires c !in x
    ensures Split(x + [c] + y, c) == [x] + Split(y, c)
    decreases |x|
  {
    var s := x + [c] + y;
    if x == [] {
      assert s[1..] == y;
    } else {
      assert s[1..] == x[1..] + [c] + y;
      SplitAtSeparator(x[1..], y, c);
      assert [x[0]] + x[1..] == x;
    }
  }

  /** Splitting a join recovers the parts when no part holds the separator. */
  lemma {:induction false} SplitJoin(parts: seq<string>, c: char)
    requires |parts| >= 1
    requires forall i :: 0 <= i < |parts| ==> c !in parts[i]
    ensures Split(Join(parts, c), c) == parts
    decreases |parts|
  {
    if |parts| == 1 {
      SplitNoSeparator(parts[0], c);
    } else {
      SplitJoin(parts[1..], c);
      SplitAtSeparator(parts[0], Join(parts[1..], c), c);
      assert [parts[0]] + parts[1..] == parts;
    }
  }

  // ---------------------------------------------------------------------
  // int() on a decimal numeral, and str() of a natural number

  predicate IsDigit(ch: char)
  {
    '0' <= ch <= '9'
  }

  predicate IsNumeral(s: string)
  {
    |s| > 0 && forall i :: 0 <= i < |s| ==> IsDigit(s[i])
  }

  /** The value of a string of decimal digits. */
  function DigitsValue(s: string): nat
    requires forall i :: 0 <= i < |s| ==> IsDigit(s[i])
    decreases |s|
  {
    if s == [] then 0
    else
      var last := s[|s| - 1];
      assert IsDigit(last);
      10 * DigitsValue(s[..|s| - 1]) + (last as int - '0' as int)
  }

  /** `int(s)`: a numeral parses to its value, anything else raises ValueError. */
  function ParseInt(s: string): (r: Result<nat>)
    ensures r.Ok? <==> IsNumeral(s)
  {
    if IsNumeral(s) then Ok(DigitsValue(s)) else Err(ValueError)
  }

  /** `str(n)`: the shortest decimal numeral of `n`. */
  function NatToStr(n: nat): (s: string)
    ensures IsNumeral(s)
    decreases n
  {
    if n < 10 then [('0' as int + n) as char]
    else NatToStr(n / 10) + [('0' as int + n % 10) as char]
  }

  lemma {:induction false} ParseNatToStr(n: nat)
    ensures ParseInt(NatToStr(n)) == Ok(n)
    decreases n
  {
    var s := NatToStr(n);
    if n < 10 {
      assert s[..|s| - 1] == [];
      assert DigitsValue(s) == 10 * DigitsValue([]) + (s[0] as int - '0' as int);
    } else {
      ParseNatToStr(n / 10);
      assert s[..|s| - 1] == NatToStr(n / 10);
      assert s[|s| - 1] as int - '0' as int == n % 10;
    }
  }

  // ---------------------------------------------------------------------
  // str.replace(pat, repl)

  /** `s.replace(pat, repl)`: every non-overlapping occurrence, scanning left to right. */
  function Replace(s: string, pat: string, repl: string): string
    requires |pat| > 0
    decreases |s|
  {
    if |s| < |pat| then s
    else if s[..|pat|] == pat then repl + Replace(s[|pat|..], pat, repl)
    else [s[0]] + Replace(s[1..], pat, repl)
  }

  /** A string lacking some character of `pat` is left alone by `replace`. */
  lemma {:induction false} ReplaceMissingChar(s: string, pat: string, repl: string, j: nat)
    requires j < |pat| && pat[j] !in s
    ensures Replace(s, pat, repl) == s
    decreases |s|
  {
    if |s| >= |pat| {
      assert s[..|pat|][j] == s[j];
      ReplaceMissingChar(s[1..], pat, repl, j);
      assert [s[0]] + s[1..] == s;
    }
  }

  /** A leading occurrence is replaced and scanning resumes after it. */
  lemma ReplaceLeading(pat: string, t: string, repl: string)
    requires |pat| > 0
    ensures Replace(pat + t, pat, repl) == repl + Replace(t, pat, repl)
  {
    assert (pat + t)[..|pat|] == pat;
    assert (pat + t)[|pat|..] == t;
  }
}
