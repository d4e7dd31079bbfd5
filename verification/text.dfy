/** String primitives the source takes from Rust's `str`: `split(' ')`,
    `join`, `trim`, `to_lowercase`, `contains`, `ends_with`,
    `trim_end_matches` and PostgreSQL's `SUBSTRING(s, 1, n)`.
    Strings are sequences of Unicode scalar values. */
module Text {

  // ---------------------------------------------------------------------------
  // split / join
  // ---------------------------------------------------------------------------

  /** Joins `parts` with `sep` between consecutive parts (`[..].join(sep)`). */
  function Join(parts: seq<string>, sep: char): string
  {
    if |parts| == 0 then ""
    else if |parts| == 1 then parts[0]
    else parts[0] + [sep] + Join(parts[1..], sep)
  }

  /** `s.split(sep)`: the maximal `sep`-free pieces of `s`, including empty
      pieces between adjacent separators and at either end. Always at least
      one piece, and joining the pieces back gives `s`. */
  function Split(s: string, sep: char): (parts: seq<string>)
    ensures |parts| >= 1
    ensures forall i :: 0 <= i < |parts| ==> sep !in parts[i]
    ensures Join(parts, sep) == s
    decreases |s|
  {
    if |s| == 0 then [""]
    else
      var rest := Split(s[1..], sep);
      if s[0] == sep then
        assert Join([""] + rest, sep) == [sep] + Join(rest, sep) by {
          assert ([""] + rest)[1..] == rest;
        }
        [""] + rest
      else
        var parts := [[s[0]] + rest[0]] + rest[1..];
        assert Join(parts, sep) == [s[0]] + Join(rest, sep) by {
          if |rest| > 1 {
            assert parts[1..] == rest[1..];
          }
        }
        assert [s[0]] + s[1..] == s;
        parts
  }

  /** A separator-free prefix glues onto the first piece. */
  lemma {:induction false} SplitGlue(p: string, t: string, sep: char)
    requires sep !in p
    ensures Split(p + t, sep) == [p + Split(t, sep)[0]] + Split(t, sep)[1..]
    decreases |p|
  {
    if |p| == 0 {
      assert p + t == t;
      var parts := Split(t, sep);
      assert p + parts[0] == parts[0];
      assert parts == [parts[0]] + parts[1..];
    } else {
      assert (p + t)[1..] == p[1..] + t;
      assert (p + t)[0] == p[0];
      SplitGlue(p[1..], t, sep);
      assert [p[0]] + (p[1..] + Split(t, sep)[0]) == p + Split(t, sep)[0];
    }
  }

  /** Splitting the join of separator-free parts gives the parts back. */
  lemma {:induction false} SplitJoin(parts: seq<string>, sep: char)
    requires |parts| >= 1
    requires forall i :: 0 <= i < |parts| ==> sep !in parts[i]
    ensures Split(Join(parts, sep), sep) == parts
    decreases |parts|
  {
    if |parts| == 1 {
      SplitGlue(parts[0], "", sep);
      assert parts[0] + "" == parts[0];
    } else {
      var rest := parts[1..];
      SplitJoin(rest, sep);
      var t := [sep] + Join(rest, sep);
      assert t[1..] == Join(rest, sep);
      assert Split(t, sep) == [""] + rest;
      SplitGlue(parts[0], t, sep);
      assert parts[0] + t == Join(parts, sep);
      assert parts[0] + "" == parts[0];
      assert [parts[0]] + rest == parts;
    }
  }

  /** `s.split(sep).count() >= 2` exactly when `s` contains `sep`. */
  lemma SplitHasTwoIff(s: string, sep: char)
    ensures |Split(s, sep)| >= 2 <==> sep in s
  {
    var parts := Split(s, sep);
    if |parts| >= 2 {
      assert s == parts[0] + [sep] + Join(parts[1..], sep);
      assert s[|parts[0]|] == sep;
    }
  }

  // ---------------------------------------------------------------------------
  // trim / to_lowercase
  // ---------------------------------------------------------------------------

  /** Rust's `char::is_whitespace`: the Unicode White_Space property. */
  predicate IsWhitespace(c: char)
  {
    || ('\t' <= c <= '\r')
    || c == ' '
    || c == '\U{0085}'
    || c == '\U{00A0}'
    || c == '\U{1680}'
    || ('\U{2000}' <= c <= '\U{200A}')
    || c == '\U{2028}'
    || c == '\U{2029}'
    || c == '\U{202F}'
    || c == '\U{205F}'
    || c == '\U{3000}'
  }

  predicate AllWhitespace(s: string)
  {
    forall i :: 0 <= i < |s| ==> IsWhitespace(s[i])
  }

  /** `trim_start`: drops the leading whitespace and nothing else. */
  function TrimStart(s: string): (r: string)
    ensures |r| <= |s| && r == s[|s| - |r|..]
    ensures forall i :: 0 <= i < |s| - |r| ==> IsWhitespace(s[i])
    ensures |r| > 0 ==> !IsWhitespace(r[0])
  {
    if |s| > 0 && IsWhitespace(s[0]) then
      var r := TrimStart(s[1..]);
      assert forall i :: 1 <= i < |s| ==> s[i] == s[1..][i - 1];
      r
    else s
  }

  /** `trim_end`: drops the trailing whitespace and nothing else. */
  function TrimEnd(s: string): (r: string)
    ensures |r| <= |s| && r == s[..|r|]
    ensures forall i :: |r| <= i < |s| ==> IsWhitespace(s[i])
    ensures |r| > 0 ==> !IsWhitespace(r[|r| - 1])
  {
    if |s| > 0 && IsWhitespace(s[|s| - 1]) then
      var r := TrimEnd(s[..|s| - 1]);
      assert forall i :: 0 <= i < |s| - 1 ==> s[i] == s[..|s| - 1][i];
      r
    else s
  }

  /** `trim`: whitespace is cut on both sides and nothing else; the result
      is a slice of the input between two whitespace runs, neither starts
      nor ends with whitespace, and is empty exactly for all-whitespace
      input. */
  function Trim(s: string): (r: string)
    ensures |r| <= |s|
    ensures exists a, b :: 0 <= a <= b <= |s| && r == s[a..b] && AllWhitespace(s[..a]) && AllWhitespace(s[b..])
    ensures |r| > 0 ==> !IsWhitespace(r[0]) && !IsWhitespace(r[|r| - 1])
    ensures AllWhitespace(s) <==> r == ""
  {
    var a := TrimStart(s);
    var r := TrimEnd(a);
    TrimBothEnds(s, a, r);
    r
  }

  /** What cutting the leading and then the trailing whitespace leaves: a
      slice between two whitespace runs, empty exactly for all-whitespace
      input. */
  lemma TrimBothEnds(s: string, a: string, r: string)
    requires |a| <= |s| && a == s[|s| - |a|..]
    requires forall i :: 0 <= i < |s| - |a| ==> IsWhitespace(s[i])
    requires |a| > 0 ==> !IsWhitespace(a[0])
    requires |r| <= |a| && r == a[..|r|]
    requires forall i :: |r| <= i < |a| ==> IsWhitespace(a[i])
    requires |r| > 0 ==> !IsWhitespace(r[|r| - 1])
    ensures |r| <= |s|
    ensures exists a, b :: 0 <= a <= b <= |s| && r == s[a..b] && AllWhitespace(s[..a]) && AllWhitespace(s[b..])
    ensures |r| > 0 ==> !IsWhitespace(r[0]) && !IsWhitespace(r[|r| - 1])
    ensures AllWhitespace(s) <==> r == ""
  {
    var lo := |s| - |a|;
    var hi := lo + |r|;
    assert r == s[lo..hi];
    forall i | hi <= i < |s| ensures IsWhitespace(s[i]) {
      assert s[i] == a[i - lo];
    }
    if |r| > 0 {
      assert r[0] == a[0];
    }
    BetweenWhitespace(s, lo, hi);
  }

  /** A slice with only whitespace before and after it: the input is all
      whitespace exactly when the slice is empty. */
  lemma BetweenWhitespace(s: string, lo: nat, hi: nat)
    requires lo <= hi <= |s|
    requires forall i :: 0 <= i < lo ==> IsWhitespace(s[i])
    requires forall i :: hi <= i < |s| ==> IsWhitespace(s[i])
    requires lo < hi ==> !IsWhitespace(s[lo])
    ensures AllWhitespace(s[..lo]) && AllWhitespace(s[hi..])
    ensures exists a, b :: 0 <= a <= b <= |s| && s[lo..hi] == s[a..b] && AllWhitespace(s[..a]) && AllWhitespace(s[b..])
    ensures AllWhitespace(s) <==> lo == hi
  {
    assert forall i :: 0 <= i < |s[hi..]| ==> s[hi..][i] == s[hi + i];
  }

  /** A string without surrounding whitespace is its own trim. */
  lemma TrimNoop(s: string)
    requires |s| > 0 ==> !IsWhitespace(s[0]) && !IsWhitespace(s[|s| - 1])
    ensures Trim(s) == s
  {
  }

  lemma TrimIdempotent(s: string)
    ensures Trim(Trim(s)) == Trim(s)
  {
    TrimNoop(Trim(s));
  }

  /** ASCII case folding; every other character is kept. */
  function LowerChar(c: char): (d: char)
    ensures ('A' <= c <= 'Z') ==> 'a' <= d <= 'z' && d as int == c as int + 32
    ensures !('A' <= c <= 'Z') ==> d == c
  {
    if 'A' <= c <= 'Z' then (c as int + 32) as char else c
  }

  /** `to_lowercase`, restricted to ASCII letters. */
  function Lower(s: string): (r: string)
    ensures |r| == |s|
    ensures forall i :: 0 <= i < |s| ==> r[i] == LowerChar(s[i])
  {
    seq(|s|, i requires 0 <= i < |s| => LowerChar(s[i]))
  }

  /** A string without capital letters is its own lower case. */
  lemma LowerNoop(s: string)
    requires forall i :: 0 <= i < |s| ==> !('A' <= s[i] <= 'Z')
    ensures Lower(s) == s
  {
  }

  lemma LowerIdempotent(s: string)
    ensures Lower(Lower(s)) == Lower(s)
  {
  }

  /** The normal form the source matches keywords against:
      `s.trim().to_lowercase()`. */
  function Norm(s: string): string
  {
    Lower(Trim(s))
  }

  /** True iff `Norm(s)` is the empty string, i.e. `s` is all whitespace. */
  lemma NormEmptyIff(s: string)
    ensures Norm(s) == "" <==> AllWhitespace(s)
  {
  }

  // ---------------------------------------------------------------------------
  // contains / ends_with / trim_end_matches / substring
  // ---------------------------------------------------------------------------

  predicate IsPrefix(p: string, s: string)
  {
    |p| <= |s| && s[..|p|] == p
  }

  /** `s.contains(needle)`, scanning start positions left to right. */
  predicate Contains(s: string, needle: string)
    decreases |s|
  {
    IsPrefix(needle, s) || (|s| > 0 && Contains(s[1..], needle))
  }

  /** `needle` occurs in `s` at position `i`. */
  predicate OccursAt(s: string, needle: string, i: int)
  {
    0 <= i && i + |needle| <= |s| && s[i..i + |needle|] == needle
  }

  /** `Contains` agrees with the positional definition of a substring. */
  lemma {:induction false} ContainsIff(s: string, needle: string)
    ensures Contains(s, needle) <==> exists i :: OccursAt(s, needle, i)
    decreases |s|
  {
    if IsPrefix(needle, s) {
      assert OccursAt(s, needle, 0);
    } else if |s| > 0 {
      ContainsIff(s[1..], needle);
      if Contains(s[1..], needle) {
        var i :| OccursAt(s[1..], needle, i);
        assert s[i + 1..i + 1 + |needle|] == s[1..][i..i + |needle|];
        assert OccursAt(s, needle, i + 1);
      }
      if exists i :: OccursAt(s, needle, i) {
        var i :| OccursAt(s, needle, i);
        assert i != 0;
        assert s[1..][i - 1..i - 1 + |needle|] == s[i..i + |needle|];
        assert OccursAt(s[1..], needle, i - 1);
      }
    }
  }

  /** Every string contains itself and the empty string. */
  lemma ContainsSelf(s: string)
    ensures Contains(s, s) && Contains(s, "")
  {
    assert s[..|s|] == s;
    assert s[..0] == "";
  }

  /** A string contains a non-empty needle only if it contains the
      needle's first character. */
  lemma {:induction false} ContainsFirstChar(s: string, needle: string)
    requires |needle| > 0 && Contains(s, needle)
    ensures needle[0] in s
    decreases |s|
  {
    if !IsPrefix(needle, s) {
      ContainsFirstChar(s[1..], needle);
    } else {
      assert s[0] == needle[0];
    }
  }

  predicate EndsWithChar(s: string, c: char)
  {
    |s| > 0 && s[|s| - 1] == c
  }

  /** `trim_end_matches(c)`: strips every trailing `c`. */
  function TrimEndChar(s: string, c: char): (r: string)
    ensures |r| <= |s| && r == s[..|r|]
    ensures !EndsWithChar(r, c)
    ensures forall i :: |r| <= i < |s| ==> s[i] == c
  {
    if EndsWithChar(s, c) then TrimEndChar(s[..|s| - 1], c) else s
  }

  /** PostgreSQL's `SUBSTRING(s, 1, n)`: the first `n` characters. */
  function Truncate(s: string, n: nat): (r: string)
    ensures |r| <= n && |r| <= |s|
    ensures IsPrefix(r, s)
    ensures |s| <= n ==> r == s
    ensures |s| > n ==> |r| == n
  {
    if |s| <= n then s else s[..n]
  }

  /** Cutting to `n` and then to `m` is cutting to the smaller of the two. */
  lemma TruncateTwice(s: string, n: nat, m: nat)
    ensures Truncate(Truncate(s, n), m) == Truncate(s, if n <= m then n else m)
  {
  }
}
