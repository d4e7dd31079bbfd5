/** The client-side filters of the `list` commands: each supplied filter
    keeps, in order, the rows it matches (`Vec::retain`). Text filters
    compare exactly when `--exact` is given and otherwise look for the
    filter, lowercased, inside the lowercased column. An id filter must parse
    as a 64-bit integer and compares exactly. */
module Listing {
  import opened Wrappers
  import Text
  import IntParse

  /** `a` is obtained from `b` by deleting elements. */
  predicate IsSubseq<T(==,!new)>(a: seq<T>, b: seq<T>)
    decreases |b|
  {
    || |a| == 0
    || (|b| > 0 && ((a[0] == b[0] && IsSubseq(a[1..], b[1..])) || IsSubseq(a, b[1..])))
  }

  lemma {:induction false} IsSubseqTrans<T(!new)>(a: seq<T>, b: seq<T>, c: seq<T>)
    requires IsSubseq(a, b) && IsSubseq(b, c)
    ensures IsSubseq(a, c)
    decreases |c|
  {
    if |a| > 0 {
      if b[0] == c[0] && IsSubseq(b[1..], c[1..]) {
        if a[0] == b[0] && IsSubseq(a[1..], b[1..]) {
          IsSubseqTrans(a[1..], b[1..], c[1..]);
        } else {
          IsSubseqTrans(a, b[1..], c[1..]);
        }
      } else {
        IsSubseqTrans(a, b, c[1..]);
      }
    }
  }

  /** `rows.retain(keep)`. */
  function Retain<T(==,!new)>(rows: seq<T>, keep: T -> bool): (r: seq<T>)
    ensures |r| <= |rows|
    ensures forall x :: x in r <==> x in rows && keep(x)
    ensures IsSubseq(r, rows)
    decreases |rows|
  {
    if |rows| == 0 then []
    else
      var rest := Retain(rows[1..], keep);
      if keep(rows[0]) then
        assert ([rows[0]] + rest)[1..] == rest;
        [rows[0]] + rest
      else rest
  }

  /** Filters may be applied in either order, and two filters in a row are
      one filter for both conditions. */
  lemma {:induction false} RetainRetain<T(!new)>(rows: seq<T>, p: T -> bool, q: T -> bool)
    ensures Retain(Retain(rows, p), q) == Retain(rows, x => p(x) && q(x))
    decreases |rows|
  {
    if |rows| > 0 {
      RetainRetain(rows[1..], p, q);
      var rest := Retain(rows[1..], p);
      if p(rows[0]) {
        assert ([rows[0]] + rest)[1..] == rest;
      }
    }
  }

  lemma {:induction false} RetainCommutes<T(!new)>(rows: seq<T>, p: T -> bool, q: T -> bool)
    ensures Retain(Retain(rows, p), q) == Retain(Retain(rows, q), p)
    decreases |rows|
  {
    if |rows| > 0 {
      RetainCommutes(rows[1..], p, q);
      var rp, rq := Retain(rows[1..], p), Retain(rows[1..], q);
      assert ([rows[0]] + rp)[1..] == rp;
      assert ([rows[0]] + rq)[1..] == rq;
    }
  }

  lemma {:induction false} IsSubseqRefl<T(!new)>(rows: seq<T>)
    ensures IsSubseq(rows, rows)
    decreases |rows|
  {
    if |rows| > 0 {
      IsSubseqRefl(rows[1..]);
    }
  }

  /** The text comparison of a filter. */
  predicate Matches(exact: bool, column: string, filter: string)
  {
    if exact then column == filter else Text.Contains(Text.Lower(column), Text.Lower(filter))
  }

  /** For a nullable column: a row without a value never matches. */
  predicate OptMatches(exact: bool, column: Option<string>, filter: string)
  {
    column.Some? && Matches(exact, column.value, filter)
  }

  /** The comparison of the IP filters: the textual address, compared
      without case folding. */
  predicate MatchesCase(exact: bool, column: string, filter: string)
  {
    if exact then column == filter else Text.Contains(column, filter)
  }

  predicate OptMatchesCase(exact: bool, column: Option<string>, filter: string)
  {
    column.Some? && MatchesCase(exact, column.value, filter)
  }

  /** Every exact match is also a match without `--exact`, and the inexact
      comparison ignores ASCII case on both sides. */
  lemma MatchesFacts(column: string, filter: string)
    ensures Matches(true, column, filter) ==> Matches(false, column, filter)
    ensures Matches(false, column, filter) == Matches(false, Text.Lower(column), Text.Lower(filter))
  {
    Text.ContainsSelf(Text.Lower(column));
    Text.LowerIdempotent(column);
    Text.LowerIdempotent(filter);
  }

  /** An optional text filter: `None` keeps everything. */
  function FilterText<T(==,!new)>(rows: seq<T>, filter: Option<string>, exact: bool, column: T -> string): (r: seq<T>)
    ensures IsSubseq(r, rows)
    ensures forall x :: x in r <==> x in rows && (filter.None? || Matches(exact, column(x), filter.value))
  {
    if filter.None? then
      IsSubseqRefl(rows);
      rows
    else Retain(rows, x => Matches(exact, column(x), filter.value))
  }

  /** An optional filter on a nullable column. */
  function FilterOptText<T(==,!new)>(rows: seq<T>, filter: Option<string>, exact: bool, column: T -> Option<string>): (r: seq<T>)
    ensures IsSubseq(r, rows)
    ensures forall x :: x in r <==> x in rows && (filter.None? || OptMatches(exact, column(x), filter.value))
  {
    if filter.None? then
      IsSubseqRefl(rows);
      rows
    else Retain(rows, x => OptMatches(exact, column(x), filter.value))
  }

  /** An optional filter with its own comparison: `None` keeps everything. */
  function FilterWith<T(==,!new)>(rows: seq<T>, filter: Option<string>, keep: (T, string) -> bool): (r: seq<T>)
    ensures IsSubseq(r, rows)
    ensures forall x :: x in r <==> x in rows && (filter.None? || keep(x, filter.value))
  {
    if filter.None? then
      IsSubseqRefl(rows);
      rows
    else Retain(rows, x => keep(x, filter.value))
  }

  /** `--id`: a value that is not a 64-bit integer is the error
      `Wrong ID format.`; otherwise the rows with exactly that id. */
  function FilterId<T(==,!new)>(rows: seq<T>, id: Option<string>, idOf: T -> int): (r: Result<seq<T>, string>)
    ensures r.Err? <==> id.Some? && IntParse.ParseI64(id.value).None?
    ensures r.Err? ==> r.error == "Wrong ID format."
    ensures r.Ok? ==> IsSubseq(r.value, rows)
    ensures r.Ok? ==> forall x :: x in r.value <==> x in rows && (id.None? || Some(idOf(x)) == IntParse.ParseI64(id.value))
  {
    if id.None? then
      IsSubseqRefl(rows);
      Ok(rows)
    else
      match IntParse.ParseI64(id.value)
      case None => Err("Wrong ID format.")
      case Some(n) => Ok(Retain(rows, x => idOf(x) == n))
  }
}
