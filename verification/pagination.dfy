/** `paginate_questions`: a fixed page size and a Python slice
    `formatted_questions[start:end]`, including Python's normalisation of
    negative and out-of-range slice bounds. */
module Pagination {
  import opened Seqs
  import opened Strings

  const QuestionsPerPage: nat := 10

  function Min(a: int, b: int): (m: int)
  {
    if a <= b then a else b
  }

  /** How Python turns one slice bound into an index of a list of length
      `n`: a negative bound counts from the end, and the result is clamped to
      `0..n`. */
  function SliceBound(i: int, n: nat): (k: nat)
    ensures k <= n
    ensures 0 <= i <= n ==> k == i
    ensures i > n ==> k == n
    ensures i < 0 && i + n >= 0 ==> k == i + n
    ensures i + n < 0 ==> k == 0
  {
    if i < 0 then (if i + n < 0 then 0 else i + n)
    else if i > n then n
    else i
  }

  /** `r` is the run of `s` that starts at index `a`. */
  ghost predicate IsWindow<T>(s: seq<T>, r: seq<T>, a: int)
  {
    0 <= a && a + |r| <= |s| && r == s[a..a + |r|]
  }

  /** Python's `s[start:end]`: the run from the normalised start to the
      normalised end, empty when the end does not come after the start. */
  function PySlice<T>(s: seq<T>, start: int, end: int): (r: seq<T>)
    ensures IsWindow(s, r, SliceBound(start, |s|))
    ensures |r| == if SliceBound(start, |s|) < SliceBound(end, |s|)
                   then SliceBound(end, |s|) - SliceBound(start, |s|) else 0
    ensures start <= end ==> |r| <= end - start
  {
    var a := SliceBound(start, |s|);
    var b := SliceBound(end, |s|);
    if a < b then
      assert IsWindow(s, s[a..b], a);
      s[a..b]
    else
      assert IsWindow(s, [], a);
      []
  }

  /** The `page` query argument, `request.args.get('page', 1, type=int)`:
      the raw text of the argument (`None` when it is absent) read with
      `int()`, and 1 when it is absent or `int()` rejects it. */
  function PageNumber(arg: Option<string>): (page: int)
  {
    match arg
    case None => 1
    case Some(t) => if IsNumeral(t) then ParseInt(t) else 1
  }

  /** `?page=N` selects page N for every integer N, written as `str(N)` or,
      for N >= 0, with a leading `+`; an absent argument, and one with no
      digit in it, select page 1. */
  lemma PageArgument(n: int, t: string)
    ensures PageNumber(Some(Decimal(n))) == n
    ensures n >= 0 ==> PageNumber(Some("+" + Decimal(n))) == n
    ensures PageNumber(None) == 1
    ensures (forall i :: 0 <= i < |t| ==> !('0' <= t[i] <= '9')) ==> PageNumber(Some(t)) == 1
  {
    ParseIntDecimal(n);
    if forall i :: 0 <= i < |t| ==> !('0' <= t[i] <= '9') {
      NoDigitNoNumeral(t);
    }
  }

  /** `paginate_questions`: the page-th run of `QuestionsPerPage` rows, as a
      Python slice. */
  function Paginate<T>(s: seq<T>, page: int): (r: seq<T>)
    ensures |r| <= QuestionsPerPage
    ensures exists a :: IsWindow(s, r, a)
  {
    var start := (page - 1) * QuestionsPerPage;
    PySlice(s, start, start + QuestionsPerPage)
  }

  /** When a page has rows, stated without slice normalisation: a positive
      page must start inside the list; page 0 is always empty; a negative
      page counts back from the end and has rows when the list is longer
      than `-page` pages. */
  predicate PageHasRows(n: nat, page: int)
  {
    if page >= 1 then (page - 1) * QuestionsPerPage < n
    else if page == 0 then false
    else -page * QuestionsPerPage < n
  }

  /** For a page numbered from 1, the page is the plain index range
      `[(page-1)*10, min(page*10, n))` of the list, empty past the end. */
  lemma PaginatePositive<T>(s: seq<T>, page: int)
    requires page >= 1
    ensures Paginate(s, page) ==
            s[Min((page - 1) * QuestionsPerPage, |s|)..Min(page * QuestionsPerPage, |s|)]
  {
  }

  /** A page is empty exactly when `PageHasRows` says so, for every page
      number, including 0 and the negative ones. */
  lemma PaginateEmptyIff<T>(s: seq<T>, page: int)
    ensures Paginate(s, page) == [] <==> !PageHasRows(|s|, page)
  {
    var start := (page - 1) * QuestionsPerPage;
    var a := SliceBound(start, |s|);
    var b := SliceBound(start + QuestionsPerPage, |s|);
    if page >= 1 {
      assert start >= 0;
    } else if page <= -1 {
      assert start + QuestionsPerPage == page * QuestionsPerPage;
    }
  }

  /** Every row lands on exactly the page its index says: row `i` is entry
      `i % 10` of page `i / 10 + 1`. */
  lemma PaginateLocates<T>(s: seq<T>, i: int)
    requires 0 <= i < |s|
    ensures i % QuestionsPerPage < |Paginate(s, i / QuestionsPerPage + 1)|
    ensures Paginate(s, i / QuestionsPerPage + 1)[i % QuestionsPerPage] == s[i]
  {
    var page := i / QuestionsPerPage + 1;
    PaginatePositive(s, page);
    assert (page - 1) * QuestionsPerPage + i % QuestionsPerPage == i;
  }

  /** Without a usable `page` argument the listing is page 1: the first
      `min(10, n)` rows, empty only when there are none. */
  lemma DefaultPageIsFirst<T>(s: seq<T>)
    ensures Paginate(s, PageNumber(None)) == s[..Min(QuestionsPerPage, |s|)]
    ensures Paginate(s, PageNumber(None)) == [] <==> s == []
  {
    PaginatePositive(s, 1);
  }

  /** Nineteen rows: page 1 holds ten, page 2 holds nine, page 3 is empty. */
  lemma NineteenRows<T>(s: seq<T>)
    requires |s| == 19
    ensures Paginate(s, 1) == s[..10]
    ensures Paginate(s, 2) == s[10..]
    ensures Paginate(s, 3) == []
  {
    PaginatePositive(s, 1);
    PaginatePositive(s, 2);
    PaginatePositive(s, 3);
  }
}
