/** `paginate_questions`: the page of a selection that the `page` query parameter asks for,
    cut with Python's slice `selection[start:end]`. */
module Pagination {
  import opened Wrappers
  import PyInt

  /** `QUESTIONS_PER_PAGE` */
  const QuestionsPerPage: nat := 10

  function Min(a: int, b: int): int { if a <= b then a else b }
  function Max(a: int, b: int): int { if a <= b then b else a }

  /** Where a Python slice bound `i` lands in a sequence of length `n`: a negative bound
      counts from the end, and every bound is clipped to `0 .. n`. */
  function SliceBound(i: int, n: nat): (k: nat)
    ensures k <= n
  {
    if i < 0 then Max(0, n + i) else Min(i, n)
  }

  /** Python's `s[i:j]` with step 1: with bounds inside the sequence it is the ordinary
      slice, and in every case it is a run of consecutive items. */
  function PySlice<T>(s: seq<T>, i: int, j: int): (r: seq<T>)
    ensures 0 <= i <= j <= |s| ==> r == s[i..j]
    ensures exists a, b :: 0 <= a <= b <= |s| && r == s[a..b]
  {
    var a, b := SliceBound(i, |s|), SliceBound(j, |s|);
    assert a < b || [] == s[a..a];
    if a < b then s[a..b] else []
  }

  /** `request.args.get("page", 1, type=int)`: the first `page` value read as an integer,
      and 1 when it is missing or is not an integer. */
  function PageNumber(page: Option<string>): (p: int)
    ensures page.None? ==> p == 1
    ensures p == 1 || (page.Some? && PyInt.ParseInt(page.value) == Some(p))
    ensures page.Some? && PyInt.ParseInt(page.value).Some? ==> p == PyInt.ParseInt(page.value).value
  {
    match page
    case None => 1
    case Some(text) => PyInt.ParseInt(text).GetOr(1)
  }

  /** The items of page number `page`: `selection[(page - 1) * 10 : (page - 1) * 10 + 10]`. */
  function PageSlice<T>(page: int, selection: seq<T>): (r: seq<T>)
    ensures |r| <= QuestionsPerPage
  {
    var start := (page - 1) * QuestionsPerPage;
    PySlice(selection, start, start + QuestionsPerPage)
  }

  /** `paginate_questions(request, selection)` */
  function Paginate<T>(page: Option<string>, selection: seq<T>): (r: seq<T>)
    ensures |r| <= QuestionsPerPage
  {
    PageSlice(PageNumber(page), selection)
  }

  /** A page from 1 on is the contiguous run of at most ten items from offset `(p - 1) * 10`,
      in the selection's order; past the end it is empty. */
  lemma PositivePage<T>(s: seq<T>, p: int)
    requires p >= 1
    ensures PageSlice(p, s) ==
              if (p - 1) * 10 < |s| then s[(p - 1) * 10 .. Min(|s|, p * 10)] else []
    ensures |PageSlice(p, s)| == Min(10, Max(0, |s| - (p - 1) * 10))
  {
  }

  /** Page 0 is always empty: its end bound is 0. */
  lemma PageZeroIsEmpty<T>(s: seq<T>)
    ensures PageSlice(0, s) == []
  {
  }

  /** A negative page counts back from the end of the selection, as Python's negative slice
      bounds do: page -1 holds the ten items that end ten before the last one. */
  lemma NegativePage<T>(s: seq<T>, p: int)
    requires p < 0
    ensures PageSlice(p, s) ==
              if |s| + p * 10 > 0 then s[Max(0, |s| + p * 10 - 10) .. |s| + p * 10] else []
  {
  }

  /** Every page, for any page number, is a run of consecutive items of the selection. */
  lemma PageIsContiguous<T>(s: seq<T>, p: int)
    ensures exists a, b :: 0 <= a <= b <= |s| && b - a <= QuestionsPerPage && PageSlice(p, s) == s[a..b]
  {
    var a, b := SliceBound((p - 1) * 10, |s|), SliceBound((p - 1) * 10 + 10, |s|);
    if a < b {
      assert PageSlice(p, s) == s[a..b];
    } else {
      assert PageSlice(p, s) == s[a..a];
    }
  }

  /** A missing page parameter, and one that is not an integer, both select page 1. */
  lemma DefaultPage<T>(page: Option<string>, s: seq<T>)
    requires page.None? || PyInt.ParseInt(page.value).None?
    ensures Paginate(page, s) == PageSlice(1, s)
    ensures |s| > 0 ==> Paginate(page, s) == s[..Min(|s|, 10)]
  {
  }

  /** `int()` skips white space around the page number and reads its sign. */
  lemma PaddedSignedPage()
    ensures PageNumber(Some(" +5 ")) == 5
  {
    var t := " +5 ";
    assert PyInt.SkipSpace(t, 0) == 1;
    assert PyInt.SkipSpaceBack(t, 1, 4) == 3;
    assert PyInt.Strip(t) == "+5";
    assert "+5"[1..] == "5";
    assert PyInt.Digits("5") == "5";
    assert PyInt.ReadSigned("+5") == Some(5);
  }

  /** `int()` reads digits grouped by an underscore. */
  lemma GroupedPage()
    ensures PageNumber(Some("1_0")) == 10
  {
    var t := "1_0";
    assert PyInt.SkipSpace(t, 0) == 0;
    assert PyInt.SkipSpaceBack(t, 0, 3) == 3;
    assert PyInt.Strip(t) == t;
    assert PyInt.Digits(t) == "10";
    assert PyInt.Value("10") == 10;
    assert PyInt.ReadSigned(t) == Some(10);
  }

  /** The page parameter written as the decimal form of `n` selects page `n`. */
  lemma ExplicitPage<T>(n: int, s: seq<T>)
    requires PyInt.WithinDigitLimit(n)
    ensures Paginate(Some(PyInt.ShowInt(n)), s) == PageSlice(n, s)
  {
    PyInt.ParseShowInt(n);
  }

  /** Pages 1 to n, one after another. */
  function Pages<T>(s: seq<T>, n: nat): seq<T>
  {
    if n == 0 then [] else Pages(s, n - 1) + PageSlice(n, s)
  }

  /** Pages 1, 2, ..., n read in order give back the first `10 * n` items of the selection:
      the pages never overlap, never skip an item and never reorder. */
  lemma {:induction false} PagesCover<T>(s: seq<T>, n: nat)
    ensures Pages(s, n) == s[..Min(|s|, n * 10)]
  {
    if n > 0 {
      PagesCover(s, n - 1);
      PositivePage(s, n);
      var k := Min(|s|, (n - 1) * 10);
      if (n - 1) * 10 < |s| {
        assert s[..k] + s[k..Min(|s|, n * 10)] == s[..Min(|s|, n * 10)];
      }
    }
  }
}
