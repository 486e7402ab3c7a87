/*
 * The paginator of the e-book reader: a single greedy pass that packs the
 * serialized block-level elements of the flattened document (paragraphs,
 * divisions, sections, in reading order) into page strings of at most
 * PAGE_SIZE characters, unless a page is a single longer element: an
 * element is never split.
 *
 * The input is what the HTML traversal produces: one string per element,
 * each the element's own markup and therefore never empty.
 */
module Paginator {

  /** The page budget in characters; the only bound the paginator uses. */
  const PAGE_SIZE: nat := 2000

  /** The concatenation of a sequence of strings, left to right. */
  function Concat(s: seq<string>): string
  {
    if s == [] then "" else Concat(s[..|s| - 1]) + s[|s| - 1]
  }

  /** Every element serializes to a non-empty string (it carries its own tags). */
  predicate Serialized(elems: seq<string>)
  {
    forall i :: 0 <= i < |elems| ==> |elems[i]| > 0
  }

  lemma {:induction false} ConcatAppend(s: seq<string>, t: seq<string>)
    ensures Concat(s + t) == Concat(s) + Concat(t)
  {
    if t == [] {
      assert s + t == s;
    } else {
      var t' := t[..|t| - 1];
      assert (s + t)[..|s + t| - 1] == s + t';
      ConcatAppend(s, t');
    }
  }

  lemma ConcatSnoc(s: seq<string>, a: nat, i: nat)
    requires a <= i < |s|
    ensures Concat(s[a..i + 1]) == Concat(s[a..i]) + s[i]
  {
    assert s[a..i + 1][..i - a] == s[a..i];
  }

  lemma ConcatNonEmpty(s: seq<string>, a: nat, b: nat)
    requires Serialized(s) && a < b <= |s|
    ensures |Concat(s[a..b])| >= |s[b - 1]| > 0
  {
    assert s[a..b][..b - a - 1] == s[a..b - 1];
  }

  // ---------------------------------------------------------------------
  // What a pagination is: pages, together with the cut points that say
  // which elements each page holds.
  // ---------------------------------------------------------------------

  /**
   * Page j is the concatenation of elements cuts[j] .. cuts[j+1]-1; the cut
   * points rise from 0 to |elems|, so every element lands on exactly one
   * page, whole, in order.
   */
  ghost predicate Partitioned(elems: seq<string>, pages: seq<string>, cuts: seq<nat>)
  {
    |cuts| == |pages| + 1 && cuts[0] == 0 && cuts[|pages|] == |elems| &&
    (forall a, b :: 0 <= a <= b < |cuts| ==> cuts[a] <= cuts[b]) &&
    forall j {:trigger pages[j]} :: 0 <= j < |pages| ==> pages[j] == Concat(elems[cuts[j]..cuts[j + 1]])
  }

  /** Every page fits the budget, or consists of exactly one (oversized) element. */
  ghost predicate WithinBudget(elems: seq<string>, pages: seq<string>, cuts: seq<nat>)
    requires Partitioned(elems, pages, cuts)
  {
    forall j {:trigger pages[j]} :: 0 <= j < |pages| ==> |pages[j]| <= PAGE_SIZE || cuts[j + 1] == cuts[j] + 1
  }

  /**
   * A page followed by another element was closed only because that element
   * would have pushed it over the budget.
   */
  ghost predicate Maximal(elems: seq<string>, pages: seq<string>, cuts: seq<nat>)
    requires Partitioned(elems, pages, cuts)
  {
    forall j :: 0 <= j < |pages| && cuts[j + 1] < |elems| ==>
      |pages[j]| + |elems[cuts[j + 1]]| > PAGE_SIZE
  }

  /**
   * The only page that can be empty is the first, and it is empty exactly
   * when the first element on its own exceeds the budget.
   */
  ghost predicate EmptyOnlyFirst(elems: seq<string>, pages: seq<string>)
  {
    (forall j :: 0 <= j < |pages| && pages[j] == "" ==>
      j == 0 && 0 < |elems| && |elems[0]| > PAGE_SIZE) &&
    (0 < |elems| && |elems[0]| > PAGE_SIZE ==> 0 < |pages| && pages[0] == "")
  }

  /** The pagination the greedy pass produces, stated declaratively. */
  ghost predicate Greedy(elems: seq<string>, pages: seq<string>, cuts: seq<nat>)
  {
    Partitioned(elems, pages, cuts) && WithinBudget(elems, pages, cuts) &&
    Maximal(elems, pages, cuts) && EmptyOnlyFirst(elems, pages)
  }

  // ---------------------------------------------------------------------
  // The paginator
  // ---------------------------------------------------------------------

  /**
   * The state of the greedy pass after the first i elements: the closed
   * pages with their cut points, and the page being accumulated, which holds
   * the elements from the last cut point up to i and whose length is chars.
   */
  ghost predicate Scanned(elems: seq<string>, i: nat, pages: seq<string>, cuts: seq<nat>, current: string, chars: int)
  {
    chars == |current| && i <= |elems| && |cuts| == |pages| + 1 && cuts[0] == 0 && cuts[|pages|] <= i &&
    (i == 0 ==> pages == []) &&
    (0 < i ==> cuts[|pages|] < i) &&
    (forall a, b :: 0 <= a <= b < |cuts| ==> cuts[a] <= cuts[b]) &&
    (forall j {:trigger pages[j]} :: 0 <= j < |pages| ==> pages[j] == Concat(elems[cuts[j]..cuts[j + 1]])) &&
    current == Concat(elems[cuts[|pages|]..i]) &&
    (forall j {:trigger pages[j]} :: 0 <= j < |pages| ==> |pages[j]| <= PAGE_SIZE || cuts[j + 1] == cuts[j] + 1) &&
    (|current| <= PAGE_SIZE || i == cuts[|pages|] + 1) &&
    (forall j :: 0 <= j < |pages| ==> |pages[j]| + |elems[cuts[j + 1]]| > PAGE_SIZE) &&
    (forall j :: 0 <= j < |pages| && pages[j] == "" ==> j == 0 && |elems[0]| > PAGE_SIZE) &&
    (0 < i && |elems[0]| > PAGE_SIZE ==> 0 < |pages| && pages[0] == "")
  }

  /**
   * One iteration of the scan: element i either joins the page being
   * accumulated or, when it does not fit, the accumulated page is closed and
   * element i starts the next one.
   */
  lemma Step(elems: seq<string>, i: nat, pages: seq<string>, cuts: seq<nat>, current: string, chars: int)
    requires Serialized(elems) && Scanned(elems, i, pages, cuts, current, chars) && i < |elems|
    ensures chars + |elems[i]| <= PAGE_SIZE ==>
      Scanned(elems, i + 1, pages, cuts, current + elems[i], chars + |elems[i]|)
    ensures chars + |elems[i]| > PAGE_SIZE ==>
      Scanned(elems, i + 1, pages + [current], cuts + [i], "" + elems[i], 0 + |elems[i]|)
  {
    if chars + |elems[i]| <= PAGE_SIZE {
      ConcatSnoc(elems, cuts[|pages|], i);
    } else {
      if 0 < i {
        ConcatNonEmpty(elems, cuts[|pages|], i);
      }
      ConcatSnoc(elems, i, i);
      assert elems[i..i] == [];
      var pages', cuts' := pages + [current], cuts + [i];
      forall j | 0 <= j < |pages'|
        ensures pages'[j] == Concat(elems[cuts'[j]..cuts'[j + 1]])
      {
        if j < |pages| {
          assert cuts'[j + 1] == cuts[j + 1];
        }
      }
    }
  }

  /**
   * After the last element: a non-empty accumulated page becomes the last
   * page, and an empty one means there were no elements at all.
   */
  lemma Finish(elems: seq<string>, i: nat, pages: seq<string>, cuts: seq<nat>, current: string, chars: int)
    requires Serialized(elems) && Scanned(elems, i, pages, cuts, current, chars) && i == |elems|
    ensures |current| != 0 ==> Greedy(elems, pages + [current], cuts + [i])
    ensures |current| == 0 ==> elems == [] && pages == [] && Greedy(elems, pages, cuts)
  {
    if |current| != 0 {
      var pages', cuts' := pages + [current], cuts + [i];
      forall j | 0 <= j < |pages'|
        ensures pages'[j] == Concat(elems[cuts'[j]..cuts'[j + 1]])
      {
        if j < |pages| {
          assert cuts'[j + 1] == cuts[j + 1];
        }
      }
    } else {
      if 0 < |elems| {
        ConcatNonEmpty(elems, cuts[|pages|], |elems|);
        assert false;
      }
      assert |cuts| == 1 && cuts[0] == 0;
      NoElements(elems, pages, cuts);
    }
  }

  /** The empty element list has the empty pagination. */
  lemma NoElements(elems: seq<string>, pages: seq<string>, cuts: seq<nat>)
    requires elems == [] && pages == [] && cuts == [0]
    ensures Greedy(elems, pages, cuts)
  {
  }

  /**
   * divide_into_pages. The screen size argument is accepted and ignored: the
   * bound is always PAGE_SIZE. There is no guard on the accumulator being
   * non-empty before a page is closed, so an oversized first element is
   * preceded by an empty page. The ghost out-parameter records the cut
   * points of the pages.
   */
  method DivideIntoPages(elems: seq<string>, screenSize: string) returns (pages: seq<string>, ghost cuts: seq<nat>)
    requires Serialized(elems)
    ensures Greedy(elems, pages, cuts)
    ensures Concat(pages) == Concat(elems)
  {
    pages := [];
    var currentPage := "";
    var currentChars := 0;
    cuts := [0];
    var i := 0;
    while i < |elems|
      invariant Scanned(elems, i, pages, cuts, currentPage, currentChars)
    {
      var elementStr := elems[i];
      Step(elems, i, pages, cuts, currentPage, currentChars);
      if currentChars + |elementStr| > PAGE_SIZE {
        pages := pages + [currentPage];
        currentPage := "";
        currentChars := 0;
        cuts := cuts + [i];
      }
      currentPage := currentPage + elementStr;
      currentChars := currentChars + |elementStr|;
      i := i + 1;
    }
    Finish(elems, i, pages, cuts, currentPage, currentChars);
    if |currentPage| != 0 {
      pages := pages + [currentPage];
      cuts := cuts + [i];
    }
    Coverage(elems, pages, cuts);
  }

  // ---------------------------------------------------------------------
  // Properties of a pagination
  // ---------------------------------------------------------------------

  lemma {:induction false} CoveragePrefix(elems: seq<string>, pages: seq<string>, cuts: seq<nat>, k: nat)
    requires Partitioned(elems, pages, cuts) && k <= |pages|
    ensures Concat(pages[..k]) == Concat(elems[..cuts[k]])
  {
    if k == 0 {
      assert pages[..0] == [] && elems[..cuts[0]] == [];
    } else {
      var a, b := cuts[k - 1], cuts[k];
      assert a <= b && pages[k - 1] == Concat(elems[a..b]);
      CoveragePrefix(elems, pages, cuts, k - 1);
      assert pages[..k][..k - 1] == pages[..k - 1];
      assert elems[..b] == elems[..a] + elems[a..b];
      ConcatAppend(elems[..a], elems[a..b]);
    }
  }

  /** Reading the pages in order gives back the concatenation of the elements, character for character. */
  lemma Coverage(elems: seq<string>, pages: seq<string>, cuts: seq<nat>)
    requires Partitioned(elems, pages, cuts)
    ensures Concat(pages) == Concat(elems)
  {
    CoveragePrefix(elems, pages, cuts, |pages|);
    assert pages[..|pages|] == pages && elems[..|elems|] == elems;
  }

  /**
   * Every element lies on exactly one page: no element is dropped, duplicated
   * or split across pages.
   */
  lemma PageOf(elems: seq<string>, pages: seq<string>, cuts: seq<nat>, i: nat) returns (j: nat)
    requires Partitioned(elems, pages, cuts) && i < |elems|
    ensures j < |pages| && cuts[j] <= i < cuts[j + 1]
    ensures forall k :: 0 <= k < |pages| && cuts[k] <= i < cuts[k + 1] ==> k == j
  {
    j := 0;
    while cuts[j + 1] <= i
      invariant j < |pages| && cuts[j] <= i
      decreases |pages| - j
    {
      j := j + 1;
    }
  }

  /** No pagination of an empty element list has a page. */
  lemma EmptyDocument(pages: seq<string>, cuts: seq<nat>)
    requires Greedy([], pages, cuts)
    ensures pages == []
  {
    if pages != [] {
      EmptySpan([], pages, cuts, 0);
    }
  }

  /** A page whose cut points coincide is empty. */
  lemma EmptySpan(elems: seq<string>, pages: seq<string>, cuts: seq<nat>, j: nat)
    requires Partitioned(elems, pages, cuts) && j < |pages| && cuts[j] == cuts[j + 1]
    ensures pages[j] == ""
  {
    assert elems[cuts[j]..cuts[j + 1]] == [];
  }

  /**
   * If page j of one pagination ends before the same page of another that
   * starts at the same element, the first must have closed an empty page
   * because of an oversized element, while the second holds that element.
   */
  lemma ShorterPage(elems: seq<string>, p1: seq<string>, c1: seq<nat>, p2: seq<string>, c2: seq<nat>, j: nat)
    requires Serialized(elems) && Partitioned(elems, p1, c1) && Partitioned(elems, p2, c2)
    requires Maximal(elems, p1, c1) && WithinBudget(elems, p2, c2)
    requires j < |p1| && j < |p2| && c1[j] == c2[j] && c1[j + 1] < c2[j + 1]
    ensures c1[j] == c1[j + 1] && p1[j] == "" && p2[j] != ""
    ensures c2[j + 1] == c2[j] + 1 && |elems[c1[j]]| > PAGE_SIZE
  {
    var c, a, b := c1[j], c1[j + 1], c2[j + 1];
    assert p1[j] == Concat(elems[c..a]) && p2[j] == Concat(elems[c..b]);
    assert elems[c..b] == elems[c..a + 1] + elems[a + 1..b];
    ConcatAppend(elems[c..a + 1], elems[a + 1..b]);
    ConcatSnoc(elems, c, a);
    assert |p1[j]| + |elems[a]| > PAGE_SIZE;
    assert b == c + 1;
    ConcatNonEmpty(elems, c, b);
    EmptySpan(elems, p1, c1, j);
  }

  /** Two greedy paginations agreeing on where page j starts agree on where it ends. */
  lemma SameEnd(elems: seq<string>, p1: seq<string>, c1: seq<nat>, p2: seq<string>, c2: seq<nat>, j: nat)
    requires Serialized(elems) && Greedy(elems, p1, c1) && Greedy(elems, p2, c2)
    requires j < |p1| && j < |p2| && c1[j] == c2[j]
    ensures c1[j + 1] >= c2[j + 1]
  {
    if c1[j + 1] < c2[j + 1] {
      ShorterPage(elems, p1, c1, p2, c2, j);
      assert false;
    }
  }

  lemma {:induction false} SameCuts(elems: seq<string>, p1: seq<string>, c1: seq<nat>, p2: seq<string>, c2: seq<nat>, j: nat)
    requires Serialized(elems) && Greedy(elems, p1, c1) && Greedy(elems, p2, c2)
    requires j <= |p1| && j <= |p2|
    ensures c1[j] == c2[j]
  {
    if j > 0 {
      SameCuts(elems, p1, c1, p2, c2, j - 1);
      SameEnd(elems, p1, c1, p2, c2, j - 1);
      SameEnd(elems, p2, c2, p1, c1, j - 1);
    }
  }

  lemma NotLonger(elems: seq<string>, p1: seq<string>, c1: seq<nat>, p2: seq<string>, c2: seq<nat>)
    requires Serialized(elems) && Greedy(elems, p1, c1) && Greedy(elems, p2, c2)
    ensures |p2| <= |p1|
  {
    var n := |p1|;
    if n < |p2| {
      SameCuts(elems, p1, c1, p2, c2, n);
      EmptySpan(elems, p2, c2, n);
      assert false;
    }
  }

  /**
   * The greedy pagination is unique: any two paginations meeting Greedy are
   * the same, so the paginator's output depends on the elements alone.
   */
  lemma GreedyUnique(elems: seq<string>, p1: seq<string>, c1: seq<nat>, p2: seq<string>, c2: seq<nat>)
    requires Serialized(elems) && Greedy(elems, p1, c1) && Greedy(elems, p2, c2)
    ensures p1 == p2 && c1 == c2
  {
    NotLonger(elems, p1, c1, p2, c2);
    NotLonger(elems, p2, c2, p1, c1);
    forall j | 0 <= j < |c1|
      ensures c1[j] == c2[j]
    {
      SameCuts(elems, p1, c1, p2, c2, j);
    }
  }

  /**
   * A single element longer than the budget yields an empty page followed by
   * the element, kept whole.
   */
  lemma OversizedSingleElement(e: string, pages: seq<string>, cuts: seq<nat>)
    requires |e| > PAGE_SIZE && Greedy([e], pages, cuts)
    ensures pages == ["", e]
  {
    var elems := [e];
    assert Concat(elems[0..0]) == "" by { assert elems[0..0] == []; }
    assert Concat(elems[0..1]) == e by { assert elems[0..1] == [e]; assert [e][..0] == []; }
    GreedyUnique(elems, ["", e], [0, 0, 1], pages, cuts);
  }

  /**
   * Five elements of 500, 600, 700, 900 and 300 characters make two pages:
   * the first three (1800 characters) and the last two (1200 characters).
   */
  lemma WorkedExample(elems: seq<string>, pages: seq<string>, cuts: seq<nat>)
    requires |elems| == 5 && |elems[0]| == 500 && |elems[1]| == 600 && |elems[2]| == 700
    requires |elems[3]| == 900 && |elems[4]| == 300
    requires Greedy(elems, pages, cuts)
    ensures pages == [Concat(elems[..3]), Concat(elems[3..])]
    ensures |pages[0]| == 1800 && |pages[1]| == 1200
  {
    assert Concat(elems[0..0]) == "" by { assert elems[0..0] == []; }
    ConcatSnoc(elems, 0, 0);
    ConcatSnoc(elems, 0, 1);
    ConcatSnoc(elems, 0, 2);
    assert Concat(elems[3..3]) == "" by { assert elems[3..3] == []; }
    ConcatSnoc(elems, 3, 3);
    ConcatSnoc(elems, 3, 4);
    assert elems[..3] == elems[0..3] && elems[3..] == elems[3..5];
    var p, c := [Concat(elems[..3]), Concat(elems[3..])], [0, 3, 5];
    assert Partitioned(elems, p, c);
    assert WithinBudget(elems, p, c);
    assert Maximal(elems, p, c);
    assert EmptyOnlyFirst(elems, p);
    GreedyUnique(elems, p, c, pages, cuts);
  }
}
