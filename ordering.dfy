/**
 * `sorted(pages, key=lambda page: getattr(page, sort_by), reverse=...)`, as
 * `Collection.sorted_pages` and `Collection._gen_subpages` use it: every key is
 * looked up first, the keys are compared with Python's `<`, and the sort is
 * stable in both directions.
 */
module Ordering {
  import opened Results
  import opened Strings
  import opened Pages

  // ---------------------------------------------------------------------------
  // Python's `<` on attribute values

  /** `<` on two lists of strings: element by element, a proper prefix coming first. */
  predicate ItemsLt(a: seq<string>, b: seq<string>)
    decreases |a|
  {
    if |a| == 0 then |b| > 0
    else if |b| == 0 then false
    else if a[0] == b[0] then ItemsLt(a[1..], b[1..])
    else StrLt(a[0], b[0])
  }

  /**
   * `<` on two attribute values. Python refuses to compare a string with a
   * list; the sort raises before that can happen, and here a string is taken
   * to come first, which makes the relation a strict total order.
   */
  predicate ValueLt(a: Value, b: Value) {
    match (a, b)
    case (Str(x), Str(y)) => StrLt(x, y)
    case (List(x), List(y)) => ItemsLt(x, y)
    case (Str(_), List(_)) => true
    case (List(_), Str(_)) => false
  }

  lemma {:induction false} ItemsLtIrreflexive(a: seq<string>)
    ensures !ItemsLt(a, a)
    decreases |a|
  {
    if |a| > 0 {
      ItemsLtIrreflexive(a[1..]);
    }
  }

  lemma {:induction false} ItemsLtTransitive(a: seq<string>, b: seq<string>, c: seq<string>)
    requires ItemsLt(a, b) && ItemsLt(b, c)
    ensures ItemsLt(a, c)
    decreases |a|
  {
    if |a| > 0 && |b| > 0 && |c| > 0 {
      if a[0] == b[0] && b[0] == c[0] {
        ItemsLtTransitive(a[1..], b[1..], c[1..]);
      } else if a[0] != b[0] && b[0] != c[0] {
        StrLtTransitive(a[0], b[0], c[0]);
        if a[0] == c[0] {
          StrLtIrreflexive(a[0]);
        }
      }
    }
  }

  lemma {:induction false} ItemsLtTotal(a: seq<string>, b: seq<string>)
    ensures a == b || ItemsLt(a, b) || ItemsLt(b, a)
    decreases |a|
  {
    if |a| > 0 && |b| > 0 {
      if a[0] == b[0] {
        ItemsLtTotal(a[1..], b[1..]);
        if a[1..] == b[1..] {
          assert a == [a[0]] + a[1..] && b == [b[0]] + b[1..];
        }
      } else {
        StrLtTotal(a[0], b[0]);
      }
    }
  }

  /** `<` on attribute values is irreflexive. */
  lemma ValueLtIrreflexive(a: Value)
    ensures !ValueLt(a, a)
  {
    match a
    case Str(x) => StrLtIrreflexive(x);
    case List(x) => ItemsLtIrreflexive(x);
  }

  /** `<` on attribute values is transitive. */
  lemma ValueLtTransitive(a: Value, b: Value, c: Value)
    requires ValueLt(a, b) && ValueLt(b, c)
    ensures ValueLt(a, c)
  {
    if a.Str? && b.Str? && c.Str? {
      StrLtTransitive(a.s, b.s, c.s);
    } else if a.List? && b.List? && c.List? {
      ItemsLtTransitive(a.items, b.items, c.items);
    }
  }

  /** Any two different attribute values are ordered one way or the other. */
  lemma ValueLtTotal(a: Value, b: Value)
    ensures a == b || ValueLt(a, b) || ValueLt(b, a)
  {
    if a.Str? && b.Str? {
      StrLtTotal(a.s, b.s);
    } else if a.List? && b.List? {
      ItemsLtTotal(a.items, b.items);
    }
  }

  // ---------------------------------------------------------------------------
  // Sorting keyed pages

  /** A page together with the key `getattr(page, sort_by)` looked up for it. */
  datatype Entry = Entry(key: Value, page: Page)

  /** `a` goes strictly before `b`: its key is smaller, or larger when the sort is reversed. */
  predicate Precedes(a: Entry, b: Entry, reverse: bool) {
    if reverse then ValueLt(b.key, a.key) else ValueLt(a.key, b.key)
  }

  lemma PrecedesAsymmetric(a: Entry, b: Entry, reverse: bool)
    requires Precedes(a, b, reverse)
    ensures !Precedes(b, a, reverse) && a.key != b.key
  {
    ValueLtIrreflexive(a.key);
    if Precedes(b, a, reverse) {
      if reverse {
        ValueLtTransitive(b.key, a.key, b.key);
      } else {
        ValueLtTransitive(a.key, b.key, a.key);
      }
      ValueLtIrreflexive(b.key);
    }
  }

  /** Not going after is transitive: `!Precedes(b, a)` and `!Precedes(c, b)` give `!Precedes(c, a)`. */
  lemma NotPrecedesTransitive(a: Entry, b: Entry, c: Entry, reverse: bool)
    requires !Precedes(b, a, reverse) && !Precedes(c, b, reverse)
    ensures !Precedes(c, a, reverse)
  {
    if Precedes(c, a, reverse) {
      ValueLtTotal(a.key, b.key);
      if a.key != b.key {
        if reverse {
          ValueLtTransitive(b.key, a.key, c.key);
        } else {
          ValueLtTransitive(c.key, a.key, b.key);
        }
      }
    }
  }

  /** No entry goes strictly before an earlier one. */
  predicate Sorted(s: seq<Entry>, reverse: bool) {
    forall i, j :: 0 <= i < j < |s| ==> !Precedes(s[j], s[i], reverse)
  }

  /** The entries of `s` whose key is `v`, in order. */
  function WithKey(s: seq<Entry>, v: Value): (r: seq<Entry>)
    ensures |r| <= |s|
  {
    if s == [] then []
    else WithKey(s[..|s| - 1], v) + (if s[|s| - 1].key == v then [s[|s| - 1]] else [])
  }

  /** Place `x` after every entry of the sorted `s` that does not go strictly after it. */
  function Insert(s: seq<Entry>, x: Entry, reverse: bool): seq<Entry>
    decreases |s|
  {
    if s == [] then [x]
    else if Precedes(x, s[|s| - 1], reverse) then Insert(s[..|s| - 1], x, reverse) + [s[|s| - 1]]
    else s + [x]
  }

  /** A stable insertion sort: each entry, in input order, inserted into the sorted entries before it. */
  function InsertionSort(s: seq<Entry>, reverse: bool): seq<Entry>
    decreases |s|
  {
    if s == [] then [] else Insert(InsertionSort(s[..|s| - 1], reverse), s[|s| - 1], reverse)
  }

  lemma {:induction false} InsertPermutes(s: seq<Entry>, x: Entry, reverse: bool)
    ensures multiset(Insert(s, x, reverse)) == multiset(s) + multiset{x}
    decreases |s|
  {
    if s != [] && Precedes(x, s[|s| - 1], reverse) {
      InsertPermutes(s[..|s| - 1], x, reverse);
      assert s == s[..|s| - 1] + [s[|s| - 1]];
    }
  }

  lemma {:induction false} InsertSorted(s: seq<Entry>, x: Entry, reverse: bool)
    requires Sorted(s, reverse)
    ensures Sorted(Insert(s, x, reverse), reverse)
    decreases |s|
  {
    if s == [] {
    } else if Precedes(x, s[|s| - 1], reverse) {
      var init := s[..|s| - 1];
      var last := s[|s| - 1];
      InsertSorted(init, x, reverse);
      InsertPermutes(init, x, reverse);
      var t := Insert(init, x, reverse);
      PrecedesAsymmetric(x, last, reverse);
      forall i | 0 <= i < |t|
        ensures !Precedes(last, t[i], reverse)
      {
        assert t[i] in multiset(t);
        if t[i] != x {
          assert t[i] in multiset(init);
          var k :| 0 <= k < |init| && init[k] == t[i];
          assert s[k] == t[i];
        }
      }
    } else {
      var last := s[|s| - 1];
      forall i | 0 <= i < |s|
        ensures !Precedes(x, s[i], reverse)
      {
        if i < |s| - 1 {
          NotPrecedesTransitive(s[i], last, x, reverse);
        }
      }
    }
  }

  lemma WithKeySnoc(s: seq<Entry>, e: Entry, v: Value)
    ensures WithKey(s + [e], v) == WithKey(s, v) + (if e.key == v then [e] else [])
  {
    assert (s + [e])[..|s|] == s;
  }

  /** Moving an entry past one with a different key leaves the entries of every key in the same order. */
  lemma WithKeySwap(init: seq<Entry>, t: seq<Entry>, x: Entry, last: Entry, v: Value)
    requires x.key != last.key
    requires WithKey(t, v) == WithKey(init, v) + (if x.key == v then [x] else [])
    ensures WithKey(t + [last], v) == WithKey(init + [last], v) + (if x.key == v then [x] else [])
  {
    WithKeySnoc(t, last, v);
    WithKeySnoc(init, last, v);
  }

  lemma {:induction false} InsertWithKey(s: seq<Entry>, x: Entry, reverse: bool, v: Value)
    ensures WithKey(Insert(s, x, reverse), v) == WithKey(s, v) + (if x.key == v then [x] else [])
    decreases |s|
  {
    if s == [] {
      assert Insert(s, x, reverse) == s + [x];
      WithKeySnoc(s, x, v);
    } else if Precedes(x, s[|s| - 1], reverse) {
      var init := s[..|s| - 1];
      var last := s[|s| - 1];
      InsertWithKey(init, x, reverse, v);
      PrecedesAsymmetric(x, last, reverse);
      WithKeySwap(init, Insert(init, x, reverse), x, last, v);
      assert s == init + [last];
    } else {
      WithKeySnoc(s, x, v);
    }
  }

  /** The insertion sort is a sorted, stable permutation of its input. */
  lemma InsertionSortCorrect(s: seq<Entry>, reverse: bool)
    ensures multiset(InsertionSort(s, reverse)) == multiset(s)
    ensures Sorted(InsertionSort(s, reverse), reverse)
    ensures forall v :: WithKey(InsertionSort(s, reverse), v) == WithKey(s, v)
  {
    InsertionSortPermutes(s, reverse);
    InsertionSortSorted(s, reverse);
    forall v
      ensures WithKey(InsertionSort(s, reverse), v) == WithKey(s, v)
    {
      InsertionSortStable(s, reverse, v);
    }
  }

  lemma {:induction false} InsertionSortPermutes(s: seq<Entry>, reverse: bool)
    ensures multiset(InsertionSort(s, reverse)) == multiset(s)
    decreases |s|
  {
    if s != [] {
      var init := s[..|s| - 1];
      var last := s[|s| - 1];
      InsertionSortPermutes(init, reverse);
      InsertPermutes(InsertionSort(init, reverse), last, reverse);
      assert s == init + [last];
    }
  }

  lemma {:induction false} InsertionSortSorted(s: seq<Entry>, reverse: bool)
    ensures Sorted(InsertionSort(s, reverse), reverse)
    decreases |s|
  {
    if s != [] {
      InsertionSortSorted(s[..|s| - 1], reverse);
      InsertSorted(InsertionSort(s[..|s| - 1], reverse), s[|s| - 1], reverse);
    }
  }

  lemma {:induction false} InsertionSortStable(s: seq<Entry>, reverse: bool, v: Value)
    ensures WithKey(InsertionSort(s, reverse), v) == WithKey(s, v)
    decreases |s|
  {
    if s != [] {
      var init := s[..|s| - 1];
      var last := s[|s| - 1];
      InsertionSortStable(init, reverse, v);
      InsertWithKey(InsertionSort(init, reverse), last, reverse, v);
      WithKeySnoc(init, last, v);
      assert s == init + [last];
    }
  }

  lemma {:induction false} WithKeyMembers(s: seq<Entry>, v: Value, e: Entry)
    ensures e in WithKey(s, v) <==> e in s && e.key == v
    decreases |s|
  {
    if s != [] {
      WithKeyMembers(s[..|s| - 1], v, e);
      assert s == s[..|s| - 1] + [s[|s| - 1]];
    }
  }

  /** The last entry of a sorted sequence goes strictly before none of its entries. */
  lemma SortedLast(s: seq<Entry>, reverse: bool, e: Entry)
    requires Sorted(s, reverse) && s != [] && e in s
    ensures !Precedes(s[|s| - 1], e, reverse)
  {
    var i :| 0 <= i < |s| && s[i] == e;
    if i < |s| - 1 {
      assert !Precedes(s[|s| - 1], s[i], reverse);
    } else {
      ValueLtIrreflexive(e.key);
    }
  }

  lemma SortedInit(s: seq<Entry>, reverse: bool)
    requires Sorted(s, reverse) && s != []
    ensures Sorted(s[..|s| - 1], reverse)
  {
  }

  /**
   * There is only one stable sort: two sorted sequences that hold the same
   * entries of every key in the same order are equal.
   */
  lemma {:induction false} StableSortUnique(u: seq<Entry>, w: seq<Entry>, reverse: bool)
    requires Sorted(u, reverse) && Sorted(w, reverse)
    requires forall v :: WithKey(u, v) == WithKey(w, v)
    ensures u == w
    decreases |u|
  {
    if u == [] || w == [] {
      if u != [] {
        WithKeyMembers(u, u[|u| - 1].key, u[|u| - 1]);
      } else if w != [] {
        WithKeyMembers(w, w[|w| - 1].key, w[|w| - 1]);
      }
    } else {
      SameLast(u, w, reverse);
      FrontLast(u);
      FrontLast(w);
      InitsAgree(u[..|u| - 1], w[..|w| - 1], u[|u| - 1]);
      SortedInit(u, reverse);
      SortedInit(w, reverse);
      StableSortUnique(u[..|u| - 1], w[..|w| - 1], reverse);
    }
  }

  lemma AppendCancel(x: seq<Entry>, y: seq<Entry>, z: seq<Entry>)
    requires x + z == y + z
    ensures x == y
  {
    assert x == (x + z)[..|x|];
    assert y == (y + z)[..|y|];
  }

  /** A non-empty sequence is its front followed by its last entry. */
  lemma FrontLast(s: seq<Entry>)
    requires s != []
    ensures s == s[..|s| - 1] + [s[|s| - 1]]
  {
  }

  lemma SnocInjective(x: seq<Entry>, a: Entry, y: seq<Entry>, b: Entry)
    requires x + [a] == y + [b]
    ensures x == y && a == b
  {
    assert a == (x + [a])[|x|];
    assert x == (x + [a])[..|x|];
  }

  /** Removing the same last entry from both keeps the entries of every key in the same order. */
  lemma InitsAgree(ui: seq<Entry>, wi: seq<Entry>, a: Entry)
    requires forall v :: WithKey(ui + [a], v) == WithKey(wi + [a], v)
    ensures forall v :: WithKey(ui, v) == WithKey(wi, v)
  {
    forall v
      ensures WithKey(ui, v) == WithKey(wi, v)
    {
      WithKeySnoc(ui, a, v);
      WithKeySnoc(wi, a, v);
      AppendCancel(WithKey(ui, v), WithKey(wi, v), if a.key == v then [a] else []);
    }
  }

  /** Two non-empty sorted sequences with the same entries of every key end with the same key. */
  lemma SameLastKey(u: seq<Entry>, w: seq<Entry>, reverse: bool)
    requires Sorted(u, reverse) && Sorted(w, reverse) && u != [] && w != []
    requires forall v :: WithKey(u, v) == WithKey(w, v)
    ensures u[|u| - 1].key == w[|w| - 1].key
  {
    var a, b := u[|u| - 1], w[|w| - 1];
    WithKeyMembers(u, a.key, a);
    WithKeyMembers(w, a.key, a);
    WithKeyMembers(w, b.key, b);
    WithKeyMembers(u, b.key, b);
    assert WithKey(u, a.key) == WithKey(w, a.key);
    assert WithKey(u, b.key) == WithKey(w, b.key);
    SortedLast(w, reverse, a);
    SortedLast(u, reverse, b);
    ValueLtTotal(a.key, b.key);
  }

  /** Two sequences ending in entries of the same key, with the same entries of that key, end alike. */
  lemma LastOfSameKey(ui: seq<Entry>, a: Entry, wi: seq<Entry>, b: Entry)
    requires a.key == b.key
    requires WithKey(ui + [a], a.key) == WithKey(wi + [b], a.key)
    ensures a == b
  {
    WithKeySnoc(ui, a, a.key);
    WithKeySnoc(wi, b, a.key);
    SnocInjective(WithKey(ui, a.key), a, WithKey(wi, a.key), b);
  }

  /** Two non-empty sorted sequences with the same entries of every key in the same order end alike. */
  lemma SameLast(u: seq<Entry>, w: seq<Entry>, reverse: bool)
    requires Sorted(u, reverse) && Sorted(w, reverse) && u != [] && w != []
    requires forall v :: WithKey(u, v) == WithKey(w, v)
    ensures u[|u| - 1] == w[|w| - 1]
  {
    SameLastKey(u, w, reverse);
    FrontLast(u);
    FrontLast(w);
    assert WithKey(u, u[|u| - 1].key) == WithKey(w, u[|u| - 1].key);
    LastOfSameKey(u[..|u| - 1], u[|u| - 1], w[..|w| - 1], w[|w| - 1]);
  }

  /** Any sorted sequence that keeps the entries of every key in input order is the insertion sort of the input. */
  lemma StableSortIsInsertionSort(s: seq<Entry>, t: seq<Entry>, reverse: bool)
    requires Sorted(t, reverse)
    requires forall v :: WithKey(t, v) == WithKey(s, v)
    ensures t == InsertionSort(s, reverse)
  {
    InsertionSortCorrect(s, reverse);
    StableSortUnique(t, InsertionSort(s, reverse), reverse);
  }

  // ---------------------------------------------------------------------------
  // `sorted(pages, key=..., reverse=...)`

  /** `getattr(page, sort_by)` for every page, in order; the first page without the attribute raises. */
  function Keyed(pages: seq<Page>, sortBy: string): (r: Result<seq<Entry>, Error>)
    ensures r.Err? <==> exists i :: 0 <= i < |pages| && Attr(pages[i], sortBy).None?
    ensures r.Err? ==> r.error == MissingAttribute(sortBy)
    ensures r.Ok? ==> |r.value| == |pages|
    ensures r.Ok? ==> forall i :: 0 <= i < |pages| ==> r.value[i] == Entry(Attr(pages[i], sortBy).value, pages[i])
    decreases |pages|
  {
    if pages == [] then Ok([])
    else
      match Keyed(pages[..|pages| - 1], sortBy)
      case Err(e) => Err(e)
      case Ok(init) =>
        match Attr(pages[|pages| - 1], sortBy)
        case None => Err(MissingAttribute(sortBy))
        case Some(v) => Ok(init + [Entry(v, pages[|pages| - 1])])
  }

  /** All keys are strings, or all are lists: no comparison between a string and a list is needed. */
  predicate Comparable(entries: seq<Entry>) {
    forall i, j :: 0 <= i < |entries| && 0 <= j < |entries| ==> entries[i].key.Str? == entries[j].key.Str?
  }

  function PagesOf(entries: seq<Entry>): (pages: seq<Page>)
    ensures |pages| == |entries| && forall i :: 0 <= i < |entries| ==> pages[i] == entries[i].page
  {
    seq(|entries|, i requires 0 <= i < |entries| => entries[i].page)
  }

  /**
   * `sorted(pages, key=lambda page: getattr(page, sort_by), reverse=reverse)`
   * with its entries: every key is looked up before any comparison, a string
   * key compared with a list key raises, and otherwise the result is the
   * stable sort.
   */
  function SortEntries(pages: seq<Page>, sortBy: string, reverse: bool): Result<seq<Entry>, Error> {
    match Keyed(pages, sortBy)
    case Err(e) => Err(e)
    case Ok(entries) =>
      if !Comparable(entries) then Err(NotComparable) else Ok(InsertionSort(entries, reverse))
  }

  /** The pages of `SortEntries`. */
  function SortPages(pages: seq<Page>, sortBy: string, reverse: bool): Result<seq<Page>, Error> {
    match SortEntries(pages, sortBy, reverse)
    case Err(e) => Err(e)
    case Ok(sorted) => Ok(PagesOf(sorted))
  }

  /**
   * The sort raises for a missing key and for a string key next to a list key;
   * otherwise its result is the input keyed and permuted, ordered by key
   * (descending when reversed), with the pages of every key in input order.
   */
  lemma SortEntriesCorrect(pages: seq<Page>, sortBy: string, reverse: bool)
    ensures var r := SortEntries(pages, sortBy, reverse);
      && ((exists i :: 0 <= i < |pages| && Attr(pages[i], sortBy).None?) ==> r == Err(MissingAttribute(sortBy)))
      && (Keyed(pages, sortBy).Ok? ==> (r == Err(NotComparable) <==> !Comparable(Keyed(pages, sortBy).value)))
      && (r.Ok? ==>
            var entries := Keyed(pages, sortBy).value;
            && multiset(r.value) == multiset(entries)
            && Sorted(r.value, reverse)
            && forall v :: WithKey(r.value, v) == WithKey(entries, v))
  {
    if Keyed(pages, sortBy).Ok? {
      InsertionSortCorrect(Keyed(pages, sortBy).value, reverse);
    }
  }

  lemma PagesOfSnoc(s: seq<Entry>, e: Entry)
    ensures PagesOf(s + [e]) == PagesOf(s) + [e.page]
  {
  }

  lemma {:induction false} InsertPagesPermute(s: seq<Entry>, x: Entry, reverse: bool)
    ensures multiset(PagesOf(Insert(s, x, reverse))) == multiset(PagesOf(s)) + multiset{x.page}
    decreases |s|
  {
    if s == [] {
      assert PagesOf([x]) == [x.page];
    } else if Precedes(x, s[|s| - 1], reverse) {
      var init := s[..|s| - 1];
      var last := s[|s| - 1];
      InsertPagesPermute(init, x, reverse);
      PagesOfSnoc(Insert(init, x, reverse), last);
      PagesOfSnoc(init, last);
      assert s == init + [last];
    } else {
      PagesOfSnoc(s, x);
    }
  }

  lemma {:induction false} InsertionSortPagesPermute(s: seq<Entry>, reverse: bool)
    ensures multiset(PagesOf(InsertionSort(s, reverse))) == multiset(PagesOf(s))
    decreases |s|
  {
    if s != [] {
      var init := s[..|s| - 1];
      var last := s[|s| - 1];
      InsertionSortPagesPermute(init, reverse);
      InsertPagesPermute(InsertionSort(init, reverse), last, reverse);
      PagesOfSnoc(init, last);
      assert s == init + [last];
    }
  }

  /** The sorted pages are a permutation of the pages. */
  lemma SortPagesPermutes(pages: seq<Page>, sortBy: string, reverse: bool)
    requires SortPages(pages, sortBy, reverse).Ok?
    ensures multiset(SortPages(pages, sortBy, reverse).value) == multiset(pages)
  {
    var entries := Keyed(pages, sortBy).value;
    InsertionSortPagesPermute(entries, reverse);
    assert PagesOf(entries) == pages;
  }

  // ---------------------------------------------------------------------------
  // The sorted pages, read through their attributes

  /** The pages whose attribute `sortBy` is `v`, in order. */
  function PagesWithKey(pages: seq<Page>, sortBy: string, v: Value): seq<Page> {
    if pages == [] then []
    else
      var last := pages[|pages| - 1];
      PagesWithKey(pages[..|pages| - 1], sortBy, v) + (if Attr(last, sortBy) == Some(v) then [last] else [])
  }

  /**
   * Every page has attribute `sortBy`, and the values never go down from one
   * page to a later one (never up, when reversed).
   */
  predicate OrderedBy(pages: seq<Page>, sortBy: string, reverse: bool) {
    (forall i :: 0 <= i < |pages| ==> Attr(pages[i], sortBy).Some?)
    && forall i, j :: 0 <= i < j < |pages| ==>
      var a, b := Attr(pages[i], sortBy).value, Attr(pages[j], sortBy).value;
      if reverse then !ValueLt(a, b) else !ValueLt(b, a)
  }

  /** Every entry's key is its page's attribute `sortBy`. */
  predicate WellKeyed(entries: seq<Entry>, sortBy: string) {
    forall i :: 0 <= i < |entries| ==> Attr(entries[i].page, sortBy) == Some(entries[i].key)
  }

  lemma WellKeyedPermutation(s: seq<Entry>, t: seq<Entry>, sortBy: string)
    requires WellKeyed(s, sortBy) && multiset(t) == multiset(s)
    ensures WellKeyed(t, sortBy)
  {
    forall i | 0 <= i < |t|
      ensures Attr(t[i].page, sortBy) == Some(t[i].key)
    {
      assert t[i] in multiset(s);
    }
  }

  lemma {:induction false} WellKeyedWithKey(s: seq<Entry>, sortBy: string, v: Value)
    requires WellKeyed(s, sortBy)
    ensures PagesOf(WithKey(s, v)) == PagesWithKey(PagesOf(s), sortBy, v)
    decreases |s|
  {
    if s != [] {
      var init, last := s[..|s| - 1], s[|s| - 1];
      WellKeyedWithKey(init, sortBy, v);
      assert PagesOf(s)[..|s| - 1] == PagesOf(init);
      if last.key == v {
        PagesOfSnoc(WithKey(init, v), last);
      } else {
        assert WithKey(s, v) == WithKey(init, v) + [];
      }
    }
  }

  lemma SortedOrderedBy(s: seq<Entry>, sortBy: string, reverse: bool)
    requires WellKeyed(s, sortBy) && Sorted(s, reverse)
    ensures OrderedBy(PagesOf(s), sortBy, reverse)
  {
  }

  lemma KeyedWellKeyed(pages: seq<Page>, sortBy: string)
    requires Keyed(pages, sortBy).Ok?
    ensures WellKeyed(Keyed(pages, sortBy).value, sortBy)
    ensures PagesOf(Keyed(pages, sortBy).value) == pages
  {
  }

  /**
   * `sorted_pages`: the pages ordered by attribute `sortBy` (descending when
   * reversed), and for every value the pages with that value in input order.
   */
  lemma SortPagesOrderedStable(pages: seq<Page>, sortBy: string, reverse: bool, v: Value)
    requires SortPages(pages, sortBy, reverse).Ok?
    ensures OrderedBy(SortPages(pages, sortBy, reverse).value, sortBy, reverse)
    ensures PagesWithKey(SortPages(pages, sortBy, reverse).value, sortBy, v) == PagesWithKey(pages, sortBy, v)
  {
    var entries := Keyed(pages, sortBy).value;
    var sorted := InsertionSort(entries, reverse);
    KeyedWellKeyed(pages, sortBy);
    InsertionSortCorrect(entries, reverse);
    WellKeyedPermutation(entries, sorted, sortBy);
    SortedOrderedBy(sorted, sortBy, reverse);
    WellKeyedWithKey(sorted, sortBy, v);
    WellKeyedWithKey(entries, sortBy, v);
  }
}
