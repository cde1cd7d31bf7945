/**
 * A collection of content pages (src/render_engine/collection.py): the pages
 * found under its content root, the sorted pages, its archives and the
 * archives of each subcollection (pages grouped by an attribute value).
 */
module Collections {
  import opened Results
  import opened Strings
  import opened Pages
  import opened Ordering
  import opened Pagination

  /** `SubCollection(key, default)`: group the pages by attribute `key`, `default` standing in where it is missing. */
  datatype SubCollection = SubCollection(key: string, default: string)

  /**
   * The file system as a collection sees it: whether a path is a directory,
   * the paths `Path(root).glob(pattern)` yields, in the order it yields them,
   * and the text of a file.
   */
  datatype Disk = Disk(isDir: string -> bool, glob: (string, string) -> seq<string>, read: string -> string)

  /**
   * The attributes a collection is created with: the class attributes of the
   * `Collection` subclass overridden by the keyword arguments. `title` is
   * `None` when neither declares one.
   */
  datatype Settings = Settings(
    name: string,
    contentPath: string,
    contentType: ContentType,
    includes: seq<string>,
    itemsPerPage: Option<int>,
    sortBy: string,
    sortReverse: bool,
    hasArchive: bool,
    archiveTemplate: Option<string>,
    title: Option<string>,
    routes: seq<string>)

  /** Python truthiness of `archive_template`: `None` and `""` are false. */
  predicate NonEmpty(s: Option<string>) {
    s.Some? && s.value != ""
  }

  // ---------------------------------------------------------------------------
  // `Collection.pages` and `Collection._pages`

  /** `itertools.chain` of the matches of every pattern, in pattern order. */
  function MatchAll(glob: (string, string) -> seq<string>, root: string, patterns: seq<string>): (paths: seq<string>)
    ensures forall path :: path in paths <==> exists i :: 0 <= i < |patterns| && path in glob(root, patterns[i])
    decreases |patterns|
  {
    if patterns == [] then []
    else
      var init := patterns[..|patterns| - 1];
      var r := MatchAll(glob, root, init) + glob(root, patterns[|patterns| - 1]);
      assert forall i :: 0 <= i < |init| ==> patterns[i] == init[i];
      r
  }

  /** Chaining the matches of two lists of patterns is chaining the matches of each list: pattern order, then glob order, duplicates kept. */
  lemma {:induction false} MatchAllAppend(glob: (string, string) -> seq<string>, root: string, a: seq<string>, b: seq<string>)
    ensures MatchAll(glob, root, a + b) == MatchAll(glob, root, a) + MatchAll(glob, root, b)
    decreases |b|
  {
    if b == [] {
      assert a + b == a;
    } else {
      var init := b[..|b| - 1];
      assert (a + b)[..|a + b| - 1] == a + init;
      assert (a + b)[|a + b| - 1] == b[|b| - 1];
      MatchAllAppend(glob, root, a, init);
    }
  }

  /** One pattern matches exactly what `glob` yields for it, in that order. */
  lemma MatchAllSingle(glob: (string, string) -> seq<string>, root: string, pattern: string)
    ensures MatchAll(glob, root, [pattern]) == glob(root, pattern)
  {
    assert [pattern][..0] == [];
  }

  /** The page built from each path, in order; the first page that fails raises. */
  function LoadAll(load: string -> Result<Page, Error>, paths: seq<string>): (r: Result<seq<Page>, Error>)
    ensures r.Ok? <==> forall i :: 0 <= i < |paths| ==> load(paths[i]).Ok?
    ensures r.Ok? ==> |r.value| == |paths| && forall i :: 0 <= i < |paths| ==> load(paths[i]) == Ok(r.value[i])
    ensures r.Err? ==> exists i :: 0 <= i < |paths| && load(paths[i]) == Err(r.error)
                                  && forall j :: 0 <= j < i ==> load(paths[j]).Ok?
    decreases |paths|
  {
    if paths == [] then Ok([])
    else
      assert forall i :: 0 <= i < |paths| - 1 ==> paths[..|paths| - 1][i] == paths[i];
      match LoadAll(load, paths[..|paths| - 1])
      case Err(e) => Err(e)
      case Ok(init) =>
        match load(paths[|paths| - 1])
        case Err(e) => Err(e)
        case Ok(p) => Ok(init + [p])
  }

  // ---------------------------------------------------------------------------
  // `Collection._gen_subpages`: which buckets a page goes to

  /** `sub.key in getattr(page, "list_attrs", [])`: membership in a list, a substring test on a string. */
  predicate ListAttr(p: Page, key: string) {
    match Attr(p, "list_attrs")
    case None => false
    case Some(Str(s)) => IsSubstring(key, s)
    case Some(List(items)) => key in items
  }

  /** What `for k in value` visits: the characters of a string, the items of a list. */
  function Elements(v: Value): (r: seq<string>)
    ensures v.Str? ==> |r| == |v.s| && forall i :: 0 <= i < |r| ==> r[i] == [v.s[i]]
    ensures v.List? ==> r == v.items
  {
    match v
    case Str(s) => seq(|s|, i requires 0 <= i < |s| => [s[i]])
    case List(items) => items
  }

  /**
   * The buckets a page is appended to, once per entry. For a key listed in
   * `list_attrs`, one per element of the attribute (none if the page lacks
   * it); otherwise exactly one, named by the value or by the default, and a
   * list value, which cannot be a dictionary key, raises.
   */
  function BucketKeys(p: Page, sub: SubCollection): (r: Result<seq<string>, Error>)
    ensures r.Err? <==> !ListAttr(p, sub.key) && Attr(p, sub.key).Some? && Attr(p, sub.key).value.List?
    ensures r.Err? ==> r.error == Unhashable
    ensures r.Ok? && ListAttr(p, sub.key) ==>
      r.value == if Attr(p, sub.key).Some? then Elements(Attr(p, sub.key).value) else []
    ensures r.Ok? && !ListAttr(p, sub.key) ==>
      r.value == [if Attr(p, sub.key).Some? then Attr(p, sub.key).value.s else sub.default]
  {
    var value := Attr(p, sub.key);
    if ListAttr(p, sub.key) then
      Ok(if value.Some? then Elements(value.value) else [])
    else
      match value
      case None => Ok([sub.default])
      case Some(Str(s)) => Ok([s])
      case Some(List(_)) => Err(Unhashable)
  }

  /** One `subpages[k].append(page)`. */
  datatype Placement = Placement(key: string, page: Page)

  function Placed(keys: seq<string>, p: Page): (r: seq<Placement>)
    ensures |r| == |keys| && forall i :: 0 <= i < |keys| ==> r[i] == Placement(keys[i], p)
  {
    seq(|keys|, i requires 0 <= i < |keys| => Placement(keys[i], p))
  }

  /** Every append the first loop makes, in order; the first page whose bucket is unhashable raises. */
  function Placements(pages: seq<Page>, sub: SubCollection): Result<seq<Placement>, Error>
    decreases |pages|
  {
    if pages == [] then Ok([])
    else
      var last := pages[|pages| - 1];
      match Placements(pages[..|pages| - 1], sub)
      case Err(e) => Err(e)
      case Ok(init) =>
        match BucketKeys(last, sub)
        case Err(e) => Err(e)
        case Ok(keys) => Ok(init + Placed(keys, last))
  }

  // ---------------------------------------------------------------------------
  // The grouping dictionary

  /** A `defaultdict(list)`: its keys in insertion order and its lists. */
  datatype Buckets = Buckets(order: seq<string>, contents: map<string, seq<Page>>)

  /** `subpages[k].append(page)` on a `defaultdict(list)`: a missing key is created, at the end, with an empty list. */
  function Add(b: Buckets, x: Placement): Buckets {
    var order := if x.key in b.contents then b.order else b.order + [x.key];
    var list := if x.key in b.contents then b.contents[x.key] else [];
    Buckets(order, b.contents[x.key := list + [x.page]])
  }

  /** The dictionary after the given appends, starting from an empty one. */
  function Grouped(ps: seq<Placement>): Buckets
    decreases |ps|
  {
    if ps == [] then Buckets([], map[]) else Add(Grouped(ps[..|ps| - 1]), ps[|ps| - 1])
  }

  /** The pages appended under key `k`, in order. */
  function AppendedTo(ps: seq<Placement>, k: string): seq<Page>
    decreases |ps|
  {
    if ps == [] then []
    else AppendedTo(ps[..|ps| - 1], k) + (if ps[|ps| - 1].key == k then [ps[|ps| - 1].page] else [])
  }

  /** `k` is first appended to before `k2` is. */
  predicate FirstBefore(ps: seq<Placement>, k: string, k2: string) {
    exists a :: 0 <= a < |ps| && ps[a].key == k && forall b :: 0 <= b < |ps| && ps[b].key == k2 ==> a < b
  }

  lemma GroupedSnoc(ps: seq<Placement>, x: Placement)
    ensures Grouped(ps + [x]) == Add(Grouped(ps), x)
  {
    assert (ps + [x])[..|ps|] == ps;
  }

  /** The keys of the dictionary are exactly the keys appended to, each listed once in `order`. */
  lemma {:induction false} GroupedKeys(ps: seq<Placement>)
    ensures forall k :: k in Grouped(ps).contents <==> exists i :: 0 <= i < |ps| && ps[i].key == k
    ensures forall k :: k in Grouped(ps).contents <==> k in Grouped(ps).order
    ensures forall i, j :: 0 <= i < j < |Grouped(ps).order| ==> Grouped(ps).order[i] != Grouped(ps).order[j]
    decreases |ps|
  {
    if ps != [] {
      var init, x := ps[..|ps| - 1], ps[|ps| - 1];
      GroupedKeys(init);
      forall k
        ensures k in Grouped(ps).contents <==> exists i :: 0 <= i < |ps| && ps[i].key == k
      {
        if exists i :: 0 <= i < |init| && init[i].key == k {
          var i :| 0 <= i < |init| && init[i].key == k;
          assert ps[i].key == k;
        }
        if k != x.key && exists i :: 0 <= i < |ps| && ps[i].key == k {
          var i :| 0 <= i < |ps| && ps[i].key == k;
          assert init[i].key == k;
        }
      }
    }
  }

  lemma {:induction false} AppendedToNone(ps: seq<Placement>, k: string)
    requires forall i :: 0 <= i < |ps| ==> ps[i].key != k
    ensures AppendedTo(ps, k) == []
    decreases |ps|
  {
    if ps != [] {
      AppendedToNone(ps[..|ps| - 1], k);
    }
  }

  /** Each list of the dictionary holds the pages appended to its key, in order. */
  lemma {:induction false} GroupedLists(ps: seq<Placement>, k: string)
    requires k in Grouped(ps).contents
    ensures Grouped(ps).contents[k] == AppendedTo(ps, k)
    decreases |ps|
  {
    var init, x := ps[..|ps| - 1], ps[|ps| - 1];
    if k in Grouped(init).contents {
      GroupedLists(init, k);
    } else {
      GroupedKeys(init);
      AppendedToNone(init, k);
    }
  }

  /** Every list of the dictionary holds at least the page whose append created it. */
  lemma {:induction false} GroupedNonEmpty(ps: seq<Placement>, k: string)
    requires k in Grouped(ps).contents
    ensures Grouped(ps).contents[k] != []
    decreases |ps|
  {
    var init, x := ps[..|ps| - 1], ps[|ps| - 1];
    if k != x.key {
      GroupedNonEmpty(init, k);
    }
  }

  /** The keys of the dictionary come in the order they were first appended to. */
  lemma {:induction false} GroupedOrder(ps: seq<Placement>)
    ensures forall i, j :: 0 <= i < j < |Grouped(ps).order| ==> FirstBefore(ps, Grouped(ps).order[i], Grouped(ps).order[j])
    decreases |ps|
  {
    if ps != [] {
      var init, x := ps[..|ps| - 1], ps[|ps| - 1];
      GroupedOrder(init);
      GroupedKeys(init);
      var old_ := Grouped(init).order;
      var order := Grouped(ps).order;
      forall i, j | 0 <= i < j < |order|
        ensures FirstBefore(ps, order[i], order[j])
      {
        if j < |old_| {
          assert FirstBefore(init, old_[i], old_[j]);
          var a :| 0 <= a < |init| && init[a].key == old_[i] && forall b :: 0 <= b < |init| && init[b].key == old_[j] ==> a < b;
          assert ps[a].key == order[i];
          forall b | 0 <= b < |ps| && ps[b].key == order[j]
            ensures a < b
          {
            if b < |init| {
              assert init[b].key == old_[j];
            }
          }
        } else {
          assert order[i] in Grouped(init).contents;
          var a :| 0 <= a < |init| && init[a].key == order[i];
          assert ps[a].key == order[i];
          forall b | 0 <= b < |ps| && ps[b].key == order[j]
            ensures a < b
          {
          }
        }
      }
    }
  }

  // ---------------------------------------------------------------------------
  // Paginating the buckets

  /** What the archives of a bucket depend on: the collection's sort and pagination settings. */
  datatype Paging = Paging(sortBy: string, reverse: bool, template: Template, itemsPerPage: Option<int>, routes: seq<string>)

  /** The archives of one bucket: its pages sorted like `sorted_pages`, paginated under the bucket key. */
  function BucketArchives(paging: Paging, k: string, bucket: seq<Page>): Result<seq<Archive>, Error> {
    match SortPages(bucket, paging.sortBy, paging.reverse)
    case Err(e) => Err(e)
    case Ok(sorted) => GenCollection(sorted, paging.template, k, paging.itemsPerPage, paging.routes)
  }

  /** The second loop of `_gen_subpages`: one result per key, in key order; the first failure raises. */
  function ArchiveAll(keys: seq<string>, contents: map<string, seq<Page>>, gen: (string, seq<Page>) -> Result<seq<Archive>, Error>): (r: Result<seq<seq<Archive>>, Error>)
    requires forall k :: k in keys ==> k in contents
    ensures r.Ok? <==> forall i :: 0 <= i < |keys| ==> gen(keys[i], contents[keys[i]]).Ok?
    ensures r.Ok? ==> |r.value| == |keys| && forall i :: 0 <= i < |keys| ==> gen(keys[i], contents[keys[i]]) == Ok(r.value[i])
    ensures r.Err? ==> exists i :: 0 <= i < |keys| && gen(keys[i], contents[keys[i]]) == Err(r.error)
                                  && forall j :: 0 <= j < i ==> gen(keys[j], contents[keys[j]]).Ok?
    decreases |keys|
  {
    if keys == [] then Ok([])
    else
      var k := keys[|keys| - 1];
      assert forall i :: 0 <= i < |keys| - 1 ==> keys[..|keys| - 1][i] == keys[i];
      match ArchiveAll(keys[..|keys| - 1], contents, gen)
      case Err(e) => Err(e)
      case Ok(init) =>
        match gen(k, contents[k])
        case Err(e) => Err(e)
        case Ok(archives) => Ok(init + [archives])
  }

  /** One more key extends the archives so far by that key's archives, or fails with its error. */
  lemma ArchiveAllStep(keys: seq<string>, contents: map<string, seq<Page>>, gen: (string, seq<Page>) -> Result<seq<Archive>, Error>, n: nat, init: seq<seq<Archive>>)
    requires forall k :: k in keys ==> k in contents
    requires n < |keys| && ArchiveAll(keys[..n], contents, gen) == Ok(init)
    ensures ArchiveAll(keys[..n + 1], contents, gen)
         == match gen(keys[n], contents[keys[n]]) case Err(e) => Err(e) case Ok(a) => Ok(init + [a])
  {
    assert keys[..n + 1][..n] == keys[..n];
  }

  lemma {:induction false} ArchiveAllErrExtends(keys: seq<string>, contents: map<string, seq<Page>>, gen: (string, seq<Page>) -> Result<seq<Archive>, Error>, n: nat, e: Error)
    requires forall k :: k in keys ==> k in contents
    requires n <= |keys| && ArchiveAll(keys[..n], contents, gen) == Err(e)
    ensures ArchiveAll(keys, contents, gen) == Err(e)
    decreases |keys| - n
  {
    if n < |keys| {
      assert keys[..n + 1][..n] == keys[..n];
      ArchiveAllErrExtends(keys, contents, gen, n + 1, e);
    } else {
      assert keys[..n] == keys;
    }
  }

  lemma {:induction false} PlacementsErrExtends(pages: seq<Page>, sub: SubCollection, n: nat, e: Error)
    requires n <= |pages| && Placements(pages[..n], sub) == Err(e)
    ensures Placements(pages, sub) == Err(e)
    decreases |pages| - n
  {
    if n < |pages| {
      assert pages[..n + 1][..n] == pages[..n];
      PlacementsErrExtends(pages, sub, n + 1, e);
    } else {
      assert pages[..n] == pages;
    }
  }

  /** The appends of the page at `i`, after those of the pages before it. */
  lemma PlacementsStep(pages: seq<Page>, sub: SubCollection, i: nat)
    requires i < |pages| && Placements(pages[..i], sub).Ok? && BucketKeys(pages[i], sub).Ok?
    ensures Placements(pages[..i + 1], sub) == Ok(Placements(pages[..i], sub).value + Placed(BucketKeys(pages[i], sub).value, pages[i]))
  {
    assert pages[..i + 1][..i] == pages[..i];
  }

  /** `for k in keys: subpages[k].append(p)`. */
  function AddAll(b: Buckets, keys: seq<string>, p: Page): Buckets
    decreases |keys|
  {
    if keys == [] then b else Add(AddAll(b, keys[..|keys| - 1], p), Placement(keys[|keys| - 1], p))
  }

  lemma {:induction false} GroupedAddAll(done: seq<Placement>, keys: seq<string>, p: Page)
    ensures Grouped(done + Placed(keys, p)) == AddAll(Grouped(done), keys, p)
    decreases |keys|
  {
    if keys == [] {
      assert done + Placed(keys, p) == done;
    } else {
      var init := keys[..|keys| - 1];
      GroupedAddAll(done, init, p);
      PlacedSnoc(done, init, keys[|keys| - 1], p);
      GroupedSnoc(done + Placed(init, p), Placement(keys[|keys| - 1], p));
      assert init + [keys[|keys| - 1]] == keys;
    }
  }

  lemma PlacedSnoc(done: seq<Placement>, keys: seq<string>, k: string, p: Page)
    ensures done + Placed(keys + [k], p) == (done + Placed(keys, p)) + [Placement(k, p)]
  {
  }

  /** The number of times `k` occurs in `keys`. */
  function Count(keys: seq<string>, k: string): nat
    decreases |keys|
  {
    if keys == [] then 0 else Count(keys[..|keys| - 1], k) + (if keys[|keys| - 1] == k then 1 else 0)
  }

  /** `p`, `n` times. */
  function Repeat(p: Page, n: nat): (r: seq<Page>)
    ensures |r| == n && forall i :: 0 <= i < n ==> r[i] == p
  {
    seq(n, _ => p)
  }

  /** Each page, in order, as many times as `k` is among its bucket keys. */
  function Copies(pages: seq<Page>, sub: SubCollection, k: string): seq<Page>
    requires forall i :: 0 <= i < |pages| ==> BucketKeys(pages[i], sub).Ok?
    decreases |pages|
  {
    if pages == [] then []
    else
      var last := pages[|pages| - 1];
      Copies(pages[..|pages| - 1], sub, k) + Repeat(last, Count(BucketKeys(last, sub).value, k))
  }

  lemma {:induction false} AppendedToPlaced(done: seq<Placement>, keys: seq<string>, p: Page, k: string)
    ensures AppendedTo(done + Placed(keys, p), k) == AppendedTo(done, k) + Repeat(p, Count(keys, k))
    decreases |keys|
  {
    if keys == [] {
      assert done + Placed(keys, p) == done;
    } else {
      var init := keys[..|keys| - 1];
      AppendedToPlaced(done, init, p, k);
      PlacedSnoc(done, init, keys[|keys| - 1], p);
      assert init + [keys[|keys| - 1]] == keys;
      var x := done + Placed(init, p);
      assert (x + [Placement(keys[|keys| - 1], p)])[..|x|] == x;
      if keys[|keys| - 1] == k {
        assert Repeat(p, Count(keys, k)) == Repeat(p, Count(init, k)) + [p];
      }
    }
  }

  /**
   * The pages appended to bucket `k` are the pages in order, each repeated
   * once per occurrence of `k` among its bucket keys; every page is checked
   * before the first append fails.
   */
  lemma {:induction false} PlacementsOk(pages: seq<Page>, sub: SubCollection)
    ensures Placements(pages, sub).Ok? <==> forall i :: 0 <= i < |pages| ==> BucketKeys(pages[i], sub).Ok?
    decreases |pages|
  {
    if pages != [] {
      PlacementsOk(pages[..|pages| - 1], sub);
    }
  }

  lemma {:induction false} PlacementsCopies(pages: seq<Page>, sub: SubCollection, k: string)
    requires Placements(pages, sub).Ok?
    ensures forall i :: 0 <= i < |pages| ==> BucketKeys(pages[i], sub).Ok?
    ensures AppendedTo(Placements(pages, sub).value, k) == Copies(pages, sub, k)
    decreases |pages|
  {
    PlacementsOk(pages, sub);
    if pages != [] {
      var init, last := pages[..|pages| - 1], pages[|pages| - 1];
      PlacementsOk(init, sub);
      PlacementsCopies(init, sub, k);
      AppendedToPlaced(Placements(init, sub).value, BucketKeys(last, sub).value, last, k);
    }
  }

  /**
   * A page whose key is not in its `list_attrs` goes to exactly one bucket:
   * the one named by its value, or by the default when it has none.
   */
  lemma SingleBucket(p: Page, sub: SubCollection, k: string)
    requires !ListAttr(p, sub.key) && BucketKeys(p, sub).Ok?
    ensures var name := if Attr(p, sub.key).Some? then Attr(p, sub.key).value.s else sub.default;
      Count(BucketKeys(p, sub).value, k) == if k == name then 1 else 0
  {
    assert BucketKeys(p, sub).value[..0] == [];
  }

  // ---------------------------------------------------------------------------
  // `Collection`

  class Collection {
    var name: string
    var contentPath: string
    var contentType: ContentType
    var includes: seq<string>
    var itemsPerPage: Option<int>
    var sortBy: string
    var sortReverse: bool
    var hasArchive: bool
    var archiveTemplate: Template
    var title: string
    var routes: seq<string>

    /**
     * `Collection.__init__`: the settings as given, the class name as the
     * title when there is none, and the archive template looked up when
     * `items_per_page` or `archive_template` is set. `has_archive` keeps its
     * value: the statement meant to set it only compares it with `True`.
     */
    constructor(s: Settings)
      ensures name == s.name && contentPath == s.contentPath && contentType == s.contentType
      ensures includes == s.includes && itemsPerPage == s.itemsPerPage
      ensures sortBy == s.sortBy && sortReverse == s.sortReverse
      ensures title == (if s.title.Some? then s.title.value else s.name)
      ensures hasArchive == s.hasArchive
      ensures archiveTemplate == if Truthy(s.itemsPerPage) || NonEmpty(s.archiveTemplate) then Loaded(s.archiveTemplate) else Raw(s.archiveTemplate)
      ensures routes == s.routes
    {
      name := s.name;
      contentPath := s.contentPath;
      contentType := s.contentType;
      includes := s.includes;
      itemsPerPage := s.itemsPerPage;
      sortBy := s.sortBy;
      sortReverse := s.sortReverse;
      hasArchive := s.hasArchive;
      archiveTemplate := Raw(s.archiveTemplate);
      title := s.name;
      routes := s.routes;
      new;
      if s.title.Some? {
        title := s.title.value;
      }
      if Truthy(itemsPerPage) || NonEmpty(s.archiveTemplate) {
        archiveTemplate := Loaded(s.archiveTemplate);
      }
    }

    /** The keyword fields every content page is built with. */
    function ContentFields(): map<string, Value>
      reads this
    {
      map["routes" := List(routes)]
    }

    /** `content_type(content_path=path, routes=routes)` for a file under the content root. */
    function Loader(disk: Disk): string -> Result<Page, Error>
      reads this
    {
      var ct, fields := contentType, ContentFields();
      path => PageOf(ct, fields, Contents(disk.read(path)))
    }

    /**
     * `collection.pages`: every file the include patterns match under the
     * content root, in pattern order, built into a page of the content type;
     * a content root that is not a directory raises.
     */
    function Pages(disk: Disk): (r: Result<seq<Page>, Error>)
      reads this
      ensures !disk.isDir(contentPath) ==> r == Err(InvalidContentRoot(contentPath))
      ensures disk.isDir(contentPath) ==> r == LoadAll(Loader(disk), MatchAll(disk.glob, contentPath, includes))
    {
      if !disk.isDir(contentPath) then Err(InvalidContentRoot(contentPath))
      else LoadAll(Loader(disk), MatchAll(disk.glob, contentPath, includes))
    }

    /**
     * Under a directory, the pages are those the content type builds from the
     * matched paths, one per path and in order, and loading fails exactly
     * when building one of them fails.
     */
    lemma PagesFromMatches(disk: Disk)
      requires disk.isDir(contentPath)
      ensures var paths, r := MatchAll(disk.glob, contentPath, includes), Pages(disk);
        && (r.Ok? <==> forall i :: 0 <= i < |paths| ==> PageOf(contentType, ContentFields(), Contents(disk.read(paths[i]))).Ok?)
        && (r.Ok? ==> |r.value| == |paths|)
        && (r.Ok? ==> forall i :: 0 <= i < |paths| ==> PageOf(contentType, ContentFields(), Contents(disk.read(paths[i]))) == Ok(r.value[i]))
    {
    }

    /** `collection.sorted_pages`. */
    function SortedPages(disk: Disk): Result<seq<Page>, Error>
      reads this
    {
      match Pages(disk)
      case Err(e) => Err(e)
      case Ok(pages) => SortPages(pages, sortBy, sortReverse)
    }

    /** `collection.archives`: nothing unless `has_archive`; then the sorted pages paginated under the collection's title. */
    function Archives(disk: Disk): (r: Result<seq<Archive>, Error>)
      reads this
      ensures !hasArchive ==> r == Ok([])
    {
      if !hasArchive then Ok([])
      else
        match SortedPages(disk)
        case Err(e) => Err(e)
        case Ok(sorted) => GenCollection(sorted, archiveTemplate, title, itemsPerPage, routes)
    }

    /** The archives of a bucket under this collection's settings. */
    function Gen(): (string, seq<Page>) -> Result<seq<Archive>, Error>
      reads this
    {
      var paging := Paging(sortBy, sortReverse, archiveTemplate, itemsPerPage, routes);
      (k, bucket) => BucketArchives(paging, k, bucket)
    }

    /** `collection._gen_subpages(sub)`, as a value. */
    function Subcollections(sub: SubCollection, disk: Disk): Result<seq<seq<Archive>>, Error>
      reads this
    {
      match Pages(disk)
      case Err(e) => Err(e)
      case Ok(pages) =>
        match Placements(pages, sub)
        case Err(e) => Err(e)
        case Ok(ps) =>
          GroupedKeys(ps);
          ArchiveAll(Grouped(ps).order, Grouped(ps).contents, Gen())
    }

    /**
     * `sorted_pages` raises when `pages` does; otherwise it holds the same
     * pages ordered by `sort_by` (descending when `sort_reverse`), the pages
     * with equal values keeping the order they were found in.
     */
    lemma SortedPagesCorrect(disk: Disk, v: Value)
      requires SortedPages(disk).Ok?
      ensures Pages(disk).Ok?
      ensures multiset(SortedPages(disk).value) == multiset(Pages(disk).value)
      ensures OrderedBy(SortedPages(disk).value, sortBy, sortReverse)
      ensures PagesWithKey(SortedPages(disk).value, sortBy, v) == PagesWithKey(Pages(disk).value, sortBy, v)
    {
      SortPagesPermutes(Pages(disk).value, sortBy, sortReverse);
      SortPagesOrderedStable(Pages(disk).value, sortBy, sortReverse, v);
    }

    /**
     * With `has_archive`, the archives list every page once, in the order of
     * `sorted_pages`, all under the collection's title, template and routes.
     */
    lemma ArchivesCorrect(disk: Disk)
      requires hasArchive && Archives(disk).Ok?
      ensures SortedPages(disk).Ok? && Listed(Archives(disk).value) == SortedPages(disk).value
      ensures multiset(Listed(Archives(disk).value)) == multiset(Pages(disk).value)
      ensures OrderedBy(Listed(Archives(disk).value), sortBy, sortReverse)
      ensures forall i :: 0 <= i < |Archives(disk).value| ==>
        var a := Archives(disk).value[i];
        a.title == title && a.template == archiveTemplate && a.routes == routes
    {
      SortPagesPermutes(Pages(disk).value, sortBy, sortReverse);
      SortPagesOrderedStable(Pages(disk).value, sortBy, sortReverse, Str(""));
    }

    /**
     * The `i`-th result of `_gen_subpages` is `gen_collection` of the `i`-th
     * bucket's pages, sorted like `sorted_pages`, titled with the bucket key,
     * under the collection's template, `items_per_page` and routes.
     */
    lemma SubcollectionIs(sub: SubCollection, disk: Disk, i: nat)
      requires Subcollections(sub, disk).Ok?
      ensures Pages(disk).Ok? && Placements(Pages(disk).value, sub).Ok?
      ensures var ps := Placements(Pages(disk).value, sub).value;
        |Subcollections(sub, disk).value| == |Grouped(ps).order|
      ensures var ps := Placements(Pages(disk).value, sub).value;
        var r := Subcollections(sub, disk).value;
        i < |r| ==>
          var k := Grouped(ps).order[i];
          var sorted := SortPages(AppendedTo(ps, k), sortBy, sortReverse);
          && sorted.Ok?
          && GenCollection(sorted.value, archiveTemplate, k, itemsPerPage, routes) == Ok(r[i])
    {
      var ps := Placements(Pages(disk).value, sub).value;
      var b := Grouped(ps);
      GroupedKeys(ps);
      var r := Subcollections(sub, disk).value;
      if i < |r| {
        var k := b.order[i];
        GroupedLists(ps, k);
        assert Gen()(k, b.contents[k]) == Ok(r[i]);
      }
    }

    /**
     * `_gen_subpages` gives one result per bucket, in the order the buckets
     * were created. The `i`-th lists the pages appended to its bucket, sorted
     * like `sorted_pages`: the same pages, ordered by `sort_by`, equal values
     * in the order they were appended. Its archives are titled with the
     * bucket key and carry the collection's template and routes. Without
     * `items_per_page` it is one archive without a slug; with `n` it is one
     * archive per chunk of `n` pages, the `j`-th with slug `key_j`.
     */
    lemma SubcollectionsCorrect(sub: SubCollection, disk: Disk, i: nat, v: Value)
      requires Subcollections(sub, disk).Ok?
      ensures Pages(disk).Ok? && Placements(Pages(disk).value, sub).Ok?
      ensures var ps := Placements(Pages(disk).value, sub).value;
        |Subcollections(sub, disk).value| == |Grouped(ps).order|
      ensures var ps := Placements(Pages(disk).value, sub).value;
        var r := Subcollections(sub, disk).value;
        i < |r| ==>
          var k := Grouped(ps).order[i];
          && multiset(Listed(r[i])) == multiset(AppendedTo(ps, k))
          && OrderedBy(Listed(r[i]), sortBy, sortReverse)
          && PagesWithKey(Listed(r[i]), sortBy, v) == PagesWithKey(AppendedTo(ps, k), sortBy, v)
          && (forall a :: 0 <= a < |r[i]| ==> r[i][a].title == k && r[i][a].template == archiveTemplate && r[i][a].routes == routes)
          && (!Truthy(itemsPerPage) ==> |r[i]| == 1 && r[i][0].slug == None)
          && (Truthy(itemsPerPage) ==>
                && r[i] != []
                && (forall a :: 0 <= a < |r[i]| ==> 1 <= |r[i][a].pages| <= itemsPerPage.value && r[i][a].slug == Some(ChunkSlug(k, a)))
                && (forall a :: 0 <= a < |r[i]| - 1 ==> |r[i][a].pages| == itemsPerPage.value))
    {
      SubcollectionIs(sub, disk, i);
      var ps := Placements(Pages(disk).value, sub).value;
      var r := Subcollections(sub, disk).value;
      if i < |r| {
        var k := Grouped(ps).order[i];
        GroupedKeys(ps);
        GroupedLists(ps, k);
        GroupedNonEmpty(ps, k);
        SortPagesPermutes(AppendedTo(ps, k), sortBy, sortReverse);
        SortPagesOrderedStable(AppendedTo(ps, k), sortBy, sortReverse, v);
      }
    }

    /**
     * `collection._gen_subpages(sub)`: append every page to the bucket of each
     * of its keys, creating buckets as they are first used; then sort and
     * paginate every bucket, in the order the buckets were created.
     */
    method GenSubpages(sub: SubCollection, disk: Disk) returns (r: Result<seq<seq<Archive>>, Error>)
      ensures r == Subcollections(sub, disk)
    {
      var loaded := Pages(disk);
      if loaded.Err? {
        return Err(loaded.error);
      }
      var subpages := Bucket(loaded.value, sub);
      if subpages.Err? {
        return Err(subpages.error);
      }
      GroupedKeys(Placements(loaded.value, sub).value);
      r := PaginateAll(subpages.value.order, subpages.value.contents);
    }

    /** The second loop of `_gen_subpages`: the archives of every bucket, in key order. */
    method PaginateAll(order: seq<string>, subpages: map<string, seq<Page>>) returns (r: Result<seq<seq<Archive>>, Error>)
      requires forall k :: k in order ==> k in subpages
      ensures r == ArchiveAll(order, subpages, Gen())
    {
      var gen := Gen();
      var subcollection: seq<seq<Archive>> := [];
      var n := 0;
      while n < |order|
        invariant 0 <= n <= |order|
        invariant ArchiveAll(order[..n], subpages, gen) == Ok(subcollection)
      {
        var k := order[n];
        var archives := BucketArchives(Paging(sortBy, sortReverse, archiveTemplate, itemsPerPage, routes), k, subpages[k]);
        assert gen(k, subpages[k]) == archives;
        ArchiveAllStep(order, subpages, gen, n, subcollection);
        if archives.Err? {
          ArchiveAllErrExtends(order, subpages, gen, n + 1, archives.error);
          return Err(archives.error);
        }
        subcollection := subcollection + [archives.value];
        n := n + 1;
      }
      assert order[..n] == order;
      return Ok(subcollection);
    }
  }

  /** The grouping `_gen_subpages` builds: the dictionary after every append, or the first failure. */
  function Grouping(pages: seq<Page>, sub: SubCollection): Result<Buckets, Error> {
    match Placements(pages, sub)
    case Err(e) => Err(e)
    case Ok(ps) => Ok(Grouped(ps))
  }

  /** `subpages[k].append(page)` for every key `k` in turn, on a `defaultdict(list)` given as its key order and contents. */
  method AppendToAll(order0: seq<string>, subpages0: map<string, seq<Page>>, keys: seq<string>, page: Page)
    returns (order: seq<string>, subpages: map<string, seq<Page>>)
    ensures Buckets(order, subpages) == AddAll(Buckets(order0, subpages0), keys, page)
  {
    order, subpages := order0, subpages0;
    var j := 0;
    while j < |keys|
      invariant 0 <= j <= |keys|
      invariant Buckets(order, subpages) == AddAll(Buckets(order0, subpages0), keys[..j], page)
    {
      var k := keys[j];
      assert keys[..j + 1][..j] == keys[..j];
      if k !in subpages {
        order := order + [k];
        subpages := subpages[k := []];
      }
      subpages := subpages[k := subpages[k] + [page]];
      j := j + 1;
    }
    assert keys[..j] == keys;
  }

  /** The first loop of `_gen_subpages`: append every page to the bucket of each of its keys. */
  method Bucket(pages: seq<Page>, sub: SubCollection) returns (r: Result<Buckets, Error>)
    ensures r == Grouping(pages, sub)
  {
    assert pages[..0] == [];
    var order: seq<string> := [];
    var subpages: map<string, seq<Page>> := map[];
    var i := 0;
    while i < |pages|
      invariant 0 <= i <= |pages|
      invariant Placements(pages[..i], sub).Ok?
      invariant Buckets(order, subpages) == Grouped(Placements(pages[..i], sub).value)
    {
      var page := pages[i];
      var keys := BucketKeys(page, sub);
      if keys.Err? {
        assert pages[..i + 1][..i] == pages[..i];
        PlacementsErrExtends(pages, sub, i + 1, keys.error);
        return Err(keys.error);
      }
      order, subpages := AppendToAll(order, subpages, keys.value, page);
      PlacementsStep(pages, sub, i);
      GroupedAddAll(Placements(pages[..i], sub).value, keys.value, page);
      i := i + 1;
    }
    assert pages[..i] == pages;
    return Ok(Buckets(order, subpages));
  }
}
