/**
 * Pagination of a collection (src/render_engine/collection.py): `chunked`
 * from more-itertools, the `Archive` page and `gen_collection`, which turns an
 * ordered sequence of pages into the archive pages that list them.
 */
module Pagination {
  import opened Results
  import opened Strings
  import opened Pages

  /**
   * The template an archive is rendered with, as the collection holds it:
   * the value of `archive_template` as declared (`None` or a name), or the
   * jinja template `engine.get_template` returned for that name.
   */
  datatype Template = Raw(name: Option<string>) | Loaded(name: Option<string>)

  /**
   * An `Archive`: a `Page` built from the keyword arguments `title`, `routes`
   * and (when paginated) `slug`, with the pages it lists and its template.
   */
  datatype Archive = Archive(pages: seq<Page>, template: Template, title: string, slug: Option<string>, routes: seq<string>)

  /** The attributes of an archive seen as a page: `Page`'s class attributes under the keyword fields; no file. */
  function ArchivePage(a: Archive): (p: Page)
    ensures p.kind == "Archive" && p.meta == map[] && p.content == None
    ensures Attr(p, "title") == Some(Str(a.title))
    ensures Attr(p, "routes") == Some(List(a.routes))
    ensures a.slug.Some? ==> Attr(p, "slug") == Some(Str(a.slug.value))
    ensures a.slug.None? ==> Attr(p, "slug") == None
  {
    var fields := PageType.classAttrs + map["title" := Str(a.title), "routes" := List(a.routes)];
    Page("Archive", if a.slug.Some? then fields["slug" := Str(a.slug.value)] else fields, map[], None)
  }

  /** Python truthiness of `items_per_page`: `None` and `0` are false. */
  predicate Truthy(n: Option<int>) {
    n.Some? && n.value != 0
  }

  /** The pages of a sequence of chunks, in order. */
  function Flatten(chunks: seq<seq<Page>>): seq<Page> {
    if chunks == [] then [] else chunks[0] + Flatten(chunks[1..])
  }

  /**
   * `chunked(s, n)` for `n > 0`: consecutive pieces of `s`, every one of `n`
   * pages except the last, which holds the rest (between 1 and `n`).
   */
  function Chunks(s: seq<Page>, n: nat): (chunks: seq<seq<Page>>)
    requires n > 0
    ensures Flatten(chunks) == s
    ensures s == [] ==> chunks == []
    ensures s != [] ==> (|chunks| - 1) * n < |s| <= |chunks| * n
    ensures forall i :: 0 <= i < |chunks| ==> 1 <= |chunks[i]| <= n
    ensures forall i :: 0 <= i < |chunks| - 1 ==> |chunks[i]| == n
    decreases |s|
  {
    if s == [] then []
    else if |s| <= n then [s]
    else
      var rest := Chunks(s[n..], n);
      assert (|rest| + 1) * n == |rest| * n + n;
      assert s == s[..n] + s[n..];
      [s[..n]] + rest
  }

  /** The slug of archive `i` of a paginated collection: `f"{title}_{i}"`. */
  function ChunkSlug(title: string, i: nat): string {
    title + "_" + NatToString(i)
  }

  /** One archive per chunk, the `i`-th with slug `title_i`; all share the template, title and routes. */
  function ChunkArchives(chunks: seq<seq<Page>>, template: Template, title: string, routes: seq<string>): (r: seq<Archive>)
    ensures |r| == |chunks|
    ensures forall i :: 0 <= i < |r| ==>
      r[i] == Archive(chunks[i], template, title, Some(ChunkSlug(title, i)), routes)
  {
    seq(|chunks|, i requires 0 <= i < |chunks| => Archive(chunks[i], template, title, Some(ChunkSlug(title, i)), routes))
  }

  /** The pages listed by a sequence of archives, in order. */
  function Listed(archives: seq<Archive>): seq<Page> {
    if archives == [] then [] else archives[0].pages + Listed(archives[1..])
  }

  lemma {:induction false} ListedChunkArchives(chunks: seq<seq<Page>>, template: Template, title: string, routes: seq<string>, k: nat)
    requires k <= |chunks|
    ensures Listed(ChunkArchives(chunks, template, title, routes)[k..]) == Flatten(chunks[k..])
    decreases |chunks| - k
  {
    var r := ChunkArchives(chunks, template, title, routes);
    if k < |chunks| {
      ListedChunkArchives(chunks, template, title, routes, k + 1);
      assert r[k..][1..] == r[k + 1..];
      assert chunks[k..][1..] == chunks[k + 1..];
    }
  }

  /**
   * `gen_collection(pages, template, title, items_per_page, routes)`.
   * Without pagination it is one archive of all the pages and no slug. With
   * `items_per_page = n` it is one archive per chunk of `n`; `chunked` raises
   * for a negative `n` as soon as it is iterated, even over no pages. Every
   * archive reads `template.environment`, which a template never loaded
   * (a name or `None`) does not have; with no chunks it is never read.
   */
  function GenCollection(pages: seq<Page>, template: Template, title: string, itemsPerPage: Option<int>, routes: seq<string>): (r: Result<seq<Archive>, Error>)
    ensures r.Err? <==> (Truthy(itemsPerPage) && itemsPerPage.value < 0)
                        || (template.Raw? && !(Truthy(itemsPerPage) && pages == []))
    ensures r.Err? ==> r.error == (if Truthy(itemsPerPage) && itemsPerPage.value < 0 then InvalidPageSize else MissingAttribute("environment"))
    ensures r.Ok? ==> Listed(r.value) == pages
    ensures r.Ok? ==> forall i :: 0 <= i < |r.value| ==>
      r.value[i].template == template && r.value[i].title == title && r.value[i].routes == routes
    ensures r.Ok? && !Truthy(itemsPerPage) ==> |r.value| == 1 && r.value[0].slug == None
    ensures r.Ok? && Truthy(itemsPerPage) ==>
      var n := itemsPerPage.value;
      && (pages == [] ==> r.value == [])
      && (pages != [] ==> (|r.value| - 1) * n < |pages| <= |r.value| * n)
      && (forall i :: 0 <= i < |r.value| ==> 1 <= |r.value[i].pages| <= n && r.value[i].slug == Some(ChunkSlug(title, i)))
      && (forall i :: 0 <= i < |r.value| - 1 ==> |r.value[i].pages| == n)
  {
    if !Truthy(itemsPerPage) then
      if template.Raw? then Err(MissingAttribute("environment"))
      else
        var r := [Archive(pages, template, title, None, routes)];
        assert Listed(r) == pages + Listed([]);
        Ok(r)
    else if itemsPerPage.value < 0 then Err(InvalidPageSize)
    else
      var chunks := Chunks(pages, itemsPerPage.value);
      if chunks != [] && template.Raw? then Err(MissingAttribute("environment"))
      else
        var r := ChunkArchives(chunks, template, title, routes);
        ListedChunkArchives(chunks, template, title, routes, 0);
        assert r[0..] == r && chunks[0..] == chunks;
        Ok(r)
  }

  /** `gen_collection` over no pages, paginated, gives no archive at all. */
  lemma NoPagesNoArchives(template: Template, title: string, itemsPerPage: Option<int>, routes: seq<string>)
    requires Truthy(itemsPerPage) && itemsPerPage.value > 0
    ensures GenCollection([], template, title, itemsPerPage, routes) == Ok([])
  {
  }

  // ---------------------------------------------------------------------------
  // The identity of an archive page

  /** `str(archive)`: the slug when paginated, the title otherwise. */
  lemma ArchiveIdentity(a: Archive)
    ensures Identity(ArchivePage(a)) == Ok(Normalize(if a.slug.Some? then a.slug.value else a.title))
  {
  }

  lemma DigitsNormalize(d: string)
    requires AllDigits(d)
    ensures Normalize(d) == d
  {
  }

  lemma {:induction false} NormalizeAppend(x: string, y: string)
    ensures Normalize(x + y) == Normalize(x) + Normalize(y)
  {
    assert forall i :: 0 <= i < |x| ==> (x + y)[i] == x[i];
    assert forall i :: |x| <= i < |x| + |y| ==> (x + y)[i] == y[i - |x|];
  }

  /** The identity of a paginated archive is the normalized title, `_` and its index. */
  lemma ChunkIdentity(title: string, i: nat)
    ensures Normalize(ChunkSlug(title, i)) == Normalize(title) + "_" + NatToString(i)
  {
    NormalizeAppend(title, "_" + NatToString(i));
    NormalizeAppend("_", NatToString(i));
    DigitsNormalize(NatToString(i));
    assert Normalize("_") == "_";
  }

  lemma PrefixCancel(p: string, x: string, y: string)
    requires p + x == p + y
    ensures x == y
  {
    assert x == (p + x)[|p|..];
    assert y == (p + y)[|p|..];
  }

  /**
   * The archives of a paginated collection get pairwise distinct identities,
   * so no two of them are written to the same place.
   */
  lemma PagedIdentitiesDistinct(pages: seq<Page>, template: Template, title: string, itemsPerPage: Option<int>, routes: seq<string>, i: nat, j: nat)
    requires Truthy(itemsPerPage)
    requires GenCollection(pages, template, title, itemsPerPage, routes).Ok?
    requires i < j < |GenCollection(pages, template, title, itemsPerPage, routes).value|
    ensures var r := GenCollection(pages, template, title, itemsPerPage, routes).value;
      Identity(ArchivePage(r[i])) != Identity(ArchivePage(r[j]))
  {
    var r := GenCollection(pages, template, title, itemsPerPage, routes).value;
    ArchiveIdentity(r[i]);
    ArchiveIdentity(r[j]);
    ChunkIdentity(title, i);
    ChunkIdentity(title, j);
    if Normalize(ChunkSlug(title, i)) == Normalize(ChunkSlug(title, j)) {
      PrefixCancel(Normalize(title) + "_", NatToString(i), NatToString(j));
      NatToStringInjective(i, j);
    }
  }
}
