# render-engine: content pages, sorting, grouping and pagination

This project models two parts of the render-engine static-site generator in Dafny.

The first part is the `Page` of `render_engine/page.py`:
- how `Page.__init__` splits a content file into `key: value` header lines and a body;
- how it sets one lower-cased attribute per header;
- `str(page)`, the identity a page is written under;
- `page.html`.

The second part is the `Collection` of `src/render_engine/collection.py`:
- how a collection loads its pages from the files that match its include patterns;
- `sorted_pages`;
- how `_gen_subpages` buckets pages by an attribute into subcollections;
- how `gen_collection` and `archives` paginate an ordered page list into `Archive` pages.

Modules:
- `Results` (`results.dfy`): `Option`, `Result`, and the exceptions the code raises, as one `Error` datatype.
- `Strings` (`strings.dfy`): the ASCII subset of Python string behaviour that is used:
  - `\w`, `lower()`, `strip()` and `strip("\n")`;
  - `split(": ")`;
  - decimal formatting of an index;
  - string ordering.
- `Pages` (`page.dfy`): the page itself. It covers:
  - the header recognition of `(^\w+: \b.+$)` in multiline mode, as a per-line predicate;
  - `re.split` with a capturing group, as `SplitHeaders`;
  - the header loop of `__init__`, as the method `Load` and its specification `PageOf`;
  - `__str__` (`Identity`) and `html`.
- `PageFacts` (`page_facts.dfy`): what the parse guarantees.
  - which lines are headers;
  - when parsing fails;
  - which attributes are set, and to what;
  - what the body is;
  - the worked example `"title: Hello\ntags: a, b\n\nBody text."`.
- `PageRoundTrip` (`page_roundtrip.dfy`): writing parsed attributes and a body back as header lines and a body, and parsing that text again. It proves:
  - the conditions under which this gives back the same attributes and body;
  - that a body holding a header line does not survive the round trip.
- `Ordering` (`ordering.dfy`): Python's `sorted(..., key=getattr(page, sort_by), reverse=...)` as a stable insertion sort. It proves:
  - the result is a permutation of the input;
  - the result is ordered;
  - pages with equal keys keep their input order;
  - any sequence with those properties is the insertion sort's result.
- `Pagination` (`pagination.dfy`): `chunked`, `Archive` and `gen_collection`, with the page counts, sizes, slugs and identities of the archives.
- `Collections` (`collection.dfy`): the `Collection` class. Its constructor models `__init__`. The file also covers:
  - page loading over an abstract file system;
  - `sorted_pages` and `archives`;
  - `_gen_subpages`: a method whose first loop fills a `defaultdict(list)`, followed by a second loop that paginates every bucket.

A page is a value: its class name, its keyword fields and class attributes, the attributes set from header lines (`meta`), and the body if a file was read.
- An attribute is looked up in `meta` first. This is a modelling choice: the `Page.__init__` of `render_engine/page.py` takes no keyword fields, so the model treats keyword fields as set before the header loop runs.
- The header `_content` is not an ordinary attribute: it overwrites the body that line 39 of `page.py` set. The page keeps it as its body, not in `meta`.
- The headers `html` and `content` (in any case) raise: they name properties without a setter.
- Header attributes are always strings.
- `routes` and `list_attrs` may be lists.

The file system is a parameter `Disk` with three functions:
- `isDir` for `Path.is_dir`;
- `glob` for `Path.glob`, one list of paths per pattern;
- `read` for `Path.read_text`.

`Page.__init__` takes a `Source`, which is one of:
- no path;
- a path that does not exist;
- the text of an existing file.

The markdown converter is an argument of `Html`.

Where the description of the system and the code disagree, the model follows the code:
- With `items_per_page = n > 0`, every archive gets the slug `title_i`, including when there is only one archive.
- Re-serialising a page's parsed attributes and body and parsing the text again does not always give back the same attributes and body. `"title: Hello\n\n tags: a, b"` parses to `title = "Hello"` with the body `"tags: a, b"`. Written back as `"title: Hello\ntags: a, b"`, that parses to `title` and `tags` with an empty body: the body line is a header line. The round trip holds when:
  - every name is a lower-case word that is not `html` or `content`;
  - every value is one line, starts with a word character, holds no `": "` and has no whitespace at either end;
  - the body has no whitespace at either end and no header line.
- `Collection.__init__` never sets `has_archive`: line 101 of `collection.py` is a comparison (`==`), not an assignment. So `archives` is non-empty only when `has_archive` is set by a class attribute or a keyword argument.

## Model

| member | source | states |
|---|---|---|
| PageFacts.HeaderIsRegexMatch | render_engine/page.py:23 | A line is a header exactly when `(^\w+: \b.+$)` matches it: one or more word characters at the start of the line, then `": "`, then a word character, with no newline up to the end of the line |
| PageFacts.HeaderParts | render_engine/page.py:23 | A header line is its key, `": "` and its value; the key is all word characters and the value starts with a word character |
| PageFacts.HeaderOf | render_engine/page.py:23 | Any word-character key followed by `": "` and a single-line value that starts with a word character is a header line, and its key and value are recovered |
| PageFacts.SplitHeadersConcat | render_engine/page.py:38 | The pieces `re.split` returns concatenate back to the file text |
| PageFacts.SplitHeadersCaptures | render_engine/page.py:38 | The captured pieces (odd positions) are exactly the header lines of the text, in order |
| PageFacts.TailHasNoHeader | render_engine/page.py:38-39 | The popped last piece contains no header line |
| PageFacts.BodyFollowsLastHeader | render_engine/page.py:38-39 | The text is the pieces before the last one followed by the last one; there are 2h+1 pieces for h header lines; the piece before the tail is the last header line; the body is the stripped tail |
| PageFacts.ParseWithoutHeaders | render_engine/page.py:38-39 | Text without header lines sets no attribute and its body is the whole text stripped |
| PageFacts.ParseFails | render_engine/page.py:40-45 | Parsing fails exactly when some piece before the tail is not only newlines and either does not split on `": "` into exactly two parts or has a name that lower-cases to `html` or `content` |
| PageFacts.ApplyHeadersFails | render_engine/page.py:40-45 | The header loop fails exactly when one of its segments is rejected |
| PageFacts.RejectedSegmentFails | render_engine/page.py:43-45 | A segment that does not unpack, or that names a property without a setter, makes the loop raise, whatever follows it |
| PageFacts.AcceptedSegmentsApply | render_engine/page.py:43-45 | When every segment is blank or unpacks, the loop runs to the end |
| Pages.ApplyHeadersErrExtends | render_engine/page.py:43-45 | Once a segment raised, the segments after it change nothing |
| PageFacts.ApplyHeadersAttributes | render_engine/page.py:40-45 | The header loop leaves only lower-case names, never `html` or `content`, each holding a value with no whitespace at either end; when it raises, it is an unpack failure on one of its segments or a property name |
| PageFacts.ParseAttributes | render_engine/page.py:37-45 | A parse gives lower-case attribute names other than `html` and `content`, attribute values and a body with no whitespace at either end; when it raises, the error names one of the split pieces or a property |
| PageFacts.PropertyHeaderFails | render_engine/page.py:45 | A header line whose name lower-cases to `html` or `content` makes building the page raise, since `setattr` meets a property without a setter (page.py lines 59-72) |
| PageFacts.HeaderValueWithSeparatorFails | render_engine/page.py:44 | A header line whose value contains `": "` makes parsing fail |
| PageFacts.SplitHeaderLine | render_engine/page.py:44 | A header line splits into its key followed by the split of its value, so it gives two parts exactly when the value has no `": "` |
| PageFacts.ParseKeys | render_engine/page.py:43-45 | An attribute is set exactly when some segment before the body assigns its lower-cased key |
| PageFacts.ApplyHeadersKeys | render_engine/page.py:43-45 | The header loop sets an attribute exactly when some segment assigns its key |
| PageFacts.ParseValue | render_engine/page.py:43-45 | The attribute's value is the stripped value of the last segment that assigns that lower-cased key, so later headers overwrite earlier ones |
| PageFacts.ApplyHeadersValue | render_engine/page.py:43-45 | The header loop leaves each key at the stripped value of the last segment that assigns it |
| PageFacts.HeaderLineSetsAttribute | render_engine/page.py:38-45 | After a successful parse, every header line of the text splits into key and value and sets the attribute `key.lower()` |
| PageFacts.ParseSingleHeader | render_engine/page.py:38-45 | One header line followed by a body without headers sets one attribute `key.lower() = value.strip()`, and the body is the rest stripped; a key naming `html` or `content` raises |
| PageFacts.ParseTwoHeaders | render_engine/page.py:38-45 | Two header lines followed by a body without headers set both attributes, the second overwriting the first on an equal key, and the body is the rest stripped; the first header naming `html` or `content` raises |
| PageRoundTrip.ParseWritten | render_engine/page.py:37-45 | Writable attributes written as `key: value` lines, then a stripped body without header lines, parse to exactly those attributes (the later of two with one name winning) and that body |
| PageRoundTrip.MapOfLists | render_engine/page.py:43-45 | Writing the attributes of a mapping in any order, each at least once, sets exactly that mapping |
| PageRoundTrip.RoundTrip | render_engine/page.py:37-45 | A parse result with writable attributes and body, written back with its attributes in any order, parses to itself |
| PageRoundTrip.ParsedRoundTrip | render_engine/page.py:37-45 | Every such parse result has a written form that parses to itself |
| PageRoundTrip.ParseHeaderBody | render_engine/page.py:38-45 | A body that is itself a header line is read back as one more attribute, and the body becomes empty |
| PageRoundTrip.BodyHeaderBreaksRoundTrip | render_engine/page.py:38-45 | `"title: Hello\n\n tags: a, b"` parses to `title` and the body `"tags: a, b"`; written back, it parses to `title` and `tags` and an empty body |
| PageFacts.ParseExample | render_engine/page.py:38-45 | Parsing `"title: Hello\ntags: a, b\n\nBody text."` sets `title = "Hello"` and `tags = "a, b"`, and its body is `"Body text."` |
| Pages.PageOf | render_engine/page.py:28-45 | A missing file raises; with no path, no attribute and no body are set; after a read, the page exists exactly when the text parses, and a failed parse raises its own error; the page has the parsed attributes except `_content`, and its body is the value a `_content` header set, else the parsed body; the keyword fields are always set |
| PageFacts.PageBodyFromTail | render_engine/page.py:39 | Without a `_content` header, the page's body is the popped last piece, stripped, its attributes are the parsed ones, and `getattr(page, "_content")` is that body |
| PageFacts.PageBodyFromHeader | render_engine/page.py:39-45 | A `_content` header overwrites the body: the page's body, and `getattr(page, "_content")`, is the stripped value of the last such header, and `_content` is not among its other attributes |
| PageFacts.ContentHeaderExample | render_engine/page.py:39-45 | The file `"_content: Hi\n\nBody text."` gives a page with no other attribute whose body is `"Hi"` |
| Pages.ParseContent | render_engine/page.py:37-45 | Splitting the text, popping the stripped body and running the header loop computes `Parse` |
| Pages.SetAttributes | render_engine/page.py:40-45 | The loop over the segments before the body (skip blank segments, unpack each other one and set its attribute, stop at the first that does not unpack or that names a property) computes `ApplyHeaders` |
| Pages.SplitHeaders | render_engine/page.py:38 | `re.split` with one capturing group gives an odd number of pieces: text, then a captured line and the text after it, as many times as there are matches |
| Pages.Normalize | render_engine/page.py:57 | `lower().replace(" ", "_")` keeps the length, turns each space into `_` and lower-cases every other character, so no space and no upper-case letter is left |
| Strings.Lower | render_engine/page.py:45 | `lower()` keeps the length and maps each character through `LowerChar`, which lower-cases ASCII capitals and leaves every other character |
| Pages.Load | render_engine/page.py:28-45 | The constructor, with its existence check and header loop, builds `PageOf` |
| Pages.Identity | render_engine/page.py:47-57 | `str(page)` comes from the slug, else the title, else the class name; it has the same length as that source; spaces become `_` and letters are lower-cased, so the result has no space and no upper-case letter; a list-valued source raises |
| PageFacts.IdentityAsSlug | render_engine/page.py:47-49 | Giving any page the identity of another as its slug gives it the same identity |
| PageFacts.NormalizeIdempotent | render_engine/page.py:57 | Lower-casing and replacing spaces twice is the same as doing it once |
| Pages.Html | render_engine/page.py:59-67 | A page without a body has `html == ""`; otherwise `html` is the markdown of the body |
| Strings.JoinSplit | render_engine/page.py:44 | Joining the parts of `split(": ")` with `": "` gives back the string |
| Strings.SplitCount | render_engine/page.py:44 | `split(": ")` gives at least two parts exactly when the string contains `": "` |
| Strings.Strip | render_engine/page.py:39 | `strip()` removes leading and trailing whitespace only, and leaves no whitespace at either end |
| Strings.NatToStringRoundTrip | src/render_engine/collection.py:51 | The decimal digits of an archive index read back as that index |
| Strings.StrLtIrreflexive | src/render_engine/collection.py:138-142 | No string is less than itself |
| Strings.StrLtTotal | src/render_engine/collection.py:138-142 | Python's string ordering compares any two distinct strings one way or the other |
| Strings.StrLtTransitive | src/render_engine/collection.py:138-142 | Python's string ordering is transitive |
| Pagination.ArchivePage | src/render_engine/collection.py:14-21 | An `Archive` is a page of class `Archive`, without a file, whose title, routes and (when given) slug are its keyword arguments |
| Pagination.Chunks | src/render_engine/collection.py:44 | `chunked(pages, n)` gives back the pages in order; all chunks except the last hold exactly n pages and the last holds 1 to n; the count is ceil(L/n), and no pages give no chunk |
| Pagination.GenCollection | src/render_engine/collection.py:24-57 | Without pagination: one archive of all the pages and no slug. With n > 0: ceil(L/n) archives that together list the pages in order; all but the last hold n pages; archive i has slug `title_i`. All archives share title, template and routes. A negative n raises, and an unloaded template raises when an archive is built |
| Pagination.NoPagesNoArchives | src/render_engine/collection.py:44-56 | Paginating no pages gives no archive |
| Pagination.ArchiveIdentity | src/render_engine/collection.py:46-55 | An archive's identity is its slug when it has one, its title otherwise |
| Pagination.ChunkIdentity | src/render_engine/collection.py:51 | The identity of archive i is the normalized title, `_` and i |
| Pagination.PagedIdentitiesDistinct | src/render_engine/collection.py:46-56 | The archives of a paginated collection have pairwise distinct identities |
| Ordering.ItemsLtIrreflexive | src/render_engine/collection.py:138-142 | No list of strings is less than itself |
| Ordering.ItemsLtTransitive | src/render_engine/collection.py:138-142 | Python's element-by-element ordering of lists of strings is transitive |
| Ordering.ItemsLtTotal | src/render_engine/collection.py:138-142 | Any two different lists of strings are ordered one way or the other |
| Ordering.ValueLtIrreflexive | src/render_engine/collection.py:138-142 | No attribute value is less than itself |
| Ordering.ValueLtTransitive | src/render_engine/collection.py:138-142 | The ordering of attribute values is transitive |
| Ordering.ValueLtTotal | src/render_engine/collection.py:138-142 | Any two different attribute values are ordered one way or the other, so the sort key is a strict total order |
| Ordering.Keyed | src/render_engine/collection.py:140 | Every page's key is its `sort_by` attribute; a page without it raises |
| Ordering.InsertionSortCorrect | src/render_engine/collection.py:138-142 | The sort is a permutation, is ordered (reversed when asked), and keeps the input order of each group of equal keys |
| Ordering.InsertionSortPermutes | src/render_engine/collection.py:138-142 | The sort is a permutation of its input |
| Ordering.InsertionSortSorted | src/render_engine/collection.py:138-142 | The sort is ordered by key, reversed when asked |
| Ordering.InsertionSortStable | src/render_engine/collection.py:138-142 | For every key value, the entries with that key keep their input order |
| Ordering.StableSortIsInsertionSort | src/render_engine/collection.py:138-142 | Any ordered sequence that keeps each group of equal keys as in the input is the insertion sort's result, so the model is Python's stable `sorted` |
| Ordering.StableSortUnique | src/render_engine/collection.py:138-142 | Two ordered sequences with the same groups of equal keys are equal |
| Ordering.SortEntriesCorrect | src/render_engine/collection.py:138-142 | A missing attribute raises; mixing string and list keys raises; otherwise the result is a sorted, stable permutation of the keyed pages |
| Ordering.SortPagesPermutes | src/render_engine/collection.py:138-142 | The sorted pages are a permutation of the pages |
| Ordering.SortPagesOrderedStable | src/render_engine/collection.py:138-142 | The sorted pages are non-decreasing by `sort_by` (non-increasing when reversed), and pages with equal keys keep their input order |
| Collections.MatchAll | src/render_engine/collection.py:121-123 | A path is matched exactly when one of the include patterns globs it |
| Collections.MatchAllAppend | src/render_engine/collection.py:121-133 | The matches of two lists of patterns are the matches of the first list followed by those of the second: pattern order first, and a path matched by two patterns comes twice |
| Collections.MatchAllSingle | src/render_engine/collection.py:121-133 | One pattern matches exactly the paths `glob` yields for it, in glob order |
| Collections.LoadAll | src/render_engine/collection.py:125-134 | Loading succeeds exactly when every path loads, giving one page per path in order; otherwise the first failure is raised |
| Collections.Collection.constructor | src/render_engine/collection.py:93-104 | Keyword settings are stored; the title defaults to the class name; the archive template is looked up exactly when `items_per_page` or `archive_template` is truthy; `has_archive` is left as given |
| Collections.Collection.Pages | src/render_engine/collection.py:110-118 | A content path that is not a directory raises |
| Collections.Collection.PagesFromMatches | src/render_engine/collection.py:110-134 | For a directory, the pages are built from the matched files in order, and loading fails exactly when one of them fails |
| Collections.Collection.SortedPagesCorrect | src/render_engine/collection.py:136-142 | `sorted_pages` is a permutation of `pages`, ordered by `sort_by` (reversed when asked), stable on equal keys |
| Collections.Collection.Archives | src/render_engine/collection.py:174-185 | Without `has_archive` there is no archive |
| Collections.Collection.ArchivesCorrect | src/render_engine/collection.py:174-185 | With `has_archive`, the archives list `sorted_pages` in order and carry the collection's title, archive template and routes |
| Collections.Elements | src/render_engine/collection.py:151 | Iterating a string value visits its characters, one-character strings in order; iterating a list visits its items |
| Collections.BucketKeys | src/render_engine/collection.py:148-154 | A page declaring the key in `list_attrs` goes to the bucket of every element of the attribute, or to none if it lacks the attribute; any other page goes to the bucket named by its value or by the default; a list value there is unhashable |
| Collections.SingleBucket | src/render_engine/collection.py:148-154 | A page whose key is not in `list_attrs` is appended to exactly one bucket, the one named by its value or the default |
| Collections.PlacementsOk | src/render_engine/collection.py:147-154 | Bucketing succeeds exactly when every page can be bucketed |
| Collections.PlacementsCopies | src/render_engine/collection.py:147-154 | A bucket receives each page once per occurrence of the bucket's name among that page's keys, in page order |
| Collections.GroupedKeys | src/render_engine/collection.py:146-154 | The buckets are exactly the keys some page was appended under, each listed once |
| Collections.GroupedLists | src/render_engine/collection.py:146-154 | Each bucket holds the pages appended under its key, in append order |
| Collections.GroupedOrder | src/render_engine/collection.py:146-158 | Buckets are iterated in the order of their first append |
| Collections.GroupedNonEmpty | src/render_engine/collection.py:151-154 | Every bucket holds at least the page whose append created it |
| Collections.Bucket | src/render_engine/collection.py:146-154 | The loop filling the `defaultdict(list)` computes the grouping of the pages' placements |
| Collections.AppendToAll | src/render_engine/collection.py:151-152 | `subpages[k].append(page)` for each key in turn creates missing buckets at the end of the key order and appends the page to each bucket once per occurrence, as `AddAll` states |
| Collections.GroupedAddAll | src/render_engine/collection.py:150-154 | Appending one page under its keys to the dictionary built so far is the dictionary of the extended placements |
| Collections.ArchiveAll | src/render_engine/collection.py:156-171 | One result per bucket in order, exactly when every bucket paginates; otherwise the first failure is raised |
| Collections.Collection.PaginateAll | src/render_engine/collection.py:156-171 | The loop appending `gen_collection` of each bucket computes `ArchiveAll` |
| Collections.Collection.GenSubpages | src/render_engine/collection.py:144-172 | `_gen_subpages` computes the subcollections specified by `Subcollections` |
| Collections.Collection.SubcollectionIs | src/render_engine/collection.py:156-171 | There is one result per bucket, in first-creation order; result i is `gen_collection` of bucket i's pages sorted by `sort_by`, titled with the bucket key, with the collection's archive template, `items_per_page` and routes |
| Collections.Collection.SubcollectionsCorrect | src/render_engine/collection.py:144-172 | There is one result per bucket, in first-creation order. Result i lists exactly its bucket's pages, ordered by `sort_by` (reversed when asked), pages with equal keys in append order. Its archives carry the bucket key as title and the collection's template and routes. Without `items_per_page` it is one archive without a slug; with n it is at least one archive, each holding 1 to n pages, all but the last exactly n, archive j with slug `key_j` |

## Left out

- File system: `Path.exists`, `read_text`, `is_dir` and `glob` are the `Source` and `Disk` parameters. Glob order is whatever `glob` returns.
- Markdown conversion and the `Markup` wrapper: `Html` takes the converter as a function argument, and the `html` and `content` properties are not attributes: `Attr(p, "html")` and `Attr(p, "content")` are `None`, where `getattr` gives the rendered body.
- Unicode: `\w`, `lower()` and `strip()` are modelled on ASCII only.
- jinja2: `engine.get_template` is modelled as always succeeding (`Loaded`). A template that was never looked up (`Raw`) has no `environment`, so building an archive raises. The `engine` keyword of an `Archive` is not modelled otherwise.
- Pagination.ArchivePage: the `engine` and `template` keyword arguments and the `pages` attribute that line 20 of `collection.py` sets are not among the page's fields, so `Attr(ArchivePage(a), "pages")` is `None`; the pages and the template are kept in the `Archive` record.
- Content pages: the `engine`, `template` and `collection_vars` keyword arguments of `_pages` are not among their fields; only `routes` is.
- `collection_vars` and other reflection (`vars`, `setattr` of arbitrary keyword arguments): the constructor takes the known settings as one `Settings` record.
- Collections.Collection.constructor: a missing `routes` or `engine` attribute raising `AttributeError` is not modelled; neither is a missing `content_path`, which line 82 of `collection.py` only annotates, so `pages` raises `AttributeError` at lines 109 and 118-119 (the model's settings always hold a path); and `Path(route)` normalisation of routes is not modelled (routes stay strings).
- Collections.BucketKeys: `SubCollection.default` is a string; other default values are not modelled.
- `Collection.__repr__` and `__str__`, the `collection` driver and `render_archives`: these are output code.
- Pages.PageOf: a header whose name is a Python special attribute (such as `__class__` or `__dict__`), or a property that a subclass of `Page` defines, is treated as an ordinary attribute; only the `html` and `content` properties of `Page` itself raise.
- `Collection.__iter__`, `markdown_extras` and the `pdb` and `RSSFeed` imports: these play no part in the modelled operations.
- Collections.Collection.GenSubpages: `_gen_subpages` is split into the methods `Bucket` (the first loop, with `AppendToAll` for its inner loop) and `PaginateAll` (the second loop), which it calls.
