/**
 * A content page (render_engine/page.py): the header/body parser run when a
 * page is built from a file, the page's identity string and its html.
 *
 * A page is a value: the attributes Python sets on the object at construction
 * become two explicit maps, and nothing changes them afterwards.
 */
module Pages {
  import opened Results
  import opened Strings

  /** An attribute value: header values are strings; keyword fields and class attributes may be lists of strings. */
  datatype Value = Str(s: string) | List(items: seq<string>)

  /** `Page` or a subclass of it: its class name and the attributes it declares at class level (such as `list_attrs`). */
  datatype ContentType = ContentType(name: string, classAttrs: map<string, Value>)

  /** The regular expression that recognises a header line. */
  const MatchParam: string := "(^\\w+: \\b.+$)"

  /** `Page` itself, with its class attributes `engine`, `template`, `match_param` and `routes`. */
  const PageType: ContentType :=
    ContentType("Page", map["engine" := Str(""), "template" := Str(""), "match_param" := Str(MatchParam), "routes" := List([""])])

  /**
   * A constructed page: its class name, the attributes set from keyword
   * arguments over the class attributes (`fields`), the attributes set from
   * header lines (`meta`, keys lower-cased) and the body (`_content`), which
   * only a page built from a file has.
   */
  datatype Page = Page(kind: string, fields: map<string, Value>, meta: map<string, string>, content: Option<string>)

  /**
   * `getattr(page, name)`: header attributes are set last, so they hide
   * keyword fields and class attributes; `_content` is the body.
   */
  function Attr(p: Page, name: string): Option<Value> {
    if name in p.meta then Some(Str(p.meta[name]))
    else if name == BodyAttr && p.content.Some? then Some(Str(p.content.value))
    else if name in p.fields then Some(p.fields[name])
    else None
  }

  /** What the constructor is given: no `content_path`, a path that does not exist, or the text of the file. */
  datatype Source = NoPath | Missing | Contents(text: string)

  // ---------------------------------------------------------------------------
  // Recognising header lines

  /** The index of the first newline of `s`, or `|s|` if there is none. */
  function LineEnd(s: string): (n: nat)
    ensures n <= |s|
    ensures forall i :: 0 <= i < n ==> s[i] != '\n'
    ensures n < |s| ==> s[n] == '\n'
  {
    if s == [] || s[0] == '\n' then 0 else 1 + LineEnd(s[1..])
  }

  /** The length of the longest prefix of `s` made of word characters. */
  function WordPrefix(s: string): (n: nat)
    ensures n <= |s|
    ensures forall i :: 0 <= i < n ==> IsWordChar(s[i])
    ensures n < |s| ==> !IsWordChar(s[n])
  {
    if s != [] && IsWordChar(s[0]) then 1 + WordPrefix(s[1..]) else 0
  }

  /** A line of a content file is a header: `^\w+: \b.+$` matches it. */
  predicate IsHeader(line: string) {
    var n := WordPrefix(line);
    0 < n && n + 2 < |line| && line[n] == ':' && line[n + 1] == ' ' && IsWordChar(line[n + 2])
    && forall i :: n + 2 <= i < |line| ==> line[i] != '\n'
  }

  /**
   * The regular expression read literally: `\w+` takes the first `n`
   * characters, then `": "`, then `\b` (after the space, only a word character
   * makes a boundary) and `.+$` (one or more characters up to the line end).
   */
  predicate MatchesWith(line: string, n: nat) {
    0 < n && n + 2 < |line|
    && (forall i :: 0 <= i < n ==> IsWordChar(line[i]))
    && line[n] == ':' && line[n + 1] == ' ' && IsWordChar(line[n + 2])
    && (forall i :: n + 2 <= i < |line| ==> line[i] != '\n')
  }

  /** The name of a header line, before the first `": "`. */
  function HeaderKey(line: string): string
    requires IsHeader(line)
  {
    line[..WordPrefix(line)]
  }

  /** The value of a header line, after the first `": "`. */
  function HeaderValue(line: string): string
    requires IsHeader(line)
  {
    line[WordPrefix(line) + 2..]
  }

  // ---------------------------------------------------------------------------
  // `re.split(match_param, content, flags=re.M)`

  /** The lines of a text, split at every newline. */
  function Lines(text: string): (lines: seq<string>)
    ensures |lines| >= 1
    decreases |text|
  {
    var n := LineEnd(text);
    if n == |text| then [text] else [text[..n]] + Lines(text[n + 1..])
  }

  /** The header lines among `lines`, in order. */
  function HeaderLines(lines: seq<string>): seq<string> {
    if lines == [] then [] else (if IsHeader(lines[0]) then [lines[0]] else []) + HeaderLines(lines[1..])
  }

  /** `"\n".join(lines)`. */
  function JoinLines(lines: seq<string>): string
    requires |lines| >= 1
  {
    if |lines| == 1 then lines[0] else lines[0] + "\n" + JoinLines(lines[1..])
  }

  /**
   * `re.split` with a capturing group, over the lines of a text: the text
   * between matches alternating with the matched header lines, so the pieces
   * at odd positions are the header lines and the others are the text around
   * them, newlines included.
   */
  function SplitLines(lines: seq<string>): (pieces: seq<string>)
    requires |lines| >= 1
    ensures |pieces| % 2 == 1
  {
    var line := lines[0];
    if |lines| == 1 then
      if IsHeader(line) then ["", line, ""] else [line]
    else
      var rest := SplitLines(lines[1..]);
      if IsHeader(line) then ["", line, "\n" + rest[0]] + rest[1..]
      else [line + "\n" + rest[0]] + rest[1..]
  }

  /** `re.split(match_param, text, flags=re.M)`. */
  function SplitHeaders(text: string): (pieces: seq<string>)
    ensures |pieces| % 2 == 1
  {
    SplitLines(Lines(text))
  }

  /** The captured pieces of a split: those at odd positions. */
  function Captured(pieces: seq<string>): seq<string> {
    seq(|pieces| / 2, j requires 0 <= j < |pieces| / 2 => pieces[2 * j + 1])
  }

  /** `"".join(pieces)`. */
  function Concat(pieces: seq<string>): string {
    if pieces == [] then "" else pieces[0] + Concat(pieces[1..])
  }

  // ---------------------------------------------------------------------------
  // `Page.__init__`

  /** The attributes the header loop of a file sets, and the popped last piece, stripped. */
  datatype Parsed = Parsed(meta: map<string, string>, body: string)

  /** The properties of `Page`, `html` and `content`, which have no setter: `setattr` on them raises. */
  predicate ReadOnly(name: string) {
    name == "html" || name == "content"
  }

  /** The attribute that holds the body; a header may set it too. */
  const BodyAttr: string := "_content"

  /**
   * A segment before the body that makes the loop raise: `name, value =
   * segment.split(": ")` cannot unpack it, or `setattr` meets a property.
   */
  predicate Rejects(segment: string) {
    !OnlyNewlines(segment) && (|Split(segment)| != 2 || ReadOnly(Lower(Split(segment)[0])))
  }

  /** A segment before the body that sets attribute `key`. */
  predicate Assigns(segment: string, key: string) {
    !OnlyNewlines(segment) && |Split(segment)| == 2 && Lower(Split(segment)[0]) == key && !ReadOnly(key)
  }

  /**
   * The loop over the segments before the body: segments of newlines only are
   * skipped, every other one is unpacked into a name and a value and sets
   * `name.lower()` to `value.strip()`; the first that does not unpack, or
   * whose name is a property without a setter, raises. The map holds every
   * instance attribute the loop sets, `_content` included.
   */
  function ApplyHeaders(segments: seq<string>): Result<map<string, string>, Error>
    decreases |segments|
  {
    if segments == [] then Ok(map[])
    else
      var init := segments[..|segments| - 1];
      var segment := segments[|segments| - 1];
      match ApplyHeaders(init)
      case Err(e) => Err(e)
      case Ok(m) =>
        if OnlyNewlines(segment) then Ok(m)
        else
          var parts := Split(segment);
          if |parts| != 2 then Err(MalformedHeader(segment))
          else if ReadOnly(Lower(parts[0])) then Err(ReadOnlyAttribute(Lower(parts[0])))
          else Ok(m[Lower(parts[0]) := Strip(parts[1])])
  }

  /** The parse `Page.__init__` does: the last piece, stripped, is the body; the pieces before it set attributes. */
  function Parse(text: string): Result<Parsed, Error> {
    var pieces := SplitHeaders(text);
    match ApplyHeaders(pieces[..|pieces| - 1])
    case Err(e) => Err(e)
    case Ok(meta) => Ok(Parsed(meta, Strip(pieces[|pieces| - 1])))
  }

  /**
   * The page of a successful parse: the body is `_content`, which a header
   * `_content: ...` overwrites after it was set to the popped last piece.
   */
  function PageOfParsed(ct: ContentType, fields: map<string, Value>, parsed: Parsed): Page {
    var body := if BodyAttr in parsed.meta then parsed.meta[BodyAttr] else parsed.body;
    Page(ct.name, ct.classAttrs + fields, parsed.meta - {BodyAttr}, Some(body))
  }

  /**
   * The page `content_type(content_path, **fields)` builds: keyword fields
   * over the class attributes; with a file, its headers and body as well.
   */
  function PageOf(ct: ContentType, fields: map<string, Value>, source: Source): (r: Result<Page, Error>)
    ensures source == Missing ==> r == Err(MissingContent)
    ensures source == NoPath ==> r.Ok? && r.value.meta == map[] && r.value.content == None
    ensures r.Ok? ==> r.value.kind == ct.name && r.value.fields == ct.classAttrs + fields
    ensures source.Contents? ==> (r.Ok? <==> Parse(source.text).Ok?)
    ensures source.Contents? && r.Err? && Parse(source.text).Err? ==> r.error == Parse(source.text).error
    ensures source.Contents? && r.Ok? ==>
      var parsed := Parse(source.text).value;
      && r.value.meta == parsed.meta - {BodyAttr}
      && r.value.content == Some(if BodyAttr in parsed.meta then parsed.meta[BodyAttr] else parsed.body)
  {
    match source
    case NoPath => Ok(Page(ct.name, ct.classAttrs + fields, map[], None))
    case Missing => Err(MissingContent)
    case Contents(text) =>
      match Parse(text)
      case Err(e) => Err(e)
      case Ok(parsed) => Ok(PageOfParsed(ct, fields, parsed))
  }

  lemma {:induction false} ApplyHeadersErrExtends(segments: seq<string>, i: nat, e: Error)
    requires i <= |segments| && ApplyHeaders(segments[..i]) == Err(e)
    ensures ApplyHeaders(segments) == Err(e)
    decreases |segments| - i
  {
    if i < |segments| {
      assert segments[..i + 1][..i] == segments[..i];
      ApplyHeadersErrExtends(segments, i + 1, e);
    } else {
      assert segments[..i] == segments;
    }
  }

  /** One more segment: skipped when blank, otherwise it sets its attribute or raises. */
  lemma ApplyHeadersStep(segments: seq<string>, i: nat, m: map<string, string>)
    requires i < |segments| && ApplyHeaders(segments[..i]) == Ok(m)
    ensures var segment := segments[i];
      ApplyHeaders(segments[..i + 1])
      == if OnlyNewlines(segment) then Ok(m)
         else if |Split(segment)| != 2 then Err(MalformedHeader(segment))
         else if ReadOnly(Lower(Split(segment)[0])) then Err(ReadOnlyAttribute(Lower(Split(segment)[0])))
         else Ok(m[Lower(Split(segment)[0]) := Strip(Split(segment)[1])])
  {
    assert segments[..i + 1][..i] == segments[..i];
  }

  /**
   * The parsing half of `Page.__init__`: split the file text at its header
   * lines, pop the last piece as the body and set one attribute per remaining
   * piece, in order, stopping at the first piece that does not unpack.
   */
  method ParseContent(text: string) returns (r: Result<Parsed, Error>)
    ensures r == Parse(text)
  {
    var parsed := SplitHeaders(text);
    var body := Strip(parsed[|parsed| - 1]);
    var meta := SetAttributes(parsed[..|parsed| - 1]);
    match meta {
      case Err(e) => r := Err(e);
      case Ok(m) => r := Ok(Parsed(m, body));
    }
  }

  /** The loop of `Page.__init__` over the segments before the body: skip blank ones, unpack and set the others. */
  method SetAttributes(segments: seq<string>) returns (r: Result<map<string, string>, Error>)
    ensures r == ApplyHeaders(segments)
  {
    var meta: map<string, string> := map[];
    var i := 0;
    while i < |segments|
      invariant 0 <= i <= |segments|
      invariant ApplyHeaders(segments[..i]) == Ok(meta)
    {
      var segment := segments[i];
      if !OnlyNewlines(segment) {
        var parts := Split(segment);
        if |parts| != 2 {
          ApplyHeadersStep(segments, i, meta);
          ApplyHeadersErrExtends(segments, i + 1, MalformedHeader(segment));
          return Err(MalformedHeader(segment));
        }
        var name := Lower(parts[0]);
        if ReadOnly(name) {
          ApplyHeadersStep(segments, i, meta);
          ApplyHeadersErrExtends(segments, i + 1, ReadOnlyAttribute(name));
          return Err(ReadOnlyAttribute(name));
        }
        ApplyHeadersStep(segments, i, meta);
        meta := meta[name := Strip(parts[1])];
      } else {
        ApplyHeadersStep(segments, i, meta);
      }
      i := i + 1;
    }
    assert segments[..i] == segments;
    return Ok(meta);
  }

  /** `Page.__init__` with the keyword fields the collection passes: no path, a missing path, or a file to parse. */
  method Load(ct: ContentType, fields: map<string, Value>, source: Source) returns (r: Result<Page, Error>)
    ensures r == PageOf(ct, fields, source)
  {
    match source {
      case NoPath =>
        r := Ok(Page(ct.name, ct.classAttrs + fields, map[], None));
      case Missing =>
        r := Err(MissingContent);
      case Contents(text) =>
        var parsed := ParseContent(text);
        match parsed {
          case Err(e) => r := Err(e);
          case Ok(p) =>
            var body := p.body;
            if BodyAttr in p.meta {
              body := p.meta[BodyAttr];
            }
            r := Ok(Page(ct.name, ct.classAttrs + fields, p.meta - {BodyAttr}, Some(body)));
        }
    }
  }

  // ---------------------------------------------------------------------------
  // `Page.__str__` and `Page.html`

  /** The value `__str__` starts from: the slug, else the title, else the class name. */
  function IdentitySource(p: Page): Value {
    match Attr(p, "slug")
    case Some(v) => v
    case None =>
      match Attr(p, "title")
      case Some(v) => v
      case None => Str(p.kind)
  }

  /** `s.replace(" ", "_")`. */
  function ReplaceSpaces(s: string): string {
    seq(|s|, i requires 0 <= i < |s| => if s[i] == ' ' then '_' else s[i])
  }

  /** `string.lower().replace(" ", "_")`. */
  function Normalize(s: string): (r: string)
    ensures |r| == |s|
    ensures forall i :: 0 <= i < |r| ==> r[i] != ' ' && !IsUpper(r[i])
    ensures forall i :: 0 <= i < |s| ==> r[i] == if s[i] == ' ' then '_' else LowerChar(s[i])
  {
    ReplaceSpaces(Lower(s))
  }

  /**
   * `str(page)`: the slug, the title or the class name, lower-cased with every
   * space turned into an underscore; a list value has no `.lower()`.
   */
  function Identity(p: Page): (r: Result<string, Error>)
    ensures r.Err? <==> IdentitySource(p).List?
    ensures r.Err? ==> r.error == NotText
    ensures r.Ok? ==> |r.value| == |IdentitySource(p).s|
    ensures r.Ok? ==> forall i :: 0 <= i < |r.value| ==> r.value[i] != ' ' && !IsUpper(r.value[i])
    ensures r.Ok? ==> forall i :: 0 <= i < |r.value| ==>
      var c := IdentitySource(p).s[i];
      if c == ' ' then r.value[i] == '_' else r.value[i] == LowerChar(c)
  {
    match IdentitySource(p)
    case Str(s) => Ok(Normalize(s))
    case List(_) => Err(NotText)
  }

  /** `page.html`: the body through the markdown formatter, or `""` for a page built without a file. */
  function Html(p: Page, markdown: string -> string): (r: string)
    ensures p.content == None ==> r == ""
    ensures p.content.Some? ==> r == markdown(p.content.value)
  {
    match p.content
    case None => ""
    case Some(body) => markdown(body)
  }
}
