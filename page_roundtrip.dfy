/**
 * Writing the attributes and body of a parsed content file back as a file:
 * one `key: value` header line per attribute, then the body. Reading that
 * text again (render_engine/page.py:37-45) gives back the same attributes and
 * body when every name is a lower-case word that is not a property, every
 * value is one stripped line that starts with a word character and holds no
 * `": "`, and the body is stripped and holds no header line. Without the last
 * condition the round trip fails: a body line that looks like a header is
 * read back as an attribute.
 */
module PageRoundTrip {
  import opened Results
  import opened Strings
  import opened Pages
  import opened PageFacts

  /** An attribute written back as a header line. */
  function HeaderLine(key: string, value: string): string {
    key + ": " + value
  }

  /** The attributes, in order, each as a header line followed by a newline, then the body. */
  function Serialize(entries: seq<(string, string)>, body: string): string {
    if entries == [] then body
    else HeaderLine(entries[0].0, entries[0].1) + "\n" + Serialize(entries[1..], body)
  }

  /** The header lines `Serialize` writes. */
  function Written(entries: seq<(string, string)>): (lines: seq<string>)
    ensures |lines| == |entries|
  {
    seq(|entries|, i requires 0 <= i < |entries| => HeaderLine(entries[i].0, entries[i].1))
  }

  /** The attributes the entries set, a later entry overwriting an earlier one with the same name. */
  function MapOf(entries: seq<(string, string)>): map<string, string> {
    if entries == [] then map[]
    else MapOf(entries[..|entries| - 1])[entries[|entries| - 1].0 := entries[|entries| - 1].1]
  }

  /** `entries` lists the attributes of `meta` with their values, each at least once, in any order. */
  predicate Lists(entries: seq<(string, string)>, meta: map<string, string>) {
    && (forall i :: 0 <= i < |entries| ==> entries[i].0 in meta && entries[i].1 == meta[entries[i].0])
    && (forall k :: k in meta ==> exists i :: 0 <= i < |entries| && entries[i].0 == k)
  }

  /**
   * An attribute that reads back as itself: a lower-case word that is not a
   * property, and a stripped one-line value that starts with a word character
   * and holds no `": "`.
   */
  predicate Writable(key: string, value: string) {
    && key != [] && (forall i :: 0 <= i < |key| ==> IsWordChar(key[i])) && LowerCase(key) && !ReadOnly(key)
    && value != [] && IsWordChar(value[0]) && (forall i :: 0 <= i < |value| ==> value[i] != '\n')
    && !HasSeparator(value) && Trimmed(value)
  }

  predicate AllWritable(entries: seq<(string, string)>) {
    forall i :: 0 <= i < |entries| ==> Writable(entries[i].0, entries[i].1)
  }

  /** A body that reads back as itself: stripped, and without a header line. */
  predicate WritableBody(body: string) {
    Trimmed(body) && HeaderLines(Lines(body)) == []
  }

  /** The pieces before the body that `re.split` makes of written header lines: a blank piece, then each line after an empty or a newline piece. */
  function WrittenSegments(lines: seq<string>): (segments: seq<string>)
    ensures |segments| == 2 * |lines|
  {
    seq(2 * |lines|, j requires 0 <= j < 2 * |lines| => if j % 2 == 1 then lines[j / 2] else if j == 0 then "" else "\n")
  }

  // ---------------------------------------------------------------------------
  // The mapping the entries set

  /** The mapping holds a name exactly when some entry has it, and then with the value of one such entry. */
  lemma {:induction false} MapOfHas(entries: seq<(string, string)>, k: string)
    ensures k in MapOf(entries) <==> exists i :: 0 <= i < |entries| && entries[i].0 == k
    ensures k in MapOf(entries) ==> exists i :: 0 <= i < |entries| && entries[i] == (k, MapOf(entries)[k])
    decreases |entries|
  {
    if entries != [] {
      var init := entries[..|entries| - 1];
      MapOfHas(init, k);
      if exists i :: 0 <= i < |init| && init[i].0 == k {
        var i :| 0 <= i < |init| && init[i].0 == k;
        assert entries[i] == init[i];
      }
      if k in MapOf(init) && k != entries[|entries| - 1].0 {
        var i :| 0 <= i < |init| && init[i] == (k, MapOf(init)[k]);
        assert entries[i] == init[i];
      }
      if exists i :: 0 <= i < |entries| && entries[i].0 == k {
        var i :| 0 <= i < |entries| && entries[i].0 == k;
        if i < |init| {
          assert init[i] == entries[i];
        }
      }
    }
  }

  /** A listing of a mapping's attributes sets exactly that mapping, whatever its order. */
  lemma MapOfLists(entries: seq<(string, string)>, meta: map<string, string>)
    requires Lists(entries, meta)
    ensures MapOf(entries) == meta
  {
    forall k
      ensures k in MapOf(entries) <==> k in meta
      ensures k in meta ==> MapOf(entries)[k] == meta[k]
    {
      MapOfHas(entries, k);
    }
  }

  /** Every mapping can be listed. */
  lemma {:induction false} Listing(meta: map<string, string>) returns (entries: seq<(string, string)>)
    ensures Lists(entries, meta)
    decreases |meta|
  {
    if meta == map[] {
      entries := [];
    } else {
      var k :| k in meta;
      var rest := meta - {k};
      var init := Listing(rest);
      entries := init + [(k, meta[k])];
      forall k' | k' in meta
        ensures exists i :: 0 <= i < |entries| && entries[i].0 == k'
      {
        if k' == k {
          assert entries[|init|].0 == k;
        } else {
          assert k' in rest;
          var i :| 0 <= i < |init| && init[i].0 == k';
          assert entries[i] == init[i];
        }
      }
    }
  }

  // ---------------------------------------------------------------------------
  // How the written text splits

  /** A writable attribute's header line is one line, a header, and splits into its name and value. */
  lemma WritableLine(key: string, value: string)
    requires Writable(key, value)
    ensures var h := HeaderLine(key, value);
      && (forall i :: 0 <= i < |h| ==> h[i] != '\n')
      && IsHeader(h) && HeaderKey(h) == key && HeaderValue(h) == value
      && !OnlyNewlines(h) && Split(h) == [key, value]
  {
    var h := HeaderLine(key, value);
    HeaderLineHasNoNewline(key, value);
    HeaderOf(key, value);
    SplitHeaderLine(h);
    HeaderLineShape(h);
  }

  lemma WrittenCons(entries: seq<(string, string)>)
    requires entries != []
    ensures Written(entries) == [HeaderLine(entries[0].0, entries[0].1)] + Written(entries[1..])
  {
  }

  lemma AllWritableTail(entries: seq<(string, string)>)
    requires entries != [] && AllWritable(entries)
    ensures Writable(entries[0].0, entries[0].1) && AllWritable(entries[1..])
  {
    assert forall i :: 0 <= i < |entries[1..]| ==> entries[1..][i] == entries[i + 1];
  }

  lemma WritableNoNewline(key: string, value: string)
    requires Writable(key, value)
    ensures forall i :: 0 <= i < |HeaderLine(key, value)| ==> HeaderLine(key, value)[i] != '\n'
  {
    HeaderLineHasNoNewline(key, value);
  }

  lemma {:induction false} SerializeLines(entries: seq<(string, string)>, body: string)
    requires AllWritable(entries)
    ensures Lines(Serialize(entries, body)) == Written(entries) + Lines(body)
    decreases |entries|
  {
    if entries != [] {
      var line := HeaderLine(entries[0].0, entries[0].1);
      var rest := Serialize(entries[1..], body);
      AllWritableTail(entries);
      WritableNoNewline(entries[0].0, entries[0].1);
      calc {
        Lines(Serialize(entries, body));
        Lines(line + "\n" + rest);
        { LinesAfter(line, rest); }
        [line] + Lines(rest);
        { SerializeLines(entries[1..], body); }
        [line] + (Written(entries[1..]) + Lines(body));
        { WrittenCons(entries); }
        Written(entries) + Lines(body);
      }
    }
  }

  /** Each written line is a header line whose key and value are the entry's. */
  lemma WrittenHeaders(entries: seq<(string, string)>)
    requires AllWritable(entries)
    ensures forall i :: 0 <= i < |entries| ==>
      var h := Written(entries)[i];
      IsHeader(h) && HeaderKey(h) == entries[i].0 && HeaderValue(h) == entries[i].1
  {
    forall i | 0 <= i < |entries|
      ensures var h := Written(entries)[i];
        IsHeader(h) && HeaderKey(h) == entries[i].0 && HeaderValue(h) == entries[i].1
    {
      assert Writable(entries[i].0, entries[i].1);
      HeaderOf(entries[i].0, entries[i].1);
    }
  }

  /** `re.split` over lines that start with a header line, by its definition. */
  lemma SplitLinesHeaderCons(lines: seq<string>)
    requires |lines| >= 2 && IsHeader(lines[0])
    ensures var after := SplitLines(lines[1..]);
      SplitLines(lines) == ["", lines[0], "\n" + after[0]] + after[1..]
  {
  }

  lemma ConsAfter(l0: string, w: seq<string>, x: string, t: seq<string>)
    requires w != [] && w[0] == ""
    ensures var after := w + [x] + t;
      ["", l0, "\n" + after[0]] + after[1..] == ["", l0, "\n"] + w[1..] + [x] + t
  {
    var after := w + [x] + t;
    assert after[0] == "";
    assert "\n" + after[0] == "\n";
    assert after[1..] == w[1..] + [x] + t;
  }

  /**
   * Header lines, then further lines: the split is the written segments, then
   * the split of the further lines with a newline before its first piece.
   */
  lemma {:induction false} SplitWrittenThen(lines: seq<string>, rest: seq<string>)
    requires forall i :: 0 <= i < |lines| ==> IsHeader(lines[i])
    requires |rest| >= 1
    ensures var tail := SplitLines(rest);
      SplitLines(lines + rest)
      == if lines == [] then tail else WrittenSegments(lines) + ["\n" + tail[0]] + tail[1..]
    decreases |lines|
  {
    var all := lines + rest;
    if lines == [] {
      assert all == rest;
    } else {
      assert all[0] == lines[0];
      assert all[1..] == lines[1..] + rest;
      SplitWrittenThen(lines[1..], rest);
      SplitLinesHeaderCons(all);
      if |lines| == 1 {
        SplitWrittenOne(lines, rest);
      } else {
        SplitWrittenMore(lines, rest);
      }
    }
  }

  lemma SplitWrittenOne(lines: seq<string>, rest: seq<string>)
    requires |lines| == 1 && |rest| >= 1
    requires var after := SplitLines(rest);
      SplitLines(lines + rest) == ["", lines[0], "\n" + after[0]] + after[1..]
    ensures var tail := SplitLines(rest);
      SplitLines(lines + rest) == WrittenSegments(lines) + ["\n" + tail[0]] + tail[1..]
  {
    assert WrittenSegments(lines) == ["", lines[0]];
  }

  lemma SplitWrittenMore(lines: seq<string>, rest: seq<string>)
    requires |lines| >= 2 && |rest| >= 1
    requires var tail := SplitLines(rest);
      SplitLines(lines[1..] + rest) == WrittenSegments(lines[1..]) + ["\n" + tail[0]] + tail[1..]
    requires var after := SplitLines(lines[1..] + rest);
      SplitLines(lines + rest) == ["", lines[0], "\n" + after[0]] + after[1..]
    ensures var tail := SplitLines(rest);
      SplitLines(lines + rest) == WrittenSegments(lines) + ["\n" + tail[0]] + tail[1..]
  {
    var tail := SplitLines(rest);
    var after := SplitLines(lines[1..] + rest);
    var w := WrittenSegments(lines[1..]);
    calc {
      SplitLines(lines + rest);
      ["", lines[0], "\n" + after[0]] + after[1..];
      { ConsAfter(lines[0], w, "\n" + tail[0], tail[1..]); }
      ["", lines[0], "\n"] + w[1..] + ["\n" + tail[0]] + tail[1..];
      { WrittenSegmentsCons(lines); }
      WrittenSegments(lines) + ["\n" + tail[0]] + tail[1..];
    }
  }

  lemma WrittenSegmentsCons(lines: seq<string>)
    requires |lines| >= 2
    ensures WrittenSegments(lines) == ["", lines[0], "\n"] + WrittenSegments(lines[1..])[1..]
  {
    var right := ["", lines[0], "\n"] + WrittenSegments(lines[1..])[1..];
    forall j | 3 <= j < 2 * |lines|
      ensures WrittenSegments(lines)[j] == right[j]
    {
      assert right[j] == WrittenSegments(lines[1..])[j - 2];
    }
  }

  /** Header lines, then the lines of a body without header lines: the written segments, then the body after a newline. */
  lemma SplitWritten(lines: seq<string>, body: string)
    requires forall i :: 0 <= i < |lines| ==> IsHeader(lines[i])
    requires HeaderLines(Lines(body)) == []
    ensures SplitLines(lines + Lines(body)) == WrittenSegments(lines) + [if lines == [] then body else "\n" + body]
  {
    SplitWithoutHeaders(body);
    SplitWrittenThen(lines, Lines(body));
  }

  /** The written segments of all lines are those of all but the last, then a separator piece and the last line. */
  lemma WrittenSegmentsSnoc(lines: seq<string>)
    requires lines != []
    ensures WrittenSegments(lines)
         == WrittenSegments(lines[..|lines| - 1]) + [if |lines| == 1 then "" else "\n", lines[|lines| - 1]]
  {
    var init := lines[..|lines| - 1];
    assert forall j :: 0 <= j < 2 * |init| ==> WrittenSegments(lines)[j] == WrittenSegments(init)[j];
  }

  /** Strip removes leading whitespace before a stripped text, and nothing else. */
  lemma StripTrimmed(ws: string, s: string)
    requires forall i :: 0 <= i < |ws| ==> IsSpace(ws[i])
    requires Trimmed(s)
    ensures Strip(ws + s) == s
  {
    if s != [] {
      StripSpaces(ws, s);
    } else {
      assert ws + s == ws;
    }
  }

  // ---------------------------------------------------------------------------
  // Reading the written text back

  /** The loop unpacks a writable header line into its name, lower-case already, and its value, stripped already. */
  lemma WritableUnpacks(key: string, value: string)
    requires Writable(key, value)
    ensures var h := HeaderLine(key, value);
      && !OnlyNewlines(h) && |Split(h)| == 2 && Lower(Split(h)[0]) == key && !ReadOnly(key)
      && Strip(Split(h)[1]) == value
  {
    WritableLine(key, value);
    LowerUnchanged(key);
    StripTrimmed("", value);
    assert "" + value == value;
  }

  /** A blank piece and a writable header line after segments the loop accepts: the line sets its attribute. */
  lemma ApplyWrittenStep(segments: seq<string>, sep: string, key: string, value: string, m: map<string, string>)
    requires ApplyHeaders(segments) == Ok(m)
    requires OnlyNewlines(sep) && Writable(key, value)
    ensures ApplyHeaders(segments + [sep, HeaderLine(key, value)]) == Ok(m[key := value])
  {
    var h := HeaderLine(key, value);
    assert (segments + [sep])[..|segments|] == segments;
    WritableUnpacks(key, value);
    ApplyHeadersAppend(segments + [sep], h, m);
    assert segments + [sep] + [h] == segments + [sep, h];
  }

  lemma WrittenSnoc(entries: seq<(string, string)>)
    requires entries != []
    ensures var n := |entries|;
      Written(entries)[..n - 1] == Written(entries[..n - 1])
      && Written(entries)[n - 1] == HeaderLine(entries[n - 1].0, entries[n - 1].1)
  {
  }

  /** The header loop over the written segments sets the entries' attributes, later ones winning. */
  lemma {:induction false} ApplyWritten(entries: seq<(string, string)>)
    requires AllWritable(entries)
    ensures ApplyHeaders(WrittenSegments(Written(entries))) == Ok(MapOf(entries))
    decreases |entries|
  {
    if entries != [] {
      var n := |entries|;
      var init := entries[..n - 1];
      assert forall i :: 0 <= i < |init| ==> init[i] == entries[i];
      ApplyWritten(init);
      assert Writable(entries[n - 1].0, entries[n - 1].1);
      WrittenSnoc(entries);
      WrittenSegmentsSnoc(Written(entries));
      ApplyWrittenStep(WrittenSegments(Written(init)), if n == 1 then "" else "\n",
                       entries[n - 1].0, entries[n - 1].1, MapOf(init));
    }
  }

  /**
   * Written-back attributes and body parse to the attributes the entries set
   * (the last of two entries with one name winning) and to the body.
   */
  lemma ParseWritten(entries: seq<(string, string)>, body: string)
    requires AllWritable(entries) && WritableBody(body)
    ensures Parse(Serialize(entries, body)) == Ok(Parsed(MapOf(entries), body))
  {
    WrittenPieces(entries, body);
    var pieces := SplitHeaders(Serialize(entries, body));
    assert pieces[..|pieces| - 1] == WrittenSegments(Written(entries));
    ApplyWritten(entries);
    WrittenTailStrip(entries, body);
  }

  /** The split of written-back text: the written segments, then the body after a newline when there are headers. */
  lemma WrittenPieces(entries: seq<(string, string)>, body: string)
    requires AllWritable(entries) && WritableBody(body)
    ensures SplitHeaders(Serialize(entries, body))
         == WrittenSegments(Written(entries)) + [if entries == [] then body else "\n" + body]
  {
    SerializeLines(entries, body);
    WrittenHeaders(entries);
    SplitWritten(Written(entries), body);
  }

  lemma WrittenTailStrip(entries: seq<(string, string)>, body: string)
    requires Trimmed(body)
    ensures Strip(if entries == [] then body else "\n" + body) == body
  {
    if entries == [] {
      StripTrimmed("", body);
      assert "" + body == body;
    } else {
      StripTrimmed("\n", body);
    }
  }

  /**
   * The round trip: a parse result whose attributes and body are writable is
   * read back unchanged from its attributes, listed in any order, and its body.
   */
  lemma RoundTrip(p: Parsed, entries: seq<(string, string)>)
    requires Lists(entries, p.meta)
    requires forall k :: k in p.meta ==> Writable(k, p.meta[k])
    requires WritableBody(p.body)
    ensures Parse(Serialize(entries, p.body)) == Ok(p)
  {
    MapOfLists(entries, p.meta);
    ParseWritten(entries, p.body);
  }

  /** Such a parse result has a written form that reads back as itself. */
  lemma ParsedRoundTrip(p: Parsed)
    requires forall k :: k in p.meta ==> Writable(k, p.meta[k])
    requires WritableBody(p.body)
    ensures exists entries :: Lists(entries, p.meta) && Parse(Serialize(entries, p.body)) == Ok(p)
  {
    var entries := Listing(p.meta);
    RoundTrip(p, entries);
  }

  // ---------------------------------------------------------------------------
  // A body with a header line does not survive

  /**
   * A body that is itself a header line does not come back as the body: it
   * is read back as one more attribute, and the body is empty.
   */
  lemma ParseHeaderBody(entries: seq<(string, string)>, key: string, value: string)
    requires AllWritable(entries) && Writable(key, value)
    ensures Parse(Serialize(entries, HeaderLine(key, value))) == Ok(Parsed(MapOf(entries + [(key, value)]), ""))
  {
    var all := entries + [(key, value)];
    HeaderBodySplit(entries, key, value);
    var pieces := SplitHeaders(Serialize(entries, HeaderLine(key, value)));
    assert pieces[..|pieces| - 1] == WrittenSegments(Written(all));
    AllWritableSnoc(entries, key, value);
    ApplyWritten(all);
    assert Strip("") == "";
  }

  lemma AllWritableSnoc(entries: seq<(string, string)>, key: string, value: string)
    requires AllWritable(entries) && Writable(key, value)
    ensures AllWritable(entries + [(key, value)])
  {
    var all := entries + [(key, value)];
    assert forall i :: 0 <= i < |all| ==> all[i] == if i < |entries| then entries[i] else (key, value);
  }

  /** Written entries, then a body that is a header line: the body line is split off like a written one. */
  lemma HeaderBodySplit(entries: seq<(string, string)>, key: string, value: string)
    requires AllWritable(entries) && Writable(key, value)
    ensures SplitHeaders(Serialize(entries, HeaderLine(key, value)))
         == WrittenSegments(Written(entries + [(key, value)])) + [""]
  {
    var h := HeaderLine(key, value);
    var lines := Written(entries);
    calc {
      SplitHeaders(Serialize(entries, h));
      SplitLines(Lines(Serialize(entries, h)));
      { HeaderBodyLines(entries, key, value); }
      SplitLines(lines + [h]);
      { HeaderBodyLines(entries, key, value); WrittenHeaders(entries); SplitAfterWritten(lines, h); }
      WrittenSegments(lines + [h]) + [""];
      { HeaderBodyLines(entries, key, value); }
      WrittenSegments(Written(entries + [(key, value)])) + [""];
    }
  }

  /** Written header lines, then one more header line as the last line. */
  lemma SplitAfterWritten(lines: seq<string>, h: string)
    requires forall i :: 0 <= i < |lines| ==> IsHeader(lines[i])
    requires IsHeader(h)
    ensures SplitLines(lines + [h]) == WrittenSegments(lines + [h]) + [""]
  {
    SplitWrittenThen(lines, [h]);
    if lines == [] {
      assert lines + [h] == [h];
      SplitOneHeader(h);
    } else {
      SplitLastHeader(lines, h);
    }
  }

  lemma SplitOneHeader(h: string)
    requires IsHeader(h)
    ensures SplitLines([h]) == WrittenSegments([h]) + [""]
  {
    assert WrittenSegments([h]) == ["", h];
  }

  lemma SplitLastHeader(lines: seq<string>, h: string)
    requires lines != [] && IsHeader(h)
    requires SplitLines(lines + [h]) == WrittenSegments(lines) + ["\n" + SplitLines([h])[0]] + SplitLines([h])[1..]
    ensures SplitLines(lines + [h]) == WrittenSegments(lines + [h]) + [""]
  {
    calc {
      SplitLines(lines + [h]);
      WrittenSegments(lines) + ["\n" + SplitLines([h])[0]] + SplitLines([h])[1..];
      { assert SplitLines([h]) == ["", h, ""]; }
      WrittenSegments(lines) + ["\n" + ""] + ["", h, ""][1..];
      { assert ["", h, ""][1..] == [h, ""]; assert "\n" + "" == "\n"; }
      WrittenSegments(lines) + ["\n", h] + [""];
      { WrittenSegmentsSnoc(lines + [h]); assert (lines + [h])[..|lines|] == lines; }
      WrittenSegments(lines + [h]) + [""];
    }
  }

  lemma HeaderBodyLines(entries: seq<(string, string)>, key: string, value: string)
    requires AllWritable(entries) && Writable(key, value)
    ensures Lines(Serialize(entries, HeaderLine(key, value))) == Written(entries) + [HeaderLine(key, value)]
    ensures Written(entries + [(key, value)]) == Written(entries) + [HeaderLine(key, value)]
    ensures IsHeader(HeaderLine(key, value))
  {
    var h := HeaderLine(key, value);
    WritableLine(key, value);
    LinesOfLine(h);
    SerializeLines(entries, h);
  }

  lemma WritableTitle()
    ensures Writable("title", "Hello")
  {
    NoColonNoSeparator("Hello");
  }

  lemma WritableTags()
    ensures Writable("tags", "a, b")
  {
    NoColonNoSeparator("a, b");
  }

  lemma FirstFileShape()
    ensures "title" + ": " + "Hello" + "\n" + ("\n" + " tags: a, b") == "title: Hello\n\n tags: a, b"
  {
  }

  lemma IndentedLine()
    ensures forall i :: 0 <= i < |" tags: a, b"| ==> " tags: a, b"[i] != '\n'
  {
  }

  lemma IndentedNotHeader()
    ensures !IsHeader(" tags: a, b")
  {
    assert WordPrefix(" tags: a, b") == 0;
  }

  lemma FirstFileBody()
    ensures HeaderLines(Lines("\n" + " tags: a, b")) == []
  {
    IndentedLine();
    IndentedNotHeader();
    BlankThenText(" tags: a, b");
  }

  lemma FirstFileStrip()
    ensures Strip("\n" + ("\n" + " tags: a, b")) == "tags: a, b"
  {
    StripSpaces("\n\n ", "tags: a, b");
    assert "\n\n " + "tags: a, b" == "\n" + ("\n" + " tags: a, b");
  }

  /** A file whose body, after a blank line, is an indented `tags: a, b`. */
  lemma FirstFileParse()
    ensures Parse("title: Hello\n\n tags: a, b") == Ok(Parsed(map["title" := "Hello"], "tags: a, b"))
  {
    var body := "\n" + " tags: a, b";
    calc {
      Parse("title: Hello\n\n tags: a, b");
      { FirstFileShape(); }
      Parse("title" + ": " + "Hello" + "\n" + body);
      { WritableTitle(); FirstFileBody(); ParseSingleHeader("title", "Hello", body); ExampleLower(); ExampleStripHello(); ExampleNotProperties(); }
      Ok(Parsed(map["title" := "Hello"], Strip("\n" + body)));
      { FirstFileStrip(); }
      Ok(Parsed(map["title" := "Hello"], "tags: a, b"));
    }
  }

  lemma TwoEntries()
    ensures MapOf([("title", "Hello")] + [("tags", "a, b")]) == map["title" := "Hello", "tags" := "a, b"]
  {
    var one := [("title", "Hello")];
    var all := one + [("tags", "a, b")];
    assert all[..1] == one;
    assert one[..0] == [];
    calc {
      MapOf(all);
      MapOf(one)["tags" := "a, b"];
      MapOf([])["title" := "Hello"]["tags" := "a, b"];
      map["title" := "Hello", "tags" := "a, b"];
    }
  }

  lemma OneWritable()
    ensures AllWritable([("title", "Hello")])
  {
    WritableTitle();
  }

  lemma WrittenFileText()
    ensures Serialize([("title", "Hello")], "tags: a, b") == Serialize([("title", "Hello")], HeaderLine("tags", "a, b"))
  {
    assert HeaderLine("tags", "a, b") == "tags: a, b";
  }

  lemma WrittenFileHeaders()
    ensures Parse(Serialize([("title", "Hello")], HeaderLine("tags", "a, b")))
         == Ok(Parsed(MapOf([("title", "Hello")] + [("tags", "a, b")]), ""))
  {
    OneWritable();
    WritableTags();
    ParseHeaderBody([("title", "Hello")], "tags", "a, b");
  }

  lemma WrittenFileParse()
    ensures Parse(Serialize([("title", "Hello")], "tags: a, b"))
         == Ok(Parsed(map["title" := "Hello", "tags" := "a, b"], ""))
  {
    WrittenFileText();
    WrittenFileHeaders();
    TwoEntries();
  }

  /**
   * The round trip fails when the body holds a header line:
   * `"title: Hello\n\n tags: a, b"` parses to `title` and the body
   * `"tags: a, b"`, and writing that back and parsing it again gives the
   * attributes `title` and `tags` and an empty body.
   */
  lemma BodyHeaderBreaksRoundTrip()
    ensures Parse("title: Hello\n\n tags: a, b") == Ok(Parsed(map["title" := "Hello"], "tags: a, b"))
    ensures Parse(Serialize([("title", "Hello")], "tags: a, b"))
         == Ok(Parsed(map["title" := "Hello", "tags" := "a, b"], ""))
  {
    FirstFileParse();
    WrittenFileParse();
  }
}
