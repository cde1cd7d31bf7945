/**
 * What the content-file parser of render_engine/page.py guarantees: which
 * lines are headers, how `re.split` cuts the text, which attributes a parse
 * sets, what the body is, when it raises, and the shape of a page identity.
 */
module PageFacts {
  import opened Results
  import opened Strings
  import opened Pages

  // ---------------------------------------------------------------------------
  // Header lines

  /** `IsHeader` is the regular expression `^\w+: \b.+$` for a line, whatever length `\w+` takes. */
  lemma HeaderIsRegexMatch(line: string)
    ensures IsHeader(line) <==> exists n :: MatchesWith(line, n)
  {
    var w := WordPrefix(line);
    if IsHeader(line) {
      assert MatchesWith(line, w);
    }
    if exists n :: MatchesWith(line, n) {
      var n: nat :| MatchesWith(line, n);
      assert w == n;
    }
  }

  /** A header line is its key, the separator and its value. */
  lemma HeaderParts(line: string)
    requires IsHeader(line)
    ensures line == HeaderKey(line) + ": " + HeaderValue(line)
    ensures forall i :: 0 <= i < |HeaderKey(line)| ==> IsWordChar(HeaderKey(line)[i])
    ensures HeaderValue(line) != [] && IsWordChar(HeaderValue(line)[0])
  {
    var n := WordPrefix(line);
    assert line == line[..n] + line[n..n + 2] + line[n + 2..];
  }

  lemma {:induction false} WordPrefixOf(key: string, rest: string)
    requires forall i :: 0 <= i < |key| ==> IsWordChar(key[i])
    requires rest == [] || !IsWordChar(rest[0])
    ensures WordPrefix(key + rest) == |key|
    decreases |key|
  {
    if key != [] {
      assert (key + rest)[1..] == key[1..] + rest;
      WordPrefixOf(key[1..], rest);
    }
  }

  /** A word, the separator and a value starting with a word character and holding no newline form a header line. */
  lemma HeaderOf(key: string, value: string)
    requires key != [] && forall i :: 0 <= i < |key| ==> IsWordChar(key[i])
    requires value != [] && IsWordChar(value[0]) && forall i :: 0 <= i < |value| ==> value[i] != '\n'
    ensures IsHeader(key + ": " + value)
    ensures HeaderKey(key + ": " + value) == key && HeaderValue(key + ": " + value) == value
  {
    var line := key + ": " + value;
    WordPrefixOf(key, ": " + value);
    assert line == key + (": " + value);
    assert line[|key| + 2..] == value;
  }

  // ---------------------------------------------------------------------------
  // The split

  lemma {:induction false} ConcatAppend(a: seq<string>, b: seq<string>)
    ensures Concat(a + b) == Concat(a) + Concat(b)
    decreases |a|
  {
    if a == [] {
      assert a + b == b;
    } else {
      assert (a + b)[1..] == a[1..] + b;
      ConcatAppend(a[1..], b);
    }
  }

  lemma {:induction false} LineEndAfter(line: string, rest: string)
    requires forall i :: 0 <= i < |line| ==> line[i] != '\n'
    ensures LineEnd(line + "\n" + rest) == |line|
    decreases |line|
  {
    if line != [] {
      assert (line + "\n" + rest)[1..] == line[1..] + "\n" + rest;
      LineEndAfter(line[1..], rest);
    }
  }

  lemma {:induction false} LineEndNone(line: string)
    requires forall i :: 0 <= i < |line| ==> line[i] != '\n'
    ensures LineEnd(line) == |line|
    decreases |line|
  {
    if line != [] {
      LineEndNone(line[1..]);
    }
  }

  lemma LinesAfter(line: string, rest: string)
    requires forall i :: 0 <= i < |line| ==> line[i] != '\n'
    ensures Lines(line + "\n" + rest) == [line] + Lines(rest)
  {
    var t := line + "\n" + rest;
    LineEndAfter(line, rest);
    assert t[..|line|] == line;
    assert t[|line| + 1..] == rest;
  }

  lemma LinesOfLine(line: string)
    requires forall i :: 0 <= i < |line| ==> line[i] != '\n'
    ensures Lines(line) == [line]
  {
    LineEndNone(line);
  }

  /** A text is its first `n` characters, a newline and the rest. */
  lemma AroundNewline(text: string, n: nat)
    requires n < |text| && text[n] == '\n'
    ensures text == text[..n] + "\n" + text[n + 1..]
  {
  }

  /** Splitting a text into lines and joining them with newlines gives back the text. */
  lemma {:induction false} JoinLinesOfText(text: string)
    ensures JoinLines(Lines(text)) == text
    decreases |text|
  {
    var n := LineEnd(text);
    if n < |text| {
      JoinLinesOfText(text[n + 1..]);
      AroundNewline(text, n);
    }
  }

  /** No line of a text holds a newline. */
  lemma {:induction false} LinesHaveNoNewline(text: string)
    ensures forall k, i :: 0 <= k < |Lines(text)| && 0 <= i < |Lines(text)[k]| ==> Lines(text)[k][i] != '\n'
    decreases |text|
  {
    var n := LineEnd(text);
    if n < |text| {
      LinesHaveNoNewline(text[n + 1..]);
    }
  }

  lemma ConcatCons(x: string, rest: seq<string>)
    ensures Concat([x] + rest) == x + Concat(rest)
  {
    assert ([x] + rest)[1..] == rest;
  }

  lemma ConcatHeaderStep(line: string, r: seq<string>)
    requires |r| >= 1
    ensures Concat(["", line, "\n" + r[0]] + r[1..]) == line + "\n" + Concat(r)
  {
    var tail := r[1..];
    var first := "\n" + r[0];
    calc {
      Concat(["", line, first] + tail);
      { ListRegroup("", line, first, tail); }
      Concat([""] + ([line] + ([first] + tail)));
      { ConcatEmptyHead([line] + ([first] + tail)); }
      Concat([line] + ([first] + tail));
      { ConcatCons(line, [first] + tail); }
      line + Concat([first] + tail);
      { ConcatCons(first, tail); }
      line + (first + Concat(tail));
      { Regroup3("\n", r[0], Concat(tail)); }
      line + ("\n" + (r[0] + Concat(tail)));
      { ConcatCons(r[0], tail); assert r == [r[0]] + tail; }
      line + ("\n" + Concat(r));
      { Regroup3(line, "\n", Concat(r)); }
      line + "\n" + Concat(r);
    }
  }

  lemma ListRegroup(x: string, y: string, z: string, tail: seq<string>)
    ensures [x, y, z] + tail == [x] + ([y] + ([z] + tail))
  {
  }

  lemma ConcatEmptyHead(b: seq<string>)
    ensures Concat([""] + b) == Concat(b)
  {
    ConcatCons("", b);
    assert "" + Concat(b) == Concat(b);
  }

  lemma ConcatPlainStep(line: string, r: seq<string>)
    requires |r| >= 1
    ensures Concat([line + "\n" + r[0]] + r[1..]) == line + "\n" + Concat(r)
  {
    var tail := r[1..];
    calc {
      Concat([line + "\n" + r[0]] + tail);
      { ConcatCons(line + "\n" + r[0], tail); }
      (line + "\n" + r[0]) + Concat(tail);
      { Regroup3(line + "\n", r[0], Concat(tail)); }
      (line + "\n") + (r[0] + Concat(tail));
      { ConcatCons(r[0], tail); assert r == [r[0]] + tail; }
      line + "\n" + Concat(r);
    }
  }

  lemma Regroup3(x: string, y: string, z: string)
    ensures (x + y) + z == x + (y + z)
  {
  }

  /** Joining the pieces of the split of some lines gives back the lines joined with newlines. */
  lemma {:induction false} SplitLinesConcat(lines: seq<string>)
    requires |lines| >= 1
    ensures Concat(SplitLines(lines)) == JoinLines(lines)
    decreases |lines|
  {
    var line := lines[0];
    ConcatCons("", []);
    if |lines| == 1 {
      if IsHeader(line) {
        ConcatCons(line, [""]);
        ConcatCons("", [line, ""]);
      } else {
        ConcatCons(line, []);
      }
    } else {
      SplitLinesConcat(lines[1..]);
      if IsHeader(line) {
        ConcatHeaderStep(line, SplitLines(lines[1..]));
      } else {
        ConcatPlainStep(line, SplitLines(lines[1..]));
      }
    }
  }

  /** Joining the pieces of the split gives back the file text. */
  lemma SplitHeadersConcat(text: string)
    ensures Concat(SplitHeaders(text)) == text
  {
    SplitLinesConcat(Lines(text));
    JoinLinesOfText(text);
  }

  lemma HeaderLinesCons(line: string, lines: seq<string>)
    ensures HeaderLines([line] + lines) == (if IsHeader(line) then [line] else []) + HeaderLines(lines)
  {
    assert ([line] + lines)[1..] == lines;
  }

  /** The captured pieces of the split of some lines are exactly their header lines, in order. */
  lemma {:induction false} SplitLinesCaptures(lines: seq<string>)
    requires |lines| >= 1
    ensures Captured(SplitLines(lines)) == HeaderLines(lines)
    decreases |lines|
  {
    var line := lines[0];
    var pieces := SplitLines(lines);
    assert lines == [line] + lines[1..];
    HeaderLinesCons(line, lines[1..]);
    if |lines| == 1 {
      if IsHeader(line) {
        assert Captured(pieces) == [line];
      } else {
        assert Captured(pieces) == [];
      }
    } else {
      var r := SplitLines(lines[1..]);
      SplitLinesCaptures(lines[1..]);
      if IsHeader(line) {
        CapturedHeaderCons(line, r);
      } else {
        CapturedPlainCons(line, r);
      }
    }
  }

  /** A header line in front of the pieces is captured ahead of theirs. */
  lemma CapturedHeaderCons(line: string, r: seq<string>)
    requires |r| >= 1
    ensures Captured(["", line, "\n" + r[0]] + r[1..]) == [line] + Captured(r)
  {
    var pieces := ["", line, "\n" + r[0]] + r[1..];
    assert |Captured(pieces)| == |Captured(r)| + 1;
    forall j | 0 <= j < |Captured(pieces)|
      ensures Captured(pieces)[j] == ([line] + Captured(r))[j]
    {
      if j > 0 {
        assert pieces[2 * j + 1] == r[2 * (j - 1) + 1];
      }
    }
  }

  /** A plain line joined to the first piece captures nothing new. */
  lemma CapturedPlainCons(line: string, r: seq<string>)
    requires |r| >= 1
    ensures Captured([line + "\n" + r[0]] + r[1..]) == Captured(r)
  {
    var pieces := [line + "\n" + r[0]] + r[1..];
    assert |Captured(pieces)| == |Captured(r)|;
    forall j | 0 <= j < |Captured(pieces)|
      ensures Captured(pieces)[j] == Captured(r)[j]
    {
      assert pieces[2 * j + 1] == r[2 * j + 1];
    }
  }

  /** The captured pieces of the split are exactly the header lines of the text, in order. */
  lemma SplitHeadersCaptures(text: string)
    ensures Captured(SplitHeaders(text)) == HeaderLines(Lines(text))
  {
    SplitLinesCaptures(Lines(text));
  }

  /** A line that is not a header, then a newline: the header lines are those of what follows. */
  lemma HeaderLinesAfter(line: string, x: string)
    requires forall i :: 0 <= i < |line| ==> line[i] != '\n'
    requires !IsHeader(line)
    ensures HeaderLines(Lines(line + "\n" + x)) == HeaderLines(Lines(x))
  {
    LinesAfter(line, x);
    HeaderLinesCons(line, Lines(x));
  }

  lemma HeaderLinesOfLine(line: string)
    requires forall i :: 0 <= i < |line| ==> line[i] != '\n'
    requires !IsHeader(line)
    ensures HeaderLines(Lines(line)) == []
  {
    LinesOfLine(line);
    HeaderLinesCons(line, []);
  }

  /** The last piece of the split of some lines holds no header line. */
  lemma {:induction false} SplitLinesTail(lines: seq<string>)
    requires |lines| >= 1
    requires forall k, i :: 0 <= k < |lines| && 0 <= i < |lines[k]| ==> lines[k][i] != '\n'
    ensures var pieces := SplitLines(lines); HeaderLines(Lines(pieces[|pieces| - 1])) == []
    decreases |lines|
  {
    var line := lines[0];
    assert forall i :: 0 <= i < |line| ==> line[i] != '\n';
    if |lines| == 1 {
      if IsHeader(line) {
        HeaderLinesOfLine("");
      } else {
        HeaderLinesOfLine(line);
      }
    } else {
      NoNewlineAfterFirst(lines);
      SplitLinesTail(lines[1..]);
      TailAfterLine(line, SplitLines(lines[1..]));
    }
  }

  lemma NoNewlineAfterFirst(lines: seq<string>)
    requires |lines| >= 1
    requires forall k, i :: 0 <= k < |lines| && 0 <= i < |lines[k]| ==> lines[k][i] != '\n'
    ensures var rest := lines[1..]; forall k, i :: 0 <= k < |rest| && 0 <= i < |rest[k]| ==> rest[k][i] != '\n'
  {
    var rest := lines[1..];
    forall k, i | 0 <= k < |rest| && 0 <= i < |rest[k]|
      ensures rest[k][i] != '\n'
    {
      assert rest[k] == lines[k + 1];
    }
  }

  /** Putting one more line in front of the pieces keeps the last piece free of header lines. */
  lemma TailAfterLine(line: string, r: seq<string>)
    requires forall i :: 0 <= i < |line| ==> line[i] != '\n'
    requires |r| >= 1 && HeaderLines(Lines(r[|r| - 1])) == []
    ensures var p := if IsHeader(line) then ["", line, "\n" + r[0]] + r[1..] else [line + "\n" + r[0]] + r[1..];
      HeaderLines(Lines(p[|p| - 1])) == []
  {
    if |r| == 1 {
      if IsHeader(line) {
        BlankBeforeTail(r[0]);
      } else {
        HeaderLinesAfter(line, r[0]);
      }
    }
  }

  /** A blank line in front of a text adds no header line. */
  lemma BlankBeforeTail(x: string)
    ensures HeaderLines(Lines("\n" + x)) == HeaderLines(Lines(x))
  {
    HeaderLinesAfter("", x);
    assert "" + "\n" + x == "\n" + x;
  }

  /** The last piece of the split, the text after the last header line, holds no header line. */
  lemma TailHasNoHeader(text: string)
    ensures var pieces := SplitHeaders(text); HeaderLines(Lines(pieces[|pieces| - 1])) == []
  {
    LinesHaveNoNewline(text);
    SplitLinesTail(Lines(text));
  }

  // ---------------------------------------------------------------------------
  // Applying the header segments

  /** The loop over the segments raises exactly when one of them does not unpack. */
  lemma ApplyHeadersFails(segments: seq<string>)
    ensures ApplyHeaders(segments).Err? <==> exists j :: 0 <= j < |segments| && Rejects(segments[j])
  {
    if exists j :: 0 <= j < |segments| && Rejects(segments[j]) {
      var j :| 0 <= j < |segments| && Rejects(segments[j]);
      RejectedSegmentFails(segments, j);
    } else {
      AcceptedSegmentsApply(segments);
    }
  }

  /** A rejected segment makes the whole loop fail, whatever follows it. */
  lemma RejectedSegmentFails(segments: seq<string>, j: nat)
    requires j < |segments| && Rejects(segments[j])
    ensures ApplyHeaders(segments).Err?
  {
    var prefix := segments[..j + 1];
    assert prefix[..|prefix| - 1] == segments[..j];
    ApplyHeadersFailsStep(prefix);
    ApplyHeadersErrExtends(segments, j + 1, ApplyHeaders(prefix).error);
  }

  /** When no segment is rejected, the loop runs to the end. */
  lemma {:induction false} AcceptedSegmentsApply(segments: seq<string>)
    requires forall j :: 0 <= j < |segments| ==> !Rejects(segments[j])
    ensures ApplyHeaders(segments).Ok?
    decreases |segments|
  {
    if segments != [] {
      var init := segments[..|segments| - 1];
      assert forall j :: 0 <= j < |init| ==> init[j] == segments[j];
      AcceptedSegmentsApply(init);
      ApplyHeadersFailsStep(segments);
    }
  }

  lemma ApplyHeadersFailsStep(segments: seq<string>)
    requires segments != []
    ensures ApplyHeaders(segments).Err?
        <==> ApplyHeaders(segments[..|segments| - 1]).Err? || Rejects(segments[|segments| - 1])
  {
  }

  /**
   * What the header loop leaves: lower-cased names, none of them a property
   * without a setter, each holding a value without whitespace at either end.
   * When it raises, it is an unpack failure on one of the segments or a
   * property name.
   */
  lemma {:induction false} ApplyHeadersAttributes(segments: seq<string>)
    ensures var r := ApplyHeaders(segments);
      && (r.Ok? ==> forall k :: k in r.value ==> LowerCase(k) && !ReadOnly(k) && Trimmed(r.value[k]))
      && (r.Err? ==> (r.error.MalformedHeader? && r.error.segment in segments)
                     || (r.error.ReadOnlyAttribute? && ReadOnly(r.error.name)))
    decreases |segments|
  {
    if segments != [] {
      var init := segments[..|segments| - 1];
      ApplyHeadersAttributes(init);
      var r := ApplyHeaders(init);
      if r.Err? && r.error.MalformedHeader? && r.error.segment in init {
        var i :| 0 <= i < |init| && init[i] == r.error.segment;
        assert segments[i] == init[i];
      }
    }
  }

  /** The last step of the loop: the attributes after all segments are those after all but the last, updated by the last. */
  lemma ApplyHeadersLast(segments: seq<string>, m: map<string, string>)
    requires segments != [] && ApplyHeaders(segments) == Ok(m)
    ensures ApplyHeaders(segments[..|segments| - 1]).Ok?
    ensures var before := ApplyHeaders(segments[..|segments| - 1]).value;
      var segment := segments[|segments| - 1];
      if OnlyNewlines(segment) then m == before
      else |Split(segment)| == 2 && m == before[Lower(Split(segment)[0]) := Strip(Split(segment)[1])]
  {
  }

  lemma AssignsSomewhere(segments: seq<string>, key: string)
    requires segments != []
    ensures var init := segments[..|segments| - 1];
      (exists j :: 0 <= j < |segments| && Assigns(segments[j], key))
      <==> (exists j :: 0 <= j < |init| && Assigns(init[j], key)) || Assigns(segments[|segments| - 1], key)
  {
    var init := segments[..|segments| - 1];
    if exists j :: 0 <= j < |segments| && Assigns(segments[j], key) {
      var j :| 0 <= j < |segments| && Assigns(segments[j], key);
      if j < |init| {
        assert init[j] == segments[j];
      }
    }
    if exists j :: 0 <= j < |init| && Assigns(init[j], key) {
      var j :| 0 <= j < |init| && Assigns(init[j], key);
      assert segments[j] == init[j];
    }
  }

  /** After the loop, an attribute is set exactly when some segment assigns it. */
  lemma {:induction false} ApplyHeadersKeys(segments: seq<string>, m: map<string, string>, key: string)
    requires ApplyHeaders(segments) == Ok(m)
    ensures key in m <==> exists j :: 0 <= j < |segments| && Assigns(segments[j], key)
    decreases |segments|
  {
    if segments != [] {
      var init := segments[..|segments| - 1];
      ApplyHeadersLast(segments, m);
      ApplyHeadersKeys(init, ApplyHeaders(init).value, key);
      AssignsSomewhere(segments, key);
    }
  }

  /** Segment `j` is the last of `segments` to set attribute `key`. */
  predicate LastAssigns(segments: seq<string>, j: int, key: string) {
    0 <= j < |segments| && Assigns(segments[j], key)
    && forall i :: j < i < |segments| ==> !Assigns(segments[i], key)
  }

  /** A segment that is the last to assign a key, before the final segment, is the last to assign it among the others. */
  lemma LastAssignsInit(segments: seq<string>, j: int, key: string)
    requires LastAssigns(segments, j, key) && j < |segments| - 1
    ensures LastAssigns(segments[..|segments| - 1], j, key)
  {
    var init := segments[..|segments| - 1];
    forall i | j < i < |init|
      ensures !Assigns(init[i], key)
    {
      assert init[i] == segments[i];
    }
    assert init[j] == segments[j];
  }

  /** The final segment, when it assigns a key, decides its value. */
  lemma ApplyHeadersFinal(segments: seq<string>, m: map<string, string>, key: string)
    requires segments != [] && ApplyHeaders(segments) == Ok(m)
    requires Assigns(segments[|segments| - 1], key)
    ensures key in m && m[key] == Strip(Split(segments[|segments| - 1])[1])
  {
    ApplyHeadersLast(segments, m);
  }

  /** After the loop, an attribute holds the stripped value of the last segment that assigns it. */
  lemma {:induction false} ApplyHeadersValue(segments: seq<string>, m: map<string, string>, j: int, key: string)
    requires ApplyHeaders(segments) == Ok(m)
    requires LastAssigns(segments, j, key)
    ensures key in m && m[key] == Strip(Split(segments[j])[1])
    decreases |segments|
  {
    var init := segments[..|segments| - 1];
    if j < |init| {
      ApplyHeadersLast(segments, m);
      assert !Assigns(segments[|segments| - 1], key);
      LastAssignsInit(segments, j, key);
      ApplyHeadersValue(init, ApplyHeaders(init).value, j, key);
      assert init[j] == segments[j];
    } else {
      ApplyHeadersFinal(segments, m, key);
    }
  }

  // ---------------------------------------------------------------------------
  // The parse

  /**
   * What a parse gives: attribute names lower-cased and never `html` or
   * `content`, attribute values and the body without whitespace at either
   * end; or the error of one piece that does not unpack, or of a property name.
   */
  lemma ParseAttributes(text: string)
    ensures var r := Parse(text);
      && (r.Ok? ==> Trimmed(r.value.body))
      && (r.Ok? ==> forall k :: k in r.value.meta ==> LowerCase(k) && !ReadOnly(k) && Trimmed(r.value.meta[k]))
      && (r.Err? ==> (r.error.MalformedHeader? && r.error.segment in SplitHeaders(text))
                     || (r.error.ReadOnlyAttribute? && ReadOnly(r.error.name)))
  {
    var pieces := SplitHeaders(text);
    var segments := pieces[..|pieces| - 1];
    ApplyHeadersAttributes(segments);
    var r := ApplyHeaders(segments);
    if r.Err? && r.error.MalformedHeader? && r.error.segment in segments {
      var i :| 0 <= i < |segments| && segments[i] == r.error.segment;
      assert pieces[i] == segments[i];
    }
  }

  /** The parse raises exactly when a piece before the body is neither blank nor unpackable into a name and a value. */
  lemma ParseFails(text: string)
    ensures var pieces := SplitHeaders(text);
      Parse(text).Err? <==> exists j :: 0 <= j < |pieces| - 1 && Rejects(pieces[j])
  {
    var pieces := SplitHeaders(text);
    var segments := pieces[..|pieces| - 1];
    ApplyHeadersFails(segments);
    assert forall j :: 0 <= j < |segments| ==> segments[j] == pieces[j];
  }

  /** The text is the pieces before the last one, then the last one. */
  lemma TextIsHeadThenTail(text: string)
    ensures var pieces := SplitHeaders(text); text == Concat(pieces[..|pieces| - 1]) + pieces[|pieces| - 1]
  {
    var pieces := SplitHeaders(text);
    var head := pieces[..|pieces| - 1];
    var last := pieces[|pieces| - 1];
    SplitHeadersConcat(text);
    assert pieces == head + [last];
    ConcatAppend(head, [last]);
    ConcatCons(last, []);
    assert last + Concat([]) == last;
  }

  /** There is one captured piece per header line, and the piece before the last is the last header line. */
  lemma LastHeaderBeforeTail(text: string)
    ensures var pieces := SplitHeaders(text);
      var headers := HeaderLines(Lines(text));
      && |pieces| == 2 * |headers| + 1
      && (headers != [] ==> pieces[|pieces| - 2] == headers[|headers| - 1])
  {
    var pieces := SplitHeaders(text);
    SplitHeadersCaptures(text);
    var headers := HeaderLines(Lines(text));
    if headers != [] {
      assert Captured(pieces)[|headers| - 1] == pieces[2 * (|headers| - 1) + 1];
    }
  }

  /**
   * The body is the text after the last header line, with surrounding
   * whitespace stripped: the text is the pieces up to and including that
   * header line followed by a tail that holds no header line.
   */
  lemma BodyFollowsLastHeader(text: string)
    ensures var pieces := SplitHeaders(text);
      var tail := pieces[|pieces| - 1];
      var headers := HeaderLines(Lines(text));
      && text == Concat(pieces[..|pieces| - 1]) + tail
      && HeaderLines(Lines(tail)) == []
      && |pieces| == 2 * |headers| + 1
      && (headers != [] ==> pieces[|pieces| - 2] == headers[|headers| - 1])
      && (Parse(text).Ok? ==> Parse(text).value.body == Strip(tail))
  {
    TextIsHeadThenTail(text);
    TailHasNoHeader(text);
    LastHeaderBeforeTail(text);
    ParseBody(text);
  }

  /** A successful parse keeps the stripped last piece as the body. */
  lemma ParseBody(text: string)
    ensures var pieces := SplitHeaders(text);
      Parse(text).Ok? ==> Parse(text).value.body == Strip(pieces[|pieces| - 1])
  {
  }

  /** A file without header lines sets no attribute, and its whole text, stripped, is the body. */
  lemma ParseWithoutHeaders(text: string)
    requires HeaderLines(Lines(text)) == []
    ensures Parse(text) == Ok(Parsed(map[], Strip(text)))
  {
    var pieces := SplitHeaders(text);
    TextIsHeadThenTail(text);
    LastHeaderBeforeTail(text);
    assert pieces[..0] == [];
    assert Concat([]) + pieces[0] == pieces[0];
  }

  /** A split of a header line: its key, then its value when the value holds no further separator. */
  lemma SplitHeaderLine(h: string)
    requires IsHeader(h)
    ensures Split(h) == [HeaderKey(h)] + Split(HeaderValue(h))
    ensures !HasSeparator(HeaderValue(h)) ==> Split(h) == [HeaderKey(h), HeaderValue(h)]
    ensures HasSeparator(HeaderValue(h)) ==> |Split(h)| >= 3
  {
    HeaderParts(h);
    var key, value := HeaderKey(h), HeaderValue(h);
    SplitAfterKey(key, value);
    SplitCount(value);
    if !HasSeparator(value) {
      JoinSplit(value);
      assert Split(value) == [value];
    }
  }

  lemma {:induction false} HeaderLinesAreHeaders(lines: seq<string>)
    ensures forall h :: h in HeaderLines(lines) ==> IsHeader(h)
    decreases |lines|
  {
    if lines != [] {
      HeaderLinesAreHeaders(lines[1..]);
    }
  }

  /** Where header line `h` sits in the split: at an odd position before the body. */
  lemma HeaderPiece(text: string, h: string) returns (j: nat)
    requires h in HeaderLines(Lines(text))
    ensures IsHeader(h)
    ensures var pieces := SplitHeaders(text); j < |pieces| - 1 && pieces[j] == h
  {
    var pieces := SplitHeaders(text);
    SplitHeadersCaptures(text);
    HeaderLinesAreHeaders(Lines(text));
    var c := Captured(pieces);
    var i :| 0 <= i < |c| && c[i] == h;
    j := 2 * i + 1;
  }

  /** A header line whose value contains `": "` makes the parse raise: `name, value = ...` gets three pieces or more. */
  lemma HeaderValueWithSeparatorFails(text: string, h: string)
    requires h in HeaderLines(Lines(text))
    requires IsHeader(h) && HasSeparator(HeaderValue(h))
    ensures Parse(text).Err?
  {
    var j := HeaderPiece(text, h);
    SplitHeaderLine(h);
    HeaderParts(h);
    assert h[0] == HeaderKey(h)[0];
    assert Rejects(SplitHeaders(text)[j]);
    ParseFails(text);
  }

  /**
   * A header line whose name, lower-cased, is `html` or `content` makes
   * building the page raise: `setattr` meets a property without a setter,
   * or the value holds a further `": "` and the unpack fails first.
   */
  lemma PropertyHeaderFails(ct: ContentType, fields: map<string, Value>, text: string, h: string)
    requires h in HeaderLines(Lines(text))
    requires IsHeader(h) && ReadOnly(Lower(HeaderKey(h)))
    ensures Parse(text).Err?
    ensures PageOf(ct, fields, Contents(text)).Err?
  {
    var j := HeaderPiece(text, h);
    SplitHeaderLine(h);
    HeaderParts(h);
    assert h[0] == HeaderKey(h)[0];
    assert Rejects(SplitHeaders(text)[j]);
    ParseFails(text);
  }

  /**
   * Without a `_content` header, the body of a page built from a file is the
   * popped last piece, stripped, and `getattr(page, "_content")` gives it.
   */
  lemma PageBodyFromTail(ct: ContentType, fields: map<string, Value>, text: string, p: Parsed)
    requires Parse(text) == Ok(p)
    requires var pieces := SplitHeaders(text); forall i :: 0 <= i < |pieces| - 1 ==> !Assigns(pieces[i], BodyAttr)
    ensures var pieces := SplitHeaders(text);
      PageOf(ct, fields, Contents(text)) == Ok(Page(ct.name, ct.classAttrs + fields, p.meta, Some(Strip(pieces[|pieces| - 1]))))
    ensures var pieces := SplitHeaders(text);
      Attr(PageOf(ct, fields, Contents(text)).value, BodyAttr) == Some(Str(Strip(pieces[|pieces| - 1])))
  {
    ParseKeys(text, p, BodyAttr);
    assert p.meta - {BodyAttr} == p.meta;
  }

  /**
   * A header `_content: value` overwrites the body: the page's body is the
   * stripped value of the last such header, `_content` is no other attribute,
   * and `getattr(page, "_content")` gives that value.
   */
  lemma PageBodyFromHeader(ct: ContentType, fields: map<string, Value>, text: string, p: Parsed, j: int)
    requires Parse(text) == Ok(p)
    requires var pieces := SplitHeaders(text); LastAssigns(pieces[..|pieces| - 1], j, BodyAttr)
    ensures var pieces, r := SplitHeaders(text), PageOf(ct, fields, Contents(text));
      && r.Ok? && BodyAttr !in r.value.meta
      && r.value.content == Some(Strip(Split(pieces[..|pieces| - 1][j])[1]))
      && Attr(r.value, BodyAttr) == Some(Str(Strip(Split(pieces[..|pieces| - 1][j])[1])))
  {
    ParseValue(text, p, j, BodyAttr);
  }

  /** A successful parse sets an attribute exactly for the names the pieces before the body assign. */
  lemma ParseKeys(text: string, p: Parsed, key: string)
    requires Parse(text) == Ok(p)
    ensures var pieces := SplitHeaders(text);
      key in p.meta <==> exists j :: 0 <= j < |pieces| - 1 && Assigns(pieces[j], key)
  {
    var pieces := SplitHeaders(text);
    var segments := pieces[..|pieces| - 1];
    ApplyHeadersKeys(segments, p.meta, key);
    assert forall j :: 0 <= j < |segments| ==> segments[j] == pieces[j];
  }

  /** A successful parse sets each attribute to the stripped value of the last piece that assigns it. */
  lemma ParseValue(text: string, p: Parsed, j: int, key: string)
    requires Parse(text) == Ok(p)
    requires var pieces := SplitHeaders(text); LastAssigns(pieces[..|pieces| - 1], j, key)
    ensures var pieces := SplitHeaders(text);
      key in p.meta && p.meta[key] == Strip(Split(pieces[..|pieces| - 1][j])[1])
  {
    var pieces := SplitHeaders(text);
    ApplyHeadersValue(pieces[..|pieces| - 1], p.meta, j, key);
  }

  /** After a successful parse, every header line is a name and a value, and its lower-cased name is an attribute. */
  lemma HeaderLineSetsAttribute(text: string, p: Parsed, h: string)
    requires Parse(text) == Ok(p)
    requires h in HeaderLines(Lines(text))
    ensures IsHeader(h) && Split(h) == [HeaderKey(h), HeaderValue(h)] && Lower(HeaderKey(h)) in p.meta
  {
    var pieces := SplitHeaders(text);
    var j := HeaderPiece(text, h);
    SplitHeaderLine(h);
    HeaderParts(h);
    assert h[0] == HeaderKey(h)[0];
    ParseFails(text);
    assert !Rejects(pieces[j]);
    assert Assigns(pieces[j], Lower(HeaderKey(h)));
    ParseKeys(text, p, Lower(HeaderKey(h)));
  }

  // ---------------------------------------------------------------------------
  // A file with one header line

  lemma HeaderLineHasNoNewline(key: string, value: string)
    requires forall i :: 0 <= i < |key| ==> IsWordChar(key[i])
    requires forall i :: 0 <= i < |value| ==> value[i] != '\n'
    ensures var line := key + ": " + value; forall i :: 0 <= i < |line| ==> line[i] != '\n'
  {
    var line := key + ": " + value;
    forall i | 0 <= i < |line|
      ensures line[i] != '\n'
    {
      if i < |key| {
        assert line[i] == key[i];
      } else if i >= |key| + 2 {
        assert line[i] == value[i - |key| - 2];
      }
    }
  }

  /** The text of a file without header lines is the single piece of its split. */
  lemma SplitWithoutHeaders(text: string)
    requires HeaderLines(Lines(text)) == []
    ensures SplitHeaders(text) == [text]
  {
    TextIsHeadThenTail(text);
    LastHeaderBeforeTail(text);
    var pieces := SplitHeaders(text);
    assert pieces[..0] == [];
    assert Concat([]) + pieces[0] == pieces[0];
  }

  /** One header line, then a body without header lines: the split is the header line and the rest. */
  lemma SplitSingleHeader(line: string, body: string)
    requires IsHeader(line) && forall i :: 0 <= i < |line| ==> line[i] != '\n'
    requires HeaderLines(Lines(body)) == []
    ensures SplitHeaders(line + "\n" + body) == ["", line, "\n" + body]
  {
    LinesAfter(line, body);
    var lines := [line] + Lines(body);
    assert lines[1..] == Lines(body);
    SplitWithoutHeaders(body);
  }

  /** The segments before the body of a one-header file set one attribute, unless it is a property. */
  lemma ApplySingleHeader(key: string, value: string)
    requires key != [] && forall i :: 0 <= i < |key| ==> IsWordChar(key[i])
    requires value != [] && IsWordChar(value[0]) && forall i :: 0 <= i < |value| ==> value[i] != '\n'
    requires !HasSeparator(value)
    ensures ApplyHeaders(["", key + ": " + value])
         == if ReadOnly(Lower(key)) then Err(ReadOnlyAttribute(Lower(key))) else Ok(map[Lower(key) := Strip(value)])
  {
    var line := key + ": " + value;
    HeaderOf(key, value);
    SplitHeaderLine(line);
    BlankSegment();
    assert !OnlyNewlines(line) by {
      assert line[0] == key[0];
    }
    ApplyHeadersAppend([""], line, map[]);
    assert [""] + [line] == ["", line];
  }

  /**
   * A file of one header line `key: value` and a body without header lines:
   * the page gets the attribute `key.lower()` set to `value.strip()`, and the
   * body is everything after the header line, stripped; a key naming the
   * `html` or `content` property raises instead.
   */
  lemma ParseSingleHeader(key: string, value: string, body: string)
    requires key != [] && forall i :: 0 <= i < |key| ==> IsWordChar(key[i])
    requires value != [] && IsWordChar(value[0]) && forall i :: 0 <= i < |value| ==> value[i] != '\n'
    requires !HasSeparator(value)
    requires HeaderLines(Lines(body)) == []
    ensures Parse(key + ": " + value + "\n" + body)
         == if ReadOnly(Lower(key)) then Err(ReadOnlyAttribute(Lower(key)))
            else Ok(Parsed(map[Lower(key) := Strip(value)], Strip("\n" + body)))
  {
    var line := key + ": " + value;
    HeaderOf(key, value);
    HeaderLineHasNoNewline(key, value);
    SplitSingleHeader(line, body);
    ApplySingleHeader(key, value);
    assert ["", line, "\n" + body][..2] == ["", line];
  }

  lemma BlankSegment()
    ensures ApplyHeaders([""]) == Ok(map[])
  {
    assert [""][..0] == [];
  }

  /** A segment that unpacks, appended to segments that parse, sets its attribute unless it names a property. */
  lemma ApplyHeadersAppend(segments: seq<string>, segment: string, m: map<string, string>)
    requires ApplyHeaders(segments) == Ok(m)
    requires !OnlyNewlines(segment) && |Split(segment)| == 2
    ensures var name := Lower(Split(segment)[0]);
      ApplyHeaders(segments + [segment])
      == if ReadOnly(name) then Err(ReadOnlyAttribute(name)) else Ok(m[name := Strip(Split(segment)[1])])
  {
    assert (segments + [segment])[..|segments|] == segments;
  }

  /** A header line holds no newline and is not made of newlines only. */
  lemma HeaderLineShape(h: string)
    requires IsHeader(h)
    ensures forall i :: 0 <= i < |h| ==> h[i] != '\n'
    ensures !OnlyNewlines(h)
  {
    assert IsWordChar(h[0]);
  }

  /** After a blank first segment, a header line whose value holds no separator sets its attribute, unless it is a property. */
  lemma ApplyFirstHeader(h: string)
    requires IsHeader(h) && !HasSeparator(HeaderValue(h))
    ensures var name := Lower(HeaderKey(h));
      ApplyHeaders(["", h]) == if ReadOnly(name) then Err(ReadOnlyAttribute(name)) else Ok(map[name := Strip(HeaderValue(h))])
  {
    SplitHeaderLine(h);
    HeaderLineShape(h);
    BlankSegment();
    ApplyHeadersAppend([""], h, map[]);
    assert [""] + [h] == ["", h];
  }

  /** After a blank segment and a header, a newline segment is skipped and a second header sets its attribute. */
  lemma ApplySecondHeader(h1: string, h2: string, m: map<string, string>)
    requires ApplyHeaders(["", h1]) == Ok(m)
    requires IsHeader(h2) && !HasSeparator(HeaderValue(h2))
    ensures var name := Lower(HeaderKey(h2));
      ApplyHeaders(["", h1, "\n", h2]) == if ReadOnly(name) then Err(ReadOnlyAttribute(name)) else Ok(m[name := Strip(HeaderValue(h2))])
  {
    SplitHeaderLine(h2);
    HeaderLineShape(h2);
    assert ["", h1, "\n"][..2] == ["", h1];
    assert ApplyHeaders(["", h1, "\n"]) == Ok(m);
    ApplyHeadersAppend(["", h1, "\n"], h2, m);
    assert ["", h1, "\n"] + [h2] == ["", h1, "\n", h2];
  }

  lemma SplitTwoHeaders(h1: string, h2: string, body: string)
    requires IsHeader(h1) && IsHeader(h2)
    requires HeaderLines(Lines(body)) == []
    ensures SplitHeaders(h1 + "\n" + (h2 + "\n" + body)) == ["", h1, "\n", h2, "\n" + body]
  {
    HeaderLineShape(h1);
    HeaderLineShape(h2);
    var t2 := h2 + "\n" + body;
    LinesAfter(h1, t2);
    SplitSingleHeader(h2, body);
    var lines := [h1] + Lines(t2);
    assert lines[1..] == Lines(t2);
    var rest := SplitLines(Lines(t2));
    assert SplitLines(lines) == ["", h1, "\n" + rest[0]] + rest[1..];
    assert "\n" + rest[0] == "\n";
  }

  /**
   * Two header lines, then a body without header lines: each header sets its
   * attribute (the second one last, so it wins when the keys agree), and the
   * body is what follows the second header, stripped; the first header that
   * names the `html` or `content` property raises instead.
   */
  lemma ParseTwoHeaders(h1: string, h2: string, body: string)
    requires IsHeader(h1) && !HasSeparator(HeaderValue(h1))
    requires IsHeader(h2) && !HasSeparator(HeaderValue(h2))
    requires HeaderLines(Lines(body)) == []
    ensures var k1, k2 := Lower(HeaderKey(h1)), Lower(HeaderKey(h2));
      Parse(h1 + "\n" + (h2 + "\n" + body))
      == if ReadOnly(k1) then Err(ReadOnlyAttribute(k1))
         else if ReadOnly(k2) then Err(ReadOnlyAttribute(k2))
         else Ok(Parsed(map[k1 := Strip(HeaderValue(h1))][k2 := Strip(HeaderValue(h2))], Strip("\n" + body)))
  {
    var k1 := Lower(HeaderKey(h1));
    SplitTwoHeaders(h1, h2, body);
    ApplyFirstHeader(h1);
    assert ["", h1, "\n", h2, "\n" + body][..4] == ["", h1, "\n", h2];
    if ReadOnly(k1) {
      assert ["", h1, "\n", h2][..2] == ["", h1];
      ApplyHeadersErrExtends(["", h1, "\n", h2], 2, ReadOnlyAttribute(k1));
    } else {
      ApplySecondHeader(h1, h2, map[k1 := Strip(HeaderValue(h1))]);
    }
  }

  lemma {:induction false} NoColonNoSeparator(s: string)
    requires forall i :: 0 <= i < |s| ==> s[i] != ':'
    ensures !HasSeparator(s)
    decreases |s|
  {
    if |s| >= 2 {
      NoColonNoSeparator(s[1..]);
    }
  }

  lemma LowerUnchanged(s: string)
    requires forall i :: 0 <= i < |s| ==> !IsUpper(s[i])
    ensures Lower(s) == s
  {
  }

  lemma {:induction false} StripLeftSpaces(ws: string, s: string)
    requires forall i :: 0 <= i < |ws| ==> IsSpace(ws[i])
    requires s != [] && !IsSpace(s[0])
    ensures StripLeft(ws + s) == s
    decreases |ws|
  {
    if ws != [] {
      assert (ws + s)[1..] == ws[1..] + s;
      StripLeftSpaces(ws[1..], s);
    }
  }

  /** Whitespace before a text that neither starts nor ends with whitespace is all `strip()` removes. */
  lemma StripSpaces(ws: string, s: string)
    requires forall i :: 0 <= i < |ws| ==> IsSpace(ws[i])
    requires s != [] && !IsSpace(s[0]) && !IsSpace(s[|s| - 1])
    ensures Strip(ws + s) == s
  {
    StripLeftSpaces(ws, s);
  }

  /** A blank line, then a line holding no newline. */
  lemma BlankThenLine(line: string)
    requires forall i :: 0 <= i < |line| ==> line[i] != '\n'
    ensures Lines("\n" + line) == ["", line]
  {
    var t := "\n" + line;
    assert t[0] == '\n';
    assert LineEnd(t) == 0;
    assert t[1..] == line;
    LinesOfLine(line);
  }

  /** A blank line, then a line that is not a header: no header lines. */
  lemma BlankThenText(line: string)
    requires forall i :: 0 <= i < |line| ==> line[i] != '\n'
    requires !IsHeader(line)
    ensures HeaderLines(Lines("\n" + line)) == []
  {
    BlankThenLine(line);
    HeaderLinesCons("", [line]);
    HeaderLinesCons(line, []);
  }

  /** A word followed by a space starts no header line. */
  lemma WordThenSpace(w: string, rest: string)
    requires w != [] && forall i :: 0 <= i < |w| ==> IsWordChar(w[i])
    requires rest != [] && rest[0] == ' '
    ensures !IsHeader(w + rest)
  {
    WordPrefixOf(w, rest);
  }

  lemma ExampleTitleHeader()
    ensures IsHeader("title: Hello") && HeaderKey("title: Hello") == "title" && HeaderValue("title: Hello") == "Hello"
  {
    HeaderOf("title", "Hello");
    assert "title" + ": " + "Hello" == "title: Hello";
  }

  lemma ExampleTagsHeader()
    ensures IsHeader("tags: a, b") && HeaderKey("tags: a, b") == "tags" && HeaderValue("tags: a, b") == "a, b"
  {
    HeaderOf("tags", "a, b");
    assert "tags" + ": " + "a, b" == "tags: a, b";
  }

  lemma ExampleHeaders()
    ensures IsHeader("title: Hello") && HeaderKey("title: Hello") == "title" && HeaderValue("title: Hello") == "Hello"
    ensures IsHeader("tags: a, b") && HeaderKey("tags: a, b") == "tags" && HeaderValue("tags: a, b") == "a, b"
  {
    ExampleTitleHeader();
    ExampleTagsHeader();
  }

  lemma ExampleBodyLine()
    ensures !IsHeader("Body text.")
  {
    WordThenSpace("Body", " text.");
    assert "Body" + " text." == "Body text.";
  }

  lemma ExampleBodyLines()
    ensures HeaderLines(Lines("\n" + "Body text.")) == []
  {
    ExampleBodyLine();
    BlankThenText("Body text.");
  }

  lemma ExampleBodyStrip()
    ensures Strip("\n" + ("\n" + "Body text.")) == "Body text."
  {
    StripSpaces("\n\n", "Body text.");
    assert "\n" + ("\n" + "Body text.") == "\n\n" + "Body text.";
  }

  lemma ExampleSeparators()
    ensures !HasSeparator("Hello") && !HasSeparator("a, b")
  {
    NoColonNoSeparator("Hello");
    NoColonNoSeparator("a, b");
  }

  lemma ExampleStripHello()
    ensures Strip("Hello") == "Hello"
  {
    StripSpaces("", "Hello");
    assert "" + "Hello" == "Hello";
  }

  lemma ExampleStripTags()
    ensures Strip("a, b") == "a, b"
  {
    StripSpaces("", "a, b");
    assert "" + "a, b" == "a, b";
  }

  lemma ExampleLower()
    ensures Lower("title") == "title" && Lower("tags") == "tags"
  {
    LowerUnchanged("title");
    LowerUnchanged("tags");
  }

  lemma ExampleNotProperties()
    ensures !ReadOnly("title") && !ReadOnly("tags")
  {
  }

  lemma ExampleText()
    ensures "title: Hello" + "\n" + ("tags: a, b" + "\n" + ("\n" + "Body text.")) == "title: Hello\ntags: a, b\n\nBody text."
  {
  }

  /** A file of two headers, a blank line and a body. */
  lemma ParseExample()
    ensures Parse("title: Hello\ntags: a, b\n\nBody text.")
         == Ok(Parsed(map["title" := "Hello", "tags" := "a, b"], "Body text."))
  {
    ExampleHeaders();
    ExampleBodyLines();
    ExampleBodyStrip();
    ExampleSeparators();
    ExampleStripHello();
    ExampleStripTags();
    ExampleLower();
    ExampleNotProperties();
    ParseTwoHeaders("title: Hello", "tags: a, b", "\n" + "Body text.");
    ExampleText();
  }

  lemma BodyAttrShape()
    ensures Lower(BodyAttr) == BodyAttr && !ReadOnly(BodyAttr)
    ensures forall i :: 0 <= i < |BodyAttr| ==> IsWordChar(BodyAttr[i])
  {
    LowerUnchanged(BodyAttr);
  }

  lemma HiShape()
    ensures IsWordChar("Hi"[0]) && !HasSeparator("Hi")
  {
    NoColonNoSeparator("Hi");
  }

  lemma HiStrip()
    ensures Strip("Hi") == "Hi"
  {
    StripSpaces("", "Hi");
    assert "" + "Hi" == "Hi";
  }

  lemma ContentExampleText()
    ensures BodyAttr + ": " + "Hi" + "\n" + ("\n" + "Body text.") == "_content: Hi\n\nBody text."
  {
  }

  lemma ContentHeaderSets()
    ensures Parse(BodyAttr + ": " + "Hi" + "\n" + ("\n" + "Body text."))
         == Ok(Parsed(map[BodyAttr := Strip("Hi")], Strip("\n" + ("\n" + "Body text."))))
  {
    ExampleBodyLines();
    BodyAttrShape();
    HiShape();
    ParseSingleHeader(BodyAttr, "Hi", "\n" + "Body text.");
  }

  lemma ContentHeaderParse()
    ensures Parse(BodyAttr + ": " + "Hi" + "\n" + ("\n" + "Body text.")) == Ok(Parsed(map[BodyAttr := "Hi"], "Body text."))
  {
    ContentHeaderSets();
    ExampleBodyStrip();
    HiStrip();
  }

  lemma ContentExampleParse()
    ensures Parse("_content: Hi\n\nBody text.") == Ok(Parsed(map[BodyAttr := "Hi"], "Body text."))
  {
    ContentHeaderParse();
    ContentExampleText();
  }

  lemma OnlyBodyAttr(ct: ContentType, fields: map<string, Value>, value: string, tail: string)
    ensures PageOfParsed(ct, fields, Parsed(map[BodyAttr := value], tail)) == Page(ct.name, ct.classAttrs + fields, map[], Some(value))
  {
    assert map[BodyAttr := value] - {BodyAttr} == map[];
  }

  /** A file whose header sets `_content`: the header value, not the text after it, becomes the body. */
  lemma ContentHeaderExample(ct: ContentType, fields: map<string, Value>)
    ensures PageOf(ct, fields, Contents("_content: Hi\n\nBody text."))
         == Ok(Page(ct.name, ct.classAttrs + fields, map[], Some("Hi")))
  {
    ContentExampleParse();
    OnlyBodyAttr(ct, fields, "Hi", "Body text.");
  }

  // ---------------------------------------------------------------------------
  // Identity

  /** Normalising an identity again changes nothing. */
  lemma NormalizeIdempotent(s: string)
    ensures Normalize(Normalize(s)) == Normalize(s)
  {
  }

  /** A page whose slug is another page's identity has that identity too. */
  lemma IdentityAsSlug(p: Page, q: Page, id: string)
    requires Identity(p) == Ok(id)
    requires Attr(q, "slug") == Some(Str(id))
    ensures Identity(q) == Ok(id)
  {
    var s := IdentitySource(p).s;
    assert id == Normalize(s);
    NormalizeIdempotent(s);
  }
}
