/**
 * The string operations the content pipeline relies on, restricted to ASCII:
 * the `\w` character class, `str.lower`, `str.strip`, `str.split(": ")`,
 * decimal formatting of an index and Python's ordering of strings.
 */
module Strings {

  /** `\w` over ASCII: letters, digits and the underscore. */
  predicate IsWordChar(c: char) {
    'a' <= c <= 'z' || 'A' <= c <= 'Z' || '0' <= c <= '9' || c == '_'
  }

  /** The ASCII characters `str.strip()` removes: tab to carriage return, the separators 0x1c-0x1f and space. */
  predicate IsSpace(c: char) {
    9 <= c as int <= 13 || 28 <= c as int <= 32
  }

  predicate IsUpper(c: char) {
    'A' <= c <= 'Z'
  }

  function LowerChar(c: char): (d: char)
    ensures !IsUpper(d)
    ensures IsUpper(c) ==> d as int == c as int + 32
    ensures !IsUpper(c) ==> d == c
  {
    if IsUpper(c) then (c as int + 32) as char else c
  }

  /** No upper-case letter: what `lower()` leaves. */
  predicate LowerCase(s: string) {
    forall i :: 0 <= i < |s| ==> !IsUpper(s[i])
  }

  /** `s.lower()` over ASCII. */
  function Lower(s: string): (r: string)
    ensures |r| == |s|
    ensures forall i :: 0 <= i < |s| ==> r[i] == LowerChar(s[i])
  {
    seq(|s|, i requires 0 <= i < |s| => LowerChar(s[i]))
  }

  function StripLeft(s: string): (r: string)
    ensures |r| <= |s| && r == s[|s| - |r|..]
    ensures r == [] || !IsSpace(r[0])
    ensures forall i :: 0 <= i < |s| - |r| ==> IsSpace(s[i])
  {
    if |s| > 0 && IsSpace(s[0]) then StripLeft(s[1..]) else s
  }

  function StripRight(s: string): (r: string)
    ensures |r| <= |s| && r == s[..|r|]
    ensures r == [] || !IsSpace(r[|r| - 1])
    ensures forall i :: |r| <= i < |s| ==> IsSpace(s[i])
  {
    if |s| > 0 && IsSpace(s[|s| - 1]) then StripRight(s[..|s| - 1]) else s
  }

  /** `r` is `s` with only whitespace removed before position `a` and after `r`. */
  predicate TrimmedAt(s: string, r: string, a: int) {
    0 <= a <= |s| - |r| && r == s[a..a + |r|]
    && (forall i :: 0 <= i < a ==> IsSpace(s[i]))
    && (forall i :: a + |r| <= i < |s| ==> IsSpace(s[i]))
  }

  /** `s.strip()`: `s` without its leading and trailing whitespace. */
  function Strip(s: string): (r: string)
    ensures r == [] || (!IsSpace(r[0]) && !IsSpace(r[|r| - 1]))
    ensures exists a :: TrimmedAt(s, r, a)
  {
    var l := StripLeft(s);
    var r := StripRight(l);
    assert TrimmedAt(s, r, |s| - |l|);
    r
  }

  /** `s.strip("\n")` is empty: `s` holds nothing but newline characters. */
  predicate OnlyNewlines(s: string) {
    forall i :: 0 <= i < |s| ==> s[i] == '\n'
  }

  /** No whitespace at either end: what `strip()` leaves. */
  predicate Trimmed(s: string) {
    s == [] || (!IsSpace(s[0]) && !IsSpace(s[|s| - 1]))
  }

  /** `s` contains the separator `": "`. */
  predicate HasSeparator(s: string) {
    |s| >= 2 && ((s[0] == ':' && s[1] == ' ') || HasSeparator(s[1..]))
  }

  /** `s.split(": ")`: the pieces between the leftmost non-overlapping occurrences of `": "`. */
  function Split(s: string): (parts: seq<string>)
    ensures |parts| >= 1
    decreases |s|
  {
    if |s| < 2 then [s]
    else if s[0] == ':' && s[1] == ' ' then [""] + Split(s[2..])
    else
      var rest := Split(s[1..]);
      [[s[0]] + rest[0]] + rest[1..]
  }

  /** `": ".join(parts)`. */
  function Join(parts: seq<string>): string
    requires |parts| >= 1
  {
    if |parts| == 1 then parts[0] else parts[0] + ": " + Join(parts[1..])
  }

  /** Splitting then joining gives back the string. */
  lemma {:induction false} JoinSplit(s: string)
    ensures Join(Split(s)) == s
    decreases |s|
  {
    if |s| < 2 {
    } else if s[0] == ':' && s[1] == ' ' {
      JoinSplit(s[2..]);
      JoinAfterEmpty(Split(s[2..]));
      assert s == ": " + s[2..];
    } else {
      JoinSplit(s[1..]);
      JoinAfterChar(s[0], Split(s[1..]));
      assert s == [s[0]] + s[1..];
    }
  }

  lemma JoinAfterEmpty(parts: seq<string>)
    requires |parts| >= 1
    ensures Join([""] + parts) == ": " + Join(parts)
  {
    assert ([""] + parts)[1..] == parts;
  }

  lemma JoinAfterChar(c: char, parts: seq<string>)
    requires |parts| >= 1
    ensures Join([[c] + parts[0]] + parts[1..]) == [c] + Join(parts)
  {
    var joined := [[c] + parts[0]] + parts[1..];
    if |parts| == 1 {
      assert joined == [[c] + parts[0]];
    } else {
      assert joined[1..] == parts[1..];
      var tail := Join(parts[1..]);
      calc {
        Join(joined);
        ([c] + parts[0]) + ": " + tail;
        { PrependChar(c, parts[0], ": ", tail); }
        [c] + (parts[0] + ": " + tail);
        [c] + Join(parts);
      }
    }
  }

  lemma PrependChar(c: char, x: string, sep: string, y: string)
    ensures ([c] + x) + sep + y == [c] + (x + sep + y)
  {
  }

  /** `s.split(": ")` has more than one piece exactly when `s` contains the separator. */
  lemma {:induction false} SplitCount(s: string)
    ensures |Split(s)| >= 2 <==> HasSeparator(s)
    decreases |s|
  {
    if |s| >= 2 && !(s[0] == ':' && s[1] == ' ') {
      SplitCount(s[1..]);
    }
  }

  /** A key without a colon, then the separator: the key is the first piece and the rest is split on. */
  lemma {:induction false} SplitAfterKey(key: string, rest: string)
    requires forall i :: 0 <= i < |key| ==> key[i] != ':'
    ensures Split(key + ": " + rest) == [key] + Split(rest)
    decreases |key|
  {
    var s := key + ": " + rest;
    if key == [] {
      assert s[2..] == rest;
    } else {
      assert s[1..] == key[1..] + ": " + rest;
      SplitAfterKey(key[1..], rest);
      assert [key[0]] + key[1..] == key;
    }
  }

  function DigitChar(d: nat): (c: char)
    requires d < 10
    ensures '0' <= c <= '9'
  {
    ('0' as int + d) as char
  }

  predicate AllDigits(s: string) {
    forall i :: 0 <= i < |s| ==> '0' <= s[i] <= '9'
  }

  /** `str(n)` for a non-negative integer, in decimal. */
  function NatToString(n: nat): (s: string)
    ensures |s| >= 1 && AllDigits(s)
    decreases n
  {
    if n < 10 then [DigitChar(n)] else NatToString(n / 10) + [DigitChar(n % 10)]
  }

  /** The number a string of decimal digits denotes. */
  function DigitsValue(s: string): nat
    requires AllDigits(s)
  {
    if s == [] then 0 else DigitsValue(s[..|s| - 1]) * 10 + (s[|s| - 1] as int - '0' as int)
  }

  lemma {:induction false} NatToStringRoundTrip(n: nat)
    ensures DigitsValue(NatToString(n)) == n
    decreases n
  {
    if n >= 10 {
      NatToStringRoundTrip(n / 10);
      var s := NatToString(n);
      assert s[..|s| - 1] == NatToString(n / 10);
    }
  }

  /** Distinct indices give distinct decimal strings. */
  lemma NatToStringInjective(m: nat, n: nat)
    ensures NatToString(m) == NatToString(n) ==> m == n
  {
    NatToStringRoundTrip(m);
    NatToStringRoundTrip(n);
  }

  /** Python's `<` on strings: lexicographic by code point, a proper prefix coming first. */
  predicate StrLt(a: string, b: string)
    decreases |a|
  {
    if |a| == 0 then |b| > 0
    else if |b| == 0 then false
    else if a[0] == b[0] then StrLt(a[1..], b[1..])
    else a[0] < b[0]
  }

  lemma {:induction false} StrLtIrreflexive(a: string)
    ensures !StrLt(a, a)
    decreases |a|
  {
    if |a| > 0 {
      StrLtIrreflexive(a[1..]);
    }
  }

  lemma {:induction false} StrLtTransitive(a: string, b: string, c: string)
    requires StrLt(a, b) && StrLt(b, c)
    ensures StrLt(a, c)
    decreases |a|
  {
    if |a| > 0 && |b| > 0 && |c| > 0 && a[0] == b[0] && b[0] == c[0] {
      StrLtTransitive(a[1..], b[1..], c[1..]);
    }
  }

  lemma {:induction false} StrLtTotal(a: string, b: string)
    ensures a == b || StrLt(a, b) || StrLt(b, a)
    decreases |a|
  {
    if |a| > 0 && |b| > 0 && a[0] == b[0] {
      StrLtTotal(a[1..], b[1..]);
      if a[1..] == b[1..] {
        assert a == [a[0]] + a[1..] && b == [b[0]] + b[1..];
      }
    }
  }

  /** Python's `key in s` for two strings: `key` occurs in `s` as a substring. */
  predicate IsSubstring(key: string, s: string)
    decreases |s|
  {
    key <= s || (|s| > 0 && IsSubstring(key, s[1..]))
  }
}
