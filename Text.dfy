/** The Python string operations the chatbot relies on: `str.strip()` with no
    argument, `str.split(sep)` with a one-character separator, and
    `sep.join(parts)`. */
module Text {

  /** A character that Python's `str.isspace` accepts, which is exactly the
      set `str.strip()` removes when called without an argument. */
  predicate IsSpace(c: char)
  {
    || c == ' '
    || ('\U{9}' <= c <= '\U{D}')
    || ('\U{1C}' <= c <= '\U{1F}')
    || c == '\U{85}' || c == '\U{A0}' || c == '\U{1680}'
    || ('\U{2000}' <= c <= '\U{200A}')
    || c == '\U{2028}' || c == '\U{2029}' || c == '\U{202F}'
    || c == '\U{205F}' || c == '\U{3000}'
  }

  predicate AllSpace(s: string)
  {
    forall i :: 0 <= i < |s| ==> IsSpace(s[i])
  }

  /** The scan `strip()` makes from the left, starting at `i`: the first
      position at or after `i` that does not hold whitespace (or `|s|`). */
  function SkipLeft(s: string, i: nat): (lo: nat)
    requires i <= |s|
    ensures i <= lo <= |s|
    ensures forall k :: i <= k < lo ==> IsSpace(s[k])
    ensures lo < |s| ==> !IsSpace(s[lo])
    decreases |s| - i
  {
    if i < |s| && IsSpace(s[i]) then SkipLeft(s, i + 1) else i
  }

  /** The scan `strip()` makes from the right, from `j` down to `lo`: the
      end of the last character in `[lo, j)` that is not whitespace (or
      `lo`). */
  function SkipRight(s: string, lo: nat, j: nat): (hi: nat)
    requires lo <= j <= |s|
    ensures lo <= hi <= j
    ensures forall k :: hi <= k < j ==> IsSpace(s[k])
    ensures hi > lo ==> !IsSpace(s[hi - 1])
    decreases j
  {
    if j > lo && IsSpace(s[j - 1]) then SkipRight(s, lo, j - 1) else j
  }

  /** Where the text `strip()` keeps begins. */
  function StripStart(s: string): (lo: nat)
    ensures lo <= |s|
  {
    SkipLeft(s, 0)
  }

  /** Where the text `strip()` keeps ends. */
  function StripEnd(s: string): (hi: nat)
    ensures StripStart(s) <= hi <= |s|
  {
    SkipRight(s, StripStart(s), |s|)
  }

  /** Python's `s.strip()`: what is left neither starts nor ends with
      whitespace. */
  function Strip(s: string): (r: string)
  {
    s[StripStart(s)..StripEnd(s)]
  }

  /** What `strip()` keeps is a contiguous middle of `s`; everything before
      and after it is whitespace, and it neither starts nor ends with
      whitespace. */
  lemma StripShape(s: string)
    ensures var lo, hi := StripStart(s), StripEnd(s);
            && Strip(s) == s[lo..hi]
            && (forall k :: 0 <= k < lo || hi <= k < |s| ==> IsSpace(s[k]))
            && (lo < hi ==> !IsSpace(s[lo]) && !IsSpace(s[hi - 1]))
  {
  }

  /** `strip()` leaves nothing exactly when the text is all whitespace. */
  lemma StripEmptyIff(s: string)
    ensures Strip(s) == [] <==> AllSpace(s)
  {
    var lo, hi := StripStart(s), StripEnd(s);
    assert |Strip(s)| == hi - lo;
    if lo < hi {
      assert !IsSpace(s[lo]);
    }
  }

  /** A line Python's `if line.strip():` treats as false. */
  predicate IsBlank(line: string)
  {
    Strip(line) == ""
  }

  /** Python's `s.split(sep)` for a one-character separator; it always has
      at least one part (`"".split(sep) == [""]`). */
  function Split(s: string, sep: char): (parts: seq<string>)
    ensures |parts| >= 1
    decreases |s|
  {
    if s == [] then
      [""]
    else if s[0] == sep then
      [""] + Split(s[1..], sep)
    else
      var rest := Split(s[1..], sep);
      [[s[0]] + rest[0]] + rest[1..]
  }

  /** No part of a split holds the separator. */
  lemma {:induction false} SplitNoSeparator(s: string, sep: char)
    ensures forall i :: 0 <= i < |Split(s, sep)| ==> sep !in Split(s, sep)[i]
    decreases |s|
  {
    if s != [] {
      SplitNoSeparator(s[1..], sep);
    }
  }

  /** The first part of a split is the text up to the first separator: a
      prefix of `s`, non-empty when `s` starts with another character. */
  lemma {:induction false} SplitFirst(s: string, sep: char)
    ensures var first := Split(s, sep)[0];
            |first| <= |s| && first == s[..|first|]
            && (s != [] && s[0] != sep ==> first != [])
    decreases |s|
  {
    if s != [] && s[0] != sep {
      SplitFirst(s[1..], sep);
      var rest := Split(s[1..], sep);
      assert s == [s[0]] + s[1..];
    }
  }

  /** Python's `sep.join(parts)` for a one-character separator. */
  function Join(parts: seq<string>, sep: char): (s: string)
    ensures parts != [] ==> |parts[0]| <= |s| && s[..|parts[0]|] == parts[0]
  {
    if |parts| == 0 then ""
    else if |parts| == 1 then parts[0]
    else parts[0] + [sep] + Join(parts[1..], sep)
  }

  /** Joining the parts of a split gives back the original text. */
  lemma {:induction false} SplitThenJoin(s: string, sep: char)
    ensures Join(Split(s, sep), sep) == s
    decreases |s|
  {
    if s == [] {
    } else if s[0] == sep {
      SplitThenJoin(s[1..], sep);
      assert s == [sep] + s[1..];
    } else {
      var rest := Split(s[1..], sep);
      SplitThenJoin(s[1..], sep);
      JoinConsFirst(s[0], rest, sep);
      assert s == [s[0]] + s[1..];
    }
  }

  /** Gluing one character to the front of the first part glues it to the
      front of the joined text. */
  lemma JoinConsFirst(c: char, parts: seq<string>, sep: char)
    requires |parts| >= 1
    ensures Join([[c] + parts[0]] + parts[1..], sep) == [c] + Join(parts, sep)
  {
    var q := [[c] + parts[0]] + parts[1..];
    assert q[1..] == parts[1..];
  }

  /** Splitting text whose first `|a|` characters hold no separator. */
  lemma {:induction false} SplitPrefix(a: string, t: string, sep: char)
    requires sep !in a
    ensures Split(a + t, sep) == [a + Split(t, sep)[0]] + Split(t, sep)[1..]
    decreases |a|
  {
    var p := Split(t, sep);
    if a == [] {
      assert a + t == t;
      assert a + p[0] == p[0];
      assert p == [p[0]] + p[1..];
    } else {
      SplitPrefix(a[1..], t, sep);
      var q := Split(a[1..] + t, sep);
      assert q == [a[1..] + p[0]] + p[1..];
      assert (a + t)[1..] == a[1..] + t;
      assert (a + t)[0] == a[0] != sep;
      assert Split(a + t, sep) == [[a[0]] + q[0]] + q[1..];
      assert [a[0]] + (a[1..] + p[0]) == a + p[0];
    }
  }

  /** Splitting the join of separator-free parts gives back the parts. */
  lemma {:induction false} JoinThenSplit(parts: seq<string>, sep: char)
    requires |parts| >= 1
    requires forall i :: 0 <= i < |parts| ==> sep !in parts[i]
    ensures Split(Join(parts, sep), sep) == parts
    decreases |parts|
  {
    if |parts| == 1 {
      SplitPrefix(parts[0], "", sep);
      assert Split("", sep) == [""];
      assert parts[0] + "" == parts[0];
      assert parts == [parts[0]];
    } else {
      var tail := Join(parts[1..], sep);
      JoinThenSplit(parts[1..], sep);
      SplitPrefix(parts[0], [sep] + tail, sep);
      assert parts[0] + [sep] + tail == parts[0] + ([sep] + tail);
      var t := [sep] + tail;
      assert t[0] == sep && t[1..] == tail;
      assert Split(t, sep) == [""] + parts[1..];
      assert Join(parts, sep) == parts[0] + t;
      assert parts[0] + "" == parts[0];
      assert parts == [parts[0]] + parts[1..];
    }
  }

  /** `t` occurs in `s` as a contiguous substring. */
  predicate Contains(s: string, t: string)
  {
    exists i :: 0 <= i <= |s| && t <= s[i..]
  }

  /** Each part of a join occurs in the joined text. */
  lemma {:induction false} JoinContainsPart(parts: seq<string>, sep: char, k: nat)
    requires k < |parts|
    ensures Contains(Join(parts, sep), parts[k])
    decreases |parts|
  {
    var s := Join(parts, sep);
    if k == 0 {
      assert parts[0] <= s[0..];
    } else {
      JoinContainsPart(parts[1..], sep, k - 1);
      var tail := Join(parts[1..], sep);
      var i :| 0 <= i <= |tail| && parts[k] <= tail[i..];
      var off := |parts[0]| + 1;
      assert s == parts[0] + [sep] + tail;
      assert s[off + i..] == tail[i..];
    }
  }
}
