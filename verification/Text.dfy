/** The parts of Rust's `str` and `char` API that the modelled code calls. */
module Text {
  import opened Prelude

  /** `char::is_whitespace`: the Unicode White_Space property. */
  predicate IsWhitespace(c: char) {
    var n := c as int;
    || 0x09 <= n <= 0x0D || n == 0x20 || n == 0x85 || n == 0xA0 || n == 0x1680
    || 0x2000 <= n <= 0x200A || n == 0x2028 || n == 0x2029 || n == 0x202F
    || n == 0x205F || n == 0x3000
  }

  predicate IsAsciiChar(c: char) {
    c as int < 128
  }

  predicate IsAscii(s: string) {
    forall i :: 0 <= i < |s| ==> IsAsciiChar(s[i])
  }

  function TrimStart(s: string): string {
    if s != "" && IsWhitespace(s[0]) then TrimStart(s[1..]) else s
  }

  function TrimEnd(s: string): string {
    if s != "" && IsWhitespace(s[|s| - 1]) then TrimEnd(s[..|s| - 1]) else s
  }

  /** `str::trim`. */
  function Trim(s: string): string {
    TrimEnd(TrimStart(s))
  }

  /** No whitespace at either end. */
  predicate Tight(s: string) {
    s == "" || (!IsWhitespace(s[0]) && !IsWhitespace(s[|s| - 1]))
  }

  /** What trimming yields: a tight middle part of `s`, with only whitespace around it. */
  lemma {:induction false} TrimStartSplit(s: string) returns (i: nat)
    ensures i <= |s| && TrimStart(s) == s[i..]
    ensures forall k :: 0 <= k < i ==> IsWhitespace(s[k])
    ensures i < |s| ==> !IsWhitespace(s[i])
  {
    if s != "" && IsWhitespace(s[0]) {
      var j := TrimStartSplit(s[1..]);
      i := j + 1;
      assert s[1..][j..] == s[i..];
      forall k | 0 <= k < i ensures IsWhitespace(s[k]) {
        if k > 0 { assert s[1..][k - 1] == s[k]; }
      }
      if i < |s| { assert s[1..][j] == s[i]; }
    } else {
      i := 0;
    }
  }

  lemma {:induction false} TrimEndSplit(s: string) returns (i: nat)
    ensures i <= |s| && TrimEnd(s) == s[..i]
    ensures forall k :: i <= k < |s| ==> IsWhitespace(s[k])
    ensures i > 0 ==> !IsWhitespace(s[i - 1])
  {
    if s != "" && IsWhitespace(s[|s| - 1]) {
      i := TrimEndSplit(s[..|s| - 1]);
      assert s[..|s| - 1][..i] == s[..i];
    } else {
      i := |s|;
    }
  }

  lemma TrimSplit(s: string) returns (i: nat, j: nat)
    ensures i <= j <= |s| && Trim(s) == s[i..j]
    ensures forall k :: 0 <= k < i || j <= k < |s| ==> IsWhitespace(s[k])
    ensures Tight(Trim(s))
  {
    i := TrimStartSplit(s);
    var m := TrimEndSplit(s[i..]);
    j := i + m;
    assert s[i..][..m] == s[i..j];
    forall k | j <= k < |s| ensures IsWhitespace(s[k]) {
      assert s[i..][k - i] == s[k];
    }
  }

  /** Trimming always gives a tight string, and changes nothing exactly on tight strings. */
  lemma TrimIsTight(s: string)
    ensures Tight(Trim(s))
    ensures Trim(s) == s <==> Tight(s)
  {
    var _, _ := TrimSplit(s);
  }

  lemma TrimKeepsAbsence(s: string, c: char)
    requires c !in s
    ensures c !in Trim(s)
  {
    var i, j := TrimSplit(s);
  }

  /** A string is blank for `trim().is_empty()` exactly when it is whitespace only. */
  lemma TrimEmpty(s: string)
    ensures Trim(s) == "" <==> forall k :: 0 <= k < |s| ==> IsWhitespace(s[k])
  {
    var i, j := TrimSplit(s);
    if i < j {
      assert s[i] == Trim(s)[0];
    }
  }

  /** `str::trim_end_matches(c)`. */
  function TrimEndChar(s: string, c: char): string {
    if s != "" && s[|s| - 1] == c then TrimEndChar(s[..|s| - 1], c) else s
  }

  lemma TrimEndCharStep(s: string, c: char)
    ensures TrimEndChar(s + [c], c) == TrimEndChar(s, c)
  {
    assert (s + [c])[..|s|] == s;
  }

  /** Nothing before the last character other than `c` is touched. */
  lemma {:induction false} TrimEndCharAppend(a: string, s: string, c: char)
    requires a != "" && a[|a| - 1] != c
    ensures TrimEndChar(a + s, c) == a + TrimEndChar(s, c)
  {
    if s != "" && s[|s| - 1] == c {
      assert (a + s)[..|a + s| - 1] == a + s[..|s| - 1];
      TrimEndCharAppend(a, s[..|s| - 1], c);
    } else if s == "" {
      assert a + s == a;
    }
  }

  lemma TrimEndCharSame(s: string, c: char)
    ensures |TrimEndChar(s, c)| <= |s|
    ensures TrimEndChar(s, c) == s <==> (s == "" || s[|s| - 1] != c)
    ensures TrimEndChar(s, c) == s <==> |TrimEndChar(s, c)| == |s|
  {
  }

  /** `str::trim_start_matches(p)`, which removes the prefix as often as it occurs. */
  function TrimStartMatches(s: string, p: string): string
    requires p != ""
    decreases |s|
  {
    if p <= s then TrimStartMatches(s[|p|..], p) else s
  }

  /** Where the first whitespace is, or the length of `s`. */
  function WordEnd(s: string): (i: nat)
    ensures i <= |s| && forall k :: 0 <= k < i ==> !IsWhitespace(s[k])
    ensures i < |s| ==> IsWhitespace(s[i])
  {
    if s == "" || IsWhitespace(s[0]) then 0 else 1 + WordEnd(s[1..])
  }

  /** `str::split_whitespace`. */
  function SplitWhitespace(s: string): seq<string>
    decreases |s|
  {
    if s == "" then []
    else if IsWhitespace(s[0]) then SplitWhitespace(s[1..])
    else
      var i := WordEnd(s);
      [s[..i]] + SplitWhitespace(s[i..])
  }

  /** A non-empty string without whitespace. */
  predicate IsWord(s: string) {
    s != "" && forall k :: 0 <= k < |s| ==> !IsWhitespace(s[k])
  }

  lemma WordThenRest(word: string, gap: char, rest: string)
    requires IsWord(word) && IsWhitespace(gap)
    ensures SplitWhitespace(word + [gap] + rest) == [word] + SplitWhitespace(rest)
  {
    var s := word + [gap] + rest;
    var i := WordEnd(s);
    assert s[|word|] == gap;
    assert forall k :: 0 <= k < |word| ==> s[k] == word[k];
    assert i == |word| && s[..i] == word && s[i..] == [gap] + rest;
    assert ([gap] + rest)[1..] == rest;
  }

  lemma OneWord(word: string)
    requires IsWord(word)
    ensures SplitWhitespace(word) == [word]
  {
    assert WordEnd(word) == |word|;
    assert word[..|word|] == word;
  }

  /** `str::split(c)`. */
  function Split(s: string, c: char): (parts: seq<string>)
    ensures |parts| >= 1
    decreases |s|
  {
    var i := IndexOf(s, c);
    if i == |s| then [s] else [s[..i]] + Split(s[i + 1..], c)
  }

  /** The first part of a split. */
  function UpTo(s: string, c: char): (r: string)
    ensures r == Split(s, c)[0]
    ensures r == s <==> c !in s
    ensures |r| <= |s| && c !in r
  {
    s[..IndexOf(s, c)]
  }

  lemma SplitHead(a: string, c: char, b: string)
    requires c !in a
    ensures Split(a + [c] + b, c) == [a] + Split(b, c)
  {
    var s := a + [c] + b;
    assert s[..|a|] == a && s[|a|] == c && s[|a| + 1..] == b;
    IndexOfUnique(s, c, |a|);
  }

  lemma SplitNone(a: string, c: char)
    ensures c !in a ==> Split(a, c) == [a]
  {
  }

  lemma CutAt(s: string, i: nat)
    ensures i < |s| ==> s == s[..i] + [s[i]] + s[i + 1..]
  {
  }

  lemma SplitAtFirst(a: string, c: char, b: string) returns (head: string, tail: string)
    requires c in a
    ensures c !in head && |tail| < |a|
    ensures Split(a, c) == [head] + Split(tail, c)
    ensures a + [c] + b == head + [c] + (tail + [c] + b)
  {
    var i := IndexOf(a, c);
    head, tail := a[..i], a[i + 1..];
    CutAt(a, i);
    assert (head + [c] + tail) + [c] + b == head + [c] + (tail + [c] + b);
  }

  lemma {:induction false} SplitConcat(a: string, c: char, b: string)
    ensures Split(a + [c] + b, c) == Split(a, c) + Split(b, c)
    decreases |a|
  {
    if c in a {
      var head, tail := SplitAtFirst(a, c, b);
      SplitHead(head, c, tail + [c] + b);
      SplitConcat(tail, c, b);
      AppendAssoc([head], Split(tail, c), Split(b, c));
    } else {
      SplitHead(a, c, b);
      SplitNone(a, c);
    }
  }

  /** The last part is what follows the last separator, whatever stands before it. */
  lemma SplitLast(a: string, c: char, b: string)
    requires c !in b
    ensures Split(a + [c] + b, c)[|Split(a + [c] + b, c)| - 1] == b
    ensures |Split(a + [c] + b, c)| >= 2
  {
    SplitConcat(a, c, b);
    SplitNone(b, c);
  }

  /** `str::lines`: lines end in LF, and one CR before that LF belongs to the ending. */
  function Lines(s: string): seq<string>
    decreases |s|
  {
    if s == "" then []
    else
      var i := IndexOf(s, '\n');
      if i == |s| then [s] else [StripCr(s[..i])] + Lines(s[i + 1..])
  }

  function StripCr(s: string): string {
    if s != "" && s[|s| - 1] == '\r' then s[..|s| - 1] else s
  }

  lemma LinesHead(body: string, rest: string)
    requires '\n' !in body
    ensures Lines(body + "\r\n" + rest) == [body] + Lines(rest)
  {
    var s := body + "\r\n" + rest;
    assert s[..|body| + 1] == body + "\r" && s[|body| + 1] == '\n' && s[|body| + 2..] == rest;
    IndexOfUnique(s, '\n', |body| + 1);
  }

  /** A line feed ends a line as well, and what stands behind the last one is a line with all its characters. */
  lemma LinesByLf(body: string, rest: string)
    requires '\n' !in body
    ensures body == "" || body[|body| - 1] != '\r' ==> Lines(body + "\n" + rest) == [body] + Lines(rest)
    ensures Lines(body) == if body == "" then [] else [body]
  {
    var s := body + "\n" + rest;
    assert s[..|body|] == body && s[|body|] == '\n' && s[|body| + 1..] == rest;
    IndexOfUnique(s, '\n', |body|);
  }

  lemma {:induction false} LinesHaveNoLf(s: string)
    ensures forall l <- Lines(s) :: '\n' !in l
    decreases |s|
  {
    if s != "" {
      var i := IndexOf(s, '\n');
      if i < |s| {
        LinesHaveNoLf(s[i + 1..]);
      }
    }
  }

  /** `[String]::join(sep)`. */
  function Join(parts: seq<string>, sep: string): string {
    if parts == [] then ""
    else if |parts| == 1 then parts[0]
    else parts[0] + sep + Join(parts[1..], sep)
  }

  lemma JoinStep(parts: seq<string>, sep: string)
    ensures |parts| > 1 ==> Join(parts, sep) == parts[0] + (sep + Join(parts[1..], sep))
  {
  }

  /** `str::to_ascii_lowercase` on one character. */
  function AsciiLower(c: char): char {
    if 'A' <= c <= 'Z' then (c as int + 32) as char else c
  }

  function AsciiLowerString(s: string): (r: string)
    ensures |r| == |s|
  {
    if s == "" then "" else [AsciiLower(s[0])] + AsciiLowerString(s[1..])
  }
}
