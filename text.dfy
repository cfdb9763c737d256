/**
 * The two Python string operations the lpstat parser relies on:
 * `str.splitlines()` and argument-less `str.split()`, over Unicode code points.
 */
module Text {
  /** `c.isspace()`; on ASCII, exactly tab, the line feeds, the separators 1C-1F and space. */
  predicate IsSpace(c: char)
    ensures c as int < 128 ==> (IsSpace(c) <==> c in "\t\n\U{B}\U{C}\r\U{1C}\U{1D}\U{1E}\U{1F} ")
    ensures IsSpace(c) ==> c as int <= 0x3000
  {
    var n := c as int;
    || 9 <= n <= 13 || 28 <= n <= 32 || n == 0x85 || n == 0xA0 || n == 0x1680
    || 0x2000 <= n <= 0x200A || n == 0x2028 || n == 0x2029 || n == 0x202F
    || n == 0x205F || n == 0x3000
  }

  /** A line boundary of `str.splitlines()` ("\r\n" counts as a single one). */
  predicate IsLineBreak(c: char)
    ensures c as int < 128 ==> (IsLineBreak(c) <==> c in "\n\U{B}\U{C}\r\U{1C}\U{1D}\U{1E}")
    ensures IsLineBreak(c) ==> c as int <= 0x2029
  {
    var n := c as int;
    10 <= n <= 13 || 28 <= n <= 30 || n == 0x85 || n == 0x2028 || n == 0x2029
  }

  /** A maximal run of non-whitespace: what `str.split()` returns each piece as. */
  predicate IsToken(w: string)
  {
    w != [] && forall j | 0 <= j < |w| :: !IsSpace(w[j])
  }

  predicate NoLineBreak(s: string)
  {
    forall j | 0 <= j < |s| :: !IsLineBreak(s[j])
  }

  /** `s.startswith(prefix)`: s is prefix followed by something. */
  predicate StartsWith(s: string, prefix: string)
    ensures StartsWith(s, prefix) <==> exists rest :: s == prefix + rest
  {
    if |prefix| <= |s| && s[..|prefix|] == prefix then
      assert s == prefix + s[|prefix|..];
      true
    else
      false
  }

  /** The index of the first line boundary of s, or |s|. */
  function FirstBreak(s: string): (i: nat)
    ensures i <= |s| && NoLineBreak(s[..i]) && (i < |s| ==> IsLineBreak(s[i]))
  {
    if s == [] || IsLineBreak(s[0]) then 0
    else
      var i := 1 + FirstBreak(s[1..]);
      assert s[..i] == [s[0]] + s[1..][..i - 1];
      i
  }

  /** `s.splitlines()`: the lines of s without their terminators, no trailing empty line. */
  function SplitLines(s: string): (lines: seq<string>)
    ensures |lines| <= |s|
    ensures forall k | 0 <= k < |lines| :: NoLineBreak(lines[k])
    decreases |s|
  {
    if s == [] then []
    else
      var i := FirstBreak(s);
      if i == |s| then [s]
      else
        var next := if s[i] == '\r' && i + 1 < |s| && s[i + 1] == '\n' then i + 2 else i + 1;
        [s[..i]] + SplitLines(s[next..])
  }

  /** The number of whitespace characters s starts with. */
  function LeadingSpaces(s: string): (n: nat)
    ensures n <= |s| && (forall j | 0 <= j < n :: IsSpace(s[j])) && (n < |s| ==> !IsSpace(s[n]))
  {
    if s == [] || !IsSpace(s[0]) then 0 else 1 + LeadingSpaces(s[1..])
  }

  /** The number of non-whitespace characters s starts with. */
  function WordLength(s: string): (n: nat)
    ensures n <= |s| && (forall j | 0 <= j < n :: !IsSpace(s[j])) && (n < |s| ==> IsSpace(s[n]))
  {
    if s == [] || IsSpace(s[0]) then 0 else 1 + WordLength(s[1..])
  }

  /** `s.split()`: the maximal runs of non-whitespace of s, in order. */
  function Split(s: string): (words: seq<string>)
    ensures forall k | 0 <= k < |words| :: IsToken(words[k])
    decreases |s|
  {
    var i := LeadingSpaces(s);
    var t := s[i..];
    if t == [] then []
    else
      FirstWord(s, i);
      var n := WordLength(t);
      var rest := Split(t[n..]);
      AllTokensCons(t[..n], rest);
      [t[..n]] + rest
  }

  /** After the leading whitespace of s, a non-empty token starts. */
  lemma FirstWord(s: string, i: nat)
    requires i == LeadingSpaces(s) < |s|
    ensures WordLength(s[i..]) > 0 && IsToken(s[i..][..WordLength(s[i..])])
  {
    assert s[i..][0] == s[i];
  }

  lemma AllTokensCons(word: string, rest: seq<string>)
    requires IsToken(word) && forall k | 0 <= k < |rest| :: IsToken(rest[k])
    ensures forall k | 0 <= k < |[word] + rest| :: IsToken(([word] + rest)[k])
  {
    assert forall k | 0 <= k < |rest| :: ([word] + rest)[k + 1] == rest[k];
  }

  lemma LineBreakIsSpace(c: char)
    ensures IsLineBreak(c) ==> IsSpace(c)
  {
  }

  lemma FirstBreakOf(a: string, b: string)
    requires NoLineBreak(a) && b != [] && IsLineBreak(b[0])
    ensures FirstBreak(a + b) == |a|
  {
    var s := a + b;
    assert s[..|a|] == a && s[|a|] == b[0];
  }

  lemma LeadingSpacesOf(a: string, b: string)
    requires (forall j | 0 <= j < |a| :: IsSpace(a[j])) && (b == [] || !IsSpace(b[0]))
    ensures LeadingSpaces(a + b) == |a|
  {
    var s := a + b;
    assert forall j | 0 <= j < |a| :: s[j] == a[j];
    assert |b| > 0 ==> s[|a|] == b[0];
  }

  lemma WordLengthOf(a: string, b: string)
    requires (forall j | 0 <= j < |a| :: !IsSpace(a[j])) && (b == [] || IsSpace(b[0]))
    ensures WordLength(a + b) == |a|
  {
    var s := a + b;
    assert forall j | 0 <= j < |a| :: s[j] == a[j];
    assert |b| > 0 ==> s[|a|] == b[0];
  }

  /** A line ended by "\n" is split off as it is. */
  lemma SplitLinesCons(line: string, rest: string)
    requires NoLineBreak(line)
    ensures SplitLines(line + "\n" + rest) == [line] + SplitLines(rest)
  {
    var s := line + "\n" + rest;
    FirstBreakOf(line, "\n" + rest);
    assert s == line + ("\n" + rest);
    assert s[..|line|] == line;
    assert s[|line| + 1..] == rest;
  }

  /** Splitting "w" + tail, tail empty or starting with whitespace, gives w first. */
  lemma SplitToken(w: string, tail: string)
    requires IsToken(w) && (tail == [] || IsSpace(tail[0]))
    ensures Split(w + tail) == [w] + Split(tail)
  {
    var s := w + tail;
    LeadingSpacesOf([], s);
    assert [] + s == s;
    WordLengthOf(w, tail);
    assert s[..|w|] == w && s[|w|..] == tail;
  }

  /** A run of leading whitespace, however long, does not change the words. */
  lemma SplitAfterSpaces(ws: string, s: string)
    requires forall j | 0 <= j < |ws| :: IsSpace(ws[j])
    requires s == [] || !IsSpace(s[0])
    ensures Split(ws + s) == Split(s)
  {
    LeadingSpacesOf(ws, s);
    assert (ws + s)[|ws|..] == s;
    LeadingSpacesOf([], s);
    assert [] + s == s;
  }
}
