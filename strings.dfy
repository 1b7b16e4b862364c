/**
 * The parts of java.lang.String and java.util.regex that the extractor relies
 * on, over `seq<char>`. Character classes follow java.util.regex without flags;
 * case mapping covers ASCII only.
 */
module Strings {

  /** Regex class `\w`: an ASCII letter, an ASCII digit or `_`. */
  predicate IsWordChar(c: char) {
    ('a' <= c <= 'z') || ('A' <= c <= 'Z') || ('0' <= c <= '9') || c == '_'
  }

  /** Regex class `\s`: space, tab, line feed, vertical tab, form feed, carriage return. */
  predicate IsSpace(c: char) {
    c == ' ' || c == '\t' || c == '\n' || c == '\U{000B}' || c == '\U{000C}' || c == '\r'
  }

  /** What regex `.` matches without DOTALL: any character but a line terminator. */
  predicate IsLineChar(c: char) {
    c != '\n' && c != '\r' && c != '\U{0085}' && c != '\U{2028}' && c != '\U{2029}'
  }

  predicate AllLineChars(s: string) {
    forall i :: 0 <= i < |s| ==> IsLineChar(s[i])
  }

  /**
   * Character.isWhitespace: the ASCII controls tab to carriage return and
   * U+001C to U+001F, and the space, line and paragraph separators except
   * the non-breaking ones (U+00A0, U+2007, U+202F).
   */
  predicate IsWhitespace(c: char) {
    ('\t' <= c <= '\r') || ('\U{001C}' <= c <= '\U{001F}') || c == ' ' ||
    c == '\U{1680}' || ('\U{2000}' <= c <= '\U{2006}') || ('\U{2008}' <= c <= '\U{200A}') ||
    c == '\U{2028}' || c == '\U{2029}' || c == '\U{205F}' || c == '\U{3000}'
  }

  /** Length of the longest `\w` prefix: what a greedy `\w+` consumes. */
  function WordLen(s: string): (n: nat)
    ensures n <= |s|
    ensures forall i :: 0 <= i < n ==> IsWordChar(s[i])
    ensures n < |s| ==> !IsWordChar(s[n])
  {
    if s == [] || !IsWordChar(s[0]) then 0 else 1 + WordLen(s[1..])
  }

  /** Length of the longest `\s` prefix: what a greedy `\s*` consumes. */
  function SpaceLen(s: string): (n: nat)
    ensures n <= |s|
    ensures forall i :: 0 <= i < n ==> IsSpace(s[i])
    ensures n < |s| ==> !IsSpace(s[n])
  {
    if s == [] || !IsSpace(s[0]) then 0 else 1 + SpaceLen(s[1..])
  }

  /** `\w+` consumes exactly a word that is followed by a non-word character. */
  lemma {:induction false} WordLenOfWord(w: string, rest: string)
    requires forall i :: 0 <= i < |w| ==> IsWordChar(w[i])
    requires rest == [] || !IsWordChar(rest[0])
    ensures WordLen(w + rest) == |w|
    decreases |w|
  {
    if w != [] {
      assert (w + rest)[1..] == w[1..] + rest;
      WordLenOfWord(w[1..], rest);
    }
  }

  /** A full match of `\w+`. */
  predicate IsWord(s: string) {
    s != [] && forall i :: 0 <= i < |s| ==> IsWordChar(s[i])
  }

  /** A full match of `\s*`. */
  predicate AllSpaces(s: string) {
    forall i :: 0 <= i < |s| ==> IsSpace(s[i])
  }

  /** A greedy `\s*` in front of a non-space character consumes exactly the spaces. */
  lemma {:induction false} SpaceLenOfSpaces(sp: string, rest: string)
    requires forall i :: 0 <= i < |sp| ==> IsSpace(sp[i])
    requires rest == [] || !IsSpace(rest[0])
    ensures SpaceLen(sp + rest) == |sp|
    decreases |sp|
  {
    if sp != [] {
      assert (sp + rest)[1..] == sp[1..] + rest;
      SpaceLenOfSpaces(sp[1..], rest);
    }
  }

  /** A greedy `\s*` in front of a non-space character leaves exactly what follows the spaces. */
  lemma SkipSpacesOf(sp: string, rest: string)
    requires AllSpaces(sp) && (rest == [] || !IsSpace(rest[0]))
    ensures SkipSpaces(sp + rest) == rest
  {
    SpaceLenOfSpaces(sp, rest);
    assert (sp + rest)[|sp|..] == rest;
  }

  /** A text is the spaces a greedy `\s*` takes, then what it leaves. */
  lemma SkipSpacesSplit(s: string) returns (sp: string)
    ensures AllSpaces(sp) && s == sp + SkipSpaces(s)
  {
    sp := s[..SpaceLen(s)];
    assert s == s[..SpaceLen(s)] + s[SpaceLen(s)..];
  }

  /** Length of the longest prefix of `s` without a line terminator: what a greedy `.*` consumes. */
  function LineRunLen(s: string): (n: nat)
    ensures n <= |s|
    ensures AllLineChars(s[..n])
    ensures n < |s| ==> !IsLineChar(s[n])
  {
    if s == [] || !IsLineChar(s[0]) then 0
    else
      var n := 1 + LineRunLen(s[1..]);
      assert s[..n] == [s[0]] + s[1..][..n - 1];
      n
  }

  lemma LineRunLenAll(s: string)
    requires AllLineChars(s)
    ensures LineRunLen(s) == |s|
  {
  }

  /** A greedy `.*` runs through a text without line terminators and on into what follows. */
  lemma {:induction false} LineRunLenAppend(x: string, y: string)
    requires AllLineChars(x)
    ensures LineRunLen(x + y) == |x| + LineRunLen(y)
    decreases |x|
  {
    if x == [] {
      assert x + y == y;
    } else {
      assert (x + y)[1..] == x[1..] + y;
      LineRunLenAppend(x[1..], y);
    }
  }

  /** String.lastIndexOf of a one-character string: the last position holding `c`, or -1. */
  function LastIndexOf(s: string, c: char): (r: int)
    ensures r == -1 || (0 <= r < |s| && s[r] == c)
    ensures r == -1 <==> c !in s
    ensures forall i :: r < i < |s| ==> s[i] != c
  {
    if s == [] then -1
    else if s[|s| - 1] == c then |s| - 1
    else LastIndexOf(s[..|s| - 1], c)
  }

  /** The rest of `s` after a greedy `\s*`. */
  function SkipSpaces(s: string): string {
    s[SpaceLen(s)..]
  }

  /** The rest of `s` after a greedy `\s?`. */
  function SkipOptSpace(s: string): string {
    if s != [] && IsSpace(s[0]) then s[1..] else s
  }

  predicate StartsWith(s: string, prefix: string) {
    |prefix| <= |s| && s[..|prefix|] == prefix
  }

  /** A text that starts with `prefix` is `prefix` followed by the rest. */
  lemma StartsWithSplit(s: string, prefix: string)
    requires StartsWith(s, prefix)
    ensures s == prefix + s[|prefix|..]
  {
    assert s == s[..|prefix|] + s[|prefix|..];
  }

  /** String.contains. */
  predicate Contains(s: string, sub: string)
    decreases |s|
  {
    StartsWith(s, sub) || (s != [] && Contains(s[1..], sub))
  }

  /**
   * String.indexOf of a one-character string, searching from `from`:
   * the first position at or after `from` holding `c`, or -1.
   */
  function IndexOf(s: string, c: char, from: nat): (r: int)
    ensures r == -1 || (from <= r < |s| && s[r] == c)
    ensures r == -1 <==> forall i :: from <= i < |s| ==> s[i] != c
    ensures r != -1 ==> forall i :: from <= i < r ==> s[i] != c
    decreases |s| - from
  {
    if from >= |s| then -1
    else if s[from] == c then from
    else IndexOf(s, c, from + 1)
  }

  /** String.join: the parts with `sep` between consecutive ones. */
  function Join(parts: seq<string>, sep: string): string {
    if parts == [] then ""
    else if |parts| == 1 then parts[0]
    else Join(parts[..|parts| - 1], sep) + sep + parts[|parts| - 1]
  }

  lemma JoinSnoc(parts: seq<string>, last: string, sep: string)
    ensures Join(parts + [last], sep) == if parts == [] then last else Join(parts, sep) + sep + last
  {
    assert (parts + [last])[..|parts|] == parts;
  }

  lemma {:induction false} JoinCons(first: string, rest: seq<string>, sep: string)
    ensures Join([first] + rest, sep) == if rest == [] then first else first + sep + Join(rest, sep)
    decreases |rest|
  {
    if |rest| > 1 {
      var init := rest[..|rest| - 1];
      assert ([first] + rest)[..|rest|] == [first] + init;
      JoinCons(first, init, sep);
    } else if |rest| == 1 {
      assert ([first] + rest)[..1] == [first];
    }
  }

  /** Cutting at a comma and joining the pieces back with commas, keeping a dropped trailing comma apart. */
  lemma JoinAfterCut(s: string, index: nat, parts: seq<string>)
    requires index < |s| && s[index] == ','
    requires parts == [] ==> s[index + 1..] == []
    requires s[index + 1..] == Join(parts, ",") || s[index + 1..] == Join(parts, ",") + ","
    ensures s == Join([s[..index]] + parts, ",") || s == Join([s[..index]] + parts, ",") + ","
  {
    JoinCons(s[..index], parts, ",");
    assert s == s[..index] + "," + s[index + 1..];
  }

  function TrimStart(s: string): (r: string)
    ensures r == [] || r[0] > ' '
    ensures |r| <= |s| && r == s[|s| - |r|..]
  {
    if s != [] && s[0] <= ' ' then TrimStart(s[1..]) else s
  }

  function TrimEnd(s: string): (r: string)
    ensures r == [] || r[|r| - 1] > ' '
    ensures |r| <= |s| && r == s[..|r|]
  {
    if s != [] && s[|s| - 1] <= ' ' then TrimEnd(s[..|s| - 1]) else s
  }

  /** String.trim: drops leading and trailing characters up to U+0020. */
  function Trim(s: string): (r: string)
    ensures r == [] || (r[0] > ' ' && r[|r| - 1] > ' ')
    ensures |r| <= |s|
  {
    TrimEnd(TrimStart(s))
  }

  /** Lower-casing keeps a character above U+0020 above it and leaves no upper-case ASCII letter. */
  lemma LowerCharFacts(c: char)
    ensures LowerChar(c) > ' ' <==> c > ' '
    ensures !('A' <= LowerChar(c) <= 'Z')
  {
  }

  function LowerChar(c: char): char {
    if 'A' <= c <= 'Z' then (c as int + 32) as char else c
  }

  /** String.toLowerCase on the ASCII letters. */
  function ToLower(s: string): string {
    seq(|s|, i requires 0 <= i < |s| => LowerChar(s[i]))
  }

  /** String.isBlank. */
  predicate IsBlank(s: string) {
    forall i :: 0 <= i < |s| ==> IsWhitespace(s[i])
  }

  /** Every piece of `s` between occurrences of `c`, empty pieces included. */
  function SplitAll(s: string, c: char): (r: seq<string>)
    ensures |r| >= 1
    ensures forall i :: 0 <= i < |r| ==> c !in r[i]
    decreases |s|
  {
    var k := IndexOf(s, c, 0);
    if k < 0 then [s] else [s[..k]] + SplitAll(s[k + 1..], c)
  }

  function RemoveTrailingEmpty(r: seq<string>): seq<string> {
    if r != [] && r[|r| - 1] == "" then RemoveTrailingEmpty(r[..|r| - 1]) else r
  }

  /**
   * String.split around a character that is not a regex metacharacter:
   * with no occurrence the result is `[s]`, otherwise the pieces with the
   * trailing empty ones removed.
   */
  function Split(s: string, c: char): seq<string> {
    if c !in s then [s] else RemoveTrailingEmpty(SplitAll(s, c))
  }

  /** Gluing the pieces back with the separator gives the string again. */
  lemma {:induction false} JoinSplitAll(s: string, c: char)
    ensures Join(SplitAll(s, c), [c]) == s
    decreases |s|
  {
    var k := IndexOf(s, c, 0);
    if k >= 0 {
      var rest := SplitAll(s[k + 1..], c);
      JoinSplitAll(s[k + 1..], c);
      JoinCons(s[..k], rest, [c]);
      assert s == s[..k] + [c] + s[k + 1..];
    }
  }

  /** Splitting a join of separator-free parts gives the parts back. */
  lemma {:induction false} SplitAllJoin(parts: seq<string>, c: char)
    requires parts != []
    requires forall i :: 0 <= i < |parts| ==> c !in parts[i]
    ensures SplitAll(Join(parts, [c]), c) == parts
    decreases |parts|
  {
    var first, rest := parts[0], parts[1..];
    assert parts == [first] + rest;
    JoinCons(first, rest, [c]);
    assert c !in first;
    if rest == [] {
      IndexOfAbsent(first, c);
    } else {
      var tail := Join(rest, [c]);
      IndexOfFirst(first, c, tail);
      assert (first + [c] + tail)[|first| + 1..] == tail;
      assert (first + [c] + tail)[..|first|] == first;
      SplitAllJoin(rest, c);
    }
  }

  lemma IndexOfAbsent(s: string, c: char)
    requires c !in s
    ensures IndexOf(s, c, 0) == -1
  {
  }

  lemma IndexOfFirst(a: string, c: char, b: string)
    requires c !in a
    ensures IndexOf(a + [c] + b, c, 0) == |a|
  {
    var s := a + [c] + b;
    assert s[|a|] == c;
    assert forall i :: 0 <= i < |a| ==> s[i] == a[i];
  }
}
