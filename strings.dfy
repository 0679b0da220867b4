/** Character classes of ECMAScript regular expressions and the string
    operations the wrapper relies on (`indexOf`, `split`, `join`, `trim`,
    case mapping, and the string.js helpers `camelize` and `between`),
    each written as an explicit scanner over `seq<char>`. */
module Strings {

  /** An ECMAScript LineTerminator: exactly the characters a regex `.` does not match. */
  predicate IsLineTerminator(c: char) {
    c == '\n' || c == '\r' || c == '\U{2028}' || c == '\U{2029}'
  }

  /** A character a regex `.` matches. */
  predicate InLine(c: char) {
    !IsLineTerminator(c)
  }

  /** Text a regex `.*` can run through: no line terminator in it. */
  predicate NoTerminator(s: string) {
    forall i :: 0 <= i < |s| ==> !IsLineTerminator(s[i])
  }

  /** An ECMAScript WhiteSpace or LineTerminator: the regex class `\s`, and
      what `String.prototype.trim` removes. */
  predicate IsSpace(c: char) {
    || c == '\t' || c == '\U{000B}' || c == '\U{000C}' || c == ' '
    || c == '\U{00A0}' || c == '\U{FEFF}' || c == '\U{1680}'
    || ('\U{2000}' <= c <= '\U{200A}')
    || c == '\U{202F}' || c == '\U{205F}' || c == '\U{3000}'
    || IsLineTerminator(c)
  }

  /** The regex class `\w`. */
  predicate IsWordChar(c: char) {
    ('a' <= c <= 'z') || ('A' <= c <= 'Z') || ('0' <= c <= '9') || c == '_'
  }

  /** The regex class `[0-9]`. */
  predicate IsDigit(c: char) {
    '0' <= c <= '9'
  }

  predicate AllSpace(s: string) {
    forall i :: 0 <= i < |s| ==> IsSpace(s[i])
  }

  /** The length of the longest prefix of `s` whose characters all satisfy
      `p`: how far a greedy `[class]*` reaches. */
  function PrefixRun(s: string, p: char -> bool): (n: nat)
    ensures n <= |s|
    ensures forall i :: 0 <= i < n ==> p(s[i])
    ensures n < |s| ==> !p(s[n])
  {
    if s != [] && p(s[0]) then 1 + PrefixRun(s[1..], p) else 0
  }

  /** A run of `p`-characters ended by a character outside `p`, or by the end,
      is exactly what the scan reaches. */
  lemma {:induction false} PrefixRunOf(d: string, post: string, p: char -> bool)
    requires forall i :: 0 <= i < |d| ==> p(d[i])
    requires post == [] || !p(post[0])
    ensures PrefixRun(d + post, p) == |d|
  {
    if d != [] {
      assert (d + post)[1..] == d[1..] + post;
      PrefixRunOf(d[1..], post, p);
    }
  }

  // ---------------------------------------------------------------------
  // indexOf, split and join

  /** `pat` occurs in `s` starting at position `i`. */
  predicate OccursAt(s: string, pat: string, i: int) {
    0 <= i && i + |pat| <= |s| && s[i..i + |pat|] == pat
  }

  lemma OccursAtChar(s: string, c: char, i: int)
    ensures OccursAt(s, [c], i) <==> 0 <= i < |s| && s[i] == c
  {
    if 0 <= i < |s| {
      assert s[i..i + 1] == [s[i]];
    }
  }

  lemma OccursAtTail(s: string, pat: string, j: int)
    requires |s| > 0 && 0 <= j
    ensures OccursAt(s[1..], pat, j) <==> OccursAt(s, pat, j + 1)
  {
    if j + |pat| <= |s| - 1 {
      assert s[1..][j..j + |pat|] == s[j + 1..j + 1 + |pat|];
    }
  }

  /** `s.indexOf(pat)`: the first position where `pat` occurs in `s`, or -1. */
  function IndexOf(s: string, pat: string): (r: int)
    requires |pat| > 0
    ensures r == -1 || (0 <= r && OccursAt(s, pat, r))
    ensures forall j :: 0 <= j && (r == -1 || j < r) ==> !OccursAt(s, pat, j)
    decreases |s|
  {
    if |s| < |pat| then -1
    else if s[..|pat|] == pat then 0
    else
      var r := IndexOf(s[1..], pat);
      assert forall j {:trigger OccursAt(s, pat, j)} :: 1 <= j ==> (OccursAt(s, pat, j) <==> OccursAt(s[1..], pat, j - 1)) by {
        forall j | 1 <= j ensures OccursAt(s, pat, j) <==> OccursAt(s[1..], pat, j - 1) {
          OccursAtTail(s, pat, j - 1);
        }
      }
      if r < 0 then -1 else r + 1
  }

  /** For a one-character pattern, `indexOf` finds the first occurrence of that character. */
  lemma IndexOfChar(s: string, c: char)
    ensures IndexOf(s, [c]) == -1 <==> c !in s
    ensures IndexOf(s, [c]) >= 0 ==>
      IndexOf(s, [c]) < |s| && s[IndexOf(s, [c])] == c && c !in s[..IndexOf(s, [c])]
  {
    var r := IndexOf(s, [c]);
    if r >= 0 {
      OccursAtChar(s, c, r);
      forall j | 0 <= j < r ensures s[j] != c {
        OccursAtChar(s, c, j);
      }
    } else {
      forall j | 0 <= j < |s| ensures s[j] != c {
        OccursAtChar(s, c, j);
      }
    }
  }

  /** `s.split(sep)` for a non-empty separator string: the pieces between the
      leftmost non-overlapping occurrences of `sep`. */
  function Split(s: string, sep: string): (parts: seq<string>)
    requires |sep| > 0
    ensures |parts| >= 1
    decreases |s|
  {
    var i := IndexOf(s, sep);
    if i < 0 then [s] else [s[..i]] + Split(s[i + |sep|..], sep)
  }

  /** `parts.join(sep)`. */
  function Join(parts: seq<string>, sep: string): string
  {
    if |parts| == 0 then ""
    else if |parts| == 1 then parts[0]
    else parts[0] + sep + Join(parts[1..], sep)
  }

  lemma {:induction false} JoinAppend(a: seq<string>, b: seq<string>, sep: string)
    requires |a| >= 1 && |b| >= 1
    ensures Join(a + b, sep) == Join(a, sep) + sep + Join(b, sep)
  {
    if |a| == 1 {
      assert (a + b)[1..] == b;
    } else {
      assert (a + b)[1..] == a[1..] + b;
      JoinAppend(a[1..], b, sep);
    }
  }

  lemma JoinCons(head: string, tail: seq<string>, sep: string)
    requires |tail| >= 1
    ensures Join([head] + tail, sep) == head + sep + Join(tail, sep)
  {
    assert ([head] + tail)[1..] == tail;
  }

  /** Where `sep` occurs, the split takes the text before it and splits the rest. */
  lemma SplitFound(s: string, sep: string)
    requires |sep| > 0 && IndexOf(s, sep) >= 0
    ensures var i := IndexOf(s, sep);
      && s == s[..i] + sep + s[i + |sep|..]
      && Split(s, sep) == [s[..i]] + Split(s[i + |sep|..], sep)
  {
    var i := IndexOf(s, sep);
    assert s[i..i + |sep|] == sep;
    SliceThree(s, i, i + |sep|);
  }

  /** Joining the pieces of a split with the same separator gives the string back. */
  lemma {:induction false} JoinSplit(s: string, sep: string)
    requires |sep| > 0
    ensures Join(Split(s, sep), sep) == s
    decreases |s|
  {
    var i := IndexOf(s, sep);
    if i >= 0 {
      var rest := s[i + |sep|..];
      SplitFound(s, sep);
      JoinSplit(rest, sep);
      JoinCons(s[..i], Split(rest, sep), sep);
    }
  }

  /** Splitting on a character that follows a first piece free of it
      cuts exactly there. */
  lemma SplitAtFirst(x: string, c: char, y: string)
    requires c !in x
    ensures Split(x + [c] + y, [c]) == [x] + Split(y, [c])
  {
    var s := x + [c] + y;
    OccursAtChar(s, c, |x|);
    var i := IndexOf(s, [c]);
    OccursAtChar(s, c, i);
    assert forall j :: 0 <= j < |x| ==> s[j] == x[j];
    assert i == |x|;
    assert s[..i] == x;
    assert s[i + 1..] == y;
  }

  /** A string free of the separator character splits into itself alone. */
  lemma SplitNone(x: string, c: char)
    requires c !in x
    ensures Split(x, [c]) == [x]
  {
    IndexOfChar(x, c);
  }

  /** A split on one character distributes over a concatenation joined by that character. */
  lemma {:induction false} SplitConcat(x: string, c: char, y: string)
    ensures Split(x + [c] + y, [c]) == Split(x, [c]) + Split(y, [c])
    decreases |x|
  {
    IndexOfChar(x, c);
    var i := IndexOf(x, [c]);
    if i < 0 {
      SplitAtFirst(x, c, y);
      SplitNone(x, c);
    } else {
      var x0, x1 := x[..i], x[i + 1..];
      SliceThree(x, i, i + 1);
      assert x[i..i + 1] == [c];
      Regroup5(x0, [c], x1, [c], y);
      SplitAtFirst(x0, c, x1);
      SplitAtFirst(x0, c, x1 + [c] + y);
      SplitConcat(x1, c, y);
      Assoc([x0], Split(x1, [c]), Split(y, [c]));
    }
  }

  /** Splitting a join of pieces that do not contain the separator character
      gives the pieces back. */
  lemma {:induction false} SplitJoin(parts: seq<string>, c: char)
    requires |parts| >= 1
    requires forall k :: 0 <= k < |parts| ==> c !in parts[k]
    ensures Split(Join(parts, [c]), [c]) == parts
  {
    if |parts| == 1 {
      SplitNone(parts[0], c);
    } else {
      SplitJoin(parts[1..], c);
      SplitAtFirst(parts[0], c, Join(parts[1..], [c]));
      assert parts == [parts[0]] + parts[1..];
    }
  }

  /** A non-empty sequence, after some prefix, is its front followed by its last element. */
  lemma SnocSplit<T>(a: seq<T>, b: seq<T>)
    requires |b| > 0
    ensures a + b == (a + b[..|b| - 1]) + [b[|b| - 1]]
  {
    assert b == b[..|b| - 1] + [b[|b| - 1]];
  }

  /** Regrouping a concatenation of five pieces. */
  lemma Regroup<T>(a: seq<T>, b: seq<T>, c: seq<T>, d: seq<T>, e: seq<T>)
    ensures a + (b + c + d) + e == (a + b) + (c + d + e)
  {
  }

  /** Regrouping a concatenation of four pieces. */
  lemma SliceThree<T>(s: seq<T>, i: nat, j: nat)
    requires i <= j <= |s|
    ensures s == s[..i] + s[i..j] + s[j..]
  {
  }

  lemma Regroup5<T>(a: seq<T>, b: seq<T>, c: seq<T>, d: seq<T>, e: seq<T>)
    ensures a + b + c + d + e == a + b + (c + d + e)
  {
  }

  lemma Around<T>(s: seq<T>, k: nat)
    requires k < |s|
    ensures s == s[..k] + ([s[k]] + s[k + 1..])
  {
  }

  lemma Assoc<T>(a: seq<T>, b: seq<T>, c: seq<T>)
    ensures a + (b + c) == a + b + c
  {
  }

  lemma SplitHead<T>(a: seq<T>, p: seq<T>, b: seq<T>)
    requires |p| >= 1
    ensures a + p + b == a + [p[0]] + (p[1..] + b)
  {
    assert p == [p[0]] + p[1..];
  }

  lemma Regroup4<T>(a: seq<T>, b: seq<T>, c: seq<T>, d: seq<T>)
    ensures a + b + c + d == a + b + (c + d)
  {
  }

  /** Regrouping a concatenation of six pieces: the last four as one. */
  lemma Regroup6<T>(a: seq<T>, b: seq<T>, c: seq<T>, d: seq<T>, e: seq<T>, f: seq<T>)
    ensures a + b + c + d + e + f == a + b + (c + d + e + f)
  {
  }

  /** Regrouping a concatenation of eight pieces: the second to the fourth as one. */
  lemma RegroupMiddle<T>(a: seq<T>, b: seq<T>, c: seq<T>, d: seq<T>, e: seq<T>, f: seq<T>, g: seq<T>, h: seq<T>)
    ensures a + b + c + d + e + f + g + h == a + (b + c + d) + e + f + g + h
  {
  }

  /** Regrouping a concatenation of eight pieces, with the second to the fourth as one,
      around the third. */
  lemma RegroupAround<T>(a: seq<T>, b: seq<T>, c: seq<T>, d: seq<T>, e: seq<T>, f: seq<T>, g: seq<T>, h: seq<T>)
    ensures a + (b + c + d) + e + f + g + h == a + b + (c + (d + e + f) + g + h)
  {
  }

  /** Taking one more element of a sequence appends that element. */
  lemma TakeSnoc<T>(s: seq<T>, i: nat)
    requires i < |s|
    ensures s[..i + 1] == s[..i] + [s[i]]
  {
  }

  /** A string in which the separator string never occurs splits into itself alone. */
  lemma SplitNoOccurrence(s: string, sep: string)
    requires |sep| > 0
    requires forall j :: 0 <= j < |s| ==> !OccursAt(s, sep, j)
    ensures Split(s, sep) == [s]
  {
  }

  /** Splitting on a separator string that does not occur before a given
      occurrence cuts exactly at that occurrence. */
  lemma SplitCut(x: string, sep: string, y: string)
    requires |sep| > 0
    requires forall j :: 0 <= j < |x| ==> !OccursAt(x + sep + y, sep, j)
    ensures Split(x + sep + y, sep) == [x] + Split(y, sep)
  {
    var s := x + sep + y;
    assert s[|x|..|x| + |sep|] == sep;
    assert OccursAt(s, sep, |x|);
    var i := IndexOf(s, sep);
    assert i == |x|;
    assert s[..i] == x;
    assert s[i + |sep|..] == y;
  }

  // ---------------------------------------------------------------------
  // trim and case mapping

  function TrimStart(s: string): (r: string)
    ensures |r| <= |s| && r == s[|s| - |r|..]
    ensures AllSpace(s[..|s| - |r|])
    ensures r == [] || !IsSpace(r[0])
  {
    if s != [] && IsSpace(s[0]) then TrimStart(s[1..]) else s
  }

  function TrimEnd(s: string): (r: string)
    ensures |r| <= |s| && r == s[..|r|]
    ensures AllSpace(s[|r|..])
    ensures r == [] || !IsSpace(r[|r| - 1])
  {
    if s != [] && IsSpace(s[|s| - 1]) then TrimEnd(s[..|s| - 1]) else s
  }

  /** `String.prototype.trim`: `s` without its leading and trailing white space. */
  function Trim(s: string): (r: string)
    ensures r == [] || (!IsSpace(r[0]) && !IsSpace(r[|r| - 1]))
    ensures (s == [] || (!IsSpace(s[0]) && !IsSpace(s[|s| - 1]))) ==> r == s
    ensures |r| <= |s|
  {
    TrimEnd(TrimStart(s))
  }

  lemma {:induction false} TrimStartPadded(pre: string, t: string)
    requires AllSpace(pre)
    requires t == [] || !IsSpace(t[0])
    ensures TrimStart(pre + t) == t
  {
    if pre != [] {
      assert (pre + t)[1..] == pre[1..] + t;
      TrimStartPadded(pre[1..], t);
    }
  }

  lemma {:induction false} TrimEndPadded(t: string, post: string)
    requires AllSpace(post)
    requires t == [] || !IsSpace(t[|t| - 1])
    ensures TrimEnd(t + post) == t
  {
    if post != [] {
      assert (t + post)[..|t + post| - 1] == t + post[..|post| - 1];
      TrimEndPadded(t, post[..|post| - 1]);
    }
  }

  /** Removing the margins of a padded string: surrounding white space goes,
      the inner text stays. */
  lemma TrimPadded(pre: string, t: string, post: string)
    requires AllSpace(pre) && AllSpace(post)
    requires t == [] || (!IsSpace(t[0]) && !IsSpace(t[|t| - 1]))
    ensures Trim(pre + t + post) == t
  {
    if t == [] {
      assert pre + t + post == pre + post;
      assert AllSpace(pre + post);
      TrimStartPadded(pre + post, []);
      assert pre + post + [] == pre + post;
    } else {
      assert pre + t + post == pre + (t + post);
      TrimStartPadded(pre, t + post);
      TrimEndPadded(t, post);
    }
  }

  /** Text that neither starts nor ends with white space has nothing to trim. */
  lemma TrimUnpadded(s: string)
    requires s != [] && !IsSpace(s[0]) && !IsSpace(s[|s| - 1])
    ensures Trim(s) == s
  {
    TrimPadded([], s, []);
    assert [] + s + [] == s;
  }

  /** Text made of lower-case ASCII letters only. */
  predicate LowerWord(s: string) {
    forall i :: 0 <= i < |s| ==> 'a' <= s[i] <= 'z'
  }

  /** A lower-case ASCII letter is not white space. */
  lemma LetterNotSpace(c: char)
    requires 'a' <= c <= 'z'
    ensures !IsSpace(c)
  {
  }

  function LowerChar(c: char): char {
    if 'A' <= c <= 'Z' then (c as int + 32) as char else c
  }

  function UpperChar(c: char): char {
    if 'a' <= c <= 'z' then (c as int - 32) as char else c
  }

  /** `toLowerCase`, for the ASCII letters. */
  function ToLower(s: string): (r: string)
    ensures |r| == |s| && forall i :: 0 <= i < |s| ==> r[i] == LowerChar(s[i])
  {
    if s == [] then [] else [LowerChar(s[0])] + ToLower(s[1..])
  }

  // ---------------------------------------------------------------------
  // string.js helpers

  /** The characters string.js `camelize` treats as word separators: `-`, `_` and `\s`. */
  predicate IsCamelSeparator(c: char) {
    c == '-' || c == '_' || IsSpace(c)
  }

  predicate NoCamelSeparator(s: string) {
    forall i :: 0 <= i < |s| ==> !IsCamelSeparator(s[i])
  }

  /** The replacement of `/(\-|_|\s)+(.)?/g` by the upper-cased character after each run. */
  function CamelizeRuns(s: string): (r: string)
    ensures NoCamelSeparator(r)
    ensures |r| <= |s|
  {
    if s == [] then []
    else if IsCamelSeparator(s[0]) then
      var n := PrefixRun(s, IsCamelSeparator);
      if n == |s| then [] else [UpperChar(s[n])] + CamelizeRuns(s[n + 1..])
    else [s[0]] + CamelizeRuns(s[1..])
  }

  /** string.js `camelize`: trim, then replace every separator run and the
      character after it by that character upper-cased. */
  function Camelize(s: string): (r: string)
    ensures NoCamelSeparator(r)
    ensures |r| <= |s|
  {
    CamelizeRuns(Trim(s))
  }

  lemma {:induction false} CamelizeRunsIdentity(s: string)
    requires NoCamelSeparator(s)
    ensures CamelizeRuns(s) == s
  {
    if s != [] {
      CamelizeRunsIdentity(s[1..]);
    }
  }

  /** Text free of separators passes through unchanged in front of the rest. */
  lemma {:induction false} CamelizeRunsPrefix(x: string, rest: string)
    requires NoCamelSeparator(x)
    ensures CamelizeRuns(x + rest) == x + CamelizeRuns(rest)
    decreases |x|
  {
    if x != [] {
      assert (x + rest)[0] == x[0];
      assert (x + rest)[1..] == x[1..] + rest;
      assert CamelizeRuns(x + rest) == [x[0]] + CamelizeRuns(x[1..] + rest);
      CamelizeRunsPrefix(x[1..], rest);
      assert [x[0]] + (x[1..] + CamelizeRuns(rest)) == x + CamelizeRuns(rest);
    } else {
      assert x + rest == rest;
    }
  }

  /** A separator run followed by a character becomes that character upper-cased. */
  lemma CamelizeRunsSeparator(sep: string, c: char, rest: string)
    requires |sep| >= 1 && forall i :: 0 <= i < |sep| ==> IsCamelSeparator(sep[i])
    requires !IsCamelSeparator(c)
    ensures CamelizeRuns(sep + [c] + rest) == [UpperChar(c)] + CamelizeRuns(rest)
  {
    var s := sep + [c] + rest;
    assert s == sep + ([c] + rest);
    PrefixRunOf(sep, [c] + rest, IsCamelSeparator);
    assert s[|sep|] == c;
    assert s[|sep| + 1..] == rest;
  }

  /** Two words joined by a space become one camel-cased word. */
  lemma CamelizeTwoWords(x: string, c: char, y: string)
    requires NoCamelSeparator(x) && NoCamelSeparator(y) && !IsCamelSeparator(c)
    ensures CamelizeRuns(x + " " + [c] + y) == x + [UpperChar(c)] + y
  {
    assert x + " " + [c] + y == x + (" " + [c] + y);
    CamelizeRunsPrefix(x, " " + [c] + y);
    CamelizeRunsSeparator(" ", c, y);
    CamelizeRunsIdentity(y);
  }

  /** A capitalised word is lower-cased by its first letter alone. */
  lemma LowerCapitalised(c: char, s: string)
    requires 'A' <= c <= 'Z'
    requires forall i :: 0 <= i < |s| ==> !('A' <= s[i] <= 'Z')
    ensures ToLower([c] + s) == [LowerChar(c)] + s
  {
    var w := [c] + s;
    assert w[1..] == s;
    LowerLetters(s);
  }

  /** Text without an upper-case letter is left as it is. */
  lemma LowerLetters(s: string)
    requires forall i :: 0 <= i < |s| ==> !('A' <= s[i] <= 'Z')
    ensures ToLower(s) == s
  {
    assert forall i :: 0 <= i < |s| ==> ToLower(s)[i] == s[i];
  }

  /** Lower-case ASCII letters are never separators. */
  lemma LettersNoSeparator(s: string)
    requires forall i :: 0 <= i < |s| ==> 'a' <= s[i] <= 'z'
    ensures NoCamelSeparator(s)
  {
  }

  /** A camel-cased key is left as it is by a second `camelize`. */
  lemma CamelizeIdempotent(s: string)
    ensures Camelize(Camelize(s)) == Camelize(s)
  {
    var r := Camelize(s);
    CamelizeRunsIdentity(r);
  }

  /** `s.split(c)[0]`: the text before the first `c`, or all of `s`. */
  function Before(s: string, c: char): (r: string)
    ensures c !in r
    ensures r <= s
    ensures c !in s ==> r == s
  {
    IndexOfChar(s, c);
    Split(s, [c])[0]
  }

  /** string.js `between(c)` with no right-hand bound: the text after the first
      `c`, or all of `s` when `c` does not occur (its `indexOf` gives -1 and
      the text is taken from -1 + 1). */
  function After(s: string, c: char): (r: string)
    ensures c in s ==> s == Before(s, c) + [c] + r
    ensures c !in s ==> r == s
  {
    IndexOfChar(s, c);
    var i := IndexOf(s, [c]);
    if i < 0 then s
    else
      assert Before(s, c) == s[..i];
      s[i + 1..]
  }

  /** What string.js `between(left)` searches for as its right-hand bound:
      with no second argument it runs `indexOf(undefined, …)`, and `indexOf`
      turns `undefined` into the word `undefined`. */
  const UndefinedWord: string := "undefined"

  /** `pat` occurs somewhere in `s`. */
  predicate Contains(s: string, pat: string) {
    exists j :: 0 <= j <= |s| && OccursAt(s, pat, j)
  }

  /** An occurrence inside a prefix is an occurrence in the whole text. */
  lemma OccursInPrefix(s: string, e: nat, pat: string, j: int)
    requires e <= |s| && OccursAt(s[..e], pat, j)
    ensures OccursAt(s, pat, j) && j + |pat| <= e
  {
    assert s[..e][j..j + |pat|] == s[j..j + |pat|];
  }

  /** string.js `between(c)` with no right-hand bound: the text after the
      first `c` (`After`), cut before the first `undefined` in it. */
  function Between(s: string, c: char): (r: string)
    ensures r <= After(s, c)
    ensures !Contains(r, UndefinedWord)
    ensures !Contains(After(s, c), UndefinedWord) ==> r == After(s, c)
    ensures Contains(After(s, c), UndefinedWord) ==> OccursAt(After(s, c), UndefinedWord, |r|)
  {
    var a := After(s, c);
    var e := IndexOf(a, UndefinedWord);
    if e < 0 then a
    else
      assert !Contains(a[..e], UndefinedWord) by {
        forall j | OccursAt(a[..e], UndefinedWord, j) ensures false {
          OccursInPrefix(a, e, UndefinedWord, j);
        }
      }
      a[..e]
  }

  /** Text that starts with none of `pat`'s first character and is followed
      by text free of `pat` is free of `pat`. */
  lemma NotContainsPrefixed(p: string, t: string, pat: string)
    requires |pat| > 0 && pat[0] !in p && !Contains(t, pat)
    ensures !Contains(p + t, pat)
  {
    forall j | 0 <= j <= |p + t| ensures !OccursAt(p + t, pat, j) {
      if j < |p| {
        assert (p + t)[j] == p[j];
      } else if j + |pat| <= |p + t| {
        assert (p + t)[j..j + |pat|] == t[j - |p|..j - |p| + |pat|];
        assert !OccursAt(t, pat, j - |p|);
      }
    }
  }

  /** Text free of `pat` followed by text without `pat`'s last character is
      free of `pat`. */
  lemma NotContainsSuffixed(t: string, q: string, pat: string)
    requires |pat| > 0 && pat[|pat| - 1] !in q && !Contains(t, pat)
    ensures !Contains(t + q, pat)
  {
    forall j | 0 <= j <= |t + q| ensures !OccursAt(t + q, pat, j) {
      var k := j + |pat| - 1;
      if |t| <= k < |t + q| {
        assert (t + q)[k] == q[k - |t|];
      } else if k < |t| {
        assert (t + q)[j..j + |pat|] == t[j..j + |pat|];
        assert !OccursAt(t, pat, j);
      }
    }
  }

  /** White space holds no letter of `undefined`. */
  lemma SpaceNotInWord(w: string)
    requires AllSpace(w)
    ensures UndefinedWord[0] !in w && UndefinedWord[|UndefinedWord| - 1] !in w
  {
    assert UndefinedWord[0] == 'u' && UndefinedWord[|UndefinedWord| - 1] == 'd';
  }

  /** The first `undefined` in `x + undefined + y` is the one after `x`, when
      `x` holds none and ends in a character that is not one of its letters. */
  lemma FirstUndefined(x: string, y: string)
    requires !Contains(x, UndefinedWord) && x != [] && x[|x| - 1] !in UndefinedWord
    ensures IndexOf(x + UndefinedWord + y, UndefinedWord) == |x|
  {
    var s := x + UndefinedWord + y;
    var w := UndefinedWord;
    assert s[|x|..|x| + |w|] == w;
    assert OccursAt(s, w, |x|);
    forall j | 0 <= j < |x| ensures !OccursAt(s, w, j) {
      if j + |w| <= |x| {
        assert s[j..j + |w|] == x[j..j + |w|];
        assert !OccursAt(x, w, j);
      } else {
        assert s[j..j + |w|][|x| - 1 - j] == x[|x| - 1];
      }
    }
  }

  /** `between` stops at the first `undefined`: after `c`, the text `x`
      followed by `undefined` gives `x`. */
  lemma BetweenStops(pre: string, c: char, x: string, y: string)
    requires c !in pre
    requires !Contains(x, UndefinedWord) && x != [] && x[|x| - 1] !in UndefinedWord
    ensures Between(pre + [c] + (x + UndefinedWord + y), c) == x
  {
    SplitAtFirst(pre, c, x + UndefinedWord + y);
    FirstUndefined(x, y);
    assert (x + UndefinedWord + y)[..|x|] == x;
  }

  /** string.js `S(text).between(':').trim().s`: the text after the first
      `:` and before the first `undefined` after it, trimmed, so it neither
      starts nor ends with white space. */
  function FieldValue(text: string): (v: string)
    ensures v == [] || (!IsSpace(v[0]) && !IsSpace(v[|v| - 1]))
  {
    Trim(Between(text, ':'))
  }

  /** A field whose text after `:` holds no `undefined` gives that text trimmed;
      one that holds it is cut before it. */
  lemma FieldValueCut(text: string)
    ensures !Contains(After(text, ':'), UndefinedWord) ==> FieldValue(text) == Trim(After(text, ':'))
    ensures Contains(After(text, ':'), UndefinedWord) ==>
      exists e :: 0 <= e <= |After(text, ':')| && FieldValue(text) == Trim(After(text, ':')[..e])
        && OccursAt(After(text, ':'), UndefinedWord, e)
  {
    var b := Between(text, ':');
    var a := After(text, ':');
    if Contains(a, UndefinedWord) {
      assert b == a[..|b|];
    }
  }

  /** `s.replace(/c*\/g, '')`: `s` with every `c` removed. */
  function RemoveChar(s: string, c: char): (r: string)
    ensures c !in r
    ensures c !in s ==> r == s
    ensures forall x :: x in r ==> x in s
  {
    if s == [] then []
    else if s[0] == c then RemoveChar(s[1..], c)
    else [s[0]] + RemoveChar(s[1..], c)
  }
}
