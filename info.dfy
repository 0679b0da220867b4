/** `info`: the reply of `p4 info`, one `Key name: value` per line, read
    into a record keyed by the camel-cased key. */
module Info {
  import opened Strings
  import opened Records

  /** string.js `replaceAll('\r\n', '\n')`: every CRLF pair becomes a single
      line feed, scanning from the left. */
  function NormalizeCrlf(s: string): (r: string)
    ensures |r| <= |s|
  {
    if s == [] then []
    else if |s| >= 2 && s[0] == '\r' && s[1] == '\n' then "\n" + NormalizeCrlf(s[2..])
    else [s[0]] + NormalizeCrlf(s[1..])
  }

  /** string.js `lines()`: CRLF made LF, then split at every line feed. */
  function Lines(s: string): (r: seq<string>)
    ensures |r| >= 1
  {
    Split(NormalizeCrlf(s), "\n")
  }

  /** The key of a line: the text before its first `:`, lower-cased and
      camel-cased. */
  function InfoKey(line: string): (k: string)
    ensures NoCamelSeparator(k)
  {
    Camelize(ToLower(Before(line, ':')))
  }

  /** `if (!line) return;`: only non-empty lines count. */
  predicate NonEmpty(line: string) {
    line != []
  }

  /** The record the lines give: empty lines are skipped, every other line
      sets its key, so of two lines with one key the later one wins. */
  function InfoFold(lines: seq<string>): map<string, string> {
    Assign(lines, NonEmpty, InfoKey, FieldValue)
  }

  /** `info`'s handling of the reply: one pass over its lines. */
  method ParseInfo(stdout: string) returns (result: map<string, string>)
    ensures result == InfoFold(Lines(stdout))
  {
    var lines := Lines(stdout);
    result := map[];
    var i := 0;
    assert lines[..0] == [];
    while i < |lines|
      invariant 0 <= i <= |lines|
      invariant result == InfoFold(lines[..i])
    {
      var line := lines[i];
      if line != [] {
        result := result[InfoKey(line) := FieldValue(line)];
      }
      TakeSnoc(lines, i);
      AssignSnoc(lines[..i], line, NonEmpty, InfoKey, FieldValue);
      i := i + 1;
    }
    assert lines[..|lines|] == lines;
  }

  // ---------------------------------------------------------------------
  // lines

  /** A CRLF pair after text free of line feeds is one line feed. */
  lemma NormalizeAcross(x: string, rest: string)
    requires '\n' !in x
    ensures NormalizeCrlf(x + "\r\n" + rest) == x + "\n" + NormalizeCrlf(rest)
  {
    Assoc(x, "\r\n", rest);
    NormalizePrefix(x, "\r\n" + rest);
    NormalizePair(rest);
    Assoc(x, "\n", NormalizeCrlf(rest));
  }

  /** Text free of line feeds, followed by text that does not start with
      one, keeps that prefix unchanged. */
  lemma {:induction false} NormalizePrefix(x: string, t: string)
    requires '\n' !in x
    requires t == [] || t[0] != '\n'
    ensures NormalizeCrlf(x + t) == x + NormalizeCrlf(t)
    decreases |x|
  {
    if x == [] {
      assert x + t == t;
    } else {
      var s := x + t;
      assert s[0] == x[0];
      assert s[1..] == x[1..] + t;
      if |s| >= 2 {
        if |x| >= 2 {
          assert s[1] == x[1];
        } else {
          assert s[1] == t[0];
        }
      }
      NormalizeKeep(s);
      NormalizePrefix(x[1..], t);
      SplitHead([], x, NormalizeCrlf(t));
    }
  }

  /** A leading CRLF pair becomes one line feed. */
  lemma NormalizePair(rest: string)
    ensures NormalizeCrlf("\r\n" + rest) == "\n" + NormalizeCrlf(rest)
  {
    var s := "\r\n" + rest;
    assert s[2..] == rest;
  }

  /** A first character that does not start a CRLF pair is kept. */
  lemma NormalizeKeep(s: string)
    requires s != [] && !(|s| >= 2 && s[0] == '\r' && s[1] == '\n')
    ensures NormalizeCrlf(s) == [s[0]] + NormalizeCrlf(s[1..])
  {
  }

  /** Text free of line feeds, or free of carriage returns, has no CRLF
      pair to rewrite. */
  lemma {:induction false} NormalizeUnpaired(x: string, c: char)
    requires c == '\n' || c == '\r'
    requires c !in x
    ensures NormalizeCrlf(x) == x
    decreases |x|
  {
    if x != [] {
      NormalizeUnpaired(x[1..], c);
      assert x == [x[0]] + x[1..];
    }
  }

  /** Lines ended by CRLF are read as if they were ended by LF. */
  lemma {:induction false} NormalizeJoin(lines: seq<string>)
    requires |lines| >= 1
    requires forall k :: 0 <= k < |lines| ==> '\n' !in lines[k]
    ensures NormalizeCrlf(Join(lines, "\r\n")) == Join(lines, "\n")
  {
    if |lines| == 1 {
      NormalizeUnpaired(lines[0], '\n');
    } else {
      NormalizeJoin(lines[1..]);
      NormalizeAcross(lines[0], Join(lines[1..], "\r\n"));
    }
  }

  /** Lines ended by CRLF come back as they were. */
  lemma LinesOfCrlf(lines: seq<string>)
    requires |lines| >= 1
    requires forall k :: 0 <= k < |lines| ==> '\n' !in lines[k]
    ensures Lines(Join(lines, "\r\n")) == lines
  {
    NormalizeJoin(lines);
    SplitJoin(lines, '\n');
  }

  lemma {:induction false} JoinAvoids(lines: seq<string>, c: char)
    requires forall k :: 0 <= k < |lines| ==> c !in lines[k]
    requires c != '\n'
    ensures c !in Join(lines, "\n")
  {
    if |lines| > 1 {
      JoinAvoids(lines[1..], c);
    }
  }

  /** Lines ended by LF, none holding a carriage return, come back as they were. */
  lemma LinesOfLf(lines: seq<string>)
    requires |lines| >= 1
    requires forall k :: 0 <= k < |lines| ==> '\n' !in lines[k] && '\r' !in lines[k]
    ensures Lines(Join(lines, "\n")) == lines
  {
    JoinAvoids(lines, '\r');
    NormalizeUnpaired(Join(lines, "\n"), '\r');
    SplitJoin(lines, '\n');
  }

  // ---------------------------------------------------------------------
  // the record

  /** Every key of the record comes from some non-empty line. */
  lemma KeysFromLines(lines: seq<string>, key: string)
    requires key in InfoFold(lines)
    ensures exists i :: 0 <= i < |lines| && lines[i] != [] && InfoKey(lines[i]) == key
  {
    KeysFromItems(lines, NonEmpty, InfoKey, FieldValue, key);
  }

  /** The value of a key is the value on the last line with that key. */
  lemma InfoLastWins(lines: seq<string>, i: nat)
    requires i < |lines| && lines[i] != []
    requires forall j :: i < j < |lines| ==> lines[j] == [] || InfoKey(lines[j]) != InfoKey(lines[i])
    ensures InfoKey(lines[i]) in InfoFold(lines)
    ensures InfoFold(lines)[InfoKey(lines[i])] == FieldValue(lines[i])
  {
    LastWins(lines, NonEmpty, InfoKey, FieldValue, i);
  }

  /** An empty line leaves the record as it is, wherever it stands: trailing
      blank lines are tolerated. */
  lemma SkipsEmpty(a: seq<string>, b: seq<string>)
    ensures InfoFold(a + [""] + b) == InfoFold(a + b)
  {
    Skips(a, "", b, NonEmpty, InfoKey, FieldValue);
  }

  /** An empty reply gives an empty record. */
  lemma EmptyReply()
    ensures InfoFold(Lines("")) == map[]
  {
    assert NormalizeCrlf("") == "";
    SplitNone("", '\n');
    assert Lines("") == [""];
    AssignSnoc([], "", NonEmpty, InfoKey, FieldValue);
    assert [] + [""] == [""];
  }

  /** `User name: bob` is read as the key `userName` with the value `bob`
      (a value holding the word `undefined` is cut before it). */
  lemma UserName(v: string)
    requires v == [] || (!IsSpace(v[0]) && !IsSpace(v[|v| - 1]))
    requires !Contains(v, UndefinedWord)
    ensures InfoKey("User name: " + v) == "userName"
    ensures FieldValue("User name: " + v) == v
  {
    UserNameKey(v);
    UserNameValue(v);
  }

  lemma UserNameKey(v: string)
    ensures InfoKey("User name: " + v) == "userName"
  {
    UserNameCut(v);
    UserNameWords();
    CamelCapitalisedPair('U', "ser", 'n', "ame");
  }

  /** `User name` as a capitalised word and a lower-case word, and its camel-cased form. */
  lemma UserNameWords()
    ensures "User name" == ['U'] + "ser" + " " + ['n'] + "ame"
    ensures [LowerChar('U')] + "ser" + [UpperChar('n')] + "ame" == "userName"
  {
  }

  lemma UserNameValue(v: string)
    requires v == [] || (!IsSpace(v[0]) && !IsSpace(v[|v| - 1]))
    requires !Contains(v, UndefinedWord)
    ensures FieldValue("User name: " + v) == v
  {
    UserNameCut(v);
    assert AllSpace(" ") by { assert IsSpace(' '); }
    SpaceNotInWord(" ");
    NotContainsPrefixed(" ", v, UndefinedWord);
    TrimPadded(" ", v, "");
    assert " " + v + "" == " " + v;
  }

  lemma UserNameCut(v: string)
    ensures Before("User name: " + v, ':') == "User name"
    ensures After("User name: " + v, ':') == " " + v
  {
    var line := "User name: " + v;
    assert line == "User name" + [':'] + (" " + v);
    assert ':' !in "User name";
    SplitAtFirst("User name", ':', " " + v);
  }

  /** A capitalised word, one space and a lower-case word are lower-cased and
      camel-cased into one word, the second word's first letter upper-cased:
      `User name` becomes `userName`. */
  lemma CamelCapitalisedPair(c: char, x: string, d: char, y: string)
    requires 'A' <= c <= 'Z' && 'a' <= d <= 'z'
    requires LowerWord(x) && LowerWord(y)
    ensures Camelize(ToLower([c] + x + " " + [d] + y)) == [LowerChar(c)] + x + [UpperChar(d)] + y
  {
    LowerPair(c, x, d, y);
    LoweredHead(c, x);
    CamelPair([LowerChar(c)] + x, d, y);
  }

  /** Lower-casing a capitalised word, one space and a lower-case word lowers
      the capital alone. */
  lemma LowerPair(c: char, x: string, d: char, y: string)
    requires 'A' <= c <= 'Z' && 'a' <= d <= 'z'
    requires forall i :: 0 <= i < |x| ==> 'a' <= x[i] <= 'z'
    requires forall i :: 0 <= i < |y| ==> 'a' <= y[i] <= 'z'
    ensures ToLower([c] + x + " " + [d] + y) == [LowerChar(c)] + x + " " + [d] + y
  {
    var rest := x + " " + [d] + y;
    PairNoCapitals(x, d, y);
    Assoc4(c, x, d, y);
    LowerCapitalised(c, rest);
    Assoc4(LowerChar(c), x, d, y);
  }

  /** A capital lowered, followed by a lower-case word, is a lower-case word. */
  lemma LoweredHead(c: char, x: string)
    requires 'A' <= c <= 'Z'
    requires forall i :: 0 <= i < |x| ==> 'a' <= x[i] <= 'z'
    ensures var head := [LowerChar(c)] + x;
      |head| >= 1 && 'a' <= head[0] <= 'z' && forall i :: 0 <= i < |head| ==> 'a' <= head[i] <= 'z'
  {
    var head := [LowerChar(c)] + x;
    forall i | 0 <= i < |head| ensures 'a' <= head[i] <= 'z' {
      if i > 0 {
        assert head[i] == x[i - 1];
      }
    }
  }

  /** A lower-case word, one space and a lower-case word hold no upper-case letter. */
  lemma PairNoCapitals(x: string, d: char, y: string)
    requires 'a' <= d <= 'z'
    requires forall i :: 0 <= i < |x| ==> 'a' <= x[i] <= 'z'
    requires forall i :: 0 <= i < |y| ==> 'a' <= y[i] <= 'z'
    ensures var rest := x + " " + [d] + y;
      forall i :: 0 <= i < |rest| ==> !('A' <= rest[i] <= 'Z')
  {
    var rest := x + " " + [d] + y;
    forall i | 0 <= i < |rest| ensures !('A' <= rest[i] <= 'Z') {
      if i < |x| {
        assert rest[i] == x[i];
      } else if i == |x| {
        assert rest[i] == ' ';
      } else if i == |x| + 1 {
        assert rest[i] == d;
      } else {
        assert rest[i] == y[i - |x| - 2];
      }
    }
  }

  lemma Assoc4(c: char, x: string, d: char, y: string)
    ensures [c] + x + " " + [d] + y == [c] + (x + " " + [d] + y)
  {
  }

  /** Two lower-case words around one space camel-case into one word. */
  lemma CamelPair(head: string, d: char, y: string)
    requires |head| >= 1 && 'a' <= head[0] <= 'z' && 'a' <= d <= 'z'
    requires forall i :: 0 <= i < |head| ==> 'a' <= head[i] <= 'z'
    requires forall i :: 0 <= i < |y| ==> 'a' <= y[i] <= 'z'
    ensures Camelize(head + " " + [d] + y) == head + [UpperChar(d)] + y
  {
    var l := head + " " + [d] + y;
    TrimLetterPair(head, d, y);
    LettersNoSeparator(head);
    LettersNoSeparator(y);
    CamelizeTwoWords(head, d, y);
    assert Camelize(l) == CamelizeRuns(Trim(l));
  }

  /** Two lower-case words around one space have nothing to trim. */
  lemma TrimLetterPair(head: string, d: char, y: string)
    requires |head| >= 1 && 'a' <= head[0] <= 'z' && 'a' <= d <= 'z'
    requires forall i :: 0 <= i < |head| ==> 'a' <= head[i] <= 'z'
    requires forall i :: 0 <= i < |y| ==> 'a' <= y[i] <= 'z'
    ensures Trim(head + " " + [d] + y) == head + " " + [d] + y
  {
    var l := head + " " + [d] + y;
    var last := if y == [] then d else y[|y| - 1];
    assert l[0] == head[0];
    assert l[|l| - 1] == last by {
      if y != [] {
        assert l[|l| - 1] == y[|y| - 1];
      }
    }
    LetterNotSpace(head[0]);
    LetterNotSpace(last);
    TrimUnpadded(l);
  }
}
