/** Tagged output (`p4 -ztag`): the pattern `/^\.\.\.\s+(\w+)\s+(.+)/` that
    picks a key and a value out of one line, `processZtagOutput`, which folds
    the lines of an output into one record, and `opened`, which cuts the
    output into one record per file. */
module Ztag {
  import opened Wrappers
  import opened Strings
  import opened Records

  predicate AllWord(s: string) {
    forall i :: 0 <= i < |s| ==> IsWordChar(s[i])
  }

  /** Where `(.+)` starts after a white-space run of length `b` at the start
      of `t`: the greedy `\s+` gives back characters until `.` can match,
      so the largest `j` in `1..b` at which `t[j]` is not a line terminator;
      0 when there is none. */
  function ValueStart(t: string, j: nat): (q: nat)
    ensures q <= j
    ensures q > 0 ==> q < |t| && InLine(t[q])
    ensures forall m :: q < m <= j ==> m >= |t| || !InLine(t[m])
  {
    if j == 0 then 0
    else if j < |t| && InLine(t[j]) then j
    else ValueStart(t, j - 1)
  }

  /** `ztagRegex.exec(line)`: the key and the value of a tagged line. The
      pattern is anchored at the start of the line; the first `\s+` and the
      key take as much as they can, and the value runs to the first line
      terminator. */
  function ZtagMatch(line: string): (r: Option<(string, string)>)
    ensures r.Some? ==> |line| >= 3 && line[..3] == "..."
    ensures r.Some? ==> |r.value.0| >= 1 && AllWord(r.value.0)
    ensures r.Some? ==> |r.value.1| >= 1 && NoTerminator(r.value.1)
  {
    if |line| < 3 || line[..3] != "..." then None
    else
      var a := PrefixRun(line[3..], IsSpace);
      if a == 0 then None else KeyAndValue(line[3..][a..])
  }

  /** `(\w+)\s+(.+)` at the start of `t`. */
  function KeyAndValue(t: string): (r: Option<(string, string)>)
    ensures r.Some? ==> |r.value.0| >= 1 && AllWord(r.value.0)
    ensures r.Some? ==> |r.value.1| >= 1 && NoTerminator(r.value.1)
  {
    var k := PrefixRun(t, IsWordChar);
    if k == 0 then None
    else
      match ValueAfterSpace(t[k..])
      case None => None
      case Some(v) => Some((t[..k], v))
  }

  /** `\s+(.+)` at the start of `t`: the captured value. */
  function ValueAfterSpace(t: string): (r: Option<string>)
    ensures r.Some? ==> |r.value| >= 1 && NoTerminator(r.value)
  {
    var b := PrefixRun(t, IsSpace);
    if b == 0 then None
    else
      var q := ValueStart(t, b);
      if q == 0 then None
      else
        var n := PrefixRun(t[q..], InLine);
        Some(t[q..][..n])
  }

  lemma WordIsNotSpace(c: char)
    requires IsWordChar(c)
    ensures !IsSpace(c)
  {
  }

  /** A tagged line reads back as its key and value: `...`, white space, a
      word, white space, and a value that does not start with white space,
      up to the end of the line or a line terminator. */
  lemma ZtagRoundTrip(ws1: string, key: string, ws2: string, value: string, rest: string)
    requires |ws1| >= 1 && AllSpace(ws1) && |ws2| >= 1 && AllSpace(ws2)
    requires |key| >= 1 && AllWord(key)
    requires |value| >= 1 && NoTerminator(value) && !IsSpace(value[0])
    requires rest == [] || IsLineTerminator(rest[0])
    ensures ZtagMatch("..." + ws1 + key + ws2 + value + rest) == Some((key, value))
  {
    var line := "..." + ws1 + key + ws2 + value + rest;
    assert line[..3] == "...";
    var r1 := line[3..];
    assert r1 == ws1 + (key + ws2 + value + rest);
    WordIsNotSpace(key[0]);
    PrefixRunOf(ws1, key + ws2 + value + rest, IsSpace);
    assert r1[|ws1|..] == key + (ws2 + value + rest);
    KeyAndValueRoundTrip(key, ws2, value, rest);
  }

  lemma KeyAndValueRoundTrip(key: string, ws2: string, value: string, rest: string)
    requires |ws2| >= 1 && AllSpace(ws2)
    requires |key| >= 1 && AllWord(key)
    requires |value| >= 1 && NoTerminator(value) && !IsSpace(value[0])
    requires rest == [] || IsLineTerminator(rest[0])
    ensures KeyAndValue(key + (ws2 + value + rest)) == Some((key, value))
  {
    var t := key + (ws2 + value + rest);
    PrefixRunOf(key, ws2 + value + rest, IsWordChar);
    assert t[|key|..] == ws2 + (value + rest);
    assert t[..|key|] == key;
    ValueRoundTrip(ws2, value, rest);
  }

  lemma ValueRoundTrip(ws2: string, value: string, rest: string)
    requires |ws2| >= 1 && AllSpace(ws2)
    requires |value| >= 1 && NoTerminator(value) && !IsSpace(value[0])
    requires rest == [] || IsLineTerminator(rest[0])
    ensures ValueAfterSpace(ws2 + (value + rest)) == Some(value)
  {
    var t := ws2 + (value + rest);
    PrefixRunOf(ws2, value + rest, IsSpace);
    assert t[|ws2|] == value[0];
    assert ValueStart(t, |ws2|) == |ws2|;
    assert t[|ws2|..] == value + rest;
    PrefixRunOf(value, rest, InLine);
    assert (value + rest)[..|value|] == value;
  }

  /** `line` is `...`, a white-space run, the key, a white-space run, the
      value, and then nothing or a line terminator. */
  predicate TaggedAs(line: string, ws1: string, key: string, ws2: string, value: string, rest: string) {
    && |ws1| >= 1 && AllSpace(ws1) && |ws2| >= 1 && AllSpace(ws2)
    && (rest == [] || IsLineTerminator(rest[0]))
    && line == "..." + ws1 + key + ws2 + value + rest
  }

  /** The converse of `ZtagRoundTrip`: a line the pattern matches is made of
      `...`, white space, the key, white space and the value, in that order;
      so a `...` line of any other shape is ignored. */
  lemma ZtagMatchShape(line: string)
    requires ZtagMatch(line).Some?
    ensures exists ws1, ws2, rest ::
      TaggedAs(line, ws1, ZtagMatch(line).value.0, ws2, ZtagMatch(line).value.1, rest)
  {
    var ws1, ws2, rest := ZtagParts(line);
  }

  /** What `ZtagMatch` matched, cut at the pattern's groups. */
  lemma ZtagParts(line: string) returns (ws1: string, ws2: string, rest: string)
    requires ZtagMatch(line).Some?
    ensures TaggedAs(line, ws1, ZtagMatch(line).value.0, ws2, ZtagMatch(line).value.1, rest)
  {
    var a := ZtagUnfold(line);
    var u := line[3..][a..];
    ws2, rest := KeyAndValueParts(u);
    ws1 := line[3..][..a];
    CutTwice(line, 3, a);
    Assemble(line, line[..3], ws1, KeyAndValue(u).value.0, ws2, KeyAndValue(u).value.1, rest);
  }

  /** One step of `ZtagMatch`: `...`, the white-space run of length `a`, and
      the key and value of what follows. */
  lemma ZtagUnfold(line: string) returns (a: nat)
    requires ZtagMatch(line).Some?
    ensures |line| >= 3 && line[..3] == "..." && 0 < a <= |line[3..]|
    ensures AllSpace(line[3..][..a])
    ensures ZtagMatch(line) == KeyAndValue(line[3..][a..])
  {
    a := PrefixRun(line[3..], IsSpace);
  }

  lemma Regroup(u: string, k: nat, ws2: string, value: string, rest: string)
    requires k <= |u| && u[k..] == ws2 + value + rest
    ensures u == u[..k] + ws2 + value + rest
  {
    assert u == u[..k] + u[k..];
  }

  lemma CutTwice(s: string, i: nat, j: nat)
    requires i <= |s| && j <= |s[i..]|
    ensures s == s[..i] + s[i..][..j] + s[i..][j..]
  {
    assert s[i..] == s[i..][..j] + s[i..][j..];
  }

  lemma Assemble(line: string, h: string, ws1: string, key: string, ws2: string, value: string, rest: string)
    requires h == "..." && line == h + ws1 + (key + ws2 + value + rest)
    requires |ws1| >= 1 && AllSpace(ws1) && |ws2| >= 1 && AllSpace(ws2)
    requires rest == [] || IsLineTerminator(rest[0])
    ensures TaggedAs(line, ws1, key, ws2, value, rest)
  {
    assert h + ws1 + (key + ws2 + value + rest) == h + ws1 + key + ws2 + value + rest;
  }

  /** What `KeyAndValue` matched: the key, white space, the value and what
      follows it. */
  lemma KeyAndValueParts(u: string) returns (ws2: string, rest: string)
    requires KeyAndValue(u).Some?
    ensures |ws2| >= 1 && AllSpace(ws2) && (rest == [] || IsLineTerminator(rest[0]))
    ensures u == KeyAndValue(u).value.0 + ws2 + KeyAndValue(u).value.1 + rest
  {
    var k := PrefixRun(u, IsWordChar);
    assert KeyAndValue(u) == Some((u[..k], ValueAfterSpace(u[k..]).value));
    ws2, rest := ValueParts(u[k..]);
    Regroup(u, k, ws2, ValueAfterSpace(u[k..]).value, rest);
  }

  /** What `ValueAfterSpace` matched: white space, the value and what
      follows it. */
  lemma ValueParts(w: string) returns (ws2: string, rest: string)
    requires ValueAfterSpace(w).Some?
    ensures |ws2| >= 1 && AllSpace(ws2) && (rest == [] || IsLineTerminator(rest[0]))
    ensures w == ws2 + ValueAfterSpace(w).value + rest
  {
    var b := PrefixRun(w, IsSpace);
    var q := ValueStart(w, b);
    var n := PrefixRun(w[q..], InLine);
    ws2, rest := w[..q], w[q..][n..];
    assert AllSpace(ws2) by {
      forall i | 0 <= i < |ws2| ensures IsSpace(ws2[i]) {
        assert ws2[i] == w[i];
      }
    }
    assert w[q..] == w[q..][..n] + rest;
    assert w == ws2 + w[q..];
  }

  /** A line that does not start with `...` is not a tagged line. */
  lemma UntaggedLine(line: string)
    requires |line| < 3 || line[..3] != "..."
    ensures ZtagMatch(line).None?
  {
  }

  // ---------------------------------------------------------------------
  // processZtagOutput

  /** A line the pattern matches. */
  predicate Tagged(line: string) {
    ZtagMatch(line).Some?
  }

  /** The key a tagged line sets. */
  function TagKey(line: string): string {
    match ZtagMatch(line)
    case Some((key, _)) => key
    case None => ""
  }

  /** The value a tagged line sets. */
  function TagValue(line: string): string {
    match ZtagMatch(line)
    case Some((_, value)) => value
    case None => ""
  }

  /** The record a sequence of lines folds into: each tagged line sets its
      key, so of two lines with one key the later one wins. */
  function ZtagFold(lines: seq<string>): map<string, string> {
    Assign(lines, Tagged, TagKey, TagValue)
  }

  /** `processZtagOutput`: split the output on newlines and fold the tagged
      lines into one record. */
  method ProcessZtagOutput(output: string) returns (memo: map<string, string>)
    ensures memo == ZtagFold(Split(output, "\n"))
  {
    var lines := Split(output, "\n");
    memo := map[];
    var i := 0;
    assert lines[..0] == [];
    while i < |lines|
      invariant 0 <= i <= |lines|
      invariant memo == ZtagFold(lines[..i])
    {
      var tagged := ZtagMatch(lines[i]);
      if tagged.Some? {
        var (key, value) := tagged.value;
        memo := memo[key := value];
      }
      TakeSnoc(lines, i);
      AssignSnoc(lines[..i], lines[i], Tagged, TagKey, TagValue);
      i := i + 1;
    }
    assert lines[..|lines|] == lines;
  }

  /** Every key of the record comes from some tagged line. */
  lemma FoldKeysFromLines(lines: seq<string>, key: string)
    requires key in ZtagFold(lines)
    ensures exists i :: 0 <= i < |lines| && ZtagMatch(lines[i]).Some? && ZtagMatch(lines[i]).value.0 == key
  {
    KeysFromItems(lines, Tagged, TagKey, TagValue, key);
  }

  /** The value of a key is the value on the last tagged line with that key. */
  lemma FoldLastWins(lines: seq<string>, i: nat, key: string, value: string)
    requires i < |lines| && ZtagMatch(lines[i]) == Some((key, value))
    requires forall j :: i < j < |lines| ==> ZtagMatch(lines[j]).None? || ZtagMatch(lines[j]).value.0 != key
    ensures key in ZtagFold(lines) && ZtagFold(lines)[key] == value
  {
    LastWins(lines, Tagged, TagKey, TagValue, i);
  }

  /** A line that is not tagged leaves the record as it is, wherever it stands. */
  lemma FoldSkipsUntagged(a: seq<string>, line: string, b: seq<string>)
    requires ZtagMatch(line).None?
    ensures ZtagFold(a + [line] + b) == ZtagFold(a + b)
  {
    Skips(a, line, b, Tagged, TagKey, TagValue);
  }

  // ---------------------------------------------------------------------
  // opened

  /** The length of the blank-line separator `/\r\n\r\n|\n\n/` at position
      `i`, trying the first alternative first; 0 when neither matches. */
  function SeparatorAt(s: string, i: nat): (n: nat)
    ensures n == 0 || n == 2 || n == 4
    ensures n > 0 ==> i + n <= |s|
  {
    if i + 4 <= |s| && s[i..i + 4] == "\r\n\r\n" then 4
    else if i + 2 <= |s| && s[i..i + 2] == "\n\n" then 2
    else 0
  }

  /** The leftmost position where a separator matches, or `|s|`. */
  function FirstSeparator(s: string, i: nat): (k: nat)
    requires i <= |s|
    ensures i <= k <= |s|
    ensures k < |s| ==> SeparatorAt(s, k) > 0
    ensures forall j :: i <= j < k ==> SeparatorAt(s, j) == 0
    decreases |s| - i
  {
    if i == |s| then i
    else if SeparatorAt(s, i) > 0 then i
    else FirstSeparator(s, i + 1)
  }

  /** `s.split(/\r\n\r\n|\n\n/)`: the blocks between blank lines. */
  function Blocks(s: string): (r: seq<string>)
    ensures |r| >= 1
    decreases |s|
  {
    var k := FirstSeparator(s, 0);
    if k == |s| then [s]
    else [s[..k]] + Blocks(s[k + SeparatorAt(s, k)..])
  }

  /** `opened`: trim the output, cut it at blank lines, and fold each block
      into the record of one file. */
  function Opened(stdout: string): (r: seq<map<string, string>>)
    ensures |r| == |Blocks(Trim(stdout))| >= 1
    ensures forall i :: 0 <= i < |r| ==> r[i] == ZtagFold(Split(Blocks(Trim(stdout))[i], "\n"))
  {
    BlockRecords(Blocks(Trim(stdout)))
  }

  /** The record of each block, in order. */
  function BlockRecords(blocks: seq<string>): (r: seq<map<string, string>>)
    ensures |r| == |blocks|
    ensures forall i :: 0 <= i < |r| ==> r[i] == ZtagFold(Split(blocks[i], "\n"))
  {
    seq(|blocks|, i requires 0 <= i < |blocks| => ZtagFold(Split(blocks[i], "\n")))
  }

  /** Empty (or all-white-space) output still gives one, empty, record. */
  lemma OpenedNothing(stdout: string)
    requires AllSpace(stdout)
    ensures Opened(stdout) == [map[]]
  {
    TrimPadded(stdout, [], []);
    assert stdout + [] + [] == stdout;
    assert Split([], "\n") == [[]];
    assert ZtagMatch([]).None?;
    assert ZtagFold([[]]) == map[];
  }

  /** Text with no blank line is one block. */
  predicate NoBlankLine(s: string) {
    forall j :: 0 <= j < |s| ==> SeparatorAt(s, j) == 0
  }

  lemma OneBlock(s: string)
    requires NoBlankLine(s)
    ensures Blocks(s) == [s]
  {
  }

  /** A block without a blank line, not ending in a line break, followed by
      `\n\n`: the split cuts exactly there. */
  lemma BlocksCut(x: string, y: string)
    requires NoBlankLine(x)
    requires x == [] || (x[|x| - 1] != '\n' && x[|x| - 1] != '\r')
    ensures Blocks(x + "\n\n" + y) == [x] + Blocks(y)
  {
    var s := x + "\n\n" + y;
    forall j | 0 <= j < |x| ensures SeparatorAt(s, j) == 0 {
      NoSeparatorBefore(x, y, j);
    }
    assert s[|x|] == '\n';
    assert s[|x|..|x| + 2] == "\n\n";
    assert |x| + 4 <= |s| ==> s[|x|..|x| + 4] != "\r\n\r\n" by {
      if |x| + 4 <= |s| {
        assert s[|x|..|x| + 4][0] == '\n';
      }
    }
    assert SeparatorAt(s, |x|) == 2;
    FirstSeparatorIs(s, |x|);
    assert s[..|x|] == x;
    assert s[|x| + 2..] == y;
  }

  lemma NoSeparatorBefore(x: string, y: string, j: nat)
    requires j < |x| && NoBlankLine(x)
    requires x[|x| - 1] != '\n' && x[|x| - 1] != '\r'
    ensures SeparatorAt(x + "\n\n" + y, j) == 0
  {
    var s := x + "\n\n" + y;
    assert SeparatorAt(x, j) == 0;
    var d := |x| - 1 - j;
    if j + 4 <= |s| {
      if j + 4 <= |x| {
        assert s[j..j + 4] == x[j..j + 4];
      } else {
        assert s[j..j + 4][d] == x[|x| - 1];
      }
    }
    if j + 2 <= |s| {
      if j + 2 <= |x| {
        assert s[j..j + 2] == x[j..j + 2];
      } else {
        assert s[j..j + 2][d] == x[|x| - 1];
      }
    }
  }

  /** A block `opened` can cut out again: no blank line inside, and no line
      break at its end that would run into the separator after it. */
  predicate PlainBlock(x: string) {
    NoBlankLine(x) && (x == [] || (x[|x| - 1] != '\n' && x[|x| - 1] != '\r'))
  }

  /** Blocks joined by blank lines are cut back into the same blocks. */
  lemma {:induction false} BlocksOfJoin(bs: seq<string>)
    requires |bs| >= 1 && NoBlankLine(bs[|bs| - 1])
    requires forall i :: 0 <= i < |bs| - 1 ==> PlainBlock(bs[i])
    ensures Blocks(Join(bs, "\n\n")) == bs
  {
    if |bs| == 1 {
      OneBlock(bs[0]);
    } else {
      assert PlainBlock(bs[0]);
      BlocksOfJoin(bs[1..]);
      BlocksCut(bs[0], Join(bs[1..], "\n\n"));
      assert bs == [bs[0]] + bs[1..];
    }
  }

  /** `opened` reads the blocks of a trimmed output back as one record per
      block, in order, each the fold of the block's lines. */
  lemma OpenedRoundTrip(bs: seq<string>)
    requires |bs| >= 1 && NoBlankLine(bs[|bs| - 1])
    requires forall i :: 0 <= i < |bs| - 1 ==> PlainBlock(bs[i])
    requires bs[0] != [] && !IsSpace(bs[0][0])
    requires bs[|bs| - 1] != [] && !IsSpace(bs[|bs| - 1][|bs[|bs| - 1]| - 1])
    ensures Opened(Join(bs, "\n\n")) == BlockRecords(bs)
  {
    var s := Join(bs, "\n\n");
    JoinEnds(bs, "\n\n");
    TrimPadded([], s, []);
    assert [] + s + [] == s;
    BlocksOfJoin(bs);
  }

  /** A join starts with the first part and ends with the last. */
  lemma {:induction false} JoinEnds(bs: seq<string>, sep: string)
    requires |bs| >= 1
    ensures var s := Join(bs, sep);
      |s| >= |bs[0]| && |s| >= |bs[|bs| - 1]|
      && s[..|bs[0]|] == bs[0] && s[|s| - |bs[|bs| - 1]|..] == bs[|bs| - 1]
  {
    if |bs| > 1 {
      JoinEnds(bs[1..], sep);
      var t := Join(bs[1..], sep);
      assert Join(bs, sep) == bs[0] + sep + t;
      assert (bs[0] + sep + t)[..|bs[0]|] == bs[0];
      assert bs[1..][|bs[1..]| - 1] == bs[|bs| - 1];
      assert (bs[0] + sep + t)[|bs[0] + sep + t| - |bs[|bs| - 1]|..] == t[|t| - |bs[|bs| - 1]|..];
    }
  }

  lemma FirstSeparatorIs(s: string, k: nat)
    requires k < |s| && SeparatorAt(s, k) > 0
    requires forall j :: 0 <= j < k ==> SeparatorAt(s, j) == 0
    ensures FirstSeparator(s, 0) == k
  {
  }
}
