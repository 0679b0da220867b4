/** `Changelist.view`'s reading of a change form (the reply of
    `p4 change -o <n>`): two rewriting passes over the text, a cut at blank
    lines, a record of the `Key: value` blocks, and the `Files:` block read
    as a list of `{file, action}` pairs. */
module ChangeView {
  import opened Wrappers
  import opened Strings
  import opened Records

  predicate IsTab(c: char) {
    c == '\t'
  }

  // ---------------------------------------------------------------------
  // the two passes

  /** The first pass: every match of `/(\t)+#(.)*\/g` (a run of tabs, `#`,
      and the rest of the line) becomes `@@@` followed by the match without
      its first three characters, so `\t# add` becomes `@@@add`. */
  function MarkActions(s: string): string
    decreases |s|
  {
    if s == [] then []
    else
      var k := TabHashMatch(s);
      if k > 0 then Marked(s[..k]) + MarkActions(s[k..])
      else [s[0]] + MarkActions(s[1..])
  }

  /** The length of the match of `(\t)+#(.)*` at the start of `s`, or 0. */
  function TabHashMatch(s: string): (k: nat)
    ensures k <= |s|
  {
    var t := PrefixRun(s, IsTab);
    if 0 < t < |s| && s[t] == '#' then t + 1 + PrefixRun(s[t + 1..], InLine) else 0
  }

  /** The replacement of one match: `@@@` and the match from its fourth character on. */
  function Marked(m: string): string {
    "@@@" + (if |m| >= 3 then m[3..] else [])
  }

  /** The second pass: every match of `/#(.)*\n/g` is deleted, so a `#` is
      removed with the rest of its line and the line feed after it; a `#`
      whose line ends in another line terminator, or in the end of the text,
      stays. */
  function StripComments(s: string): (r: string)
    ensures |r| <= |s|
    decreases |s|
  {
    if s == [] then []
    else
      var n := PrefixRun(s[1..], InLine);
      if s[0] == '#' && 1 + n < |s| && s[1 + n] == '\n' then StripComments(s[2 + n..])
      else [s[0]] + StripComments(s[1..])
  }

  /** The blocks of the form: both passes, then a split at every blank line. */
  function Blocks(stdout: string): (r: seq<string>)
    ensures |r| >= 1
  {
    Split(StripComments(MarkActions(stdout)), "\n\n")
  }

  // ---------------------------------------------------------------------
  // the record of the blocks

  /** The key of a block: the text before its first `:`, lower-cased,
      trimmed and camel-cased. */
  function BlockKey(block: string): (k: string)
    ensures NoCamelSeparator(k)
  {
    Camelize(Trim(ToLower(Before(block, ':'))))
  }

  /** `if (key)`: only a block with a non-empty key is stored. */
  predicate HasKey(block: string) {
    BlockKey(block) != []
  }

  /** The record of the blocks; of two blocks with one key, the later wins. */
  function Fields(blocks: seq<string>): map<string, string> {
    Assign(blocks, HasKey, BlockKey, FieldValue)
  }

  // ---------------------------------------------------------------------
  // the file list

  datatype FileEntry = FileEntry(file: string, action: Option<string>)

  /** The `files` field of the result: the list of pairs, or the empty text
      an empty `Files:` block leaves in place. */
  datatype Files = FileList(entries: seq<FileEntry>) | EmptyText

  /** The result: every other field of the record, and the file list. */
  datatype ViewResult = ViewResult(fields: map<string, string>, files: Files)

  /** One line of the `Files:` block: all tabs removed, then cut at `@@@`;
      the action is `undefined` (here `None`) when there is no `@@@`. */
  function FileEntryOf(line: string): FileEntry {
    var parts := Split(RemoveChar(line, '\t'), "@@@");
    FileEntry(parts[0], if |parts| >= 2 then Some(parts[1]) else None)
  }

  /** `.map(...)` over the lines of the `Files:` text. */
  function FileEntries(lines: seq<string>): (r: seq<FileEntry>)
    ensures |r| == |lines|
    decreases |lines|
  {
    if lines == [] then [] else FileEntries(lines[..|lines| - 1]) + [FileEntryOf(lines[|lines| - 1])]
  }

  lemma FileEntriesSnoc(a: seq<string>, line: string)
    ensures FileEntries(a + [line]) == FileEntries(a) + [FileEntryOf(line)]
  {
    assert (a + [line])[..|a|] == a;
  }

  /** The pair at position `k` is read from line `k`. */
  lemma {:induction false} FileEntryAt(lines: seq<string>, k: nat)
    requires k < |lines|
    ensures FileEntries(lines)[k] == FileEntryOf(lines[k])
    decreases |lines|
  {
    if k < |lines| - 1 {
      FileEntryAt(lines[..|lines| - 1], k);
    }
  }

  /** `files` starts as `[]`, takes the record's text when there is one, and
      that text, when not empty, is read one line per pair. */
  function FilesOf(output: map<string, string>): (r: Files)
    ensures "files" !in output ==> r == FileList([])
    ensures r == EmptyText <==> "files" in output && output["files"] == ""
    ensures "files" in output && output["files"] != "" ==>
      r == FileList(FileEntries(Split(output["files"], "\n")))
  {
    if "files" !in output then FileList([])
    else if output["files"] == "" then EmptyText
    else FileList(FileEntries(Split(output["files"], "\n")))
  }

  /** The result of `view` for a reply. */
  function ViewOf(stdout: string): (r: ViewResult)
    ensures "files" !in r.fields
  {
    var output := Fields(Blocks(stdout));
    ViewResult(output - {"files"}, FilesOf(output))
  }

  /** `view`'s handling of the reply: the two passes, one pass over the
      blocks filling the record key by key, and one over the lines of the
      `Files:` text. */
  method View(stdout: string) returns (result: ViewResult)
    ensures result == ViewOf(stdout)
  {
    var text := MarkActions(stdout);
    text := StripComments(text);
    var blocks := Split(text, "\n\n");
    var output := ReadBlocks(blocks);
    var files := ReadFiles(output);
    result := ViewResult(output - {"files"}, files);
  }

  /** The `forEach` over the blocks, storing each keyed block. */
  method ReadBlocks(blocks: seq<string>) returns (output: map<string, string>)
    ensures output == Fields(blocks)
  {
    output := map[];
    var i := 0;
    assert blocks[..0] == [];
    while i < |blocks|
      invariant 0 <= i <= |blocks|
      invariant output == Fields(blocks[..i])
    {
      var block := blocks[i];
      var key := BlockKey(block);
      if key != [] {
        output := output[key := FieldValue(block)];
      }
      TakeSnoc(blocks, i);
      AssignSnoc(blocks[..i], block, HasKey, BlockKey, FieldValue);
      i := i + 1;
    }
    assert blocks[..|blocks|] == blocks;
  }

  /** The file list: `[]`, replaced by the record's `files` text, which when
      not empty is mapped line by line to pairs. */
  method ReadFiles(output: map<string, string>) returns (files: Files)
    ensures files == FilesOf(output)
  {
    files := FileList([]);
    if "files" in output {
      if output["files"] == "" {
        files := EmptyText;
      } else {
        var lines := Split(output["files"], "\n");
        var entries: seq<FileEntry> := [];
        var j := 0;
        assert lines[..0] == [];
        while j < |lines|
          invariant 0 <= j <= |lines|
          invariant entries == FileEntries(lines[..j])
        {
          TakeSnoc(lines, j);
          FileEntriesSnoc(lines[..j], lines[j]);
          entries := entries + [FileEntryOf(lines[j])];
          j := j + 1;
        }
        assert lines[..|lines|] == lines;
        files := FileList(entries);
      }
    }
  }

  // ---------------------------------------------------------------------
  // the first pass

  /** Text without a tab passes through the first pass unchanged. */
  lemma {:induction false} MarkNoTab(x: string, rest: string)
    requires '\t' !in x
    ensures MarkActions(x + rest) == x + MarkActions(rest)
    decreases |x|
  {
    if x == [] {
      assert x + rest == rest;
    } else {
      var s := x + rest;
      assert s[0] == x[0];
      assert PrefixRun(s, IsTab) == 0;
      assert s[1..] == x[1..] + rest;
      MarkNoTab(x[1..], rest);
      assert [x[0]] + (x[1..] + MarkActions(rest)) == x + MarkActions(rest);
    }
  }

  /** Where no tab run followed by `#` starts, the first character is kept. */
  lemma MarkKeep(s: string)
    requires s != []
    requires TabHashMatch(s) == 0
    ensures MarkActions(s) == [s[0]] + MarkActions(s[1..])
  {
  }

  /** A tab before anything but `#` or another tab stays. */
  lemma MarkTabBefore(c: char, rest: string)
    requires c != '#' && c != '\t'
    ensures MarkActions("\t" + [c] + rest) == "\t" + [c] + MarkActions(rest)
  {
    var s := "\t" + ([c] + rest);
    Assoc("\t", [c], rest);
    PrefixRunOf("\t", [c] + rest, IsTab);
    assert s[1] == c;
    MarkKeep(s);
    assert s[1..] == [c] + rest;
    MarkNoTab([c], rest);
    Assoc("\t", [c], MarkActions(rest));
  }

  /** `\t# <action>` at the end of a line becomes `@@@<action>`. */
  lemma MarkAction(action: string, rest: string)
    requires NoTerminator(action)
    requires rest == [] || IsLineTerminator(rest[0])
    ensures MarkActions("\t# " + action + rest) == "@@@" + action + MarkActions(rest)
  {
    var s := "\t# " + action + rest;
    var n := 1 + |action|;
    ActionRuns(action, rest);
    MatchLength(s, 1, n);
    MarkMatch(s, 2 + n);
    ActionSlices(action, rest);
    assert Marked(s[..2 + n]) == "@@@" + action;
  }

  /** A run of `t` tabs, `#` and a line of `n` characters is a match of
      length `t + 1 + n`. */
  lemma MatchLength(s: string, t: nat, n: nat)
    requires 0 < t < |s| && PrefixRun(s, IsTab) == t && s[t] == '#'
    requires PrefixRun(s[t + 1..], InLine) == n
    ensures TabHashMatch(s) == t + 1 + n
  {
  }

  /** Where a match of length `k` starts the text, it is replaced and the
      scan goes on after it. */
  lemma MarkMatch(s: string, k: nat)
    requires s != [] && 0 < k && TabHashMatch(s) == k
    ensures MarkActions(s) == Marked(s[..k]) + MarkActions(s[k..])
  {
  }

  lemma ActionRuns(action: string, rest: string)
    requires NoTerminator(action)
    requires rest == [] || IsLineTerminator(rest[0])
    ensures var s := "\t# " + action + rest;
      && |s| > 1 && s[1] == '#'
      && PrefixRun(s, IsTab) == 1
      && PrefixRun(s[2..], InLine) == 1 + |action|
  {
    var s := "\t# " + action + rest;
    assert s == "\t" + ("# " + action + rest);
    PrefixRunOf("\t", "# " + action + rest, IsTab);
    assert s[2..] == (" " + action) + rest;
    assert forall i :: 0 <= i < |" " + action| ==> InLine((" " + action)[i]);
    PrefixRunOf(" " + action, rest, InLine);
  }

  lemma ActionSlices(action: string, rest: string)
    ensures var s := "\t# " + action + rest;
      var n := 1 + |action|;
      && 2 + n <= |s|
      && s[..2 + n][3..] == action
      && s[2 + n..] == rest
  {
    var s := "\t# " + action + rest;
    assert s[..3 + |action|] == "\t# " + action;
  }

  // ---------------------------------------------------------------------
  // the second pass

  /** Text without `#` passes through the second pass unchanged. */
  lemma {:induction false} StripNoHash(x: string, rest: string)
    requires '#' !in x
    ensures StripComments(x + rest) == x + StripComments(rest)
    decreases |x|
  {
    if x == [] {
      assert x + rest == rest;
    } else {
      var s, t := x + rest, StripComments(rest);
      assert s[0] == x[0] && x[0] != '#';
      StripKeep(s);
      assert s[1..] == x[1..] + rest;
      StripNoHash(x[1..], rest);
      assert StripComments(s) == [x[0]] + (x[1..] + t);
      SplitHead([], x, t);
    }
  }

  /** A first character other than `#` is kept. */
  lemma StripKeep(s: string)
    requires s != [] && s[0] != '#'
    ensures StripComments(s) == [s[0]] + StripComments(s[1..])
  {
  }

  /** A `#`, the rest of its line and the line feed after it are deleted. */
  lemma StripLine(y: string, rest: string)
    requires NoTerminator(y)
    ensures StripComments("#" + y + "\n" + rest) == StripComments(rest)
  {
    var s := "#" + y + "\n" + rest;
    assert s[1..] == y + ("\n" + rest);
    PrefixRunOf(y, "\n" + rest, InLine);
    assert s[1 + |y|] == '\n';
    assert s[2 + |y|..] == rest;
  }

  // ---------------------------------------------------------------------
  // one line of the Files: block through both passes

  /** The end of a file line, `\t# <action>` and its line feed, after the first pass. */
  lemma MarkLineEnd(action: string, rest: string)
    requires NoTerminator(action)
    ensures MarkActions("\t# " + action + "\n" + rest) == "@@@" + action + "\n" + MarkActions(rest)
  {
    assert "\t# " + action + "\n" + rest == "\t# " + action + ("\n" + rest);
    MarkAction(action, "\n" + rest);
    MarkNoTab("\n", rest);
    assert "@@@" + action + ("\n" + MarkActions(rest)) == "@@@" + action + "\n" + MarkActions(rest);
  }

  /** The start of a file line, a tab and a path, passes the first pass unchanged. */
  lemma MarkPathThen(path: string, tail: string)
    requires |path| >= 1 && '\t' !in path && path[0] != '#'
    ensures MarkActions("\t" + path + tail) == "\t" + path + MarkActions(tail)
  {
    SplitHead("\t", path, tail);
    MarkTabBefore(path[0], path[1..] + tail);
    MarkNoTab(path[1..], tail);
    SplitHead("\t", path, MarkActions(tail));
  }

  /** A file line `\t<path>\t# <action>` comes out of both passes as
      `\t<path>@@@<action>`. */
  lemma FileLine(path: string, action: string, rest: string)
    requires |path| >= 1 && '\t' !in path && '#' !in path
    requires NoTerminator(action) && '#' !in action
    ensures StripComments(MarkActions("\t" + path + "\t# " + action + "\n" + rest))
         == "\t" + path + "@@@" + action + "\n" + StripComments(MarkActions(rest))
  {
    FileLineMarked(path, action, rest);
    var marked := "\t" + path + "@@@" + action + "\n";
    assert '#' !in marked;
    StripNoHash(marked, MarkActions(rest));
  }

  lemma FileLineMarked(path: string, action: string, rest: string)
    requires |path| >= 1 && '\t' !in path && path[0] != '#'
    requires NoTerminator(action)
    ensures MarkActions("\t" + path + "\t# " + action + "\n" + rest)
         == "\t" + path + "@@@" + action + "\n" + MarkActions(rest)
  {
    Regroup6("\t", path, "\t# ", action, "\n", rest);
    MarkPathThen(path, "\t# " + action + "\n" + rest);
    MarkLineEnd(action, rest);
    Regroup6("\t", path, "@@@", action, "\n", MarkActions(rest));
  }

  /** A path written with a revision, `\t<path>#<rev>\t# <action>`, loses
      the revision, the action and the line feed: the second pass deletes
      everything from the `#` to the end of the line. */
  lemma RevisionDropped(path: string, rev: string, action: string, rest: string)
    requires |path| >= 1 && '\t' !in path && '#' !in path
    requires NoTerminator(rev) && '\t' !in rev
    requires NoTerminator(action)
    ensures StripComments(MarkActions("\t" + path + "#" + rev + "\t# " + action + "\n" + rest))
         == "\t" + path + StripComments(MarkActions(rest))
  {
    RevisionMarked(path, rev, action, rest);
    var y := rev + "@@@" + action;
    var mr := MarkActions(rest);
    RevisionTail(rev, action);
    TabPath(path);
    StripNoHash("\t" + path, "#" + y + "\n" + mr);
    StripLine(y, mr);
  }

  lemma RevisionTail(rev: string, action: string)
    requires NoTerminator(rev) && NoTerminator(action)
    ensures NoTerminator(rev + "@@@" + action)
  {
    var y := rev + "@@@" + action;
    forall i | 0 <= i < |y| ensures !IsLineTerminator(y[i]) {
      if i < |rev| {
        assert y[i] == rev[i];
      } else if i >= |rev| + 3 {
        assert y[i] == action[i - |rev| - 3];
      } else {
        assert y[i] == '@';
      }
    }
  }

  lemma TabPath(path: string)
    requires '#' !in path
    ensures '#' !in "\t" + path
  {
    assert forall i :: 1 <= i < |"\t" + path| ==> ("\t" + path)[i] == path[i - 1];
  }

  lemma RevisionMarked(path: string, rev: string, action: string, rest: string)
    requires |path| >= 1 && '\t' !in path && path[0] != '#'
    requires '\t' !in rev
    requires NoTerminator(action)
    ensures MarkActions("\t" + path + "#" + rev + "\t# " + action + "\n" + rest)
         == "\t" + path + ("#" + (rev + "@@@" + action) + "\n" + MarkActions(rest))
  {
    var written := path + "#" + rev;
    assert written[0] == path[0];
    RegroupMiddle("\t", path, "#", rev, "\t# ", action, "\n", rest);
    FileLineMarked(written, action, rest);
    RegroupMiddle("\t", path, "#", rev, "@@@", action, "\n", MarkActions(rest));
    RegroupAround("\t", path, "#", rev, "@@@", action, "\n", MarkActions(rest));
  }

  // ---------------------------------------------------------------------
  // blocks

  /** A block `Name:<pad><text><post>` is stored under the lower-cased name
      with the trimmed text, when the name has no separator in it and the
      text does not hold the word `undefined`. */
  lemma FieldBlock(name: string, pad: string, text: string, post: string)
    requires ':' !in name && NoCamelSeparator(ToLower(name))
    requires AllSpace(pad) && AllSpace(post)
    requires text == [] || (!IsSpace(text[0]) && !IsSpace(text[|text| - 1]))
    requires !Contains(text, UndefinedWord)
    ensures BlockKey(name + ":" + (pad + text + post)) == ToLower(name)
    ensures FieldValue(name + ":" + (pad + text + post)) == text
  {
    FieldBlockCut(name, pad + text + post);
    FieldKey(name);
    SpaceNotInWord(pad);
    SpaceNotInWord(post);
    NotContainsPrefixed(pad, text, UndefinedWord);
    NotContainsSuffixed(pad + text, post, UndefinedWord);
    TrimPadded(pad, text, post);
  }

  lemma FieldBlockCut(name: string, rest: string)
    requires ':' !in name
    ensures Before(name + [':'] + rest, ':') == name
    ensures After(name + [':'] + rest, ':') == rest
  {
    SplitAtFirst(name, ':', rest);
  }

  lemma FieldKey(name: string)
    requires NoCamelSeparator(ToLower(name))
    ensures Camelize(Trim(ToLower(name))) == ToLower(name)
  {
    var k := ToLower(name);
    assert k == [] || (!IsSpace(k[0]) && !IsSpace(k[|k| - 1])) by {
      if k != [] {
        assert !IsCamelSeparator(k[0]) && !IsCamelSeparator(k[|k| - 1]);
      }
    }
    assert Trim(k) == k;
    CamelizeRunsIdentity(k);
  }

  /** Without a block keyed `files`, `files` is the empty list. */
  lemma NoFilesBlock(stdout: string)
    requires forall k :: 0 <= k < |Blocks(stdout)| ==> !HasKey(Blocks(stdout)[k]) || BlockKey(Blocks(stdout)[k]) != "files"
    ensures ViewOf(stdout).files == FileList([])
  {
    if "files" in Fields(Blocks(stdout)) {
      KeysFromItems(Blocks(stdout), HasKey, BlockKey, FieldValue, "files");
    }
  }

  /** The last block keyed `files` decides the file list: one pair per line
      of its text, or the empty text when the block has nothing after `:`. */
  lemma FilesFromLastBlock(stdout: string, i: nat)
    requires i < |Blocks(stdout)| && BlockKey(Blocks(stdout)[i]) == "files"
    requires forall j :: i < j < |Blocks(stdout)| ==> BlockKey(Blocks(stdout)[j]) != "files"
    ensures var v := FieldValue(Blocks(stdout)[i]);
      ViewOf(stdout).files == if v == "" then EmptyText else FileList(FileEntries(Split(v, "\n")))
  {
    BlockLastWins(Blocks(stdout), i);
  }

  /** A field block read back: the last block naming a key gives its value. */
  lemma FieldFromLastBlock(stdout: string, i: nat, key: string)
    requires i < |Blocks(stdout)| && BlockKey(Blocks(stdout)[i]) == key && key != [] && key != "files"
    requires forall j :: i < j < |Blocks(stdout)| ==> BlockKey(Blocks(stdout)[j]) != key
    ensures key in ViewOf(stdout).fields
    ensures ViewOf(stdout).fields[key] == FieldValue(Blocks(stdout)[i])
  {
    var blocks := Blocks(stdout);
    BlockLastWins(blocks, i);
    OtherField(Fields(blocks), key);
  }

  /** A key other than `files` keeps its value when `files` is taken out. */
  lemma OtherField(output: map<string, string>, key: string)
    requires key in output && key != "files"
    ensures key in output - {"files"} && (output - {"files"})[key] == output[key]
  {
  }

  /** Of the blocks, the last one with a given non-empty key sets it. */
  lemma BlockLastWins(blocks: seq<string>, i: nat)
    requires i < |blocks| && BlockKey(blocks[i]) != []
    requires forall j :: i < j < |blocks| ==> BlockKey(blocks[j]) != BlockKey(blocks[i])
    ensures BlockKey(blocks[i]) in Fields(blocks)
    ensures Fields(blocks)[BlockKey(blocks[i])] == FieldValue(blocks[i])
  {
    LastWins(blocks, HasKey, BlockKey, FieldValue, i);
  }

  /** The description written by `create` or `edit` is read back: a block
      `Description:\n\t<text>` gives the description `<text>`, unless the
      text holds the word `undefined`, where `between` stops. */
  lemma DescriptionBlock(text: string)
    requires text == [] || (!IsSpace(text[0]) && !IsSpace(text[|text| - 1]))
    requires !Contains(text, UndefinedWord)
    ensures BlockKey("Description:\n\t" + text) == "description"
    ensures FieldValue("Description:\n\t" + text) == text
  {
    CapitalisedBlock('D', "escription", text);
    DescriptionWord();
  }

  /** A description holding the word `undefined` is read back only up to it,
      because `between(':')` searches for that word: `Fix undefined read`
      comes back as `Fix`. */
  lemma DescriptionCut(text: string, more: string)
    requires text == [] || (!IsSpace(text[0]) && !IsSpace(text[|text| - 1]))
    requires !Contains(text, UndefinedWord)
    ensures FieldValue("Description:\n\t" + text + " " + UndefinedWord + more) == text
  {
    DescriptionWord();
    var name := ['D'] + "escription";
    assert ':' !in name by {
      assert forall i :: 1 <= i < |name| ==> name[i] == "escription"[i - 1];
    }
    FieldCut(name, text, more);
  }

  /** `Name:\n\t<text> undefined<more>` gives `<text>`. */
  lemma FieldCut(name: string, text: string, more: string)
    requires ':' !in name
    requires text == [] || (!IsSpace(text[0]) && !IsSpace(text[|text| - 1]))
    requires !Contains(text, UndefinedWord)
    ensures FieldValue(name + ":\n\t" + text + " " + UndefinedWord + more) == text
  {
    var x := "\n\t" + text + " ";
    assert AllSpace("\n\t") && AllSpace(" ") by {
      assert IsSpace('\n') && IsSpace('\t') && IsSpace(' ');
    }
    SpaceNotInWord("\n\t");
    SpaceNotInWord(" ");
    NotContainsPrefixed("\n\t", text, UndefinedWord);
    NotContainsSuffixed("\n\t" + text, " ", UndefinedWord);
    assert x[|x| - 1] !in UndefinedWord;
    BetweenStops(name, ':', x, more);
    CutShape(name, text, more);
    TrimPadded("\n\t", text, " ");
  }

  lemma CutShape(name: string, text: string, more: string)
    ensures name + ":\n\t" + text + " " + UndefinedWord + more
      == name + [':'] + (("\n\t" + text + " ") + UndefinedWord + more)
  {
  }

  lemma DescriptionWord()
    ensures "Description:\n\t" == ['D'] + "escription" + ":\n\t"
    ensures [LowerChar('D')] + "escription" == "description"
  {
  }

  /** A block `Name:\n\t<text>` whose name is one capitalised word is stored
      under the word in lower case. */
  lemma CapitalisedBlock(c: char, s: string, text: string)
    requires 'A' <= c <= 'Z'
    requires forall i :: 0 <= i < |s| ==> 'a' <= s[i] <= 'z'
    requires text == [] || (!IsSpace(text[0]) && !IsSpace(text[|text| - 1]))
    requires !Contains(text, UndefinedWord)
    ensures BlockKey([c] + s + ":\n\t" + text) == [LowerChar(c)] + s
    ensures FieldValue([c] + s + ":\n\t" + text) == text
  {
    var name := [c] + s;
    assert ':' !in name by {
      assert forall i :: 1 <= i < |name| ==> name[i] == s[i - 1];
    }
    LowerCapitalised(c, s);
    var lower := [LowerChar(c)] + s;
    assert forall i :: 1 <= i < |lower| ==> lower[i] == s[i - 1];
    LettersNoSeparator(lower);
    assert AllSpace("\n\t") by {
      assert IsSpace('\n') && IsSpace('\t');
    }
    IndentedShape(name, text);
    FieldBlock(name, "\n\t", text, "");
  }

  lemma IndentedShape(name: string, text: string)
    ensures name + ":\n\t" + text == name + ":" + ("\n\t" + text + "")
  {
    assert ":\n\t" == ":" + "\n\t";
    assert "\n\t" + text + "" == "\n\t" + text;
    Regroup4(name, ":", "\n\t", text);
  }

  // ---------------------------------------------------------------------
  // the file list

  /** A line `\t<path>@@@<action>` gives the pair `{file: path, action}`. */
  lemma FileEntryWithAction(path: string, action: string)
    requires '\t' !in path && '@' !in path
    requires '\t' !in action && '@' !in action
    ensures FileEntryOf("\t" + path + "@@@" + action) == FileEntry(path, Some(action))
  {
    var s := path + "@@@" + action;
    assert "\t" + path + "@@@" + action == ['\t'] + s;
    assert RemoveChar(['\t'] + s, '\t') == RemoveChar(s, '\t');
    assert '\t' !in s;
    forall j | 0 <= j < |path| ensures !OccursAt(path + "@@@" + action, "@@@", j) {
      assert s[j] == path[j];
      NoMarkerAt(s, j);
    }
    SplitCut(path, "@@@", action);
    forall j | 0 <= j < |action| ensures !OccursAt(action, "@@@", j) {
      NoMarkerAt(action, j);
    }
    SplitNoOccurrence(action, "@@@");
  }

  /** A line without `@@@` gives a pair without an action. */
  lemma FileEntryWithoutAction(path: string)
    requires '\t' !in path && '@' !in path
    ensures FileEntryOf("\t" + path) == FileEntry(path, None)
  {
    assert "\t" + path == ['\t'] + path;
    assert RemoveChar(['\t'] + path, '\t') == RemoveChar(path, '\t');
    forall j | 0 <= j < |path| ensures !OccursAt(path, "@@@", j) {
      NoMarkerAt(path, j);
    }
    SplitNoOccurrence(path, "@@@");
  }

  lemma NoMarkerAt(s: string, j: nat)
    requires j < |s| && s[j] != '@'
    ensures !OccursAt(s, "@@@", j)
  {
    if j + 3 <= |s| {
      assert s[j..j + 3][0] == s[j];
    }
  }

  /** A `Files:` text of `n` lines gives `n` pairs, one per line in order. */
  lemma OnePairPerLine(lines: seq<string>)
    requires |lines| >= 1
    requires forall k :: 0 <= k < |lines| ==> '\n' !in lines[k]
    ensures FileEntries(Split(Join(lines, "\n"), "\n")) == FileEntries(lines)
    ensures |FileEntries(Split(Join(lines, "\n"), "\n"))| == |lines|
  {
    SplitJoin(lines, '\n');
  }
}
