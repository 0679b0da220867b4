/** The command builder: how an options object, read key by key against an
    option table, becomes three ordered lists (flags and flag values for the
    command line, lines for `p4 -i`'s standard input, and file paths), and how
    `execP4` joins them into one command line and a standard-input payload.

    Both wrappers share this builder. They differ in one test: the TypeScript
    builder does not check the value of a unary entry, the older JavaScript
    builder checks every entry. */
module Builder {
  import opened Wrappers
  import opened Strings
  import opened JsValues
  import opened Schema

  /** One key of an options object with its value. A request is the object's
      keys in `Object.keys` order. */
  type Entry = (string, JsValue)

  datatype Variant = TypeScript | Legacy

  /** The builder's result object `{stdin, args, files}`. The `args` and
      `files` arrays hold values as they were pushed; `join` writes them out. */
  datatype Built = Built(stdin: seq<string>, args: seq<JsValue>, files: seq<JsValue>)

  const Empty := Built([], [], [])

  /** The input-mode flag added once when standard input is used. */
  const DashI := Str("-i")

  // ---------------------------------------------------------------------
  // Which entries are used

  /** Whether the variant compares this entry's value against its type. */
  predicate ShapeChecked(variant: Variant, d: Descriptor) {
    variant == Legacy || d.category != Unary
  }

  /** The test `(value || {}).constructor === p4option.type`, where the variant
      applies it. An absent type equals no constructor. */
  predicate Accepts(variant: Variant, d: Descriptor, v: JsValue) {
    !ShapeChecked(variant, d) || d.ty == Some(ConstructorOf(v))
  }

  /** The entry names a table entry and passes the value test. A name that
      only an inherited `Object.prototype` property answers has neither a
      unary category nor a type, so it is dropped as well: `name in table`
      decides the same way. */
  predicate Selected(variant: Variant, table: Table, e: Entry) {
    e.0 in table && Accepts(variant, table[e.0], e.1)
  }

  predicate IsStdinEntry(variant: Variant, table: Table, e: Entry) {
    Selected(variant, table, e) && table[e.0].category == Stdin
  }

  /** `p4option.cmd` is truthy: present and not empty. */
  predicate HasCmd(d: Descriptor) {
    d.cmd.Some? && d.cmd.value != ""
  }

  /** `p4option.cmd + value`; an absent `cmd` would read "undefined". */
  function StdinText(d: Descriptor, v: JsValue): string {
    (if d.cmd.Some? then d.cmd.value else "undefined") + ToJsString(v)
  }

  /** What `files.concat(value)` appends: an array's elements, or the value itself. */
  function Spread(v: JsValue): (r: seq<JsValue>)
    ensures v.Arr? ==> |r| == |v.items| && forall i :: 0 <= i < |r| ==> r[i] == Str(v.items[i])
    ensures !v.Arr? ==> r == [v]
  {
    if v.Arr? then seq(|v.items|, i requires 0 <= i < |v.items| => Str(v.items[i])) else [v]
  }

  // ---------------------------------------------------------------------
  // The builder, one key at a time

  /** The body of the builder's loop for one key. */
  function Step(variant: Variant, table: Table, b: Built, e: Entry): Built {
    if !Selected(variant, table, e) then b
    else
      var d := table[e.0];
      if d.category == Stdin then
        Built(b.stdin + [StdinText(d, e.1)], if DashI in b.args then b.args else b.args + [DashI], b.files)
      else if HasCmd(d) then
        b.(args := b.args + [Str(d.cmd.value)] + (if d.category == Mixed then [e.1] else []))
      else
        b.(files := b.files + Spread(e.1))
  }

  /** An accepted stdin entry adds its line, and `-i` unless already there. */
  lemma StepStdin(variant: Variant, table: Table, b: Built, e: Entry)
    requires e.0 in table && table[e.0].category == Stdin && Accepts(variant, table[e.0], e.1)
    ensures Step(variant, table, b, e) ==
      Built(b.stdin + [StdinText(table[e.0], e.1)], if DashI in b.args then b.args else b.args + [DashI], b.files)
  {
  }

  /** An accepted 'mixed' entry with a `cmd` adds the flag and then its value. */
  lemma StepMixed(variant: Variant, table: Table, b: Built, e: Entry)
    requires e.0 in table && table[e.0].category == Mixed && HasCmd(table[e.0]) && Accepts(variant, table[e.0], e.1)
    ensures Step(variant, table, b, e) == b.(args := b.args + [Str(table[e.0].cmd.value), e.1])
  {
  }

  // ---------------------------------------------------------------------
  // The same lists, described as a whole

  /** The stdin line an entry contributes, if any. */
  function StdinPart(variant: Variant, table: Table, e: Entry): seq<string> {
    if IsStdinEntry(variant, table, e) then [StdinText(table[e.0], e.1)] else []
  }

  /** The flag, and for a 'mixed' entry the value after it, an entry contributes. */
  function FlagPart(variant: Variant, table: Table, e: Entry): seq<JsValue> {
    if Selected(variant, table, e) && table[e.0].category != Stdin && HasCmd(table[e.0]) then
      [Str(table[e.0].cmd.value)] + (if table[e.0].category == Mixed then [e.1] else [])
    else []
  }

  /** The paths an entry without a `cmd` contributes. */
  function FilePart(variant: Variant, table: Table, e: Entry): seq<JsValue> {
    if Selected(variant, table, e) && table[e.0].category != Stdin && !HasCmd(table[e.0]) then Spread(e.1)
    else []
  }

  /** The stdin lines of the accepted stdin entries, in key order. */
  function StdinLines(variant: Variant, table: Table, req: seq<Entry>): seq<string>
    decreases |req|
  {
    if req == [] then []
    else StdinLines(variant, table, req[..|req| - 1]) + StdinPart(variant, table, req[|req| - 1])
  }

  /** The flag tokens of the accepted entries with a `cmd`, in key order. */
  function FlagTokens(variant: Variant, table: Table, req: seq<Entry>): seq<JsValue>
    decreases |req|
  {
    if req == [] then []
    else FlagTokens(variant, table, req[..|req| - 1]) + FlagPart(variant, table, req[|req| - 1])
  }

  /** The paths of the accepted entries without a `cmd`, in key order. */
  function FileTokens(variant: Variant, table: Table, req: seq<Entry>): seq<JsValue>
    decreases |req|
  {
    if req == [] then []
    else FileTokens(variant, table, req[..|req| - 1]) + FilePart(variant, table, req[|req| - 1])
  }

  /** The position of the first accepted stdin entry, or `|req|` when there is none. */
  function FirstStdin(variant: Variant, table: Table, req: seq<Entry>): (k: nat)
    ensures k <= |req|
    ensures forall j :: 0 <= j < k ==> !IsStdinEntry(variant, table, req[j])
    ensures k < |req| ==> IsStdinEntry(variant, table, req[k])
  {
    if req == [] then 0
    else if IsStdinEntry(variant, table, req[0]) then 0
    else 1 + FirstStdin(variant, table, req[1..])
  }

  predicate HasStdin(variant: Variant, table: Table, req: seq<Entry>) {
    FirstStdin(variant, table, req) < |req|
  }

  /** The flag list: every accepted flag entry's tokens in key order, with
      `-i` placed where the first stdin entry stands unless a flag token
      before it already is `-i`. */
  function ArgsOf(variant: Variant, table: Table, req: seq<Entry>): seq<JsValue> {
    var k := FirstStdin(variant, table, req);
    if k == |req| then FlagTokens(variant, table, req)
    else WithInput(FlagTokens(variant, table, req[..k]), FlagTokens(variant, table, req[k + 1..]))
  }

  /** The flags before the first stdin entry, `-i` unless they hold it already,
      then the flags after it. */
  function WithInput(before: seq<JsValue>, after: seq<JsValue>): (r: seq<JsValue>)
    ensures DashI in r
  {
    before + (if DashI in before then [] else [DashI]) + after
  }

  /** The flags before the first stdin entry come first and those after it
      last; between them stands one `-i` exactly when the earlier flags do
      not hold it already. */
  lemma WithInputShape(before: seq<JsValue>, after: seq<JsValue>)
    ensures var r := WithInput(before, after);
      && |r| == |before| + |after| + (if DashI in before then 0 else 1)
      && r[..|before|] == before && r[|r| - |after|..] == after
      && (DashI !in before ==> r[|before|] == DashI)
  {
  }

  /** The builder's result for a request. */
  function Build(variant: Variant, table: Table, req: seq<Entry>): Built {
    Built(StdinLines(variant, table, req), ArgsOf(variant, table, req), FileTokens(variant, table, req))
  }

  // ---------------------------------------------------------------------
  // The loop agrees with the description

  lemma {:induction false} FlagTokensAppend(variant: Variant, table: Table, a: seq<Entry>, b: seq<Entry>)
    ensures FlagTokens(variant, table, a + b) == FlagTokens(variant, table, a) + FlagTokens(variant, table, b)
    decreases |b|
  {
    if b != [] {
      var b0 := b[..|b| - 1];
      assert (a + b)[..|a + b| - 1] == a + b0;
      assert (a + b)[|a + b| - 1] == b[|b| - 1];
      FlagTokensAppend(variant, table, a, b0);
    } else {
      assert a + b == a;
    }
  }

  lemma {:induction false} FirstStdinSnoc(variant: Variant, table: Table, req: seq<Entry>, e: Entry)
    ensures FirstStdin(variant, table, req + [e]) ==
      if HasStdin(variant, table, req) then FirstStdin(variant, table, req)
      else if IsStdinEntry(variant, table, e) then |req| else |req| + 1
    decreases |req|
  {
    if req != [] {
      assert (req + [e])[0] == req[0];
      assert (req + [e])[1..] == req[1..] + [e];
      FirstStdinSnoc(variant, table, req[1..], e);
    }
  }

  /** What one step does to the flag list. */
  lemma StepArgs(variant: Variant, table: Table, b: Built, e: Entry)
    ensures Step(variant, table, b, e).args ==
      if IsStdinEntry(variant, table, e) then (if DashI in b.args then b.args else b.args + [DashI])
      else b.args + FlagPart(variant, table, e)
  {
  }

  lemma FlagTokensSnoc(variant: Variant, table: Table, req: seq<Entry>, e: Entry)
    ensures FlagTokens(variant, table, req + [e]) == FlagTokens(variant, table, req) + FlagPart(variant, table, e)
  {
    assert (req + [e])[..|req|] == req;
  }

  lemma SnocSlices<T>(s: seq<T>, x: T, k: nat)
    requires k < |s|
    ensures (s + [x])[..k] == s[..k]
    ensures (s + [x])[k + 1..] == s[k + 1..] + [x]
  {
  }

  lemma ArgsSnocAfterStdin(variant: Variant, table: Table, req: seq<Entry>, e: Entry)
    requires HasStdin(variant, table, req)
    ensures DashI in ArgsOf(variant, table, req)
    ensures ArgsOf(variant, table, req + [e]) == ArgsOf(variant, table, req) + FlagPart(variant, table, e)
  {
    FirstStdinSnoc(variant, table, req, e);
    var k := FirstStdin(variant, table, req);
    SnocSlices(req, e, k);
    FlagTokensSnoc(variant, table, req[k + 1..], e);
    var before := FlagTokens(variant, table, req[..k]);
    var after := FlagTokens(variant, table, req[k + 1..]);
    assert WithInput(before, after + FlagPart(variant, table, e)) == WithInput(before, after) + FlagPart(variant, table, e);
  }

  lemma ArgsSnocFirstStdin(variant: Variant, table: Table, req: seq<Entry>, e: Entry)
    requires !HasStdin(variant, table, req) && IsStdinEntry(variant, table, e)
    ensures ArgsOf(variant, table, req) == FlagTokens(variant, table, req)
    ensures var f := FlagTokens(variant, table, req);
      ArgsOf(variant, table, req + [e]) == f + (if DashI in f then [] else [DashI])
  {
    var r := req + [e];
    FirstStdinSnoc(variant, table, req, e);
    assert r[..|req|] == req;
    assert r[|req| + 1..] == [];
  }

  lemma ArgsSnocNoStdin(variant: Variant, table: Table, req: seq<Entry>, e: Entry)
    requires !HasStdin(variant, table, req) && !IsStdinEntry(variant, table, e)
    ensures ArgsOf(variant, table, req) == FlagTokens(variant, table, req)
    ensures ArgsOf(variant, table, req + [e]) == FlagTokens(variant, table, req) + FlagPart(variant, table, e)
  {
    FirstStdinSnoc(variant, table, req, e);
    FlagTokensSnoc(variant, table, req, e);
  }

  /** The flag list after one more key is what the loop body makes of it. */
  lemma ArgsSnoc(variant: Variant, table: Table, req: seq<Entry>, e: Entry)
    ensures ArgsOf(variant, table, req + [e]) == Step(variant, table, Build(variant, table, req), e).args
  {
    StepArgs(variant, table, Build(variant, table, req), e);
    if HasStdin(variant, table, req) {
      ArgsSnocAfterStdin(variant, table, req, e);
    } else if IsStdinEntry(variant, table, e) {
      ArgsSnocFirstStdin(variant, table, req, e);
    } else {
      ArgsSnocNoStdin(variant, table, req, e);
    }
  }

  /** The description of the whole request advances exactly as the loop body does:
      adding one key to the request is one more `Step`. */
  lemma BuildSnoc(variant: Variant, table: Table, req: seq<Entry>, e: Entry)
    ensures Build(variant, table, req + [e]) == Step(variant, table, Build(variant, table, req), e)
  {
    var r := req + [e];
    assert r[..|r| - 1] == req;
    ArgsSnoc(variant, table, req, e);
  }

  /** The builder loop: for each key in order, skip it unless the table has it
      and its value passes the test; a stdin entry adds a line and, once, `-i`;
      an entry with a `cmd` adds the flag, and a 'mixed' one its value after it;
      any other entry adds its paths. */
  method BuildLists(variant: Variant, table: Table, request: seq<Entry>) returns (built: Built)
    ensures built == Build(variant, table, request)
  {
    var stdin: seq<string> := [];
    var args: seq<JsValue> := [];
    var files: seq<JsValue> := [];
    var i := 0;
    while i < |request|
      invariant 0 <= i <= |request|
      invariant Built(stdin, args, files) == Build(variant, table, request[..i])
    {
      BuildSnoc(variant, table, request[..i], request[i]);
      TakeSnoc(request, i);
      stdin, args, files := AddEntry(variant, table, stdin, args, files, request[i]);
      i := i + 1;
    }
    assert request[..|request|] == request;
    built := Built(stdin, args, files);
  }

  /** The loop body for one key: an accepted stdin entry adds its line and
      `-i` once; an accepted entry with a `cmd` adds the flag, and a 'mixed'
      one its value; any other accepted entry adds its paths. */
  method AddEntry(variant: Variant, table: Table, stdin: seq<string>, args: seq<JsValue>, files: seq<JsValue>, e: Entry)
    returns (stdin': seq<string>, args': seq<JsValue>, files': seq<JsValue>)
    ensures Built(stdin', args', files') == Step(variant, table, Built(stdin, args, files), e)
  {
    stdin', args', files' := stdin, args, files;
    var (name, value) := e;
    if name in table {
      var d := table[name];
      if Accepts(variant, d, value) {
        if d.category == Stdin {
          stdin' := stdin' + [StdinText(d, value)];
          if DashI !in args' {
            args' := args' + [DashI];
          }
        } else if HasCmd(d) {
          args' := args' + [Str(d.cmd.value)];
          if d.category == Mixed {
            args' := args' + [value];
          }
        } else {
          files' := files' + Spread(value);
        }
      }
    }
  }

  // ---------------------------------------------------------------------
  // Properties of the builder

  lemma CountDashI(before: seq<JsValue>, after: seq<JsValue>)
    requires DashI !in before && DashI !in after
    ensures multiset(WithInput(before, after))[DashI] == 1
  {
    assert WithInput(before, after) == before + [DashI] + after;
    assert multiset(before)[DashI] == 0;
    assert multiset(after)[DashI] == 0;
  }

  /** A key that contributes no flag token splits the flag tokens in two. */
  lemma FlagTokensAround(variant: Variant, table: Table, req: seq<Entry>, k: nat)
    requires k < |req| && FlagPart(variant, table, req[k]) == []
    ensures FlagTokens(variant, table, req) == FlagTokens(variant, table, req[..k]) + FlagTokens(variant, table, req[k + 1..])
  {
    var a, e, c := req[..k], req[k], req[k + 1..];
    Around(req, k);
    FlagTokensAppend(variant, table, a, [e] + c);
    FlagTokensAppend(variant, table, [e], c);
    FlagTokensOne(variant, table, e);
    assert [] + FlagTokens(variant, table, c) == FlagTokens(variant, table, c);
  }

  lemma FlagTokensOne(variant: Variant, table: Table, e: Entry)
    ensures FlagTokens(variant, table, [e]) == FlagPart(variant, table, e)
  {
    assert [e][..0] == [];
  }

  /** With no flag token equal to `-i` among the accepted entries, `-i`
      appears exactly once when some stdin entry is accepted, and not at all
      otherwise. */
  lemma DashIOnce(variant: Variant, table: Table, req: seq<Entry>)
    requires DashI !in FlagTokens(variant, table, req)
    ensures multiset(ArgsOf(variant, table, req))[DashI] == if HasStdin(variant, table, req) then 1 else 0
  {
    if HasStdin(variant, table, req) {
      DashIOnceWithStdin(variant, table, req);
    } else {
      assert multiset(FlagTokens(variant, table, req))[DashI] == 0;
    }
  }

  lemma DashIOnceWithStdin(variant: Variant, table: Table, req: seq<Entry>)
    requires DashI !in FlagTokens(variant, table, req)
    requires HasStdin(variant, table, req)
    ensures multiset(ArgsOf(variant, table, req))[DashI] == 1
  {
    var k := FirstStdin(variant, table, req);
    assert FlagPart(variant, table, req[k]) == [];
    FlagTokensAround(variant, table, req, k);
    var before := FlagTokens(variant, table, req[..k]);
    var after := FlagTokens(variant, table, req[k + 1..]);
    assert ArgsOf(variant, table, req) == WithInput(before, after);
    assert FlagTokens(variant, table, req) == before + after;
    assert DashI !in before && DashI !in after;
    CountDashI(before, after);
  }

  /** An entry that is not accepted (unknown name, or a value that fails the
      test) changes nothing, wherever it stands in the request. */
  lemma {:induction false} Ignored(variant: Variant, table: Table, a: seq<Entry>, e: Entry, b: seq<Entry>)
    requires !Selected(variant, table, e)
    ensures Build(variant, table, a + [e] + b) == Build(variant, table, a + b)
    decreases |b|
  {
    if b == [] {
      BuildSnoc(variant, table, a, e);
      assert a + [e] + b == a + [e];
      assert a + b == a;
    } else {
      var b0, x := b[..|b| - 1], b[|b| - 1];
      var l, m := a + [e] + b0, a + b0;
      assert a + [e] + b == l + [x];
      assert a + b == m + [x];
      Ignored(variant, table, a, e, b0);
      SnocSame(variant, table, l, m, x);
    }
  }

  /** Two requests that build the same lists still do after one more key. */
  lemma SnocSame(variant: Variant, table: Table, l: seq<Entry>, m: seq<Entry>, x: Entry)
    requires Build(variant, table, l) == Build(variant, table, m)
    ensures Build(variant, table, l + [x]) == Build(variant, table, m + [x])
  {
    BuildSnoc(variant, table, l, x);
    BuildSnoc(variant, table, m, x);
  }

  /** A request none of whose entries is accepted builds three empty lists. */
  lemma {:induction false} NothingSelected(variant: Variant, table: Table, req: seq<Entry>)
    requires forall i :: 0 <= i < |req| ==> !Selected(variant, table, req[i])
    ensures Build(variant, table, req) == Empty
    decreases |req|
  {
    if req != [] {
      var r0 := req[..|req| - 1];
      NothingSelected(variant, table, r0);
      assert req == r0 + [req[|req| - 1]];
      BuildSnoc(variant, table, r0, req[|req| - 1]);
    }
  }

  /** A checked entry with a falsy value (`''`, `0`, `false`, `null`,
      `undefined`) is dropped unless its type is `Object`. */
  lemma FalsyDropped(variant: Variant, table: Table, e: Entry)
    requires e.0 in table && ShapeChecked(variant, table[e.0])
    requires !Truthy(e.1) && table[e.0].ty != Some(ObjectCtor)
    ensures !Selected(variant, table, e)
  {
  }

  /** In the TypeScript builder a unary entry is accepted whatever its value,
      even `false`, and adds just its flag. */
  lemma UnaryAnyValue(table: Table, req: seq<Entry>, e: Entry)
    requires e.0 in table && table[e.0].category == Unary && HasCmd(table[e.0])
    ensures Build(TypeScript, table, req + [e]).args == Build(TypeScript, table, req).args + [Str(table[e.0].cmd.value)]
    ensures Build(TypeScript, table, req + [e]).stdin == Build(TypeScript, table, req).stdin
    ensures Build(TypeScript, table, req + [e]).files == Build(TypeScript, table, req).files
  {
    BuildSnoc(TypeScript, table, req, e);
  }

  /** In the older builder an entry without a type is never accepted, so it
      changes nothing wherever it stands: unary flags are never emitted. */
  lemma UntypedNeverUsed(table: Table, a: seq<Entry>, e: Entry, b: seq<Entry>)
    requires e.0 in table && table[e.0].ty.None?
    ensures Build(Legacy, table, a + [e] + b) == Build(Legacy, table, a + b)
  {
    Ignored(Legacy, table, a, e, b);
  }

  // ---------------------------------------------------------------------
  // The command line and the standard input

  /** `Array.prototype.join`'s text for each element. */
  function Texts(vs: seq<JsValue>): (r: seq<string>)
    ensures |r| == |vs| && forall i :: 0 <= i < |vs| ==> r[i] == JoinText(vs[i])
  {
    if vs == [] then [] else [JoinText(vs[0])] + Texts(vs[1..])
  }

  /** `['p4', p4cmd, args.join(' '), files.join(' ')].join(' ')`. */
  function CommandLine(sub: string, b: Built): string {
    Join(["p4", sub, Join(Texts(b.args), " "), Join(Texts(b.files), " ")], " ")
  }

  /** Writing each stdin line followed by `"\n"`, in order; nothing when there are none. */
  function StdinPayload(lines: seq<string>): string
    decreases |lines|
  {
    if lines == [] then "" else StdinPayload(lines[..|lines| - 1]) + lines[|lines| - 1] + "\n"
  }

  /** `stdin.forEach(line => child.stdin.write(line + '\n'))`: the text written, in order. */
  method WriteStdin(lines: seq<string>) returns (written: string)
    ensures written == StdinPayload(lines)
  {
    written := "";
    var i := 0;
    while i < |lines|
      invariant 0 <= i <= |lines|
      invariant written == StdinPayload(lines[..i])
    {
      assert lines[..i + 1][..i] == lines[..i];
      written := written + lines[i] + "\n";
      i := i + 1;
    }
    assert lines[..|lines|] == lines;
  }

  /** How a list of words reads back from a split on spaces: an empty list
      leaves one empty word. */
  function Words(ts: seq<string>): seq<string> {
    if ts == [] then [""] else ts
  }

  lemma SplitJoinWords(ts: seq<string>)
    requires forall i :: 0 <= i < |ts| ==> ' ' !in ts[i]
    ensures Split(Join(ts, " "), " ") == Words(ts)
  {
    if ts == [] {
      assert Split("", " ") == [""];
    } else {
      SplitJoin(ts, ' ');
    }
  }

  lemma JoinFour(p: string, q: string, r: string, t: string, sep: string)
    ensures Join([p, q, r, t], sep) == p + sep + (q + sep + (r + sep + t))
  {
    JoinCons(p, [q, r, t], sep);
    JoinCons(q, [r, t], sep);
    JoinCons(r, [t], sep);
    assert [p] + [q, r, t] == [p, q, r, t];
    assert [q] + [r, t] == [q, r, t];
    assert [r] + [t] == [r, t];
  }

  /** Splitting four texts joined by spaces splits each of them. */
  lemma SplitJoinFour(p: string, q: string, r: string, t: string)
    ensures Split(Join([p, q, r, t], " "), " ") == Split(p, " ") + Split(q, " ") + Split(r, " ") + Split(t, " ")
  {
    JoinFour(p, q, r, t, " ");
    SplitConcat(r, ' ', t);
    SplitConcat(q, ' ', r + " " + t);
    SplitConcat(p, ' ', q + " " + (r + " " + t));
    var sp, sq, sr, st := Split(p, " "), Split(q, " "), Split(r, " "), Split(t, " ");
    Assoc(sq, sr, st);
    Assoc(sp, sq + sr, st);
    Assoc(sp, sq, sr);
  }

  /** Splitting the command line on spaces gives `p4`, the words of the
      sub-command, then the flag tokens and the paths; an empty list still
      leaves its empty word (the command line keeps its spaces). */
  lemma CommandLineWords(sub: string, b: Built)
    requires forall i :: 0 <= i < |b.args| ==> ' ' !in JoinText(b.args[i])
    requires forall i :: 0 <= i < |b.files| ==> ' ' !in JoinText(b.files[i])
    ensures Split(CommandLine(sub, b), " ") ==
      ["p4"] + Split(sub, " ") + Words(Texts(b.args)) + Words(Texts(b.files))
  {
    SplitJoinFour("p4", sub, Join(Texts(b.args), " "), Join(Texts(b.files), " "));
    SplitNone("p4", ' ');
    SplitJoinWords(Texts(b.args));
    SplitJoinWords(Texts(b.files));
  }

  /** With no recognised options the command is `p4`, the sub-command and two
      trailing spaces. */
  lemma EmptyCommandLine(sub: string)
    ensures CommandLine(sub, Empty) == "p4 " + sub + "  "
  {
    JoinFour("p4", sub, "", "", " ");
  }

  /** A single flag and no paths: `p4 <sub> <flag> `. */
  lemma FlagOnlyCommandLine(sub: string, flag: string)
    ensures CommandLine(sub, Built([], [Str(flag)], [])) == "p4 " + sub + " " + flag + " "
  {
    assert Texts([Str(flag)]) == [flag];
    assert Texts([]) == [];
    JoinFour("p4", sub, flag, "", " ");
  }

  /** The payload reads back, split on newlines, as the lines and one empty
      remainder. */
  lemma {:induction false} PayloadLines(lines: seq<string>)
    requires forall i :: 0 <= i < |lines| ==> '\n' !in lines[i]
    ensures Split(StdinPayload(lines), "\n") == lines + [""]
    decreases |lines|
  {
    if lines == [] {
      assert Split("", "\n") == [""];
    } else {
      var init, last := lines[..|lines| - 1], lines[|lines| - 1];
      PayloadLines(init);
      var p := StdinPayload(init);
      assert p + last + "\n" == (p + last) + ['\n'] + [];
      SplitConcat(p + last, '\n', []);
      assert Split([], "\n") == [""];
      // p is a sequence of lines each ended by a newline: splitting p + last
      // extends the last, empty, piece of p's split by `last`.
      PayloadSplitExtend(init, last);
      assert lines == init + [last];
    }
  }

  lemma {:induction false} PayloadSplitExtend(init: seq<string>, last: string)
    requires forall i :: 0 <= i < |init| ==> '\n' !in init[i]
    requires '\n' !in last
    ensures Split(StdinPayload(init) + last, "\n") == init + [last]
    decreases |init|
  {
    if init == [] {
      assert StdinPayload(init) + last == last;
      SplitNone(last, '\n');
    } else {
      var i0, l0 := init[..|init| - 1], init[|init| - 1];
      var p := StdinPayload(i0);
      assert StdinPayload(init) + last == (p + l0) + ['\n'] + last;
      SplitConcat(p + l0, '\n', last);
      PayloadSplitExtend(i0, l0);
      SplitNone(last, '\n');
      assert init == i0 + [l0];
    }
  }
}
