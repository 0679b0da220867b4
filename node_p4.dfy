/** The TypeScript wrapper (`ts/index.ts`): how an options object becomes a
    `p4` invocation, and which sub-command each `NodeP4` method runs. */
module NodeP4 {
  import opened Wrappers
  import opened Strings
  import opened JsValues
  import opened Schema
  import opened Builder
  import TsOptions

  /** An options object: its keys in `Object.keys` order with their values. */
  type Request = seq<Entry>

  /** `options = options || {}`: an absent options object reads as one without keys. */
  function RequestOf(options: Option<Request>): Request {
    if options.Some? then options.value else []
  }

  /** `options[name]`: the value of the first key of that name, `undefined` when absent. */
  function Get(req: Request, name: string): (v: JsValue)
    ensures (forall i :: 0 <= i < |req| ==> req[i].0 != name) ==> v == Undefined
    ensures v != Undefined ==> exists i :: 0 <= i < |req| && req[i] == (name, v)
  {
    if req == [] then Undefined
    else if req[0].0 == name then req[0].1
    else Get(req[1..], name)
  }

  /** What the wrapper hands to the process launcher: the command line, the
      child-process options, the text written to the child's standard input,
      and whether that input is then ended. */
  datatype Invocation = Invocation(command: string, childOptions: Request, input: string, endsInput: bool)

  /** The builder result for an options object under the TypeScript table. */
  function Lists(options: Option<Request>): Built {
    Build(TypeScript, TsOptions.Table, RequestOf(options))
  }

  /** `optionBuilder`: with no options object, three empty lists; otherwise the
      shared builder run against the 23-entry table, where unary entries are
      not type-checked. */
  method OptionBuilder(options: Option<Request>) returns (built: Built)
    ensures built == Lists(options)
    ensures options.None? ==> built == Empty
  {
    built := BuildLists(TypeScript, TsOptions.Table, RequestOf(options));
    if options.None? {
      NothingSelected(TypeScript, TsOptions.Table, []);
    }
  }

  // ---------------------------------------------------------------------
  // child-process options

  /** The keys `execOptionBuilder` passes on to the child process. */
  const ExecKeys: set<string> :=
    {"cwd", "env", "encoding", "shell", "timeout", "maxBuffer", "killSignal", "uid", "gid"}

  /** The entries of the request whose key is a child-process option, in order. */
  function ChildOptions(req: Request): (r: Request)
    ensures forall e :: e in r <==> e in req && e.0 in ExecKeys
    ensures |r| <= |req|
    decreases |req|
  {
    if req == [] then []
    else
      var last := req[|req| - 1];
      var init := ChildOptions(req[..|req| - 1]);
      assert forall e :: e in req <==> e in req[..|req| - 1] || e == last by {
        assert req == req[..|req| - 1] + [last];
      }
      if last.0 in ExecKeys then init + [last] else init
  }

  /** `execOptionBuilder`: copies the child-process keys of the options,
      key by key, into a fresh object. */
  method ExecOptionBuilder(options: Option<Request>) returns (result: Request)
    ensures result == ChildOptions(RequestOf(options))
  {
    var req := RequestOf(options);
    result := [];
    var i := 0;
    while i < |req|
      invariant 0 <= i <= |req|
      invariant result == ChildOptions(req[..i])
    {
      assert req[..i + 1][..i] == req[..i];
      if req[i].0 in ExecKeys {
        result := result + [req[i]];
      }
      i := i + 1;
    }
    assert req[..|req|] == req;
  }

  // ---------------------------------------------------------------------
  // the invocation

  /** `execP4`: the command line `p4 <sub> <args> <files>`, the child-process
      options, and each stdin line written with a trailing newline, after
      which the input is ended; when there is no stdin line nothing is
      written and the input is left open. */
  method ExecP4(sub: string, options: Option<Request>) returns (inv: Invocation)
    ensures inv.command == CommandLine(sub, Lists(options))
    ensures inv.childOptions == ChildOptions(RequestOf(options))
    ensures inv.input == StdinPayload(Lists(options).stdin)
    ensures inv.endsInput <==> |Lists(options).stdin| > 0
  {
    var ob := OptionBuilder(options);
    var childProcessOptions := ExecOptionBuilder(options);
    var cmd := CommandLine(sub, ob);
    var input := "";
    if |ob.stdin| > 0 {
      input := WriteStdin(ob.stdin);
    }
    inv := Invocation(cmd, childProcessOptions, input, |ob.stdin| > 0);
  }

  /** Without an options object the command is `p4 <sub>` followed by two
      spaces, with no input and no child-process options. */
  lemma NoOptions(sub: string)
    ensures CommandLine(sub, Lists(None)) == "p4 " + sub + "  "
    ensures StdinPayload(Lists(None).stdin) == ""
    ensures ChildOptions(RequestOf(None)) == []
  {
    NothingSelected(TypeScript, TsOptions.Table, []);
    EmptyCommandLine(sub);
  }

  // ---------------------------------------------------------------------
  // the TypeScript table under the builder

  /** A unary flag is emitted whatever its value, even `false`. */
  lemma UnaryFlagEmitted(req: Request, name: string, v: JsValue)
    requires name in TsOptions.Table && TsOptions.Table[name].category == Unary
    ensures TsOptions.Table[name].cmd.Some?
    ensures Lists(Some(req + [(name, v)])).args == Lists(Some(req)).args + [Str(TsOptions.Table[name].cmd.value)]
    ensures Lists(Some(req + [(name, v)])).stdin == Lists(Some(req)).stdin
    ensures Lists(Some(req + [(name, v)])).files == Lists(Some(req)).files
  {
    TsOptions.Cases(name);
    UnaryAnyValue(TsOptions.Table, req, (name, v));
  }

  /** `{force: false}` still runs `p4 <sub> -f `. */
  lemma ForceFalse(sub: string)
    ensures CommandLine(sub, Lists(Some([("force", Bool(false))]))) == "p4 " + sub + " -f "
  {
    ForceLists();
    FlagOnlyCommandLine(sub, "-f");
    DashFWord();
    Regroup4("p4 " + sub, " ", "-f", " ");
  }

  lemma ForceLists()
    ensures Lists(Some([("force", Bool(false))])) == Built([], [Str("-f")], [])
  {
    UnaryFlagEmitted([], "force", Bool(false));
    assert [] + [("force", Bool(false))] == [("force", Bool(false))];
    NothingSelected(TypeScript, TsOptions.Table, []);
  }

  lemma DashFWord()
    ensures " " + "-f" + " " == " -f "
  {
  }

  /** A Number-typed flag takes a number and drops the same id written as text. */
  lemma NumberFlags(name: string, n: int, s: string)
    requires name in TsOptions.Table && TsOptions.Table[name].ty == Some(NumberCtor)
    requires n != 0
    ensures TsOptions.Table[name].cmd.Some?
    ensures Lists(Some([(name, Num(n))])) == Built([], [Str(TsOptions.Table[name].cmd.value), Num(n)], [])
    ensures Lists(Some([(name, Str(s))])) == Empty
  {
    TsOptions.Cases(name);
    NothingSelected(TypeScript, TsOptions.Table, []);
    BuildSnoc(TypeScript, TsOptions.Table, [], (name, Num(n)));
    assert [] + [(name, Num(n))] == [(name, Num(n))];
    NothingSelected(TypeScript, TsOptions.Table, [(name, Str(s))]);
  }

  /** `files` paths go to the file list, after the flags on the command line. */
  lemma FilesAfterFlags(sub: string, n: int, paths: seq<string>)
    requires n > 0 && |paths| >= 1
    ensures var b := Lists(Some([("files", Arr(paths)), ("changelist", Num(n))]));
      && b.args == [Str("-c"), Num(n)]
      && b.files == Spread(Arr(paths))
      && Texts(b.files) == paths
  {
    TsOptions.FilesAndChangelistEntries();
    FilesThenNumber(TsOptions.Table, paths, n);
  }

  lemma FilesThenNumber(T: Table, paths: seq<string>, n: int)
    requires "files" in T && T["files"] == Descriptor(None, Some(ArrayCtor), Mixed)
    requires "changelist" in T && T["changelist"] == Descriptor(Some("-c"), Some(NumberCtor), Mixed)
    requires n > 0 && |paths| >= 1
    ensures var b := Build(TypeScript, T, [("files", Arr(paths)), ("changelist", Num(n))]);
      && b.args == [Str("-c"), Num(n)]
      && b.files == Spread(Arr(paths))
      && Texts(b.files) == paths
  {
    var e1, e2 := ("files", Arr(paths)), ("changelist", Num(n));
    NothingSelected(TypeScript, T, []);
    BuildSnoc(TypeScript, T, [], e1);
    assert [] + [e1] == [e1];
    BuildSnoc(TypeScript, T, [e1], e2);
    assert [e1] + [e2] == [e1, e2];
  }

  // ---------------------------------------------------------------------
  // which sub-command each method runs

  /** The sub-command each `NodeP4` method passes to `execP4`. */
  const Dispatch: map<string, string> := map[
    "info" := "info",
    "opened" := "-ztag opened",
    "fstat" := "fstat",
    "add" := "add",
    "delete" := "delete",
    "edit" := "edit",
    "revert" := "revert",
    "sync" := "sync",
    "diff" := "diff",
    "reconcile" := "reconcile",
    "changes" := "reopen",
    "reopen" := "reopen",
    "resolved" := "resolved",
    "shelve" := "shelve",
    "unshelve" := "unshelve",
    "clients" := "clients",
    "client" := "client",
    "resolve" := "resolve",
    "submit" := "submit"
  ]

  lemma DispatchCases(name: string)
    requires name in Dispatch
    ensures
      || (name == "opened" && Dispatch[name] == "-ztag opened")
      || (name == "changes" && Dispatch[name] == "reopen")
      || (name in {"info", "fstat", "add", "delete", "edit", "revert", "sync", "diff", "reconcile",
                   "reopen", "resolved", "shelve", "unshelve", "clients", "client", "resolve", "submit"}
          && Dispatch[name] == name)
  {
  }

  /** Every method runs the sub-command of its own name, except `opened`,
      which asks for tagged output, and `changes`, which runs `reopen`. */
  lemma DispatchSelf()
    ensures forall name :: name in Dispatch && name != "opened" && name != "changes" ==> Dispatch[name] == name
    ensures Dispatch["changes"] == "reopen" && Dispatch["opened"] == "-ztag opened"
  {
    forall name | name in Dispatch && name != "opened" && name != "changes" ensures Dispatch[name] == name {
      DispatchCases(name);
    }
  }

  /** Two methods share a sub-command only in `changes` and `reopen`. */
  lemma DispatchSharedOnlyByChanges()
    ensures forall a, b :: a in Dispatch && b in Dispatch && a != b && Dispatch[a] == Dispatch[b] ==>
      {a, b} == {"changes", "reopen"}
  {
    forall a, b | a in Dispatch && b in Dispatch && a != b && Dispatch[a] == Dispatch[b]
      ensures {a, b} == {"changes", "reopen"}
    {
      DispatchCases(a);
      DispatchCases(b);
    }
  }
}
