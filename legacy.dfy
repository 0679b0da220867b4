/** The older JavaScript wrapper (`index.js`) with its 15-entry table: the
    builder that checks every entry's type, the invocation it assembles, how
    `change` reads the new number, and the commands it installs. */
module LegacyP4 {
  import opened Wrappers
  import opened Strings
  import opened JsValues
  import opened Schema
  import opened Builder
  import opened ChangeNumber
  import JsOptions

  type Request = seq<Entry>

  /** `optionBuilder`'s result: the empty string when there is no options
      object, otherwise the three lists. */
  datatype BuilderResult = EmptyString | Lists(built: Built)

  /** `optionBuilder`: the empty string for an absent options object; otherwise
      the shared builder against the 15-entry table, every entry type-checked. */
  method OptionBuilder(options: Option<Request>) returns (r: BuilderResult)
    ensures options.None? ==> r == EmptyString
    ensures options.Some? ==> r == Lists(Build(Legacy, JsOptions.Table, options.value))
  {
    if options.None? {
      return EmptyString;
    }
    var built := BuildLists(Legacy, JsOptions.Table, options.value);
    r := Lists(built);
  }

  /** Reading `.args.join` of the empty string throws a `TypeError`. */
  datatype Error = TypeError

  /** The command line and the text written to the child's standard input,
      and whether that input is then ended. */
  datatype Invocation = Invocation(command: string, input: string, endsInput: bool)

  /** `execP4`: with no options object, `ob.args` is `undefined` and the call
      throws before any process starts; otherwise the command line
      `p4 <sub> <args> <files>` and each stdin line followed by a newline. */
  method ExecP4(sub: string, options: Option<Request>) returns (r: Result<Invocation, Error>)
    ensures r.Err? <==> options.None?
    ensures r.Ok? ==>
      var b := Build(Legacy, JsOptions.Table, options.value);
      && r.value.command == CommandLine(sub, b)
      && r.value.input == StdinPayload(b.stdin)
      && (r.value.endsInput <==> |b.stdin| > 0)
  {
    var ob := OptionBuilder(options);
    if ob.EmptyString? {
      return Err(TypeError);
    }
    var cmd := CommandLine(sub, ob.built);
    var input := "";
    if |ob.built.stdin| > 0 {
      input := WriteStdin(ob.built.stdin);
    }
    r := Ok(Invocation(cmd, input, |ob.built.stdin| > 0));
  }

  // ---------------------------------------------------------------------
  // the older table under the builder

  /** Every unary entry lacks a type, so the constructor test always fails:
      wherever a unary option stands in the request, it changes nothing. */
  lemma UnaryNeverEmitted(a: Request, name: string, v: JsValue, b: Request)
    requires name in JsOptions.Table && JsOptions.Table[name].category == Unary
    ensures Build(Legacy, JsOptions.Table, a + [(name, v)] + b) == Build(Legacy, JsOptions.Table, a + b)
  {
    JsOptions.Cases(name);
    UntypedNeverUsed(JsOptions.Table, a, (name, v), b);
  }

  /** `{force: true}` builds nothing: the command is `p4 <sub>` and two spaces. */
  lemma ForceIgnored(sub: string)
    ensures CommandLine(sub, Build(Legacy, JsOptions.Table, [("force", Bool(true))])) == "p4 " + sub + "  "
  {
    JsOptions.Cases("force");
    NothingSelected(Legacy, JsOptions.Table, [("force", Bool(true))]);
    EmptyCommandLine(sub);
  }

  /** An entry with a falsy value (`''`, `0`, `false`, `null`) is dropped,
      since no entry of this table has type `Object`. */
  lemma FalsyNeverUsed(a: Request, name: string, v: JsValue, b: Request)
    requires name in JsOptions.Table && !Truthy(v)
    ensures Build(Legacy, JsOptions.Table, a + [(name, v)] + b) == Build(Legacy, JsOptions.Table, a + b)
  {
    JsOptions.Cases(name);
    Ignored(Legacy, JsOptions.Table, a, (name, v), b);
  }

  // ---------------------------------------------------------------------
  // the reply to `change`

  /** `change`'s result: the first digit run of the reply as text, or
      `undefined` (here `None`) when the reply has no digit. */
  function ChangeResult(stdout: string): (r: Option<string>)
    ensures r.None? <==> NoDigit(stdout)
    ensures r.Some? ==> |r.value| >= 1 && AllDigits(r.value)
  {
    FirstDigitRun(stdout)
  }

  /** The number in `Change 42 created.` comes back as the text `42`. */
  lemma ChangeReadsNumber(pre: string, n: nat, post: string)
    requires NoDigit(pre)
    requires post == [] || !IsDigit(post[0])
    ensures ChangeResult(pre + NatToString(n) + post) == Some(NatToString(n))
    ensures DigitsValue(ChangeResult(pre + NatToString(n) + post).value) == n
  {
    FindsNumber(pre, n, post);
    DigitsValueOfNatToString(n);
  }

  // ---------------------------------------------------------------------
  // the installed commands

  /** The commands installed on the prototype besides `change`. */
  const CommonCommands: seq<string> := ["add", "edit", "revert"]

  /** The sub-command a `NodeP4` method runs, if the method exists. */
  function SubCommand(name: string): (r: Option<string>)
    ensures r.Some? <==> name == "change" || name in CommonCommands
    ensures r.Some? ==> r.value == name
  {
    if name == "change" || name in CommonCommands then Some(name) else None
  }

  /** Exactly `add`, `edit` and `revert` pass through, besides `change`;
      `delete`, `sync` and the rest of the newer wrapper's commands do not exist here. */
  lemma InstalledCommands()
    ensures forall m :: SubCommand(m).Some? <==> m in {"change", "add", "edit", "revert"}
  {
  }
}
