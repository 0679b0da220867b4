/** `Changelist` in `ts/index.ts`: the check every changelist operation makes
    first, the options objects `create`, `edit`, `delete`, `view` and
    `submit` hand to `execP4`, and how `create` reads the new number. */
module Changelist {
  import opened Wrappers
  import opened Strings
  import opened JsValues
  import opened Schema
  import opened Builder
  import opened NodeP4
  import opened ChangeNumber
  import TsOptions

  /** The errors these operations end with: the precondition's
      'Missing parameter/argument', and the `TypeError` JavaScript throws on a
      property read of `undefined` or `null`. */
  datatype Error = MissingParameter | TypeError

  /** `precond`: fails unless there is an options object whose `changelist`
      is truthy; `0` and `''` fail too. */
  function Precond(options: Option<Request>): (r: Outcome<Error>)
    ensures r.Fail? ==> r.error == MissingParameter
    ensures r.Pass? <==> options.Some? && Truthy(Get(options.value, "changelist"))
  {
    if options.None? || !Truthy(Get(options.value, "changelist")) then Fail(MissingParameter) else Pass
  }

  /** The description `create` uses when the options carry no truthy one. */
  const DefaultDescription := "<saved by node-perforce>"

  /** `create`'s request: `{_change: 'new', description}`, with the default
      description when the given one is falsy. Reading `options.description`
      without an options object throws. */
  function CreateRequest(options: Option<Request>): (r: Result<Request, Error>)
    ensures r.Err? <==> options.None?
    ensures r.Err? ==> r.error == TypeError
    ensures r.Ok? ==> |r.value| == 2 && r.value[0] == ("_change", Str("new")) && r.value[1].0 == "description"
    ensures r.Ok? ==> Truthy(r.value[1].1)
  {
    if options.None? then Err(TypeError)
    else
      var d := Get(options.value, "description");
      Ok([("_change", Str("new")), ("description", if Truthy(d) then d else Str(DefaultDescription))])
  }

  /** The text after `Description:` on `create`'s second stdin line. */
  function CreateDescription(s: string): string {
    if s != "" then s else DefaultDescription
  }

  lemma BuildTwo(table: Table, e1: Entry, e2: Entry)
    ensures Build(TypeScript, table, [e1, e2]) ==
      Step(TypeScript, table, Step(TypeScript, table, Empty, e1), e2)
  {
    NothingSelected(TypeScript, table, []);
    BuildSnoc(TypeScript, table, [], e1);
    assert [] + [e1] == [e1];
    BuildSnoc(TypeScript, table, [e1], e2);
    assert [e1] + [e2] == [e1, e2];
  }

  /** The builder's lists for `{_change: c, description: d}`: the `Change:`
      line, then a `Description:` line when `d` is a non-empty string, and `-i`. */
  lemma FormLists(c: string, d: JsValue)
    requires c != ""
    ensures Build(TypeScript, TsOptions.Table, [("_change", Str(c)), ("description", d)]) ==
      Built(["Change:" + c] + (if d.Str? && d.s != "" then ["Description:" + d.s] else []), [DashI], [])
  {
    TsOptions.ChangelistEntries();
    FormListsIn(TsOptions.Table, c, d);
  }

  lemma FormListsIn(T: Table, c: string, d: JsValue)
    requires "_change" in T && T["_change"] == Descriptor(Some("Change:"), Some(StringCtor), Stdin)
    requires "description" in T && T["description"] == Descriptor(Some("Description:"), Some(StringCtor), Stdin)
    requires c != ""
    ensures Build(TypeScript, T, [("_change", Str(c)), ("description", d)]) ==
      Built(["Change:" + c] + (if d.Str? && d.s != "" then ["Description:" + d.s] else []), [DashI], [])
  {
    var e1, e2 := ("_change", Str(c)), ("description", d);
    BuildTwo(T, e1, e2);
    var b1 := Step(TypeScript, T, Empty, e1);
    StepStdin(TypeScript, T, Empty, e1);
    assert b1 == Built(["Change:" + c], [DashI], []);
    if d.Str? && d.s != "" {
      StepStdin(TypeScript, T, b1, e2);
    } else {
      assert !Selected(TypeScript, T, e2);
    }
  }

  lemma PayloadTwo(a: string, b: string)
    ensures StdinPayload([a, b]) == a + "\n" + b + "\n"
  {
    assert [a, b][..1] == [a];
    assert [a][..0] == [];
    assert StdinPayload([a]) == "" + a + "\n";
    assert StdinPayload([a, b]) == StdinPayload([a]) + b + "\n";
  }

  /** The invocation for a two-line form: `p4 change -i ` and the two lines. */
  lemma FormInvocation(c: string, text: string)
    ensures CommandLine("change", Built(["Change:" + c, "Description:" + text], [DashI], [])) == "p4 change -i "
    ensures StdinPayload(["Change:" + c, "Description:" + text]) == "Change:" + c + "\n" + ("Description:" + text) + "\n"
  {
    assert Texts([DashI]) == ["-i"];
    assert Texts([]) == [];
    JoinFour("p4", "change", "-i", "", " ");
    PayloadTwo("Change:" + c, "Description:" + text);
  }

  /** With a text description (or none), `create` runs `p4 change -i` and
      feeds it the new-change form: `Change:new`, then `Description:` with
      the description or the default. */
  lemma CreateWithText(req: Request, s: string)
    requires Get(req, "description") == Str(s) || Get(req, "description") == Undefined
    ensures var b := Lists(Some(CreateRequest(Some(req)).value));
      var text := if Get(req, "description") == Str(s) then CreateDescription(s) else DefaultDescription;
      && b == Built(["Change:" + "new", "Description:" + text], [DashI], [])
      && CommandLine("change", b) == "p4 change -i "
      && StdinPayload(b.stdin) == "Change:" + "new" + "\n" + ("Description:" + text) + "\n"
  {
    var text := if Get(req, "description") == Str(s) then CreateDescription(s) else DefaultDescription;
    CreateTextRequest(req, s, text);
    TextForm("new", text);
    FormInvocation("new", text);
  }

  lemma CreateTextRequest(req: Request, s: string, text: string)
    requires Get(req, "description") == Str(s) || Get(req, "description") == Undefined
    requires text == if Get(req, "description") == Str(s) then CreateDescription(s) else DefaultDescription
    ensures text != ""
    ensures CreateRequest(Some(req)).value == [("_change", Str("new")), ("description", Str(text))]
  {
  }

  /** The lists of a change form with a non-empty text description. */
  lemma TextForm(c: string, text: string)
    requires c != "" && text != ""
    ensures Lists(Some([("_change", Str(c)), ("description", Str(text))])) ==
      Built(["Change:" + c, "Description:" + text], [DashI], [])
  {
    TsOptions.ChangelistEntries();
    FormListsIn(TsOptions.Table, c, Str(text));
    assert ["Change:" + c] + ["Description:" + text] == ["Change:" + c, "Description:" + text];
  }

  /** The lists of a change form whose description is not a non-empty string. */
  lemma NoTextForm(c: string, d: JsValue)
    requires c != "" && !(d.Str? && d.s != "")
    ensures Lists(Some([("_change", Str(c)), ("description", d)])) == Built(["Change:" + c], [DashI], [])
  {
    TsOptions.ChangelistEntries();
    FormListsIn(TsOptions.Table, c, d);
    assert ["Change:" + c] + [] == ["Change:" + c];
  }

  /** A truthy description that is not a string fails the type test: the
      form goes out with no `Description:` line. */
  lemma CreateWithNonText(req: Request)
    requires Truthy(Get(req, "description")) && !Get(req, "description").Str?
    ensures Lists(Some(CreateRequest(Some(req)).value)) == Built(["Change:" + "new"], [DashI], [])
  {
    var d := Get(req, "description");
    assert CreateRequest(Some(req)).value == [("_change", Str("new")), ("description", d)];
    NoTextForm("new", d);
  }

  /** How `create` reads `p4 change`'s reply: `parseInt` of the first digit
      run. With no digit at all, `stdout.match` gives `null` and reading its
      `length` throws a `TypeError`; the 'Unknown error' branch is never taken. */
  function CreateResult(stdout: string): (r: Result<nat, Error>)
    ensures r.Err? <==> NoDigit(stdout)
    ensures r.Err? ==> r.error == TypeError
  {
    match FirstDigitRun(stdout)
    case None => Err(TypeError)
    case Some(run) => Ok(DigitsValue(run))
  }

  /** `create` returns the number `p4` printed: for `Change 42 created.`, 42. */
  lemma CreateReadsNumber(pre: string, n: nat, post: string)
    requires NoDigit(pre)
    requires post == [] || !IsDigit(post[0])
    ensures CreateResult(pre + NatToString(n) + post) == Ok(n)
  {
    FindsNumber(pre, n, post);
    DigitsValueOfNatToString(n);
  }

  /** `edit`'s request after the precondition: `{_change: String(changelist), description}`. */
  function EditRequest(options: Option<Request>): (r: Result<Request, Error>)
    ensures r.Err? <==> Precond(options).Fail?
    ensures r.Err? ==> r.error == MissingParameter
    ensures r.Ok? ==> r.value == [("_change", Str(ToJsString(Get(options.value, "changelist")))),
                                  ("description", Get(options.value, "description"))]
  {
    if Precond(options).Fail? then Err(MissingParameter)
    else Ok([("_change", Str(ToJsString(Get(options.value, "changelist")))), ("description", Get(options.value, "description"))])
  }

  /** `edit` of change `n` with a new description feeds `p4 change -i` the
      change number and the description; with no description, only the number. */
  lemma EditForm(req: Request, n: nat, s: string)
    requires Get(req, "changelist") == Num(n) && n > 0
    requires Get(req, "description") == Str(s) || Get(req, "description") == Undefined
    ensures var b := Lists(Some(EditRequest(Some(req)).value));
      && b.args == [DashI] && b.files == []
      && b.stdin == ["Change:" + NatToString(n)] + (if Get(req, "description") == Str(s) && s != "" then ["Description:" + s] else [])
  {
    var r := EditRequest(Some(req)).value;
    FormLists(NatToString(n), Get(req, "description"));
  }

  /** The request `delete` and `view` build after the precondition:
      `{<key>: changelist}`, where `delete` uses the key `_delete` and `view`
      the key `_output`. */
  function NumberRequest(options: Option<Request>, key: string): (r: Result<Request, Error>)
    ensures r.Err? <==> Precond(options).Fail?
    ensures r.Ok? ==> r.value == [(key, Get(options.value, "changelist"))]
  {
    if Precond(options).Fail? then Err(MissingParameter) else Ok([(key, Get(options.value, "changelist"))])
  }

  /** `submit` passes the options on unchanged once the precondition holds. */
  function SubmitRequest(options: Option<Request>): (r: Result<Request, Error>)
    ensures r.Err? <==> Precond(options).Fail?
    ensures r.Ok? ==> r.value == options.value
  {
    if Precond(options).Fail? then Err(MissingParameter) else Ok(options.value)
  }

  lemma JoinTwo(a: string, b: string)
    ensures Join([a, b], " ") == a + " " + b
  {
    JoinCons(a, [b], " ");
    assert [a] + [b] == [a, b];
  }

  lemma BuildOne(table: Table, e: Entry)
    ensures Build(TypeScript, table, [e]) == Step(TypeScript, table, Empty, e)
  {
    NothingSelected(TypeScript, table, []);
    BuildSnoc(TypeScript, table, [], e);
    assert [] + [e] == [e];
  }

  /** `p4 change <flag> <n> ` for a Number-typed 'mixed' entry given the number `n`. */
  lemma NumberFlagCommand(T: Table, name: string, flag: string, n: nat)
    requires name in T && T[name] == Descriptor(Some(flag), Some(NumberCtor), Mixed)
    requires flag != "" && n > 0
    ensures CommandLine("change", Build(TypeScript, T, [(name, Num(n))])) ==
      "p4 change " + flag + " " + NatToString(n) + " "
  {
    NumberFlagLists(T, name, flag, n);
    FlagAndNumber(flag, n);
  }

  lemma NumberFlagLists(T: Table, name: string, flag: string, n: nat)
    requires name in T && T[name] == Descriptor(Some(flag), Some(NumberCtor), Mixed)
    requires flag != "" && n > 0
    ensures Build(TypeScript, T, [(name, Num(n))]) == Built([], [Str(flag), Num(n)], [])
  {
    var e := (name, Num(n));
    BuildOne(T, e);
    StepMixed(TypeScript, T, Empty, e);
  }

  lemma FlagAndNumber(flag: string, n: nat)
    ensures CommandLine("change", Built([], [Str(flag), Num(n)], [])) ==
      "p4 change " + flag + " " + NatToString(n) + " "
  {
    var b := Built([], [Str(flag), Num(n)], []);
    assert Texts(b.args) == [flag, NatToString(n)];
    assert Texts(b.files) == [];
    JoinTwo(flag, NatToString(n));
    JoinFour("p4", "change", flag + " " + NatToString(n), "", " ");
  }

  /** A text id fails a Number test: the request builds nothing. */
  lemma TextIdBuildsNothing(T: Table, name: string, s: string)
    requires name in T && T[name].ty == Some(NumberCtor) && T[name].category == Mixed
    ensures Build(TypeScript, T, [(name, Str(s))]) == Empty
  {
    NothingSelected(TypeScript, T, [(name, Str(s))]);
  }

  /** `delete` of change `n` runs `p4 change -d <n> `. */
  lemma DeleteCommand(req: Request, n: nat)
    requires Get(req, "changelist") == Num(n) && n > 0
    ensures CommandLine("change", Lists(Some(NumberRequest(Some(req), "_delete").value))) == "p4 change " + "-d" + " " + NatToString(n) + " "
  {
    TsOptions.ChangelistEntries();
    NumberFlagCommand(TsOptions.Table, "_delete", "-d", n);
  }

  /** `view` of change `n` runs `p4 change -o <n> `. */
  lemma ViewCommand(req: Request, n: nat)
    requires Get(req, "changelist") == Num(n) && n > 0
    ensures CommandLine("change", Lists(Some(NumberRequest(Some(req), "_output").value))) == "p4 change " + "-o" + " " + NatToString(n) + " "
  {
    TsOptions.ChangelistEntries();
    NumberFlagCommand(TsOptions.Table, "_output", "-o", n);
  }

  /** The same id written as text passes the precondition but fails the
      Number test, so neither `-d` nor `-o` nor the id is sent. */
  lemma TextIdDropped(req: Request, s: string)
    requires Get(req, "changelist") == Str(s) && s != ""
    ensures Precond(Some(req)).Pass?
    ensures Lists(Some(NumberRequest(Some(req), "_delete").value)) == Empty
    ensures Lists(Some(NumberRequest(Some(req), "_output").value)) == Empty
  {
    TsOptions.ChangelistEntries();
    TextIdBuildsNothing(TsOptions.Table, "_delete", s);
    TextIdBuildsNothing(TsOptions.Table, "_output", s);
  }
}
