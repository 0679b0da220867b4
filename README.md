# node-perforce translation layer in Dafny

node-perforce is a Node.js wrapper around the Perforce command-line client
`p4`. Its core translates in two directions:

- **options object → command.** `optionBuilder` walks the keys of an options
  object against an option table. It fills three lists: `stdin` (lines of a
  form fed to `p4 … -i`), `args` (flags and their values) and `files`
  (positional paths). `execP4` joins them into one command line and one
  standard-input payload.
- **`p4` output → records.** The wrapper reads the reply into records:
  - `processZtagOutput` parses `... key value` lines;
  - `opened` splits tagged output into per-file blocks;
  - `info` reads `Key: value` lines into camel-cased keys;
  - `Changelist.view` reads a change form into fields and `{file, action}` pairs;
  - `clients` reads workspace lines by token position;
  - `create` (TypeScript) and `change` (JavaScript) extract the new change number.

There are two variants, modelled side by side on one shared builder:

- the TypeScript wrapper `ts/index.ts` with its 23-entry table
  `ts/p4options.ts`, where unary flags skip the type test;
- the older `index.js` with its 15-entry table `p4options.js`, which
  type-checks every entry. Its unary flags therefore never reach the command line.

Modules:

| module | file | what it holds |
|---|---|---|
| `Wrappers` | wrappers.dfy | `Option`, `Result`, `Outcome` |
| `Strings` | strings.dfy | `split`/`join` on a separator, `trim`, ASCII `toLowerCase`, string.js `camelize`, `between(':')`, line terminators |
| `JsValues` | js_values.dfy | JavaScript values, truthiness, `(v \|\| {}).constructor`, `String(v)`, `Array.join` text, decimal digits |
| `Schema` | schema.dfy | option descriptors (`cmd`, `type`, `category`) and queries over a table |
| `TsOptions`, `JsOptions` | ts_options.dfy, js_options.dfy | the two option tables and their properties |
| `Builder` | builder.dfy | the option builder shared by both variants, as a specification (`Build`) and as the loop that fills the lists (`BuildLists`); command line and stdin payload |
| `NodeP4` | node_p4.dfy | the TypeScript `optionBuilder`, `execOptionBuilder`, `execP4` and method → sub-command table |
| `LegacyP4` | legacy.dfy | the JavaScript `optionBuilder`, `execP4`, `change` and installed commands |
| `Changelist` | changelist.dfy | `precond` and the requests `create`/`edit`/`delete`/`view`/`submit` build; `create`'s number |
| `ChangeNumber` | change_number.dfy | the first run of decimal digits (`/([0-9]+)/g`, first match) |
| `Records` | records.dfy | the "later key wins" fold that `reduce`/`forEach` into an object perform |
| `Ztag` | ztag.dfy | the `... key value` scanner, `processZtagOutput`, `opened`'s block split |
| `Info` | info.dfy | `info`'s reading of the reply |
| `ChangeView` | change_view.dfy | `Changelist.view`'s two regular-expression passes, block split and file list |
| `Clients` | clients.dfy | `clients`' reading of the reply |

A request is a sequence of `(name, value)` pairs in key order, because key
order decides where flags and `-i` land. Values are `Str`, `Num` (an
integer), `Arr` (of strings), `Bool`, `Null` and `Undefined`.

## Model

| member | source | states |
|---|---|---|
| Builder.BuildLists | ts/index.ts:19-35 | the key loop (shared by both variants) yields exactly the three lists the specification `Build` describes |
| Builder.Build | ts/index.ts:16-37 | the lists `optionBuilder` returns, shared by both variants (index.js:6-26 type-tests every entry): stdin lines, flag tokens with `-i` at the first stdin entry, and paths; `BuildLists` proves the key loop computes it, `BuildSnoc` runs it one key at a time, and `Ignored`, `NothingSelected` and `DashIOnce` state its properties |
| Builder.Step | ts/index.ts:21-34 | the loop body for one key; its cases are stated by `AddEntry`, `StepStdin`, `StepMixed` and `Spread` |
| Builder.AddEntry | ts/index.ts:21-34 | one key's work on the three lists is one `Step`: dropped when unknown or of the wrong type; a stdin line plus `-i` once; a flag plus value for 'mixed'; paths concatenated otherwise |
| Builder.BuildSnoc | ts/index.ts:20-35 | the order-independent description of the lists (stdin lines, flag tokens with `-i` at the first stdin entry, paths) agrees with running the loop body on one more key |
| Builder.StepStdin | ts/index.ts:26-28 | an accepted stdin entry appends `cmd + value` to `stdin` and `-i` to `args` unless `args` holds it already |
| Builder.StepMixed | ts/index.ts:29-31 | an accepted 'mixed' entry with a `cmd` appends the flag and then its value |
| Builder.Spread | ts/index.ts:33 | `files.concat(v)` appends the elements of an array, or the value itself |
| Builder.DashIOnce | ts/index.ts:26-28 | with no `-i` among the flag tokens, `-i` occurs in `args` exactly once if some stdin entry is accepted and never otherwise |
| Builder.DashIOnceWithStdin | ts/index.ts:26-28 | with an accepted stdin entry and no `-i` among the flag tokens, `-i` occurs exactly once |
| Builder.CountDashI | ts/index.ts:28 | the flag list with `-i` inserted between two `-i`-free halves holds `-i` once |
| Builder.Ignored | ts/index.ts:21-25 | an entry the table or the type test rejects can be removed from anywhere in the request without changing any of the three lists |
| Builder.NothingSelected | ts/index.ts:17-19 | a request none of whose entries is accepted gives three empty lists |
| Builder.FalsyDropped | ts/index.ts:24 | a falsy value (`''`, `0`, `false`, `null`, `undefined`) reads as a plain object and fails a String/Number/Array/Boolean type test |
| Builder.UnaryAnyValue | ts/index.ts:23-31 | in the TypeScript variant a unary entry appends its flag whatever its value, and touches neither `stdin` nor `files` |
| Builder.UntypedNeverUsed | index.js:13 | in the JavaScript variant an entry without a type never contributes |
| Builder.FlagTokensAppend | ts/index.ts:29-31 | the flag tokens of a concatenated request are the flag tokens of its halves, in order |
| Builder.FirstStdinSnoc | ts/index.ts:26-28 | the first accepted stdin entry of a longer request is the old one, or the new key if it is the first |
| Builder.ArgsSnoc | ts/index.ts:26-31 | the `args` description after one more key equals the loop body's `args` |
| Builder.FlagTokensAround | ts/index.ts:26-31 | a key contributing no flag token splits the flag tokens into those before it and those after |
| Builder.WithInput | ts/index.ts:28 | once a stdin entry is accepted, `-i` is among the flags |
| Builder.WithInputShape | ts/index.ts:26-31 | the flags before the first stdin entry come first and the flags after it last, with exactly one `-i` between them when the earlier flags do not already hold one |
| Builder.FirstStdin | ts/index.ts:26 | the position of the first accepted stdin entry: none before it, and it is one |
| Builder.StdinPayload | ts/index.ts:88-92 | the text written to the child's standard input (also index.js:36-41); `WriteStdin` proves the write loop produces it and `PayloadLines` reads the lines back |
| Builder.WriteStdin | ts/index.ts:88-92 | the text written to standard input is every stdin line followed by `"\n"`, in order, and nothing when there are none |
| Builder.PayloadLines | ts/index.ts:88-92 | the payload of lines free of `"\n"` splits back at `"\n"` into the lines and an empty last piece |
| Builder.CommandLine | ts/index.ts:82-83 | `['p4', sub, args.join(' '), files.join(' ')].join(' ')` (also index.js:30-31); `CommandLineWords` splits it back into its words, and `EmptyCommandLine` and `FlagOnlyCommandLine` state its trailing spaces |
| Builder.CommandLineWords | ts/index.ts:82-83 | the command line `p4 <sub> <args> <files>` splits at spaces back into `p4`, the sub-command, the flag texts and the paths (an empty list leaves one empty word) |
| Builder.SplitJoinFour | ts/index.ts:82-83 | four texts joined by single spaces split back into their own pieces |
| Builder.EmptyCommandLine | ts/index.ts:82-83 | with three empty lists the command line is `p4 <sub>` followed by two spaces |
| Builder.FlagOnlyCommandLine | ts/index.ts:82-83 | one flag and no paths give `p4 <sub> <flag> ` with the trailing space |
| Builder.Texts | ts/index.ts:82 | `Array.join` writes each element by `String(v)`, `null` and `undefined` as nothing |
| NodeP4.OptionBuilder | ts/index.ts:16-37 | the TypeScript builder's lists are `Build` over the 23-entry table; an absent options object gives three empty lists |
| NodeP4.Lists | ts/index.ts:80 | the lists `execP4` builds from its options under the 23-entry table; `OptionBuilder` states them and `ForceFalse`, `NumberFlags` and `FilesAfterFlags` apply them |
| NodeP4.ExecOptionBuilder | ts/index.ts:42-63 | the child-process options are exactly the entries whose key is one of `cwd`, `env`, `encoding`, `shell`, `timeout`, `maxBuffer`, `killSignal`, `uid`, `gid` |
| NodeP4.ChildOptions | ts/index.ts:57-62 | an entry is kept if and only if its key is a child-process option; nothing is added |
| NodeP4.Get | ts/index.ts:21-24 | `options[name]` is `undefined` when no key has that name, and otherwise a value stored under it |
| NodeP4.ExecP4 | ts/index.ts:80-93 | the invocation's command line, child options and stdin payload are those of the built lists; input is ended exactly when there is a stdin line |
| NodeP4.NoOptions | ts/index.ts:16-37 | no options object runs `p4 <sub>` with two trailing spaces, no input and no child options |
| NodeP4.UnaryFlagEmitted | ts/index.ts:23-31 | any value of a unary entry of the 23-entry table appends its flag, even `false` |
| NodeP4.ForceFalse | ts/index.ts:23-31 | `{force: false}` runs `p4 <sub> -f ` |
| NodeP4.NumberFlags | ts/index.ts:24-31 | a Number-typed flag with a non-zero number gives the flag and the number; the same id as text gives nothing |
| NodeP4.FilesAfterFlags | ts/index.ts:29-34 | `{files, changelist}` puts `-c <n>` in `args` and the paths, in order, in `files` |
| NodeP4.DispatchSelf | ts/index.ts:270-312 | every method runs the sub-command of its own name except `opened` (`-ztag opened`) and `changes` (`reopen`) |
| NodeP4.DispatchSharedOnlyByChanges | ts/index.ts:298-303 | two methods run the same sub-command only for `changes` and `reopen` |
| LegacyP4.OptionBuilder | index.js:6-26 | the JavaScript builder returns the empty string for an absent options object, otherwise `Build` over the 15-entry table with every entry type-checked |
| LegacyP4.ExecP4 | index.js:28-42 | with no options object the call fails with a `TypeError`; otherwise the command line and payload are those of the built lists |
| LegacyP4.UnaryNeverEmitted | index.js:13 | a unary entry can be removed from any request without changing the lists: `-am`, `-d`, `-f`, `-s`, `-a` are never emitted |
| LegacyP4.ForceIgnored | index.js:13-30 | `{force: true}` runs `p4 <sub>` with two trailing spaces |
| LegacyP4.FalsyNeverUsed | index.js:13 | an entry with a falsy value can be removed from any request without changing the lists |
| LegacyP4.ChangeResult | index.js:49-50 | `change` yields nothing exactly when the output has no digit, otherwise a non-empty run of digits |
| LegacyP4.ChangeReadsNumber | index.js:49-50 | the output `…<n>…` with no digit before `n` yields the text of `n`, whose value is `n` |
| LegacyP4.SubCommand | index.js:46-59 | only `change`, `add`, `edit` and `revert` exist, each running the sub-command of its own name |
| LegacyP4.InstalledCommands | index.js:54-59 | the installed methods are exactly `change`, `add`, `edit`, `revert` |
| ChangeNumber.FirstDigit | ts/index.ts:139 | the position of the first decimal digit: none before it |
| ChangeNumber.FirstDigitRun | ts/index.ts:139-141 | the first match of `[0-9]+` is absent exactly when there is no digit; otherwise it is the maximal digit run at the first digit |
| ChangeNumber.FindsNumber | ts/index.ts:139-141 | after digit-free text, the decimal text of `n` followed by a non-digit is the first match |
| Changelist.Precond | ts/index.ts:146-151 | fails with the missing-parameter error exactly when the options or their `changelist` are falsy, `0` included |
| Changelist.CreateRequest | ts/index.ts:130-137 | with an options object the request is `_change: 'new'` and a truthy `description`; without one, reading `options.description` is a `TypeError` |
| Changelist.CreateWithText | ts/index.ts:135-137 | `create` runs `p4 change -i ` and writes `Change:new` and `Description:<text>`, each followed by `"\n"`, the text being the given description or `<saved by node-perforce>` |
| Changelist.CreateWithNonText | ts/index.ts:135-137 | a truthy non-string description fails the String test: only `Change:new` is written |
| Changelist.CreateResult | ts/index.ts:139-141 | output with no digit is a `TypeError` (`null.length`), never the `Unknown error` of line 140 |
| Changelist.CreateReadsNumber | ts/index.ts:139-141 | output `…<n>…` with no digit before `n` gives the integer `n` |
| Changelist.EditRequest | ts/index.ts:154-159 | fails exactly when `precond` does; otherwise `_change` is `String(changelist)` and `description` is passed as given |
| Changelist.EditForm | ts/index.ts:154-159 | editing change `n` writes `Change:<n>`, plus `Description:<s>` when a non-empty text is given, under `-i` |
| Changelist.NumberRequest | ts/index.ts:164-173 | fails exactly when `precond` does; otherwise the request is the single entry `<key>: changelist`, with `_delete` for `delete` and `_output` for `view` |
| Changelist.DeleteCommand | ts/index.ts:166 | deleting change `n` runs `p4 change -d <n> ` |
| Changelist.ViewCommand | ts/index.ts:173 | viewing change `n` runs `p4 change -o <n> ` |
| Changelist.TextIdDropped | ts/index.ts:166-173 | a changelist id given as text passes `precond` but builds nothing for `delete` or `view` |
| Changelist.SubmitRequest | ts/index.ts:202-204 | fails exactly when `precond` does; otherwise the options are passed on unchanged |
| Changelist.FormLists | ts/index.ts:26-28 | a change form request writes `Change:<c>`, then `Description:<s>` only for a non-empty string, and `-i` once |
| Changelist.FormInvocation | ts/index.ts:82-92 | a two-line form runs `p4 change -i ` and writes both lines, each followed by `"\n"` |
| Changelist.NumberFlagCommand | ts/index.ts:29-31 | a Number-typed mixed entry with a positive number runs `p4 change <flag> <n> ` |
| Changelist.TextIdBuildsNothing | ts/index.ts:24 | a Number-typed entry given text builds nothing |
| Records.LastWins | ts/index.ts:214-223 | of several kept items with one key, the last sets the key's value |
| Records.KeysFromItems | ts/index.ts:214-223 | every key of the record comes from some kept item |
| Records.Skips | ts/index.ts:217 | an item that is not kept can be removed without changing the record |
| Ztag.ZtagMatch | ts/index.ts:12 | a match starts with `...`, has a non-empty word-character key and a non-empty value free of line terminators |
| Ztag.ZtagRoundTrip | ts/index.ts:12 | `...`, white space, a key, white space and a value not starting with white space match as exactly that key and value |
| Ztag.ZtagMatchShape | ts/index.ts:12 | a line that matches is exactly `...`, white space, the key, white space, the value, then the end of the line or a line terminator; a `...` line of any other shape is ignored |
| Ztag.UntaggedLine | ts/index.ts:12 | a line not starting with `...` does not match |
| Ztag.ZtagFold | ts/index.ts:213-223 | the record a list of lines folds into; `ProcessZtagOutput` proves the reduce computes it, and `FoldLastWins`, `FoldKeysFromLines` and `FoldSkipsUntagged` state what it keeps |
| Ztag.ProcessZtagOutput | ts/index.ts:213-224 | the record is the fold of the lines split at `"\n"` in which each matching line sets its key |
| Ztag.FoldLastWins | ts/index.ts:217-220 | the last matching line with a key decides its value |
| Ztag.FoldKeysFromLines | ts/index.ts:217-220 | every key of the record is the key of some matching line |
| Ztag.FoldSkipsUntagged | ts/index.ts:217 | a line that does not match can be removed without changing the record |
| Ztag.FirstSeparator | ts/index.ts:252 | the leftmost `\r\n\r\n` or `\n\n` at or after a position: none before it |
| Ztag.Opened | ts/index.ts:250-254 | one record per block of the trimmed output, each the fold of its lines |
| Ztag.OpenedNothing | ts/index.ts:252-254 | output made only of white space gives one empty record |
| Ztag.Blocks | ts/index.ts:252 | the split at every `\r\n\r\n` or `\n\n` gives at least one block; `BlocksCut`, `OneBlock` and `BlocksOfJoin` state where it cuts |
| Ztag.BlocksCut | ts/index.ts:252 | text with no blank line, then `\n\n`, then more splits into that text and the blocks of the rest |
| Ztag.OneBlock | ts/index.ts:252 | text with no blank line is one block |
| Ztag.BlocksOfJoin | ts/index.ts:252 | blocks without blank lines, joined by `\n\n`, are split back into the same blocks |
| Ztag.OpenedRoundTrip | ts/index.ts:250-254 | trimmed output made of such blocks gives one record per block, in order, each the fold of that block's lines |
| Info.InfoFold | ts/index.ts:234-238 | the record `info` builds from the reply's lines; `ParseInfo` proves the `forEach` computes it, and `InfoLastWins`, `KeysFromLines`, `SkipsEmpty` and `EmptyReply` state what it keeps |
| Info.NormalizeCrlf | ts/index.ts:234 | string.js `lines()` first turns each `\r\n` into `\n` and never lengthens the text; `NormalizeJoin` states it on joined lines |
| Info.Lines | ts/index.ts:234 | string.js `lines()` gives at least one line; `LinesOfCrlf` and `LinesOfLf` read `\r\n`- and `\n`-joined lines back |
| Info.ParseInfo | ts/index.ts:232-239 | the record is the fold of the reply's lines in which each non-empty line sets its key to its value |
| Info.InfoKey | ts/index.ts:236 | the key is free of camelize separators |
| Info.LinesOfCrlf | ts/index.ts:234 | lines joined by `\r\n` are read back as the same lines |
| Info.LinesOfLf | ts/index.ts:234 | lines free of `\r` joined by `\n` are read back as the same lines |
| Info.InfoLastWins | ts/index.ts:234-238 | the last non-empty line with a key decides its value |
| Info.KeysFromLines | ts/index.ts:234-238 | every key comes from some non-empty line |
| Info.SkipsEmpty | ts/index.ts:235 | an empty line can be removed without changing the record |
| Info.EmptyReply | ts/index.ts:234-238 | an empty reply gives an empty record |
| Info.UserName | ts/index.ts:236-237 | `User name: <v>` sets `userName` to `v`, for a trimmed `v` that does not hold the word `undefined` |
| Info.CamelCapitalisedPair | ts/index.ts:236 | a capitalised word, one space and a lower-case word become one word after `toLowerCase` and `camelize`, as `User name` becomes `userName` |
| Info.NormalizeJoin | ts/index.ts:234 | normalising `\r\n` to `\n` turns a `\r\n`-joined text into the `\n`-joined one |
| ChangeView.View | ts/index.ts:171-198 | the result is `ViewOf` of the reply: the fields of the blocks and the file list |
| ChangeView.Blocks | ts/index.ts:181 | both passes, then the split at every blank line, giving at least one block; `FileLine`, `DescriptionBlock` and `FieldBlock` state what single blocks read as |
| ChangeView.Fields | ts/index.ts:182-187 | the record the blocks with a non-empty key build; `ReadBlocks` proves the `forEach` computes it, and `BlockLastWins`, `FieldFromLastBlock` and `NoFilesBlock` state what it keeps |
| ChangeView.ReadBlocks | ts/index.ts:182-187 | the `forEach` over blocks builds the record where each block with a non-empty key sets it, the later block winning |
| ChangeView.ReadFiles | ts/index.ts:189-196 | `files` is `[]` without a `Files` field, the empty text for an empty one, otherwise one pair per line |
| ChangeView.FilesOf | ts/index.ts:189-196 | the three cases of `files`, each stated exactly |
| ChangeView.ViewOf | ts/index.ts:189-197 | the other fields never hold `files` |
| ChangeView.BlockKey | ts/index.ts:183 | a block's key is free of camelize separators |
| Strings.FieldValue | ts/index.ts:237 | the value after the first `:` (in `info`, and identically in `view` at line 185) neither starts nor ends with white space |
| Strings.Between | ts/index.ts:237 | string.js `between(':')` with no right-hand bound gives a prefix of the text after the first `:` that holds no `undefined`: all of it when the word does not occur, otherwise exactly the part before its first occurrence |
| Strings.BetweenStops | ts/index.ts:185 | the text `x` after `:` followed by `undefined` gives `x` |
| Strings.FieldValueCut | ts/index.ts:185 | a field's value is the trimmed text after `:`, or, when that text holds `undefined`, the trimmed part before its first occurrence |
| ChangeView.FileLine | ts/index.ts:176-181 | a file line `\t<path>\t# <action>` ending in `"\n"` becomes `\t<path>@@@<action>` after both passes |
| ChangeView.MarkActions | ts/index.ts:176-178 | the first pass, `replace(/(\t)+#(.)*/g, m => '@@@' + m.substring(3))`; `MarkAction`, `MarkNoTab` and `MarkTabBefore` state what it rewrites and what it keeps |
| ChangeView.MarkAction | ts/index.ts:176-178 | `\t# <action>` at the end of a line becomes `@@@<action>` |
| ChangeView.MarkTabBefore | ts/index.ts:176 | a tab before anything but `#` or a tab is left alone |
| ChangeView.MarkNoTab | ts/index.ts:176 | tab-free text passes the first pass unchanged |
| ChangeView.StripComments | ts/index.ts:181 | the second pass, `replace(/#(.)*\n/g, '')`, which never lengthens the text; `StripNoHash`, `StripLine` and `RevisionDropped` state what it deletes |
| ChangeView.StripNoHash | ts/index.ts:181 | `#`-free text passes the second pass unchanged |
| ChangeView.StripLine | ts/index.ts:181 | `#`, the rest of the line and its `"\n"` are deleted |
| ChangeView.RevisionDropped | ts/index.ts:176-181 | a path with a `#<rev>` loses the revision, the action and the line feed |
| ChangeView.DescriptionBlock | ts/index.ts:183-185 | the block `Description:\n\t<text>` sets `description` to the text, when the text does not hold the word `undefined` |
| ChangeView.DescriptionCut | ts/index.ts:183-185 | a description `<text> undefined<more>` is read back as `<text>` alone |
| ChangeView.FieldBlock | ts/index.ts:183-185 | `<Name>:` with padding around a text free of `undefined` gives the lower-cased name as key and the text as value |
| ChangeView.FilesFromLastBlock | ts/index.ts:182-196 | the last block keyed `files` decides the file list: the empty text when its value is empty, otherwise one pair per line |
| ChangeView.FieldFromLastBlock | ts/index.ts:182-190 | any other key takes the value of its last block |
| ChangeView.NoFilesBlock | ts/index.ts:189-191 | without a `files` block the file list is empty |
| ChangeView.FileEntryOf | ts/index.ts:193-194 | one line of the `files` value as `{file, action}`; `FileEntryWithAction` and `FileEntryWithoutAction` state both cases |
| ChangeView.FileEntryWithAction | ts/index.ts:192-194 | a line `\t<path>@@@<action>` gives the pair `{file: path, action}` |
| ChangeView.FileEntryWithoutAction | ts/index.ts:192-194 | a line `\t<path>` gives the pair with an `undefined` action |
| ChangeView.OnePairPerLine | ts/index.ts:192 | lines joined by `"\n"` give one pair per line |
| Clients.ClientsOf | ts/index.ts:320-331 | every record names a workspace |
| Clients.NamedClients | ts/index.ts:322-331 | no more records than lines, each naming a workspace |
| Clients.ClientOfLine | ts/index.ts:322-330 | tokens 1, 2 and 4 of a line and the rest from token 5; `LineRoundTrip` reads a rendered workspace line back |
| Clients.LineRoundTrip | ts/index.ts:323-329 | the line `Client <name> <date> root <root> <words>` reads back as that name, date, root and the words joined by spaces |
| Clients.ClientsRoundTrip | ts/index.ts:320-331 | the whole reply, one line per workspace ending in `"\n"`, reads back as the workspaces in order |
| Clients.ReplyRoundTrip | ts/index.ts:322-331 | the rendered lines plus the empty last piece read back as the workspaces; the empty piece is filtered out |
| Clients.EmptyReply | ts/index.ts:320-331 | an empty reply gives no record |
| TsOptions.Cases | ts/p4options.ts:3-110 | each of the 23 names has exactly its `cmd`, type and category |
| TsOptions.TableWellTyped | ts/p4options.ts:3-110 | every non-unary entry has a String, Number or Array type |
| TsOptions.UnaryNames | ts/p4options.ts:3-110 | the unary names are `acceptmerged`, `delete`, `force`, `switch`, `unchanged`, `long`, `trunk`, `time`, none with a type |
| TsOptions.StdinNames | ts/p4options.ts:4-18 | the stdin names are `_change`, `description`, `stdin` |
| TsOptions.FilesHasNoCmd | ts/p4options.ts:69-72 | `files` is the only entry without a `cmd`; it is an Array-typed 'mixed' entry |
| TsOptions.SharedDashC | ts/p4options.ts:3-110 | `-c` belongs to `changelist` and `client` |
| TsOptions.SharedDashS | ts/p4options.ts:3-110 | `-s` belongs to `shelved`, `switch` and `status` |
| TsOptions.SharedDashD | ts/p4options.ts:3-110 | `-d` belongs to `delete` and `_delete` |
| TsOptions.SharedDashT | ts/p4options.ts:3-110 | `-t` belongs to `filetype` and `time` |
| TsOptions.NumberEntries | ts/p4options.ts:3-110 | the Number-typed entries are `changelist`, `shelved`, `_delete`, `_output`, `max`, all 'mixed' |
| TsOptions.CustomIsSpace | ts/p4options.ts:105-109 | `custom` is a String 'mixed' entry whose `cmd` is one space, the only such entry |
| JsOptions.Cases | p4options.js:3-73 | each of the 15 names has exactly its `cmd`, type and category |
| JsOptions.SameAsTsEntries | p4options.js:3-73 | every entry equals the same-named entry of the 23-entry table |
| JsOptions.TsAddsEightNames | p4options.js:3-73 | the newer table adds exactly `stdin`, `client`, `long`, `trunk`, `status`, `time`, `user`, `custom` |
| JsOptions.TableWellTyped | p4options.js:3-73 | every non-unary entry has a String, Number or Array type |
| JsOptions.UnaryNames | p4options.js:3-73 | the unary names are `acceptmerged`, `delete`, `force`, `switch`, `unchanged`, none with a type |
| JsOptions.StdinNames | p4options.js:4-13 | the stdin names are `_change` and `description` |
| JsOptions.FilesHasNoCmd | p4options.js:64-67 | `files` is the only entry without a `cmd` |
| JsOptions.SharedDashD | p4options.js:3-73 | `-d` belongs to `delete` and `_delete` |
| JsOptions.SharedDashS | p4options.js:3-73 | `-s` belongs to `shelved` and `switch` |
| JsValues.Truthy | ts/index.ts:24 | JavaScript truthiness, where only `''`, `0`, `false`, `null` and `undefined` are falsy; `ConstructorOf` and `Builder.FalsyDropped` state its use in the type test |
| JsValues.ToJsString | ts/index.ts:27 | `String(v)`, the text `cmd + value` appends; `DigitsValueOfNatToString` reads a number's text back |
| JsValues.JoinText | ts/index.ts:82 | how `join` writes one element; `Builder.Texts` applies it to each list |
| JsValues.ConstructorOf | ts/index.ts:24 | a value reports `Object` exactly when it is falsy; otherwise the constructor of its own kind |
| JsValues.DigitsValueOfNatToString | ts/index.ts:141 | reading the decimal text of `n` back gives `n` |
| Strings.SplitJoin | ts/index.ts:321-323 | pieces free of the separator, joined by it, split back into the same pieces |
| Strings.JoinSplit | ts/index.ts:323-328 | joining the pieces of a split gives the text back |
| Strings.Trim | ts/index.ts:183 | `trim` leaves neither leading nor trailing white space, keeps text that has none, and never lengthens the text; `TrimPadded` states that it removes exactly the padding |
| Strings.TrimPadded | ts/index.ts:185 | `trim` removes white-space padding around a text that neither starts nor ends with white space |
| Strings.Camelize | ts/index.ts:236 | string.js `camelize` leaves no separator in its result and never lengthens the text; `CamelizeTwoWords` and `CamelizeIdempotent` state what it does to words |
| Strings.CamelizeTwoWords | ts/index.ts:236 | two separator-free words around one space become one word, the second's first character upper-cased |
| Strings.CamelizeIdempotent | ts/index.ts:183 | `camelize` applied to its own result changes nothing |

## Left out

- Process I/O: `child_process.exec`, its callback, and the mapping of an error or any stderr text to an `Error` (ts/index.ts:83-87, index.js:31-35). The model stops at the command line, the child options and the text written to standard input.
- Promises, callbacks and Bluebird: `callbackOrPromise`, `_resolve`, `_reject`, and the shuffling when the options argument is a function. `Changelist.delete` does not return the promise of its inner `execP4`; that is asynchronous behaviour, and only the request it builds is modelled.
- `os.EOL` is fixed to `"\n"`; the platform's `"\r\n"` is not modelled for `view`'s blank-line split or `clients`' line split.
- The string.js library is not part of this model. Its `between`, `camelize`, `trim` and `lines` are modelled from their published behaviour. This includes `between(':')` with no right-hand bound searching for the word `undefined` and stopping before it (`Strings.Between`).
- Option values are modelled as `JsValue`: strings, integers, arrays of strings, booleans, `null` and `undefined`. A plain object (such as `env: {...}`), a function and an array holding non-strings (such as `files: [1, 2]`) cannot be written. The builders lose nothing by this: no table entry has the type `Object`, so the type test drops a plain object; a TypeScript unary entry ignores its value; and `execOptionBuilder` passes values on without reading them.
- Case mapping is ASCII only (`A`–`Z`). JavaScript's full Unicode `toLowerCase` is not modelled.
- JavaScript numbers are modelled as unbounded integers. Floating point, `NaN` and the precision of very large change numbers are out of scope. So is `parseInt` beyond a run of decimal digits.
- Object keys are modelled as a sequence of distinct `(name, value)` pairs in insertion order. Integer-like keys that JavaScript moves to the front of `Object.keys`, and keys inherited through `Object.prototype`, are not modelled.
- `NodeP4.ExecOptionBuilder` and `NodeP4.ChildOptions`: the `validKeys[key]` test (ts/index.ts:58) is also truthy for names inherited from `Object.prototype`, such as `constructor`, `toString` and `hasOwnProperty`. The program keeps an entry `{constructor: 1}`, and the model drops it, so their "if and only if" holds only for names that are not `Object.prototype` members.
- `_.assign(result, output)` in `view` is modelled as the other fields plus the `files` value. lodash internals are not modelled.
- The one-line dispatch wrappers (ts/index.ts:270-344) are recorded only as the method → sub-command table `NodeP4.Dispatch`.
- In the change form, a file path carrying a revision (`//depot/a#1 …`) loses everything from `#` through the end of the line, including its line feed (`ChangeView.RevisionDropped`). The record then merges that line with the next one. The model follows the code here, not the intent of a form that keeps the revision.
- `Changelist.CreateResult`: the `Unknown error` branch (ts/index.ts:140) is unreachable. `match` returns `null` when there is no digit and never an empty array, so reading `.length` throws a `TypeError` first. The model returns that `TypeError`.
- `LegacyP4.ExecP4`: with no options object, the JavaScript wrapper reads `.args` of the empty string and throws before any process starts. The model returns a `TypeError` for this case.
