/** The shape of an option table: what each logical option name contributes
    to a `p4` command. */
module Schema {
  import opened Wrappers
  import opened JsValues

  /** Where an accepted option lands: a line on standard input (`'stdin'`),
      a flag alone (`'unary'`), or a flag followed by its value (`'mixed'`). */
  datatype Category = Stdin | Unary | Mixed

  /** One table entry: its `cmd` text (absent for `files`), the constructor its
      value must have (`type`, absent for unary flags) and its `category`. */
  datatype Descriptor = Descriptor(cmd: Option<string>, ty: Option<Ctor>, category: Category)

  type Table = map<string, Descriptor>

  /** Every checked entry names a type a value can have: String, Number or Array. */
  predicate WellTyped(t: Table) {
    forall name :: name in t && t[name].category != Unary ==>
      t[name].ty == Some(StringCtor) || t[name].ty == Some(NumberCtor) || t[name].ty == Some(ArrayCtor)
  }

  /** The names of the entries with a given category. */
  function NamesIn(t: Table, c: Category): set<string> {
    set name | name in t && t[name].category == c
  }

  /** The names of the entries whose value must have a given constructor. */
  function NamesTyped(t: Table, ty: Ctor): set<string> {
    set name | name in t && t[name].ty == Some(ty)
  }

  /** The names of the entries whose `cmd` is a given text. */
  function NamesWithCmd(t: Table, cmd: string): set<string> {
    set name | name in t && t[name].cmd == Some(cmd)
  }
}
