/** The option table of the TypeScript wrapper: 23 entries. */
module TsOptions {
  import opened Wrappers
  import opened JsValues
  import opened Schema

  const Table: Table := map[
    "_change"      := Descriptor(Some("Change:"), Some(StringCtor), Stdin),
    "description"  := Descriptor(Some("Description:"), Some(StringCtor), Stdin),
    "stdin"        := Descriptor(Some(""), Some(StringCtor), Stdin),
    "acceptmerged" := Descriptor(Some("-am"), None, Unary),
    "delete"       := Descriptor(Some("-d"), None, Unary),
    "changelist"   := Descriptor(Some("-c"), Some(NumberCtor), Mixed),
    "shelved"      := Descriptor(Some("-s"), Some(NumberCtor), Mixed),
    "stream"       := Descriptor(Some("-S"), Some(StringCtor), Mixed),
    "filetype"     := Descriptor(Some("-t"), Some(StringCtor), Mixed),
    "_delete"      := Descriptor(Some("-d"), Some(NumberCtor), Mixed),
    "_output"      := Descriptor(Some("-o"), Some(NumberCtor), Mixed),
    "force"        := Descriptor(Some("-f"), None, Unary),
    "switch"       := Descriptor(Some("-s"), None, Unary),
    "unchanged"    := Descriptor(Some("-a"), None, Unary),
    "files"        := Descriptor(None, Some(ArrayCtor), Mixed),
    "max"          := Descriptor(Some("-m"), Some(NumberCtor), Mixed),
    "client"       := Descriptor(Some("-c"), Some(StringCtor), Mixed),
    "long"         := Descriptor(Some("-l"), None, Unary),
    "trunk"        := Descriptor(Some("-L"), None, Unary),
    "status"       := Descriptor(Some("-s"), Some(StringCtor), Mixed),
    "time"         := Descriptor(Some("-t"), None, Unary),
    "user"         := Descriptor(Some("-u"), Some(StringCtor), Mixed),
    "custom"       := Descriptor(Some(" "), Some(StringCtor), Mixed)
  ]

  /** The table entry by entry: a name in the table is one of these. */
  lemma Cases(name: string)
    requires name in Table
    ensures
      || (name == "_change" && Table[name] == Descriptor(Some("Change:"), Some(StringCtor), Stdin))
      || (name == "description" && Table[name] == Descriptor(Some("Description:"), Some(StringCtor), Stdin))
      || (name == "stdin" && Table[name] == Descriptor(Some(""), Some(StringCtor), Stdin))
      || (name == "acceptmerged" && Table[name] == Descriptor(Some("-am"), None, Unary))
      || (name == "delete" && Table[name] == Descriptor(Some("-d"), None, Unary))
      || (name == "changelist" && Table[name] == Descriptor(Some("-c"), Some(NumberCtor), Mixed))
      || (name == "shelved" && Table[name] == Descriptor(Some("-s"), Some(NumberCtor), Mixed))
      || (name == "stream" && Table[name] == Descriptor(Some("-S"), Some(StringCtor), Mixed))
      || (name == "filetype" && Table[name] == Descriptor(Some("-t"), Some(StringCtor), Mixed))
      || (name == "_delete" && Table[name] == Descriptor(Some("-d"), Some(NumberCtor), Mixed))
      || (name == "_output" && Table[name] == Descriptor(Some("-o"), Some(NumberCtor), Mixed))
      || (name == "force" && Table[name] == Descriptor(Some("-f"), None, Unary))
      || (name == "switch" && Table[name] == Descriptor(Some("-s"), None, Unary))
      || (name == "unchanged" && Table[name] == Descriptor(Some("-a"), None, Unary))
      || (name == "files" && Table[name] == Descriptor(None, Some(ArrayCtor), Mixed))
      || (name == "max" && Table[name] == Descriptor(Some("-m"), Some(NumberCtor), Mixed))
      || (name == "client" && Table[name] == Descriptor(Some("-c"), Some(StringCtor), Mixed))
      || (name == "long" && Table[name] == Descriptor(Some("-l"), None, Unary))
      || (name == "trunk" && Table[name] == Descriptor(Some("-L"), None, Unary))
      || (name == "status" && Table[name] == Descriptor(Some("-s"), Some(StringCtor), Mixed))
      || (name == "time" && Table[name] == Descriptor(Some("-t"), None, Unary))
      || (name == "user" && Table[name] == Descriptor(Some("-u"), Some(StringCtor), Mixed))
      || (name == "custom" && Table[name] == Descriptor(Some(" "), Some(StringCtor), Mixed))
  {
  }

  /** The entries the changelist operations use. */
  lemma ChangelistEntries()
    ensures "_change" in Table && Table["_change"] == Descriptor(Some("Change:"), Some(StringCtor), Stdin)
    ensures "description" in Table && Table["description"] == Descriptor(Some("Description:"), Some(StringCtor), Stdin)
    ensures "_delete" in Table && Table["_delete"] == Descriptor(Some("-d"), Some(NumberCtor), Mixed)
    ensures "_output" in Table && Table["_output"] == Descriptor(Some("-o"), Some(NumberCtor), Mixed)
  {
  }

  /** The entries of a path list with a changelist number. */
  lemma FilesAndChangelistEntries()
    ensures "files" in Table && Table["files"] == Descriptor(None, Some(ArrayCtor), Mixed)
    ensures "changelist" in Table && Table["changelist"] == Descriptor(Some("-c"), Some(NumberCtor), Mixed)
  {
  }

  /** Every entry that is type-checked names String, Number or Array. */
  lemma TableWellTyped()
    ensures WellTyped(Table)
  {
    forall name | name in Table
      ensures Table[name].category != Unary ==>
        Table[name].ty == Some(StringCtor) || Table[name].ty == Some(NumberCtor) || Table[name].ty == Some(ArrayCtor)
    {
      Cases(name);
    }
  }

  /** The unary entries are exactly the eight flags, and none of them has a type. */
  lemma UnaryNames()
    ensures NamesIn(Table, Unary) ==
      {"acceptmerged", "delete", "force", "switch", "unchanged", "long", "trunk", "time"}
    ensures forall name :: name in Table && Table[name].category == Unary ==> Table[name].ty.None?
  {
    forall name | name in Table
      ensures Table[name].category == Unary <==>
        name in {"acceptmerged", "delete", "force", "switch", "unchanged", "long", "trunk", "time"}
      ensures Table[name].category == Unary ==> Table[name].ty.None?
    {
      Cases(name);
    }
  }

  /** The stdin entries are `_change`, `description` and `stdin`. */
  lemma StdinNames()
    ensures NamesIn(Table, Stdin) == {"_change", "description", "stdin"}
  {
    forall name | name in Table
      ensures Table[name].category == Stdin <==> name in {"_change", "description", "stdin"}
    {
      Cases(name);
    }
  }

  /** `files` is the only entry without a `cmd`: an Array-typed 'mixed' entry,
      which the builder therefore sends to the file list. */
  lemma FilesHasNoCmd()
    ensures forall name :: name in Table && Table[name].cmd.None? ==> name == "files"
    ensures Table["files"] == Descriptor(None, Some(ArrayCtor), Mixed)
  {
    forall name | name in Table ensures Table[name].cmd.None? ==> name == "files" {
      Cases(name);
    }
  }

  /** `-c` is shared by `changelist` and `client`. */
  lemma SharedDashC()
    ensures NamesWithCmd(Table, "-c") == {"changelist", "client"}
  {
    forall name | name in Table ensures Table[name].cmd == Some("-c") <==> name in {"changelist", "client"} {
      Cases(name);
    }
  }

  /** `-s` is shared by `shelved`, `switch` and `status`. */
  lemma SharedDashS()
    ensures NamesWithCmd(Table, "-s") == {"shelved", "switch", "status"}
  {
    forall name | name in Table ensures Table[name].cmd == Some("-s") <==> name in {"shelved", "switch", "status"} {
      Cases(name);
    }
  }

  /** `-d` is shared by `delete` and `_delete`. */
  lemma SharedDashD()
    ensures NamesWithCmd(Table, "-d") == {"delete", "_delete"}
  {
    forall name | name in Table ensures Table[name].cmd == Some("-d") <==> name in {"delete", "_delete"} {
      Cases(name);
    }
  }

  /** `-t` is shared by `filetype` and `time`. */
  lemma SharedDashT()
    ensures NamesWithCmd(Table, "-t") == {"filetype", "time"}
  {
    forall name | name in Table ensures Table[name].cmd == Some("-t") <==> name in {"filetype", "time"} {
      Cases(name);
    }
  }

  /** The Number-typed entries are five 'mixed' ones, so a changelist id given
      as a string is dropped from `-c`, `-s`, `-d`, `-o` and `-m`. */
  lemma NumberEntries()
    ensures NamesTyped(Table, NumberCtor) == {"changelist", "shelved", "_delete", "_output", "max"}
    ensures forall name :: name in NamesTyped(Table, NumberCtor) ==> Table[name].category == Mixed
  {
    forall name | name in Table
      ensures Table[name].ty == Some(NumberCtor) <==> name in {"changelist", "shelved", "_delete", "_output", "max"}
      ensures Table[name].ty == Some(NumberCtor) ==> Table[name].category == Mixed
    {
      Cases(name);
    }
  }

  /** `custom` is a String 'mixed' entry whose `cmd` is a single space. */
  lemma CustomIsSpace()
    ensures Table["custom"] == Descriptor(Some(" "), Some(StringCtor), Mixed)
    ensures NamesWithCmd(Table, " ") == {"custom"}
  {
    forall name | name in Table ensures Table[name].cmd == Some(" ") <==> name == "custom" {
      Cases(name);
    }
  }
}
