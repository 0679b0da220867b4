/** The option table of the older JavaScript wrapper: 15 entries. */
module JsOptions {
  import opened Wrappers
  import opened JsValues
  import opened Schema
  import TsOptions

  const Table: Table := map[
    "_change"      := Descriptor(Some("Change:"), Some(StringCtor), Stdin),
    "description"  := Descriptor(Some("Description:"), Some(StringCtor), Stdin),
    "acceptmerged" := Descriptor(Some("-am"), None, Unary),
    "delete"       := Descriptor(Some("-d"), None, Unary),
    "changelist"   := Descriptor(Some("-c"), Some(NumberCtor), Mixed),
    "shelved"      := Descriptor(Some("-s"), Some(NumberCtor), Mixed),
    "stream"       := Descriptor(Some("-S"), Some(StringCtor), Mixed),
    "filetype"     := Descriptor(Some("-t"), Some(StringCtor), Mixed),
    "_delete"      := Descriptor(Some("-d"), Some(NumberCtor), Mixed),
    "_output"      := Descriptor(Some("-o"), Some(NumberCtor), Mixed),
    "force"        := Descriptor(Some("-f"), None, Unary),
    "switch"       := Descriptor(Some("-s"), None, Unary),
    "unchanged"    := Descriptor(Some("-a"), None, Unary),
    "files"        := Descriptor(None, Some(ArrayCtor), Mixed),
    "max"          := Descriptor(Some("-m"), Some(NumberCtor), Mixed)
  ]

  /** The table entry by entry: a name in the table is one of these. */
  lemma Cases(name: string)
    requires name in Table
    ensures
      || (name == "_change" && Table[name] == Descriptor(Some("Change:"), Some(StringCtor), Stdin))
      || (name == "description" && Table[name] == Descriptor(Some("Description:"), Some(StringCtor), Stdin))
      || (name == "acceptmerged" && Table[name] == Descriptor(Some("-am"), None, Unary))
      || (name == "delete" && Table[name] == Descriptor(Some("-d"), None, Unary))
      || (name == "changelist" && Table[name] == Descriptor(Some("-c"), Some(NumberCtor), Mixed))
      || (name == "shelved" && Table[name] == Descriptor(Some("-s"), Some(NumberCtor), Mixed))
      || (name == "stream" && Table[name] == Descriptor(Some("-S"), Some(StringCtor), Mixed))
      || (name == "filetype" && Table[name] == Descriptor(Some("-t"), Some(StringCtor), Mixed))
      || (name == "_delete" && Table[name] == Descriptor(Some("-d"), Some(NumberCtor), Mixed))
      || (name == "_output" && Table[name] == Descriptor(Some("-o"), Some(NumberCtor), Mixed))
      || (name == "force" && Table[name] == Descriptor(Some("-f"), None, Unary))
      || (name == "switch" && Table[name] == Descriptor(Some("-s"), None, Unary))
      || (name == "unchanged" && Table[name] == Descriptor(Some("-a"), None, Unary))
      || (name == "files" && Table[name] == Descriptor(None, Some(ArrayCtor), Mixed))
      || (name == "max" && Table[name] == Descriptor(Some("-m"), Some(NumberCtor), Mixed))
  {
  }

  /** Every entry of the older table is the same-named entry of the newer one. */
  lemma SameAsTsEntries()
    ensures forall name :: name in Table ==> name in TsOptions.Table && Table[name] == TsOptions.Table[name]
  {
    forall name | name in Table ensures name in TsOptions.Table && Table[name] == TsOptions.Table[name] {
      if Table[name].category == Mixed {
        SameMixedEntry(name);
      } else {
        SameOtherEntry(name);
      }
    }
  }

  lemma SameMixedEntry(name: string)
    requires name in Table && Table[name].category == Mixed
    ensures name in TsOptions.Table && Table[name] == TsOptions.Table[name]
  {
    Cases(name);
  }

  lemma SameOtherEntry(name: string)
    requires name in Table && Table[name].category != Mixed
    ensures name in TsOptions.Table && Table[name] == TsOptions.Table[name]
  {
    Cases(name);
  }

  /** The names the newer table has and this one lacks. */
  const Added: set<string> := {"stdin", "client", "long", "trunk", "status", "time", "user", "custom"}

  /** The newer table adds exactly eight names to the older one. */
  lemma TsAddsEightNames()
    ensures TsOptions.Table.Keys - Table.Keys == Added
  {
    OnlyAddedMissing();
    AddedMissing();
  }

  lemma OnlyAddedMissing()
    ensures forall name :: name in TsOptions.Table && name !in Table ==> name in Added
  {
    forall name | name in TsOptions.Table && name !in Table ensures name in Added {
      TsOptions.Cases(name);
    }
  }

  lemma AddedMissing()
    ensures forall name :: name in Added ==> name in TsOptions.Table && name !in Table
  {
    AddedInNewer();
    AddedNotInOlder();
  }

  lemma AddedInNewer()
    ensures forall name :: name in Added ==> name in TsOptions.Table
  {
  }

  lemma AddedNotInOlder()
    ensures forall name :: name in Added ==> name !in Table
  {
  }

  /** Every entry that is type-checked names String, Number or Array. */
  lemma TableWellTyped()
    ensures WellTyped(Table)
  {
    forall name | name in Table
      ensures Table[name].category != Unary ==>
        Table[name].ty == Some(StringCtor) || Table[name].ty == Some(NumberCtor) || Table[name].ty == Some(ArrayCtor)
    {
      Cases(name);
    }
  }

  /** The unary entries are five flags, and none of them has a type. */
  lemma UnaryNames()
    ensures NamesIn(Table, Unary) == {"acceptmerged", "delete", "force", "switch", "unchanged"}
    ensures forall name :: name in Table && Table[name].category == Unary ==> Table[name].ty.None?
  {
    forall name | name in Table
      ensures Table[name].category == Unary <==> name in {"acceptmerged", "delete", "force", "switch", "unchanged"}
      ensures Table[name].category == Unary ==> Table[name].ty.None?
    {
      Cases(name);
    }
  }

  /** The stdin entries are `_change` and `description`. */
  lemma StdinNames()
    ensures NamesIn(Table, Stdin) == {"_change", "description"}
  {
    forall name | name in Table
      ensures Table[name].category == Stdin <==> name in {"_change", "description"}
    {
      Cases(name);
    }
  }

  /** `files` alone has no `cmd`. */
  lemma FilesHasNoCmd()
    ensures forall name :: name in Table && Table[name].cmd.None? ==> name == "files"
  {
    forall name | name in Table ensures Table[name].cmd.None? ==> name == "files" {
      Cases(name);
    }
  }

  /** `-d` is shared by `delete` and `_delete`. */
  lemma SharedDashD()
    ensures NamesWithCmd(Table, "-d") == {"delete", "_delete"}
  {
    forall name | name in Table ensures Table[name].cmd == Some("-d") <==> name in {"delete", "_delete"} {
      Cases(name);
    }
  }

  /** `-s` is shared by `shelved` and `switch`. */
  lemma SharedDashS()
    ensures NamesWithCmd(Table, "-s") == {"shelved", "switch"}
  {
    forall name | name in Table ensures Table[name].cmd == Some("-s") <==> name in {"shelved", "switch"} {
      Cases(name);
    }
  }
}
