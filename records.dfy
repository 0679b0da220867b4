/** The `key: value` record both `info` and `view` build: a pass over the
    pieces of a reply in which every piece that is kept sets its key, so
    that the later of two pieces with one key wins. */
module Records {
  import opened Strings

  /** The record the pieces give, folded from the first to the last. */
  function Assign(items: seq<string>, keep: string -> bool, key: string -> string, value: string -> string): map<string, string>
    decreases |items|
  {
    if items == [] then map[]
    else Set(Assign(items[..|items| - 1], keep, key, value), items[|items| - 1], keep, key, value)
  }

  /** One step: a kept piece sets its key, any other piece is skipped. */
  function Set(memo: map<string, string>, item: string, keep: string -> bool, key: string -> string, value: string -> string): map<string, string> {
    if keep(item) then memo[key(item) := value(item)] else memo
  }

  /** Folding one more piece on the end. */
  lemma AssignSnoc(a: seq<string>, item: string, keep: string -> bool, key: string -> string, value: string -> string)
    ensures Assign(a + [item], keep, key, value) == Set(Assign(a, keep, key, value), item, keep, key, value)
  {
    assert (a + [item])[..|a|] == a;
  }

  /** Every key of the record comes from some kept piece. */
  lemma {:induction false} KeysFromItems(items: seq<string>, keep: string -> bool, key: string -> string, value: string -> string, k: string)
    requires k in Assign(items, keep, key, value)
    ensures exists i :: 0 <= i < |items| && keep(items[i]) && key(items[i]) == k
    decreases |items|
  {
    var init, last := items[..|items| - 1], items[|items| - 1];
    AssignSnoc(init, last, keep, key, value);
    SnocSplit([], items);
    if keep(last) && key(last) == k {
      assert items[|items| - 1] == last;
    } else {
      KeysFromItems(init, keep, key, value, k);
      var i :| 0 <= i < |init| && keep(init[i]) && key(init[i]) == k;
      assert items[i] == init[i];
    }
  }

  /** The value of a key is the value of the last kept piece with that key. */
  lemma {:induction false} LastWins(items: seq<string>, keep: string -> bool, key: string -> string, value: string -> string, i: nat)
    requires i < |items| && keep(items[i])
    requires forall j :: i < j < |items| ==> !keep(items[j]) || key(items[j]) != key(items[i])
    ensures key(items[i]) in Assign(items, keep, key, value)
    ensures Assign(items, keep, key, value)[key(items[i])] == value(items[i])
    decreases |items|
  {
    var init, last := items[..|items| - 1], items[|items| - 1];
    AssignSnoc(init, last, keep, key, value);
    SnocSplit([], items);
    if i < |items| - 1 {
      assert init[i] == items[i];
      assert forall j :: i < j < |init| ==> init[j] == items[j];
      LastWins(init, keep, key, value, i);
    }
  }

  /** A piece that is not kept leaves the record as it is, wherever it stands. */
  lemma {:induction false} Skips(a: seq<string>, item: string, b: seq<string>, keep: string -> bool, key: string -> string, value: string -> string)
    requires !keep(item)
    ensures Assign(a + [item] + b, keep, key, value) == Assign(a + b, keep, key, value)
    decreases |b|
  {
    if b == [] {
      AssignSnoc(a, item, keep, key, value);
      assert a + [item] + b == a + [item];
      assert a + b == a;
    } else {
      var b0, x := b[..|b| - 1], b[|b| - 1];
      Skips(a, item, b0, keep, key, value);
      SnocSplit(a + [item], b);
      SnocSplit(a, b);
      AssignSnoc(a + [item] + b0, x, keep, key, value);
      AssignSnoc(a + b0, x, keep, key, value);
    }
  }
}
