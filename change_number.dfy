/** The changelist number in `p4 change` output: the first match of the
    global pattern `/([0-9]+)/g`, a maximal run of decimal digits. */
module ChangeNumber {
  import opened Wrappers
  import opened Strings
  import opened JsValues

  /** Where the first digit stands, or `|s|` when there is none. */
  function FirstDigit(s: string): (i: nat)
    ensures i <= |s|
    ensures forall j :: 0 <= j < i ==> !IsDigit(s[j])
    ensures i < |s| ==> IsDigit(s[i])
  {
    if s == [] || IsDigit(s[0]) then 0 else 1 + FirstDigit(s[1..])
  }

  /** `(s.match(/([0-9]+)/g) || [])[0]`: the first maximal digit run, or
      nothing when `s` has no digit. */
  function FirstDigitRun(s: string): (r: Option<string>)
    ensures r.None? <==> forall j :: 0 <= j < |s| ==> !IsDigit(s[j])
    ensures r.Some? ==> |r.value| >= 1 && AllDigits(r.value)
    ensures r.Some? ==>
      var i := FirstDigit(s);
      && i + |r.value| <= |s|
      && s[i..i + |r.value|] == r.value
      && (i + |r.value| == |s| || !IsDigit(s[i + |r.value|]))
  {
    var i := FirstDigit(s);
    if i == |s| then None
    else
      var n := PrefixRun(s[i..], IsDigit);
      assert s[i..][..n] == s[i..i + n];
      Some(s[i..i + n])
  }

  predicate NoDigit(s: string) {
    forall j :: 0 <= j < |s| ==> !IsDigit(s[j])
  }

  lemma FirstDigitAfter(pre: string, rest: string)
    requires NoDigit(pre)
    requires rest != [] && IsDigit(rest[0])
    ensures FirstDigit(pre + rest) == |pre|
  {
    if pre != [] {
      assert (pre + rest)[1..] == pre[1..] + rest;
      FirstDigitAfter(pre[1..], rest);
    }
  }

  /** A digit run set in text without digits before it, and not followed by
      a digit, is the run found. */
  lemma FindsRun(pre: string, d: string, post: string)
    requires NoDigit(pre)
    requires |d| >= 1 && AllDigits(d)
    requires post == [] || !IsDigit(post[0])
    ensures FirstDigitRun(pre + d + post) == Some(d)
  {
    var s := pre + d + post;
    assert s == pre + (d + post);
    FirstDigitAfter(pre, d + post);
    assert s[|pre|..] == d + post;
    PrefixRunOf(d, post, IsDigit);
    assert s[|pre|..|pre| + |d|] == d;
  }

  /** The number `p4 change` reports after `Change `, read back from the text. */
  lemma FindsNumber(pre: string, n: nat, post: string)
    requires NoDigit(pre)
    requires post == [] || !IsDigit(post[0])
    ensures FirstDigitRun(pre + NatToString(n) + post) == Some(NatToString(n))
  {
    FindsRun(pre, NatToString(n), post);
  }
}
