/** `clients`: the reply of `p4 clients`, one workspace per line, read by
    fixed token positions after a split at single spaces. */
module Clients {
  import opened Wrappers
  import opened Strings

  /** One record of the result. A missing token reads as `undefined`, here `None`. */
  datatype Client = Client(client: Option<string>, access: Option<string>, root: Option<string>, description: string)

  /** `token[i]`: the token at position `i`, if there is one. */
  function TokenAt(tokens: seq<string>, i: nat): (r: Option<string>)
    ensures r.Some? <==> i < |tokens|
    ensures r.Some? ==> r.value == tokens[i]
  {
    if i < |tokens| then Some(tokens[i]) else None
  }

  /** The record of one line: tokens 1, 2 and 4, and the tokens from 5 on
      joined again by single spaces (`slice(5)` of a shorter list is empty). */
  function ClientOfLine(line: string): Client {
    var tokens := Split(line, " ");
    Client(TokenAt(tokens, 1), TokenAt(tokens, 2), TokenAt(tokens, 4),
           Join(tokens[if |tokens| < 5 then |tokens| else 5..], " "))
  }

  /** `!!client.client`: the record names a workspace. */
  predicate Named(c: Client) {
    c.client.Some? && c.client.value != []
  }

  /** The records of the lines, in order, without those that name no workspace. */
  function NamedClients(lines: seq<string>): (r: seq<Client>)
    ensures |r| <= |lines|
    ensures forall k :: 0 <= k < |r| ==> Named(r[k])
  {
    if lines == [] then []
    else
      var c := ClientOfLine(lines[0]);
      if Named(c) then [c] + NamedClients(lines[1..]) else NamedClients(lines[1..])
  }

  /** `clients`' handling of the reply: split at line feeds, one record per
      line, filtered. */
  function ClientsOf(stdout: string): (r: seq<Client>)
    ensures forall k :: 0 <= k < |r| ==> Named(r[k])
  {
    NamedClients(Split(stdout, "\n"))
  }

  // ---------------------------------------------------------------------
  // the lines `p4 clients` writes

  /** The fields of one line of the reply: `Client <name> <date> root <root> <description words>`. */
  datatype Listed = Listed(name: string, date: string, root: string, words: seq<string>)

  predicate Token(s: string) {
    |s| >= 1 && ' ' !in s && '\n' !in s
  }

  predicate WellFormed(l: Listed) {
    Token(l.name) && Token(l.date) && Token(l.root)
    && forall k :: 0 <= k < |l.words| ==> ' ' !in l.words[k] && '\n' !in l.words[k]
  }

  function Tokens(l: Listed): seq<string> {
    ["Client", l.name, l.date, "root", l.root] + l.words
  }

  function Render(l: Listed): string {
    Join(Tokens(l), " ")
  }

  /** The record a listed workspace is read as. */
  function Expected(l: Listed): Client {
    Client(Some(l.name), Some(l.date), Some(l.root), Join(l.words, " "))
  }

  lemma RenderedHasNoLineFeed(l: Listed)
    requires WellFormed(l)
    ensures '\n' !in Render(l)
  {
    var t := Tokens(l);
    assert forall k :: 0 <= k < |t| ==> '\n' !in t[k] by {
      forall k | 0 <= k < |t| ensures '\n' !in t[k] {
        if k >= 5 {
          assert t[k] == l.words[k - 5];
        }
      }
    }
    JoinAvoidsChar(t, ' ', '\n');
  }

  lemma {:induction false} JoinAvoidsChar(parts: seq<string>, sep: char, c: char)
    requires c != sep
    requires forall k :: 0 <= k < |parts| ==> c !in parts[k]
    ensures c !in Join(parts, [sep])
  {
    if |parts| > 1 {
      JoinAvoidsChar(parts[1..], sep, c);
    }
  }

  /** A line `p4 clients` writes is read back into its workspace name, date,
      root and description. */
  lemma LineRoundTrip(l: Listed)
    requires WellFormed(l)
    ensures ClientOfLine(Render(l)) == Expected(l)
  {
    var t := Tokens(l);
    assert forall k :: 0 <= k < |t| ==> ' ' !in t[k] by {
      forall k | 0 <= k < |t| ensures ' ' !in t[k] {
        if k >= 5 {
          assert t[k] == l.words[k - 5];
        }
      }
    }
    SplitJoin(t, ' ');
    assert t[5..] == l.words;
  }

  /** The reply for a list of workspaces, each line ended by a line feed, is
      read back as the list of their records. */
  lemma {:induction false} ReplyRoundTrip(ls: seq<Listed>)
    requires forall k :: 0 <= k < |ls| ==> WellFormed(ls[k])
    ensures NamedClients(RenderedLines(ls) + [""]) == ExpectedAll(ls)
  {
    if ls == [] {
      assert ClientOfLine("") == Client(None, None, None, "") by {
        SplitNone("", ' ');
      }
    } else {
      LineRoundTrip(ls[0]);
      assert (RenderedLines(ls) + [""])[1..] == RenderedLines(ls[1..]) + [""];
      ReplyRoundTrip(ls[1..]);
    }
  }

  function RenderedLines(ls: seq<Listed>): (r: seq<string>)
    ensures |r| == |ls|
  {
    if ls == [] then [] else [Render(ls[0])] + RenderedLines(ls[1..])
  }

  function ExpectedAll(ls: seq<Listed>): seq<Client> {
    if ls == [] then [] else [Expected(ls[0])] + ExpectedAll(ls[1..])
  }

  lemma {:induction false} RenderedLinesNoLineFeed(ls: seq<Listed>)
    requires forall k :: 0 <= k < |ls| ==> WellFormed(ls[k])
    ensures forall k :: 0 <= k < |ls| ==> '\n' !in RenderedLines(ls)[k]
  {
    if ls != [] {
      RenderedHasNoLineFeed(ls[0]);
      RenderedLinesNoLineFeed(ls[1..]);
    }
  }

  /** The whole reply: the rendered lines joined by line feeds, with the
      final line feed, read back as the records of the workspaces. */
  lemma ClientsRoundTrip(ls: seq<Listed>)
    requires forall k :: 0 <= k < |ls| ==> WellFormed(ls[k])
    ensures ClientsOf(Join(RenderedLines(ls) + [""], "\n")) == ExpectedAll(ls)
  {
    ReplyLines(ls);
    ReplyRoundTrip(ls);
  }

  /** The reply splits back into its lines and the empty piece after the last line feed. */
  lemma ReplyLines(ls: seq<Listed>)
    requires forall k :: 0 <= k < |ls| ==> WellFormed(ls[k])
    ensures Split(Join(RenderedLines(ls) + [""], "\n"), "\n") == RenderedLines(ls) + [""]
  {
    RenderedLinesNoLineFeed(ls);
    EndedLines(RenderedLines(ls));
  }

  /** Lines free of line feeds, each ended by one, split back into the lines
      and the empty piece after the last. */
  lemma EndedLines(r: seq<string>)
    requires forall k :: 0 <= k < |r| ==> '\n' !in r[k]
    ensures Split(Join(r + [""], "\n"), "\n") == r + [""]
  {
    var lines := r + [""];
    forall k | 0 <= k < |lines| ensures '\n' !in lines[k] {
      if k < |r| {
        assert lines[k] == r[k];
      }
    }
    SplitJoin(lines, '\n');
  }

  /** An empty reply gives no record. */
  lemma EmptyReply()
    ensures ClientsOf("") == []
  {
    SplitNone("", '\n');
    SplitNone("", ' ');
  }
}
