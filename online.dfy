/**
  The `online` command (main.go:126-167): `online <server> <f1;...;fn>`
  lists the players whose names contain one of the filters.
*/
module OnlineCommand {
  import opened Wrappers
  import opened Strings
  import opened Retry

  /** A player record of the players query; the bot reads only the name. */
  datatype Player = Player(name: string)

  // ---------------------------------------------------------------------
  // The parameter pattern `^([^ ]+) ([^$]+)$`
  // ---------------------------------------------------------------------

  /** Position of the first `c` in `s`, or `|s|` when there is none. */
  function IndexOf(s: string, c: char): (i: nat)
    ensures i <= |s| && c !in s[..i] && (i < |s| ==> s[i] == c)
  {
    if |s| == 0 || s[0] == c then 0
    else
      var j := IndexOf(s[1..], c);
      assert s[..j + 1] == [s[0]] + s[1..][..j];
      j + 1
  }

  /**
    `reParams.FindStringSubmatch(text)`: a non-empty run without spaces
    (the server address), one space, and a non-empty rest without `$`
    (the filters).
  */
  function ParseParams(text: string): Option<(string, string)> {
    var i := IndexOf(text, ' ');
    if i == 0 || i == |text| then None
    else
      var filters := text[i + 1..];
      if filters == [] || '$' in filters then None else Some((text[..i], filters))
  }

  /** The parameter pattern matches exactly the texts `address + " " + filters` of the stated shape. */
  lemma ParseParamsIff(text: string, address: string, filters: string)
    ensures ParseParams(text) == Some((address, filters)) <==>
      && text == address + " " + filters
      && address != [] && ' ' !in address
      && filters != [] && '$' !in filters
  {
    var i := IndexOf(text, ' ');
    if ParseParams(text) == Some((address, filters)) {
      assert text == text[..i] + " " + text[i + 1..];
    }
    if text == address + " " + filters && ' ' !in address {
      assert text[..|address|] == address;
      IndexOfFirst(text, ' ', |address|);
      assert text[i + 1..] == filters;
    }
  }

  /** `IndexOf` finds the first occurrence. */
  lemma {:induction false} IndexOfFirst(s: string, c: char, k: nat)
    requires k < |s| && s[k] == c && c !in s[..k]
    ensures IndexOf(s, c) == k
  {
    if k > 0 {
      assert s[..k][0] == s[0];
      assert s[1..][..k - 1] == s[..k][1..];
      IndexOfFirst(s[1..], c, k - 1);
    }
  }

  /** A text that starts with a space never matches: the address would be empty. */
  lemma LeadingSpaceRejected(text: string)
    requires |text| > 0 && text[0] == ' '
    ensures ParseParams(text).None?
  {
    IndexOfFirst(text, ' ', 0);
  }

  // ---------------------------------------------------------------------
  // Player filter (main.go:147-155)
  // ---------------------------------------------------------------------

  /** Some filter occurs in the name. */
  predicate MatchesAny(name: string, filters: seq<string>) {
    exists f :: f in filters && Contains(name, f)
  }

  /** The players a filter list keeps, in protocol order. */
  function Kept(players: seq<Player>, filters: seq<string>): seq<Player> {
    if players == [] then []
    else
      var last := players[|players| - 1];
      Kept(players[..|players| - 1], filters) + (if MatchesAny(last.name, filters) then [last] else [])
  }

  /**
    The labelled nested loop: each player is appended once, as soon as the
    first filter it contains is found.
  */
  method FilterPlayers(pls: seq<Player>, filters: seq<string>) returns (players: seq<Player>)
    ensures players == Kept(pls, filters)
  {
    players := [];
    label nextPlayer:
    for i := 0 to |pls|
      invariant players == Kept(pls[..i], filters)
    {
      var player := pls[i];
      assert pls[..i + 1][..i] == pls[..i];
      for j := 0 to |filters|
        invariant forall k :: 0 <= k < j ==> !Contains(player.name, filters[k])
      {
        if Contains(player.name, filters[j]) {
          players := players + [player];
          continue nextPlayer;
        }
      }
    }
    assert pls[..|pls|] == pls;
  }

  /** Filtering a concatenation filters each part: order is kept. */
  lemma {:induction false} KeptAppend(a: seq<Player>, b: seq<Player>, filters: seq<string>)
    ensures Kept(a + b, filters) == Kept(a, filters) + Kept(b, filters)
    decreases |b|
  {
    if b != [] {
      var init := b[..|b| - 1];
      assert (a + b)[..|a + b| - 1] == a + init;
      KeptAppend(a, init, filters);
    } else {
      assert a + b == a;
    }
  }

  /** A matching player is kept as often as it occurs, any other player never. */
  lemma {:induction false} KeptMultiplicity(pls: seq<Player>, filters: seq<string>, p: Player)
    ensures multiset(Kept(pls, filters))[p] == if MatchesAny(p.name, filters) then multiset(pls)[p] else 0
  {
    if pls != [] {
      var init := pls[..|pls| - 1];
      KeptMultiplicity(init, filters, p);
      assert pls == init + [pls[|pls| - 1]];
    }
  }

  /** An empty filter piece (as in `a;` or `;b`) keeps every player. */
  lemma {:induction false} EmptyFilterKeepsAll(pls: seq<Player>, filters: seq<string>)
    requires "" in filters
    ensures Kept(pls, filters) == pls
  {
    if pls != [] {
      EmptyFilterKeepsAll(pls[..|pls| - 1], filters);
      ContainsEmpty(pls[|pls| - 1].name);
      assert pls[..|pls| - 1] + [pls[|pls| - 1]] == pls;
    }
  }

  /** Filters "Bob;Carl" against Bob, Dave, Carlos keep Bob and Carlos, in that order. */
  lemma ExampleFilter()
    ensures Kept([Player("Bob"), Player("Dave"), Player("Carlos")], Split("Bob;Carl", ';'))
         == [Player("Bob"), Player("Carlos")]
  {
    ExampleSplit();
    ExampleMatches(["Bob", "Carl"]);
    KeptOuterTwo(Player("Bob"), Player("Dave"), Player("Carlos"), ["Bob", "Carl"]);
  }

  lemma ExampleSplit()
    ensures Split("Bob;Carl", ';') == ["Bob", "Carl"]
  {
    SplitJoin(["Bob", "Carl"], ';');
    assert Join(["Bob", "Carl"], ';') == "Bob;Carl";
  }

  /** Of three players, the middle one unmatched, the outer two are kept in order. */
  lemma KeptOuterTwo(p1: Player, p2: Player, p3: Player, filters: seq<string>)
    requires MatchesAny(p1.name, filters) && !MatchesAny(p2.name, filters) && MatchesAny(p3.name, filters)
    ensures Kept([p1, p2, p3], filters) == [p1, p3]
  {
    KeptSingle(p1, filters);
    KeptSingle(p2, filters);
    KeptSingle(p3, filters);
    KeptAppend([p1], [p2], filters);
    KeptAppend([p1, p2], [p3], filters);
    assert [p1] + [p2] == [p1, p2];
    assert [p1, p2] + [p3] == [p1, p2, p3];
  }

  lemma KeptSingle(p: Player, filters: seq<string>)
    ensures Kept([p], filters) == if MatchesAny(p.name, filters) then [p] else []
  {
    assert [p][..0] == [];
  }

  lemma ExampleMatches(filters: seq<string>)
    requires filters == ["Bob", "Carl"]
    ensures MatchesAny("Bob", filters) && MatchesAny("Carlos", filters) && !MatchesAny("Dave", filters)
  {
    assert HasPrefix("Bob", "Bob");
    assert HasPrefix("Carlos", "Carl");
    assert "Bob" in filters && Contains("Bob", "Bob");
    assert "Carl" in filters && Contains("Carlos", "Carl");
    NotContainsChar("Dave", 'B');
    NotContainsChar("Dave", 'C');
    assert HasPrefix("Bob", "B") && HasPrefix("Carl", "C");
    forall f | f in filters
      ensures !Contains("Dave", f)
    {
      if Contains("Dave", f) {
        ContainsTransitive("Dave", f, [f[0]]);
      }
    }
  }

  /** If `s` contains `mid` and `mid` contains `sub`, then `s` contains `sub`. */
  lemma ContainsTransitive(s: string, mid: string, sub: string)
    requires Contains(s, mid) && Contains(mid, sub)
    ensures Contains(s, sub)
  {
    ContainsIff(s, mid);
    var i :| OccursAt(s, mid, i);
    assert s == s[..i] + mid + s[i + |mid|..];
    ContainsInfix(s[..i], mid, s[i + |mid|..], sub);
  }

  // ---------------------------------------------------------------------
  // Reply (main.go:158-165)
  // ---------------------------------------------------------------------

  /** `fmt.Sprintf("'%s'", name)`. */
  function Quoted(name: string): string {
    "'" + name + "'"
  }

  /** The builder's text: each kept name quoted and followed by a tab. */
  function ReplyText(players: seq<Player>): string {
    if players == [] then ""
    else ReplyText(players[..|players| - 1]) + Quoted(players[|players| - 1].name) + "\t"
  }

  /** The quoted names, one per player. */
  function QuotedNames(players: seq<Player>): (r: seq<string>)
    ensures |r| == |players| && forall i :: 0 <= i < |players| ==> r[i] == Quoted(players[i].name)
  {
    seq(|players|, i requires 0 <= i < |players| => Quoted(players[i].name))
  }

  /** The `strings.Builder` loop. */
  method BuildReply(players: seq<Player>) returns (s: string)
    ensures s == ReplyText(players)
  {
    s := "";
    for i := 0 to |players|
      invariant s == ReplyText(players[..i])
    {
      assert players[..i + 1][..i] == players[..i];
      s := s + Quoted(players[i].name) + "\t";
    }
    assert players[..|players|] == players;
  }

  lemma {:induction false} JoinSnoc(parts: seq<string>, y: string, sep: char)
    requires |parts| >= 1
    ensures Join(parts + [y], sep) == Join(parts, sep) + [sep] + y
  {
    if |parts| > 1 {
      assert (parts + [y])[1..] == parts[1..] + [y];
      JoinSnoc(parts[1..], y, sep);
    }
  }

  lemma {:induction false} ReplyTextIsJoin(players: seq<Player>)
    ensures ReplyText(players) == Join(QuotedNames(players) + [""], '\t')
  {
    if players != [] {
      var init := players[..|players| - 1];
      var q := Quoted(players[|players| - 1].name);
      var qi := QuotedNames(init);
      ReplyTextIsJoin(init);
      assert ReplyText(players) == Join(qi + [""], '\t') + q + "\t";
      assert QuotedNames(players) == qi + [q];
      JoinSnoc(qi + [q], "", '\t');
      if init == [] {
        assert qi + [q] == [q];
      } else {
        JoinSnoc(qi, q, '\t');
        JoinSnoc(qi, "", '\t');
      }
    }
  }

  /**
    The reply can be read back: cut at the tabs it is the quoted names in
    order followed by one empty piece, provided no name holds a tab.
  */
  lemma ReplyTextReadsBack(players: seq<Player>)
    requires forall p :: p in players ==> '\t' !in p.name
    ensures Split(ReplyText(players), '\t') == QuotedNames(players) + [""]
  {
    ReplyTextIsJoin(players);
    var parts := QuotedNames(players) + [""];
    forall x | x in parts
      ensures '\t' !in x
    {
      if x != "" {
        var i :| 0 <= i < |players| && x == Quoted(players[i].name);
        assert players[i] in players;
      }
    }
    SplitJoin(parts, '\t');
  }

  // ---------------------------------------------------------------------
  // The handler
  // ---------------------------------------------------------------------

  /**
    The `online` handler: parses its parameters, queries the players of
    the server with the retry discipline, and says the kept names; it
    stays silent on a parameter mismatch, three failed attempts, or when
    nobody is kept.
  */
  method Online(text: string, replies: seq<Reply<seq<Player>>>)
    returns (say: Option<string>, queried: seq<string>, sleeps: nat)
    requires |replies| >= Tries
    ensures ParseParams(text).None? ==> say.None? && queried == [] && sleeps == 0
    ensures ParseParams(text).Some? ==>
      && |queried| == AttemptsUsed(replies)
      && (forall q :: q in queried ==> q == ParseParams(text).value.0)
      && sleeps == |queried| - 1
    ensures say.Some? <==>
      && ParseParams(text).Some?
      && replies[AttemptsUsed(replies) - 1].Answered?
      && Kept(replies[AttemptsUsed(replies) - 1].value, Split(ParseParams(text).value.1, ';')) != []
    ensures say.Some? ==>
      say.value == ReplyText(Kept(replies[AttemptsUsed(replies) - 1].value, Split(ParseParams(text).value.1, ';')))
  {
    var m := ParseParams(text);
    if m.None? {
      return None, [], 0;
    }
    var address := m.value.0;
    var filters := Split(m.value.1, ';');
    var players: seq<Player> := [];
    queried, sleeps := [], 0;
    var i := 0;
    while true
      invariant 0 <= i < Tries
      invariant |queried| == i && sleeps == i && forall q :: q in queried ==> q == address
      invariant forall j :: 0 <= j < i ==> replies[j].Failed?
      decreases Tries - i
    {
      queried := queried + [address];
      var reply := replies[i];
      if reply.Failed? {
        if i == Tries - 1 {
          return None, queried, sleeps;
        }
        sleeps := sleeps + 1;
        i := i + 1;
        continue;
      }
      AttemptsUsedFirstAnswer(replies, i);
      players := FilterPlayers(reply.value, filters);
      break;
    }
    if |players| == 0 {
      return None, queried, sleeps;
    }
    var s := BuildReply(players);
    say := Some(s);
  }
}
