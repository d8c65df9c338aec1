/**
  `getServerInfo` (main.go:47-83) and the `info` command (main.go:168-177).

  The status query is an oracle of per-attempt replies; each sleep between
  attempts is counted, and each attempt records the address it queried.
*/
module ServerInfoQuery {
  import opened Wrappers
  import opened Strings
  import opened Retry

  /** One `(Name, Value)` rule of the status protocol. */
  datatype Rule = Rule(name: string, value: string)

  datatype ServerInfo = ServerInfo(name: string, mapName: string, players: int, maxPlayers: int)

  /** `ServerInfo{}`. */
  const ZeroInfo := ServerInfo("", "", 0, 0)

  /** The errors `getServerInfo` returns: the transport's, or `strconv.Atoi`'s on the offending value. */
  datatype QueryError = Transport(message: string) | NotAnInt(value: string)

  const OwnerRule := "OwningPlayerName"
  const OpenRule := "NumOpenPublicConnections"
  const MaxRule := "NumPublicConnections"
  const MapRule := "p2"

  // ---------------------------------------------------------------------
  // What the rule list means
  // ---------------------------------------------------------------------

  /** The value of the last rule called `name`, if any. */
  function LastValue(rules: seq<Rule>, name: string): Option<string> {
    if rules == [] then None
    else if rules[|rules| - 1].name == name then Some(rules[|rules| - 1].value)
    else LastValue(rules[..|rules| - 1], name)
  }

  /** A rule whose value must be an integer but is not. */
  predicate BadNumber(r: Rule) {
    (r.name == OpenRule || r.name == MaxRule) && Atoi(r.value).None?
  }

  /** The value of the first bad numeric rule, if any. */
  function FirstBadNumber(rules: seq<Rule>): Option<string> {
    if rules == [] then None
    else if BadNumber(rules[0]) then Some(rules[0].value)
    else FirstBadNumber(rules[1..])
  }

  function StringOr(o: Option<string>): string {
    if o.Some? then o.value else ""
  }

  /** The integer a well-formed optional value stands for; 0 when absent. */
  function NumberOr0(o: Option<string>): int {
    if o.Some? && Atoi(o.value).Some? then Atoi(o.value).value else 0
  }

  /**
    The summary a rule list stands for: the last value of each recognised
    rule (absent fields stay zero), players as the maximum minus the open
    slots in 64-bit arithmetic; or the error on the first non-integer
    value of a numeric rule.
  */
  function RulesToInfo(rules: seq<Rule>): Result<ServerInfo, QueryError> {
    if FirstBadNumber(rules).Some? then Err(NotAnInt(FirstBadNumber(rules).value))
    else
      var maxPlayers := NumberOr0(LastValue(rules, MaxRule));
      var open := NumberOr0(LastValue(rules, OpenRule));
      Ok(ServerInfo(StringOr(LastValue(rules, OwnerRule)), StringOr(LastValue(rules, MapRule)),
                    Sub64(maxPlayers, open), maxPlayers))
  }

  lemma {:induction false} FirstBadNumberAt(rules: seq<Rule>, i: nat)
    requires i < |rules| && BadNumber(rules[i])
    requires forall j :: 0 <= j < i ==> !BadNumber(rules[j])
    ensures FirstBadNumber(rules) == Some(rules[i].value)
  {
    if i > 0 {
      FirstBadNumberAt(rules[1..], i - 1);
    }
  }

  lemma {:induction false} FirstBadNumberNone(rules: seq<Rule>)
    requires forall j :: 0 <= j < |rules| ==> !BadNumber(rules[j])
    ensures FirstBadNumber(rules) == None
  {
    if rules != [] {
      FirstBadNumberNone(rules[1..]);
    }
  }

  // ---------------------------------------------------------------------
  // The rule loop (main.go:60-80)
  // ---------------------------------------------------------------------

  /**
    The body of a successful attempt: folds the rules into `info` and
    `numOpenPublicConnections`, returning `ServerInfo{}` and the error at
    the first numeric rule that does not parse.
  */
  method FoldRules(rules: seq<Rule>) returns (info: ServerInfo, err: Option<QueryError>)
    ensures err.None? <==> RulesToInfo(rules).Ok?
    ensures err.None? ==> info == RulesToInfo(rules).value
    ensures err.Some? ==> info == ZeroInfo && err.value == RulesToInfo(rules).error
  {
    info := ZeroInfo;
    var numOpenPublicConnections := 0;
    for i := 0 to |rules|
      invariant forall j :: 0 <= j < i ==> !BadNumber(rules[j])
      invariant info.name == StringOr(LastValue(rules[..i], OwnerRule))
      invariant info.mapName == StringOr(LastValue(rules[..i], MapRule))
      invariant info.maxPlayers == NumberOr0(LastValue(rules[..i], MaxRule))
      invariant numOpenPublicConnections == NumberOr0(LastValue(rules[..i], OpenRule))
      invariant info.players == 0
    {
      var r := rules[i];
      assert rules[..i + 1][..i] == rules[..i];
      if r.name == OwnerRule {
        info := info.(name := r.value);
      } else if r.name == OpenRule {
        var tmp := Atoi(r.value);
        if tmp.None? {
          FirstBadNumberAt(rules, i);
          return ZeroInfo, Some(NotAnInt(r.value));
        }
        numOpenPublicConnections := tmp.value;
      } else if r.name == MaxRule {
        var tmp := Atoi(r.value);
        if tmp.None? {
          FirstBadNumberAt(rules, i);
          return ZeroInfo, Some(NotAnInt(r.value));
        }
        info := info.(maxPlayers := tmp.value);
      } else if r.name == MapRule {
        info := info.(mapName := r.value);
      }
    }
    assert rules[..|rules|] == rules;
    FirstBadNumberNone(rules);
    info := info.(players := Sub64(info.maxPlayers, numOpenPublicConnections));
    err := None;
  }

  // ---------------------------------------------------------------------
  // The retry loop (main.go:48-82)
  // ---------------------------------------------------------------------

  /**
    `getServerInfo(address)`: up to `Tries` attempts, a sleep after each
    failed one but the last; the first answered attempt decides the
    outcome, a parse error included (it is not retried).
  */
  method GetServerInfo(address: string, replies: seq<Reply<seq<Rule>>>)
    returns (info: ServerInfo, err: Option<QueryError>, queried: seq<string>, sleeps: nat)
    requires |replies| >= Tries
    ensures |queried| == AttemptsUsed(replies) && forall q :: q in queried ==> q == address
    ensures sleeps == |queried| - 1
    ensures replies[|queried| - 1].Answered? ==>
      var outcome := RulesToInfo(replies[|queried| - 1].value);
      && (err.None? <==> outcome.Ok?)
      && (outcome.Ok? ==> info == outcome.value)
      && (outcome.Err? ==> info == ZeroInfo && err == Some(outcome.error))
    ensures replies[|queried| - 1].Failed? ==>
      info == ZeroInfo && err == Some(Transport(replies[Tries - 1].message))
  {
    queried, sleeps := [], 0;
    var i := 0;
    while true
      invariant 0 <= i < Tries
      invariant |queried| == i && sleeps == i && forall q :: q in queried ==> q == address
      invariant forall j :: 0 <= j < i ==> replies[j].Failed?
      decreases Tries - i
    {
      queried := queried + [address];
      var reply := replies[i];
      if reply.Failed? {
        if i == Tries - 1 {
          return ZeroInfo, Some(Transport(reply.message)), queried, sleeps;
        }
        sleeps := sleeps + 1;
        i := i + 1;
        continue;
      }
      AttemptsUsedFirstAnswer(replies, i);
      info, err := FoldRules(reply.value);
      return;
    }
  }

  // ---------------------------------------------------------------------
  // The `info` command (main.go:168-177)
  // ---------------------------------------------------------------------

  /** `fmt.Sprintf("%d/%d on %s playing %s", Players, MaxPlayers, Name, Map)`. */
  function InfoReply(info: ServerInfo): string {
    FormatInt(info.players) + "/" + FormatInt(info.maxPlayers) + " on " + info.name + " playing " + info.mapName
  }

  /**
    The `info` handler: queries the whole argument text as the address and
    says the summary, or says nothing when the query failed.
  */
  method InfoCommand(text: string, replies: seq<Reply<seq<Rule>>>)
    returns (say: Option<string>, queried: seq<string>, sleeps: nat)
    requires |replies| >= Tries
    ensures |queried| == AttemptsUsed(replies) && forall q :: q in queried ==> q == text
    ensures sleeps == |queried| - 1
    ensures say.Some? <==>
      replies[|queried| - 1].Answered? && RulesToInfo(replies[|queried| - 1].value).Ok?
    ensures say.Some? ==> say.value == InfoReply(RulesToInfo(replies[|queried| - 1].value).value)
  {
    var info, err;
    info, err, queried, sleeps := GetServerInfo(text, replies);
    if err.Some? {
      return None, queried, sleeps;
    }
    say := Some(InfoReply(info));
  }

  // ---------------------------------------------------------------------
  // Properties of the rule fold and the reply
  // ---------------------------------------------------------------------

  lemma LastValueAppend(rules: seq<Rule>, r: Rule, name: string)
    ensures LastValue(rules + [r], name) == if r.name == name then Some(r.value) else LastValue(rules, name)
  {
    assert (rules + [r])[..|rules|] == rules;
  }

  lemma FirstBadNumberAppend(rules: seq<Rule>, r: Rule)
    ensures FirstBadNumber(rules + [r]) ==
      if FirstBadNumber(rules).Some? then FirstBadNumber(rules)
      else if BadNumber(r) then Some(r.value) else None
  {
    if FirstBadNumber(rules).Some? {
      var i :| 0 <= i < |rules| && BadNumber(rules[i]) && forall j :: 0 <= j < i ==> !BadNumber(rules[j]) by {
        FirstBadExists(rules);
      }
      FirstBadNumberAt(rules, i);
      FirstBadNumberAt(rules + [r], i);
    } else {
      FirstBadNoneAll(rules);
      if BadNumber(r) {
        FirstBadNumberAt(rules + [r], |rules|);
      } else {
        FirstBadNumberNone(rules + [r]);
      }
    }
  }

  lemma {:induction false} FirstBadExists(rules: seq<Rule>)
    requires FirstBadNumber(rules).Some?
    ensures exists i :: 0 <= i < |rules| && BadNumber(rules[i]) && forall j :: 0 <= j < i ==> !BadNumber(rules[j])
  {
    if !BadNumber(rules[0]) {
      FirstBadExists(rules[1..]);
      var i :| 0 <= i < |rules[1..]| && BadNumber(rules[1..][i]) && forall j :: 0 <= j < i ==> !BadNumber(rules[1..][j]);
      assert BadNumber(rules[i + 1]) && forall j :: 0 <= j < i + 1 ==> !BadNumber(rules[j]);
    } else {
      assert BadNumber(rules[0]);
    }
  }

  lemma {:induction false} FirstBadNoneAll(rules: seq<Rule>)
    requires FirstBadNumber(rules).None?
    ensures forall j :: 0 <= j < |rules| ==> !BadNumber(rules[j])
  {
    if rules != [] {
      FirstBadNoneAll(rules[1..]);
      assert forall j :: 1 <= j < |rules| ==> rules[j] == rules[1..][j - 1];
    }
  }

  /** A rule of any other name changes nothing. */
  lemma UnrecognisedRuleIgnored(rules: seq<Rule>, r: Rule)
    requires r.name != OwnerRule && r.name != OpenRule && r.name != MaxRule && r.name != MapRule
    ensures RulesToInfo(rules + [r]) == RulesToInfo(rules)
  {
    FirstBadNumberAppend(rules, r);
    LastValueAppend(rules, r, OwnerRule);
    LastValueAppend(rules, r, OpenRule);
    LastValueAppend(rules, r, MaxRule);
    LastValueAppend(rules, r, MapRule);
  }

  /** A later owner or map rule overwrites an earlier one. */
  lemma LaterRuleOverwrites(rules: seq<Rule>, v: string)
    requires RulesToInfo(rules).Ok?
    ensures RulesToInfo(rules + [Rule(OwnerRule, v)]) == Ok(RulesToInfo(rules).value.(name := v))
    ensures RulesToInfo(rules + [Rule(MapRule, v)]) == Ok(RulesToInfo(rules).value.(mapName := v))
  {
    FirstBadNumberAppend(rules, Rule(OwnerRule, v));
    FirstBadNumberAppend(rules, Rule(MapRule, v));
    LastValueAppend(rules, Rule(OwnerRule, v), OwnerRule);
    LastValueAppend(rules, Rule(OwnerRule, v), OpenRule);
    LastValueAppend(rules, Rule(OwnerRule, v), MaxRule);
    LastValueAppend(rules, Rule(OwnerRule, v), MapRule);
    LastValueAppend(rules, Rule(MapRule, v), OwnerRule);
    LastValueAppend(rules, Rule(MapRule, v), OpenRule);
    LastValueAppend(rules, Rule(MapRule, v), MaxRule);
    LastValueAppend(rules, Rule(MapRule, v), MapRule);
  }

  /** A non-integer connection count anywhere makes the whole query fail with that value. */
  lemma BadCountFails(rules: seq<Rule>, v: string, more: seq<Rule>)
    requires forall j :: 0 <= j < |rules| ==> !BadNumber(rules[j])
    requires Atoi(v).None?
    ensures RulesToInfo(rules + [Rule(OpenRule, v)] + more) == Err(NotAnInt(v))
    ensures RulesToInfo(rules + [Rule(MaxRule, v)] + more) == Err(NotAnInt(v))
  {
    var a := rules + [Rule(OpenRule, v)] + more;
    var b := rules + [Rule(MaxRule, v)] + more;
    assert forall j :: 0 <= j < |rules| ==> a[j] == rules[j] && b[j] == rules[j];
    FirstBadNumberAt(a, |rules|);
    FirstBadNumberAt(b, |rules|);
  }

  /** The worked example: seven of ten slots taken on de_dust2. */
  lemma ExampleRules()
    ensures RulesToInfo([Rule(OwnerRule, "Alice"), Rule(MaxRule, "10"), Rule(OpenRule, "3"), Rule(MapRule, "de_dust2")])
         == Ok(ServerInfo("Alice", "de_dust2", 7, 10))
  {
    var r0, r1, r2, r3 := Rule(OwnerRule, "Alice"), Rule(MaxRule, "10"), Rule(OpenRule, "3"), Rule(MapRule, "de_dust2");
    var rules := [r0, r1, r2, r3];
    assert DigitsValue("10") == 10 by {
      assert "10"[..1] == "1" && "1"[..0] == "";
    }
    assert Atoi("10") == Some(10);
    assert Atoi("3") == Some(3) by {
      assert "3"[..0] == "";
    }
    FirstBadNumberNone(rules);
    assert rules[..3] == [r0, r1, r2] && [r0, r1, r2][..2] == [r0, r1] && [r0, r1][..1] == [r0];
    assert [r0][..0] == [];
    assert LastValue([r0], OwnerRule) == Some("Alice");
    assert LastValue([r0, r1], OwnerRule) == Some("Alice");
    assert LastValue([r0, r1, r2], OwnerRule) == Some("Alice");
    assert LastValue(rules, OwnerRule) == Some("Alice");
    assert LastValue([r0, r1, r2], MaxRule) == Some("10");
    assert LastValue(rules, MaxRule) == Some("10");
    assert LastValue(rules, OpenRule) == Some("3");
    assert LastValue(rules, MapRule) == Some("de_dust2");
  }

  /** Players is not clamped: more open slots than slots gives a negative count. */
  lemma PlayersMayBeNegative()
    ensures RulesToInfo([Rule(MaxRule, "2"), Rule(OpenRule, "5")]) == Ok(ServerInfo("", "", -3, 2))
  {
    var r0, r1 := Rule(MaxRule, "2"), Rule(OpenRule, "5");
    var rules := [r0, r1];
    assert Atoi("2") == Some(2) by {
      assert "2"[..0] == "";
    }
    assert Atoi("5") == Some(5) by {
      assert "5"[..0] == "";
    }
    FirstBadNumberNone(rules);
    assert rules[..1] == [r0] && [r0][..0] == [];
    assert LastValue(rules, MaxRule) == Some("2");
    assert LastValue(rules, OpenRule) == Some("5");
    assert LastValue([r0], OwnerRule) == None && LastValue([r0], MapRule) == None;
    assert LastValue(rules, OwnerRule) == None;
    assert LastValue(rules, MapRule) == None;
  }

  /** The reply starts with the player count, which reads back with `strconv.Atoi`. */
  lemma InfoReplyStartsWithPlayers(info: ServerInfo)
    requires IsInt64(info.players)
    ensures Atoi(Split(InfoReply(info), '/')[0]) == Some(info.players)
  {
    var head := FormatInt(info.players);
    var tail := FormatInt(info.maxPlayers) + " on " + info.name + " playing " + info.mapName;
    assert InfoReply(info) == head + ['/'] + tail;
    FormatIntAlphabet(info.players);
    assert '/' !in head;
    SplitFirst(head, '/', tail);
    AtoiFormatInt(info.players);
  }
}
