/**
  Start-up wiring of main.go:115-227: the command registry, alias
  resolution, the compiled pattern, and the message handler built from them.
*/
module Bot {
  import opened Wrappers
  import opened Strings
  import opened CommandPattern
  import opened Registry
  import opened Dispatcher
  import OnlineCommand

  /**
    Resolves the alias definitions against the built-in commands and builds
    the pattern; `Err` carries the unknown command that stops the program.
  */
  method Startup(cmdChar: string, defs: map<string, AliasUnresolved>) returns (r: Result<Router, string>)
    ensures r.Ok? <==> forall k :: k in defs ==> defs[k].command in BuiltinCommands()
    ensures r.Ok? ==>
      && r.value.commands == BuiltinCommands()
      && r.value.aliases.Keys == defs.Keys
      && (forall k :: k in defs ==>
            r.value.aliases[k] == Alias(BuiltinCommands()[defs[k].command], defs[k].format))
      && r.value.pattern.trigger == cmdChar
      && |r.value.pattern.keys| == |BuiltinCommands()| + |defs|
      && multiset(r.value.pattern.keys[..|BuiltinCommands()|]) == multiset(BuiltinCommands().Keys)
      && multiset(r.value.pattern.keys[|BuiltinCommands()|..]) == multiset(defs.Keys)
      && Covers(r.value)
    ensures r.Err? ==> r.error !in BuiltinCommands() && exists k :: k in defs && defs[k].command == r.error
  {
    var commands := BuiltinCommands();
    var res := ResolveAliases(defs, commands);
    if res.Fatal? {
      return Err(res.unknownCommand);
    }
    var pattern := BuildPattern(cmdChar, commands, res.aliases);
    r := Ok(Router(commands, res.aliases, pattern));
  }

  /** A router over the built-in commands alone has prefix-free alternatives. */
  lemma BuiltinRouterPrefixFree(r: Router)
    requires Covers(r) && r.commands == BuiltinCommands() && r.aliases == map[]
    ensures Alternatives(r.pattern) == r.pattern.keys
    ensures PrefixFree(Alternatives(r.pattern))
  {
    assert "help" in r.commands;
    BuiltinNamesDistinguishable();
  }

  /**
    Without aliases, `<trigger>info 1.2.3.4:27015` runs `info` once with
    the space still in front of the address.
  */
  lemma InfoKeepsLeadingSpace(r: Router)
    requires Covers(r) && r.commands == BuiltinCommands() && r.aliases == map[]
    ensures OnPrivateMessage(r, r.pattern.trigger + "info" + " 1.2.3.4:27015")
         == [Invocation(Info, " 1.2.3.4:27015")]
  {
    BuiltinRouterPrefixFree(r);
    DispatchOfKey(r, "info", " 1.2.3.4:27015");
  }

  /**
    Without aliases, `<trigger>online <rest>` hands `online` a text that
    starts with the space, which its parameter pattern always rejects: the
    command queries nothing and says nothing.
  */
  lemma SpaceSeparatedOnlineIsSilent(r: Router, rest: string)
    requires Covers(r) && r.commands == BuiltinCommands() && r.aliases == map[]
    requires NoNewline(" " + rest)
    ensures OnPrivateMessage(r, r.pattern.trigger + "online" + " " + rest)
         == [Invocation(Online, " " + rest)]
    ensures OnlineCommand.ParseParams(" " + rest).None?
  {
    BuiltinRouterPrefixFree(r);
    assert r.pattern.trigger + "online" + " " + rest == r.pattern.trigger + "online" + (" " + rest);
    DispatchOfKey(r, "online", " " + rest);
    OnlineCommand.LeadingSpaceRejected(" " + rest);
  }

  /**
    Glued to the command by one non-whitespace separator, as in
    `<trigger>online_<address> <filters>`, the parameters reach `online`
    intact and its pattern splits them back into address and filters.
  */
  lemma GluedOnlineParses(r: Router, sep: char, address: string, filters: string)
    requires Covers(r) && r.commands == BuiltinCommands() && r.aliases == map[]
    requires !IsSpace(sep)
    requires address != [] && ' ' !in address && filters != [] && '$' !in filters
    requires NoNewline(address) && NoNewline(filters)
    ensures OnPrivateMessage(r, r.pattern.trigger + "online" + ([sep] + address + " " + filters))
         == [Invocation(Online, address + " " + filters)]
    ensures OnlineCommand.ParseParams(address + " " + filters) == Some((address, filters))
  {
    BuiltinRouterPrefixFree(r);
    var rest := [sep] + address + " " + filters;
    assert NoNewline(rest);
    DispatchOfKey(r, "online", rest);
    assert Capture(rest) == address + " " + filters;
    OnlineCommand.ParseParamsIff(address + " " + filters, address, filters);
  }

  /**
    An alias whose name extends a built-in command name never runs: the
    command keys come first in the alternation, so the shorter command key
    is chosen wherever the alias name would match.
  */
  lemma CommandNameShadowsAlias(r: Router, c: string, a: string, message: string)
    requires Covers(r) && r.commands == BuiltinCommands()
    requires |r.pattern.keys| >= |BuiltinCommands()|
    requires multiset(r.pattern.keys[..|BuiltinCommands()|]) == multiset(BuiltinCommands().Keys)
    requires c in BuiltinCommands() && a != c && HasPrefix(a, c) && NoNewline(a)
    requires FindStringSubmatch(r.pattern, message).Some?
    ensures FindStringSubmatch(r.pattern, message).value.key != a
  {
    var keys := r.pattern.keys;
    var s := keys[..|BuiltinCommands()|];
    var u := keys[|BuiltinCommands()|..];
    assert keys == s + u;
    assert "help" in r.commands;
    BuiltinNamesDistinguishable();
    assert a !in BuiltinCommands();
    assert c in multiset(s) && a !in multiset(s);
    EarlierKeyShadows(r.pattern.trigger, s, u, c, a, message);
  }

  /**
    With the built-in commands first in the alternation, a message that
    starts with the trigger and a built-in name `c` always selects `c`,
    whatever follows it (without a newline): the remainder is taken after
    `c`, so an alias named `c + x` is never reached.
  */
  lemma CommandKeyWins(r: Router, c: string, x: string, rest: string)
    requires Covers(r) && r.commands == BuiltinCommands()
    requires |r.pattern.keys| >= |BuiltinCommands()|
    requires multiset(r.pattern.keys[..|BuiltinCommands()|]) == multiset(BuiltinCommands().Keys)
    requires c in BuiltinCommands() && NoNewline(x + rest)
    ensures FindStringSubmatch(r.pattern, r.pattern.trigger + c + x + rest) == Some(Submatch(c, Capture(x + rest)))
  {
    var t := r.pattern.trigger;
    var keys := r.pattern.keys;
    var s := keys[..|BuiltinCommands()|];
    var u := keys[|BuiltinCommands()|..];
    assert keys == s + u;
    assert "help" in BuiltinCommands();
    assert Alternatives(r.pattern) == keys;
    var m := t + c + x + rest;
    assert m == (t + c) + (x + rest);
    assert m[..|t + c|] == t + c;
    assert Tail(t, c, m) == x + rest;
    assert c in multiset(s);
    FirstMatchComplete(t, s, m, c);
    FirstMatchAppend(t, s, u, m);
    FirstMatchSound(t, s, m);
    var k := FirstMatch(t, s, m).value.key;
    assert k in multiset(s);
    KeysComparable(t, k, c, m);
    BuiltinNamesDistinguishable();
  }

  /**
    Consequently `<trigger> + c + x + rest` runs the built-in `c` with
    `Capture(x + rest)`, plus an alias registered under `c` itself; an
    alias `c + x` does not run.
  */
  lemma AliasExtendingCommandRunsCommand(r: Router, c: string, x: string, rest: string)
    requires Covers(r) && r.commands == BuiltinCommands()
    requires |r.pattern.keys| >= |BuiltinCommands()|
    requires multiset(r.pattern.keys[..|BuiltinCommands()|]) == multiset(BuiltinCommands().Keys)
    requires c in BuiltinCommands() && NoNewline(x + rest)
    ensures OnPrivateMessage(r, r.pattern.trigger + c + x + rest)
      == [Invocation(BuiltinCommands()[c], Capture(x + rest))]
       + (if c in r.aliases then [Invocation(r.aliases[c].command, Substitute(r.aliases[c].format, Capture(x + rest)))] else [])
  {
    CommandKeyWins(r, c, x, rest);
  }

  /**
    With the alias `informal` for `info` (format `%s`), `<trigger>informal x`
    runs `info` alone, with `mal x`: `info` is matched and `\S?` takes the `r`.
  */
  lemma ShadowedAliasExample(r: Router)
    requires Covers(r) && r.commands == BuiltinCommands()
    requires r.aliases == map["informal" := Alias(Info, "%s")]
    requires |r.pattern.keys| >= |BuiltinCommands()|
    requires multiset(r.pattern.keys[..|BuiltinCommands()|]) == multiset(BuiltinCommands().Keys)
    ensures OnPrivateMessage(r, r.pattern.trigger + "informal x") == [Invocation(Info, "mal x")]
  {
    InformalSplits(r.pattern.trigger);
    assert "info" !in r.aliases;
    AliasExtendingCommandRunsCommand(r, "info", "rmal", " x");
  }

  /** The strings of that example, apart from any router. */
  lemma InformalSplits(t: string)
    ensures t + "informal x" == t + "info" + "rmal" + " x"
    ensures Capture("rmal" + " x") == "mal x"
  {
    assert "informal x" == "info" + "rmal" + " x";
    assert ("rmal" + " x")[1..] == "mal x";
  }
}
