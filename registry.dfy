/**
  The command and alias registries of main.go:115-201 and the alias text
  substitution of main.go:219-224.

  A handler (a Go closure in the source) is represented by which of the
  built-in commands it is; an invocation records the handler and its text.
*/
module Registry {
  import opened Strings

  /** The four closures of the `commands` map literal (main.go:117-178). */
  datatype Handler = Help | AliasCommand | Online | Info

  /** An alias as read from the alias file: a command name and a format. */
  datatype AliasUnresolved = AliasUnresolved(command: string, format: string)

  /** A resolved alias: the command's handler itself and the format. */
  datatype Alias = Alias(command: Handler, format: string)

  /** Outcome of alias resolution: the alias registry, or the fatal stop on an unknown command. */
  datatype Resolution = Resolved(aliases: map<string, Alias>) | Fatal(unknownCommand: string)

  /** The command registry as built by main.go:117-178. */
  function BuiltinCommands(): map<string, Handler> {
    map["help" := Help, "alias" := AliasCommand, "online" := Online, "info" := Info]
  }

  /**
    The alias restore loop (main.go:191-200): visits the definitions in the
    map's (unspecified) order, looks each referenced command up and stops
    the program (`log.Fatal`) at the first one that is missing.
  */
  method ResolveAliases(defs: map<string, AliasUnresolved>, commands: map<string, Handler>)
    returns (r: Resolution)
    ensures r.Resolved? <==> forall k :: k in defs ==> defs[k].command in commands
    ensures r.Resolved? ==> r.aliases.Keys == defs.Keys
    ensures r.Resolved? ==> forall k :: k in defs ==>
      r.aliases[k] == Alias(commands[defs[k].command], defs[k].format)
    ensures r.Fatal? ==> r.unknownCommand !in commands
    ensures r.Fatal? ==> exists k :: k in defs && defs[k].command == r.unknownCommand
  {
    var aliases: map<string, Alias> := map[];
    var left := defs.Keys;
    while left != {}
      invariant left <= defs.Keys
      invariant aliases.Keys == defs.Keys - left
      invariant forall k :: k in aliases ==>
        defs[k].command in commands && aliases[k] == Alias(commands[defs[k].command], defs[k].format)
      decreases left
    {
      var k :| k in left;
      var au := defs[k];
      if au.command !in commands {
        return Fatal(au.command);
      }
      aliases := aliases[k := Alias(commands[au.command], au.format)];
      left := left - {k};
    }
    return Resolved(aliases);
  }

  /** The built-in command names are prefix-free, so they never compete for a message. */
  lemma BuiltinNamesDistinguishable()
    ensures forall a, b :: a in BuiltinCommands() && b in BuiltinCommands() && a != b ==> !HasPrefix(b, a)
  {
    forall a, b | a in BuiltinCommands() && b in BuiltinCommands() && a != b
      ensures !HasPrefix(b, a)
    {
      assert a[0] != b[0];
      if |a| <= |b| {
        assert b[..|a|][0] == b[0];
      }
    }
  }

  // ---------------------------------------------------------------------
  // Alias text substitution
  // ---------------------------------------------------------------------

  /**
    `fmt.Sprintf(format, arg)` for formats whose only verb is one `%s`:
    the first `%s` takes the argument and the text after it is copied.
  */
  function Sprintf(format: string, arg: string): string
  {
    if |format| == 0 then ""
    else if |format| >= 2 && format[0] == '%' && format[1] == 's' then arg + format[2..]
    else [format[0]] + Sprintf(format[1..], arg)
  }

  /**
    The formats the model covers: no `%` at all, or exactly one `%s` and no
    other `%`.
  */
  predicate SimpleFormat(format: string) {
    '%' !in format ||
    exists i :: 0 <= i <= |format| - 2 && format[i..i + 2] == "%s"
      && '%' !in format[..i] && '%' !in format[i + 2..]
  }

  /** The text an alias hands to its command (main.go:219-224). */
  function Substitute(format: string, arg: string): string {
    if Contains(format, "%s") then Sprintf(format, arg) else format
  }

  /** The one `%s` of a format without any other `%` takes the argument. */
  lemma {:induction false} SprintfFill(pre: string, post: string, arg: string)
    requires '%' !in pre && '%' !in post
    ensures Sprintf(pre + "%s" + post, arg) == pre + arg + post
  {
    if |pre| > 0 {
      SprintfFill(pre[1..], post, arg);
      assert (pre + "%s" + post)[1..] == pre[1..] + "%s" + post;
    } else {
      assert pre + "%s" + post == "%s" + post;
    }
  }

  /** A format with one `%s` slot and no other `%` gets the argument in that slot. */
  lemma SubstituteFillsSlot(pre: string, post: string, arg: string)
    requires '%' !in pre && '%' !in post
    ensures Substitute(pre + "%s" + post, arg) == pre + arg + post
  {
    ContainsEmpty(post);
    assert HasPrefix("%s" + post, "%s");
    assert Contains("%s" + post, "%s");
    ContainsInfix(pre, "%s" + post, "", "%s");
    assert pre + ("%s" + post) + "" == pre + "%s" + post;
    SprintfFill(pre, post, arg);
  }

  /** A format without `%` is used as it is and the argument is discarded. */
  lemma SubstituteVerbatim(format: string, arg: string)
    requires '%' !in format
    ensures Substitute(format, arg) == format
  {
    forall i | 0 <= i <= |format| - 2
      ensures !OccursAt(format, "%s", i)
    {
      assert format[i..i + 2][0] == format[i];
    }
    ContainsIff(format, "%s");
  }

  /** The two lemmas above cover every format of the model. */
  lemma SimpleFormatCases(format: string, arg: string)
    requires SimpleFormat(format)
    ensures '%' !in format ==> Substitute(format, arg) == format
    ensures '%' in format ==>
      exists i :: 0 <= i <= |format| - 2 && format[i..i + 2] == "%s"
                  && Substitute(format, arg) == format[..i] + arg + format[i + 2..]
  {
    if '%' in format {
      var i :| 0 <= i <= |format| - 2 && format[i..i + 2] == "%s"
        && '%' !in format[..i] && '%' !in format[i + 2..];
      assert format == format[..i] + "%s" + format[i + 2..];
      SubstituteFillsSlot(format[..i], format[i + 2..], arg);
    } else {
      SubstituteVerbatim(format, arg);
    }
  }
}
