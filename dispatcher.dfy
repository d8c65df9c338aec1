/**
  The `OnPrivateMessage` closure of main.go:209-227: match the message,
  run the command under the captured key, then, independently, run the
  alias under that key with the substituted text.
*/
module Dispatcher {
  import opened Wrappers
  import opened Strings
  import opened CommandPattern
  import opened Registry

  /** One handler call: which handler ran and the text it received. */
  datatype Invocation = Invocation(handler: Handler, text: string)

  /** What the closure captures: both registries and the compiled pattern. */
  datatype Router = Router(commands: map<string, Handler>, aliases: map<string, Alias>, pattern: Pattern)

  /** The pattern's alternatives are exactly the keys of the two registries. */
  ghost predicate Covers(r: Router) {
    forall k :: k in r.pattern.keys <==> k in r.commands || k in r.aliases
  }

  /** The handler calls one message causes, in order. */
  function OnPrivateMessage(r: Router, message: string): seq<Invocation> {
    match FindStringSubmatch(r.pattern, message)
    case None => []
    case Some(m) =>
      (if m.key in r.commands then [Invocation(r.commands[m.key], m.remainder)] else [])
      + (if m.key in r.aliases
         then [Invocation(r.aliases[m.key].command, Substitute(r.aliases[m.key].format, m.remainder))]
         else [])
  }

  /**
    A message runs a handler only when it is the trigger, a registered key
    and a newline-free rest.
  */
  lemma OnlyRegisteredKeysDispatch(r: Router, message: string)
    requires Covers(r)
    requires OnPrivateMessage(r, message) != []
    ensures exists k :: (k in r.commands || k in r.aliases) && MatchesWith(r.pattern.trigger, k, message)
  {
    var m := FindStringSubmatch(r.pattern, message).value;
    FindStringSubmatchSound(r.pattern, message);
    assert m.key in r.commands || m.key in r.aliases;
  }

  /**
    With prefix-free keys: a message `trigger + k + rest` (no newline in
    `rest`) runs the command under `k` with the remainder, then the alias
    under `k` with its substituted text; nothing else.
  */
  lemma DispatchOfKey(r: Router, k: string, rest: string)
    requires Covers(r) && PrefixFree(Alternatives(r.pattern))
    requires k in r.commands || k in r.aliases
    requires NoNewline(rest)
    ensures OnPrivateMessage(r, r.pattern.trigger + k + rest)
      == (if k in r.commands then [Invocation(r.commands[k], Capture(rest))] else [])
       + (if k in r.aliases then [Invocation(r.aliases[k].command, Substitute(r.aliases[k].format, Capture(rest)))] else [])
  {
    assert r.pattern.keys != [];
    FindStringSubmatchPrefixFree(r.pattern, k, rest);
  }

  /** A key in both registries runs both handlers, the command's first. */
  lemma SharedKeyRunsBoth(r: Router, k: string, rest: string)
    requires Covers(r) && PrefixFree(Alternatives(r.pattern))
    requires k in r.commands && k in r.aliases && NoNewline(rest)
    ensures var inv := OnPrivateMessage(r, r.pattern.trigger + k + rest);
      |inv| == 2 && inv[0].handler == r.commands[k] && inv[1].handler == r.aliases[k].command
  {
    DispatchOfKey(r, k, rest);
  }

  /**
    An alias `a` for command `c` with format `pre%spost` behaves as the
    command itself invoked with `pre + remainder + post`.
  */
  lemma AliasActsAsItsCommand(r: Router, a: string, c: string, pre: string, post: string, rest: string)
    requires Covers(r) && PrefixFree(Alternatives(r.pattern))
    requires c in r.commands && a in r.aliases && a !in r.commands
    requires r.aliases[a] == Alias(r.commands[c], pre + "%s" + post)
    requires '%' !in pre && '%' !in post && NoNewline(rest)
    ensures OnPrivateMessage(r, r.pattern.trigger + a + rest)
         == [Invocation(r.commands[c], pre + Capture(rest) + post)]
  {
    DispatchOfKey(r, a, rest);
    SubstituteFillsSlot(pre, post, Capture(rest));
  }

  /** A message that does not start with the trigger runs nothing. */
  lemma NoTriggerNoDispatch(r: Router, message: string)
    requires !HasPrefix(message, r.pattern.trigger)
    ensures OnPrivateMessage(r, message) == []
  {
    if FindStringSubmatch(r.pattern, message).Some? {
      FindStringSubmatchSound(r.pattern, message);
    }
  }
}
