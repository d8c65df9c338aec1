/**
  The command pattern of main.go:36-45: `^<cmdChar>(k1|...|kn)\S?(.*?)$`,
  built from the keys of the command and alias registries.

  The regular expression is not interpreted by a regex engine; `Pattern`
  keeps what was spliced into it (the trigger and the alternatives in the
  order the keys were collected) and `FindStringSubmatch` states what Go's
  leftmost-first matcher returns for it when trigger and keys are literal
  text. The alternatives are tried in order, the first that lets the whole
  pattern match wins, `\S?` then greedily takes one non-whitespace
  character, and `(.*?)$` takes the rest of the line, which may hold no
  newline (`.` excludes it and `$` is end of text).
*/
module CommandPattern {
  import opened Wrappers
  import opened Strings

  /** The compiled pattern: trigger text and the alternation, in order. */
  datatype Pattern = Pattern(trigger: string, keys: seq<string>)

  /** The two capture groups of a match: the key and the remainder. */
  datatype Submatch = Submatch(key: string, remainder: string)

  predicate NoNewline(s: string) {
    '\n' !in s
  }

  /**
    The alternatives tried, in order. Joining no keys leaves the group `()`,
    which matches the empty key.
  */
  function Alternatives(p: Pattern): seq<string> {
    if p.keys == [] then [""] else p.keys
  }

  /** The text after trigger and key. */
  function Tail(trigger: string, key: string, text: string): string
    requires HasPrefix(text, trigger + key)
  {
    text[|trigger| + |key|..]
  }

  /** Alternative `key` lets the whole pattern match `text`. */
  predicate MatchesWith(trigger: string, key: string, text: string) {
    HasPrefix(text, trigger + key) && NoNewline(Tail(trigger, key, text))
  }

  /** Capture 2 of `\S?(.*?)$` on a newline-free tail. */
  function Capture(rest: string): string {
    if |rest| > 0 && !IsSpace(rest[0]) then rest[1..] else rest
  }

  /** Leftmost-first alternation over `alts`. */
  function FirstMatch(trigger: string, alts: seq<string>, text: string): Option<Submatch>
  {
    if alts == [] then None
    else if MatchesWith(trigger, alts[0], text) then
      Some(Submatch(alts[0], Capture(Tail(trigger, alts[0], text))))
    else FirstMatch(trigger, alts[1..], text)
  }

  /** `reCommands.FindStringSubmatch(text)`, `None` standing for `nil`. */
  function FindStringSubmatch(p: Pattern, text: string): Option<Submatch> {
    FirstMatch(p.trigger, Alternatives(p), text)
  }

  /** No key is a prefix of another (distinct) key. */
  predicate PrefixFree(keys: seq<string>) {
    forall a, b :: a in keys && b in keys && a != b ==> !HasPrefix(b, a)
  }

  lemma {:induction false} FirstMatchSound(trigger: string, alts: seq<string>, text: string)
    requires FirstMatch(trigger, alts, text).Some?
    ensures FirstMatch(trigger, alts, text).value.key in alts
    ensures MatchesWith(trigger, FirstMatch(trigger, alts, text).value.key, text)
    ensures FirstMatch(trigger, alts, text).value.remainder
         == Capture(Tail(trigger, FirstMatch(trigger, alts, text).value.key, text))
  {
    if !MatchesWith(trigger, alts[0], text) {
      FirstMatchSound(trigger, alts[1..], text);
    }
  }

  lemma {:induction false} FirstMatchComplete(trigger: string, alts: seq<string>, text: string, key: string)
    requires key in alts && MatchesWith(trigger, key, text)
    ensures FirstMatch(trigger, alts, text).Some?
  {
    if !MatchesWith(trigger, alts[0], text) {
      FirstMatchComplete(trigger, alts[1..], text, key);
    }
  }

  /**
    Alternatives are tried in order: over a concatenation, the first part
    decides whenever one of its alternatives matches.
  */
  lemma {:induction false} FirstMatchAppend(trigger: string, s: seq<string>, u: seq<string>, text: string)
    ensures FirstMatch(trigger, s + u, text)
         == if FirstMatch(trigger, s, text).Some? then FirstMatch(trigger, s, text) else FirstMatch(trigger, u, text)
  {
    if s == [] {
      assert s + u == u;
    } else {
      assert (s + u)[0] == s[0] && (s + u)[1..] == s[1..] + u;
      FirstMatchAppend(trigger, s[1..], u, text);
    }
  }

  /** When no alternative of `alts` is chosen, none of them lets the pattern match. */
  lemma {:induction false} FirstMatchNone(trigger: string, alts: seq<string>, text: string, key: string)
    requires FirstMatch(trigger, alts, text).None? && key in alts
    ensures !MatchesWith(trigger, key, text)
  {
    if alts[0] != key {
      FirstMatchNone(trigger, alts[1..], text, key);
    }
  }

  /**
    A key that extends another by newline-free text matches only where the
    shorter one matches too.
  */
  lemma LongerKeyMatch(trigger: string, short: string, long: string, text: string)
    requires HasPrefix(long, short) && NoNewline(long)
    requires !MatchesWith(trigger, short, text)
    ensures !MatchesWith(trigger, long, text)
  {
    if HasPrefix(text, trigger + long) {
      assert text[..|trigger + short|] == (trigger + long)[..|trigger + short|];
      assert (trigger + long)[..|trigger + short|] == trigger + short;
      assert Tail(trigger, long, text) == text[|trigger + long|..];
      assert text[|trigger + short|..] == long[|short|..] + Tail(trigger, long, text);
      assert '\n' !in long[|short|..];
    }
  }

  /**
    An alternative of the later part that extends an alternative of the
    earlier part is never chosen.
  */
  lemma EarlierKeyShadows(trigger: string, s: seq<string>, u: seq<string>, short: string, long: string, text: string)
    requires short in s && long !in s && HasPrefix(long, short) && NoNewline(long)
    requires FirstMatch(trigger, s + u, text).Some?
    ensures FirstMatch(trigger, s + u, text).value.key != long
  {
    FirstMatchAppend(trigger, s, u, text);
    if FirstMatch(trigger, s, text).Some? {
      FirstMatchSound(trigger, s, text);
    } else {
      FirstMatchNone(trigger, s, text, short);
      LongerKeyMatch(trigger, short, long, text);
      FirstMatchSound(trigger, u, text);
    }
  }

  /**
    A match is a message `trigger + key + rest` with `key` one of the
    alternatives and `rest` free of newlines; the captured remainder is
    `rest` without its first character when that one is not whitespace.
  */
  lemma FindStringSubmatchSound(p: Pattern, text: string)
    requires FindStringSubmatch(p, text).Some?
    ensures var m := FindStringSubmatch(p, text).value;
      && m.key in Alternatives(p)
      && MatchesWith(p.trigger, m.key, text)
      && text == p.trigger + m.key + Tail(p.trigger, m.key, text)
      && m.remainder == Capture(Tail(p.trigger, m.key, text))
  {
    FirstMatchSound(p.trigger, Alternatives(p), text);
    var m := FindStringSubmatch(p, text).value;
    assert text == text[..|p.trigger + m.key|] + text[|p.trigger + m.key|..];
  }

  /** Every message of the form `trigger + key + rest` with a newline-free `rest` matches. */
  lemma FindStringSubmatchComplete(p: Pattern, key: string, rest: string)
    requires key in Alternatives(p) && NoNewline(rest)
    ensures FindStringSubmatch(p, p.trigger + key + rest).Some?
  {
    var text := p.trigger + key + rest;
    assert text[..|p.trigger + key|] == p.trigger + key;
    assert Tail(p.trigger, key, text) == rest;
    FirstMatchComplete(p.trigger, Alternatives(p), text, key);
  }

  /** Two keys that both open the same text are prefixes of one another. */
  lemma PrefixesCompare(text: string, a: string, b: string)
    requires HasPrefix(text, a) && HasPrefix(text, b) && |a| <= |b|
    ensures HasPrefix(b, a)
  {
    assert b[..|a|] == text[..|b|][..|a|];
  }

  lemma PrefixCancel(t: string, a: string, b: string)
    requires HasPrefix(t + b, t + a)
    ensures HasPrefix(b, a)
  {
    assert (t + b)[..|t + a|][|t|..] == b[..|a|];
  }

  /** Two keys whose pattern both open the same text are prefixes of one another. */
  lemma KeysComparable(t: string, k1: string, k2: string, text: string)
    requires HasPrefix(text, t + k1) && HasPrefix(text, t + k2)
    ensures HasPrefix(k1, k2) || HasPrefix(k2, k1)
  {
    if |k1| <= |k2| {
      PrefixesCompare(text, t + k1, t + k2);
      PrefixCancel(t, k1, k2);
    } else {
      PrefixesCompare(text, t + k2, t + k1);
      PrefixCancel(t, k2, k1);
    }
  }

  /**
    With prefix-free keys the match is determined by the message alone:
    `trigger + key + rest` captures exactly `key` and `Capture(rest)`,
    whatever order the keys were collected in.
  */
  lemma {:induction false} FindStringSubmatchPrefixFree(p: Pattern, key: string, rest: string)
    requires PrefixFree(Alternatives(p))
    requires key in Alternatives(p) && NoNewline(rest)
    ensures FindStringSubmatch(p, p.trigger + key + rest) == Some(Submatch(key, Capture(rest)))
  {
    var text := p.trigger + key + rest;
    FindStringSubmatchComplete(p, key, rest);
    FindStringSubmatchSound(p, text);
    var m := FindStringSubmatch(p, text).value;
    assert HasPrefix(text, p.trigger + key) by {
      assert text[..|p.trigger + key|] == p.trigger + key;
    }
    assert HasPrefix(text, p.trigger + m.key);
    if |m.key| <= |key| {
      PrefixesCompare(text, p.trigger + m.key, p.trigger + key);
      PrefixCancel(p.trigger, m.key, key);
    } else {
      PrefixesCompare(text, p.trigger + key, p.trigger + m.key);
      PrefixCancel(p.trigger, key, m.key);
    }
    assert m.key == key;
    assert Tail(p.trigger, key, text) == rest;
  }

  /** With prefix-free keys, the order in which the keys were collected does not change the outcome. */
  lemma MatchIndependentOfKeyOrder(p: Pattern, q: Pattern, text: string)
    requires p.trigger == q.trigger
    requires forall k :: k in Alternatives(p) <==> k in Alternatives(q)
    requires PrefixFree(Alternatives(p))
    ensures FindStringSubmatch(p, text) == FindStringSubmatch(q, text)
  {
    assert PrefixFree(Alternatives(q));
    if FindStringSubmatch(p, text).Some? {
      FindStringSubmatchSound(p, text);
      var m := FindStringSubmatch(p, text).value;
      FindStringSubmatchPrefixFree(q, m.key, Tail(p.trigger, m.key, text));
      FindStringSubmatchPrefixFree(p, m.key, Tail(p.trigger, m.key, text));
    } else if FindStringSubmatch(q, text).Some? {
      FindStringSubmatchSound(q, text);
      var m := FindStringSubmatch(q, text).value;
      FindStringSubmatchComplete(p, m.key, Tail(q.trigger, m.key, text));
    }
  }

  /** The separator is not consumed when it is a space: it stays in the remainder. */
  lemma SpaceSeparatorStays()
    ensures FindStringSubmatch(Pattern("!", ["info"]), "!info 1.2.3.4")
         == Some(Submatch("info", " 1.2.3.4"))
  {
    var p := Pattern("!", ["info"]);
    FindStringSubmatchPrefixFree(p, "info", " 1.2.3.4");
    assert "!" + "info" + " 1.2.3.4" == "!info 1.2.3.4";
  }

  /** A non-whitespace separator is dropped. */
  lemma NonSpaceSeparatorDropped()
    ensures FindStringSubmatch(Pattern("!", ["info"]), "!info_1.2.3.4")
         == Some(Submatch("info", "1.2.3.4"))
  {
    FindStringSubmatchPrefixFree(Pattern("!", ["info"]), "info", "_1.2.3.4");
    assert "!" + "info" + "_1.2.3.4" == "!info_1.2.3.4";
  }

  /** Without a separator the first character of the argument is dropped. */
  lemma GluedArgumentLosesFirst()
    ensures FindStringSubmatch(Pattern("!", ["info"]), "!info1.2.3.4")
         == Some(Submatch("info", ".2.3.4"))
  {
    FindStringSubmatchPrefixFree(Pattern("!", ["info"]), "info", "1.2.3.4");
    assert "!" + "info" + "1.2.3.4" == "!info1.2.3.4";
  }

  /**
    `getRegexFromCommandsAndAliases`: collects the command keys, then the
    alias keys, and splices them into the pattern. A key in both maps is
    collected twice.
  */
  method BuildPattern<C, A>(cmdChar: string, cmds: map<string, C>, aliases: map<string, A>)
    returns (p: Pattern)
    ensures p.trigger == cmdChar
    ensures |p.keys| == |cmds| + |aliases|
    ensures multiset(p.keys[..|cmds|]) == multiset(cmds.Keys)
    ensures multiset(p.keys[|cmds|..]) == multiset(aliases.Keys)
    ensures forall k :: k in p.keys <==> k in cmds || k in aliases
  {
    var s := CollectKeys(cmds);
    var t := CollectKeys(aliases);
    p := Pattern(cmdChar, s + t);
    CollectedKeys(s, t, cmds.Keys, aliases.Keys);
  }

  /** One `for k := range m` loop appending the keys, in the map's (unspecified) order. */
  method CollectKeys<V>(m: map<string, V>) returns (s: seq<string>)
    ensures multiset(s) == multiset(m.Keys)
  {
    s := [];
    var left := m.Keys;
    while left != {}
      invariant left <= m.Keys
      invariant multiset(s) == multiset(m.Keys - left)
      decreases left
    {
      var k :| k in left;
      TakeOneKey(m.Keys, left, k);
      s := s + [k];
      left := left - {k};
    }
    assert m.Keys - left == m.Keys;
  }

  lemma TakeOneKey<T>(all: set<T>, left: set<T>, c: T)
    requires c in left && left <= all
    ensures multiset(all - (left - {c})) == multiset(all - left) + multiset{c}
  {
    assert all - (left - {c}) == (all - left) + {c};
  }

  lemma CollectedKeys<T>(s: seq<T>, t: seq<T>, x: set<T>, y: set<T>)
    requires multiset(s) == multiset(x) && multiset(t) == multiset(y)
    ensures |s| == |x| && |t| == |y|
    ensures (s + t)[..|s|] == s && (s + t)[|s|..] == t
    ensures forall k :: k in s + t <==> k in x || k in y
  {
    assert |s| == |multiset(s)| == |multiset(x)| == |x|;
    assert |t| == |multiset(t)| == |multiset(y)| == |y|;
    forall k
      ensures k in s + t <==> k in x || k in y
    {
      assert k in s <==> k in multiset(s);
      assert k in t <==> k in multiset(t);
    }
  }
}
