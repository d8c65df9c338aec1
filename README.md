# macaronia3 in Dafny

This project models the deterministic core of `main.go` in macaronia3, a Twitch chat bot that answers questions about game servers (it uses the Steam server query protocol). The bot's parts are:

- **Command pattern.** The bot builds one regular expression, `^<cmdChar>(k1|...|kn)\S?(.*?)$`, from the keys of its command and alias registries. Here it is modelled as the string matcher Go's leftmost-first regex engine amounts to for literal keys (`CommandPattern`).
- **Alias restore loop.** This loop turns alias definitions (a command name and a format) into resolved aliases. It stops the program on the first unknown command (`Registry`).
- **Message handler.** The handler matches a chat message. It then runs the command under the captured key with the captured remainder. Independently, it runs the alias under that key with the remainder substituted into the alias's format (`Dispatcher`). Handlers are the four built-in commands, named by a datatype. An invocation records the handler and the text it received.
- **`getServerInfo`.** A bounded retry loop wraps the rules query. A fold turns the `(Name, Value)` rule list into a server summary, using `strconv.Atoi` semantics for the two numeric rules (`ServerInfoQuery`).
- **The `info` command.** It queries its whole argument and says `"%d/%d on %s playing %s"` (`ServerInfoQuery`).
- **The `online` command.** It does four things (`OnlineCommand`):
  - parses `<address> <filter;filter;...>` with `^([^ ]+) ([^$]+)$`;
  - queries the players with the same retry discipline;
  - keeps each player whose name contains some filter, using the labelled nested loop;
  - says the kept names, quoted and tab-terminated.
- **Start-up.** Alias resolution against the built-in registry, followed by pattern construction (`Bot`).

The network is an oracle: a sequence with one reply per attempt, each either a failure message or an answer. Each method that queries returns the addresses it queried, one per attempt, and the number of 250 ms sleeps it would have taken. A `Say` becomes an `Option<string>` result. Go's map iteration order is modelled by arbitrary choice (`:|`) in the loops that visit a map. Go's 64-bit `int` is modelled explicitly: `Strings.Sub64` wraps around, and `Strings.Atoi` rejects out-of-range values.

**The separator after the command word.** One might expect `!info 1.2.3.4:27015` to hand `info` the text `1.2.3.4:27015`. The code passes ` 1.2.3.4:27015`, with the separating space kept: `\S?` does not consume whitespace, and `(.*?)$` then takes the rest. The model follows the code (`CommandPattern.SpaceSeparatorStays`, `Bot.InfoKeepsLeadingSpace`).

One consequence for `online`: with a space after the command word, the text it receives starts with a space. Its parameter pattern never matches such a text, so the command queries nothing and says nothing (`Bot.SpaceSeparatedOnlineIsSilent`). A non-space separator such as `!online_1.2.3.4:27015 Bob` works (`Bot.GluedOnlineParses`).

**Aliases that extend a command name.** The command keys precede the alias keys in the alternation. An alias whose name starts with a built-in command name, such as `informal`, is therefore never reached. The built-in command is selected, and the remainder is taken after the command's name. So `!informal x` runs `info` with `mal x`, because `\S?` takes the `r` (`Bot.CommandNameShadowsAlias`, `Bot.AliasExtendingCommandRunsCommand`, `Bot.ShadowedAliasExample`). An alias named exactly like a built-in command runs together with it, the command first (`Dispatcher.SharedKeyRunsBoth`).

Modules, one per file: `Wrappers` (Option and Result), `Strings` (the Go string and integer functions used), `Retry`, `CommandPattern`, `Registry`, `Dispatcher`, `ServerInfoQuery`, `OnlineCommand` and `Bot`.

## Model

| member | source | states |
|---|---|---|
| Strings.ContainsIff | main.go:150 | `strings.Contains(s, sub)` holds exactly when `sub` occurs at some position of `s` |
| Strings.ContainsEmpty | main.go:150 | every name contains the empty filter |
| Strings.Split | main.go:134 | `strings.Split` yields at least one piece, one more than the number of separators |
| Strings.SplitPiecesLackSeparator | main.go:134 | no piece of `strings.Split` contains the separator |
| Strings.JoinSplit | main.go:134 | joining the pieces with the separator gives the original text back |
| Strings.SplitJoin | main.go:134 | splitting a join of separator-free pieces gives exactly those pieces |
| Strings.Sub64 | main.go:80 | the 64-bit difference is in range, equals the true difference when that fits, and differs from it by a multiple of 2^64 |
| Strings.Atoi | main.go:65-66 | an accepted value lies in the 64-bit range |
| Strings.AtoiSyntax | main.go:65-66 | `Atoi` accepts only a non-empty digit run, optionally after one `+` or `-` |
| Strings.AtoiFormatInt | main.go:65-66 | reading a printed integer back yields it when it fits 64 bits, and a range error otherwise |
| Strings.AtoiDigits | main.go:65-66 | a digit run alone or after `+` reads as its value, after `-` as its negation, each a range error outside 64 bits |
| Strings.FormatNatDigits | main.go:175-176 | `%d` of a natural number prints a non-empty digit run whose value is the number |
| Strings.FormatIntAlphabet | main.go:175-176 | `%d` prints only a minus sign and digits |
| Retry.AttemptsUsed | main.go:49-58 | the number of attempts is between 1 and 3; every attempt before the last failed; the last was answered unless all 3 were used |
| Retry.AttemptsUsedFirstAnswer | main.go:49-58 | after failed attempts, the first answered attempt is the last one made |
| Retry.AttemptsUsedAllFail | main.go:52-56 | when the first three attempts fail, exactly three are made |
| CommandPattern.FirstMatchSound | main.go:44 | leftmost-first alternation returns one of the alternatives, one that lets the whole pattern match, with the capture of its tail |
| CommandPattern.FirstMatchComplete | main.go:44 | if any alternative lets the pattern match, the alternation matches |
| CommandPattern.FirstMatchAppend | main.go:44 | alternation over `s + u` is alternation over `s` when that matches, and over `u` otherwise |
| CommandPattern.FirstMatchNone | main.go:44 | when the alternation fails, no listed alternative lets the pattern match |
| CommandPattern.LongerKeyMatch | main.go:44 | a newline-free key that extends a key not matching the text does not match it either |
| CommandPattern.EarlierKeyShadows | main.go:44 | a key listed after a shorter key it extends is never the one selected |
| CommandPattern.KeysComparable | main.go:44 | two keys that both open the text after the trigger are prefixes of one another |
| CommandPattern.FindStringSubmatchSound | main.go:44 | a match means the text is trigger, key and a newline-free rest, with the key among the alternatives and the remainder the rest minus a leading non-whitespace character |
| CommandPattern.FindStringSubmatchComplete | main.go:44 | every trigger, alternative, newline-free rest text matches |
| CommandPattern.FindStringSubmatchPrefixFree | main.go:44 | with prefix-free keys, `trigger + key + rest` captures exactly that key and the capture of `rest` |
| CommandPattern.MatchIndependentOfKeyOrder | main.go:38-44 | with prefix-free keys, the order in which the keys were collected does not change the match |
| CommandPattern.SpaceSeparatorStays | main.go:44 | `!info 1.2.3.4` captures `info` and ` 1.2.3.4`, space included |
| CommandPattern.NonSpaceSeparatorDropped | main.go:44 | `!info_1.2.3.4` captures `1.2.3.4`: the non-space separator is dropped |
| CommandPattern.GluedArgumentLosesFirst | main.go:44 | `!info1.2.3.4` captures `.2.3.4`: without a separator the argument loses its first character |
| CommandPattern.CollectKeys | main.go:38-43 | one key loop collects every key of the map exactly once, in some order |
| CommandPattern.BuildPattern | main.go:36-45 | the pattern holds the trigger, the command keys and then the alias keys, each set exactly once (as multisets), and no other key |
| Registry.ResolveAliases | main.go:191-200 | resolution succeeds iff every definition names a known command; the registry then has exactly the definitions' keys, each with that command's handler and the unchanged format; on failure the reported command is both unknown and named by some definition |
| Registry.BuiltinNamesDistinguishable | main.go:117-178 | no built-in command name is a prefix of another |
| Registry.SprintfFill | main.go:221 | `Sprintf` puts the argument into the one `%s` slot of a format with no other `%` |
| Registry.SubstituteFillsSlot | main.go:219-224 | a format `pre%spost` with no other `%` gives `pre + remainder + post` |
| Registry.SubstituteVerbatim | main.go:219-224 | a format without `%` is used as it is and the remainder is discarded |
| Registry.SimpleFormatCases | main.go:219-224 | every format with at most one `%s` and no other `%` is covered by one of the two cases above |
| Dispatcher.OnlyRegisteredKeysDispatch | main.go:209-227 | a message runs a handler only when it is the trigger, a registered key and a newline-free rest |
| Dispatcher.DispatchOfKey | main.go:209-227 | with prefix-free keys and a newline-free `rest`, `trigger + k + rest` runs the command under `k` with the remainder, then the alias under `k` with the substituted text, and nothing else |
| Dispatcher.SharedKeyRunsBoth | main.go:214-227 | with prefix-free keys and a newline-free rest, a key in both registries runs two handlers, the command's first |
| Dispatcher.AliasActsAsItsCommand | main.go:218-226 | with prefix-free keys and a newline-free rest, an alias whose name is not a command name and whose format is `pre%spost` with no other `%` runs exactly its command, with `pre + remainder + post` |
| Dispatcher.NoTriggerNoDispatch | main.go:210-213 | a message that does not start with the trigger runs nothing |
| ServerInfoQuery.FirstBadNumberAt | main.go:64-75 | the reported bad value is the value of the first rule whose numeric value fails `Atoi` |
| ServerInfoQuery.FirstBadNumberNone | main.go:64-75 | without such a rule no error is reported |
| ServerInfoQuery.FirstBadExists | main.go:64-75 | a reported error always comes from a first failing numeric rule |
| ServerInfoQuery.FirstBadNoneAll | main.go:64-75 | no error means every numeric rule parses |
| ServerInfoQuery.LastValueAppend | main.go:61-79 | a rule appended at the end decides the value of its name and leaves the other names alone |
| ServerInfoQuery.FirstBadNumberAppend | main.go:64-75 | appending a rule changes the error only when there was none and the new rule is bad |
| ServerInfoQuery.FoldRules | main.go:60-81 | the rule loop succeeds iff the rule list has no bad numeric value; it then returns the last-value summary, otherwise the zero summary and the error on the first bad value |
| ServerInfoQuery.GetServerInfo | main.go:47-83 | queries the address once per attempt used (at most 3, stopping at the first answer); sleeps between attempts only; the first answer decides, a parse error included (not retried); three failures give the zero summary and the last transport error |
| ServerInfoQuery.UnrecognisedRuleIgnored | main.go:61-79 | a rule with any other name does not change the outcome |
| ServerInfoQuery.LaterRuleOverwrites | main.go:61-79 | a later owner or `p2` rule overwrites the name or map |
| ServerInfoQuery.BadCountFails | main.go:64-75 | a non-integer open-slot or slot count fails the query whatever follows it |
| ServerInfoQuery.ExampleRules | main.go:60-81 | owner Alice, 10 slots, 3 open, map de_dust2 give 7 players of 10 on de_dust2 |
| ServerInfoQuery.PlayersMayBeNegative | main.go:80 | more open slots than slots give a negative player count, not clamped |
| ServerInfoQuery.InfoReplyStartsWithPlayers | main.go:175-176 | the text before the first `/` of the reply reads back as the player count |
| ServerInfoQuery.InfoCommand | main.go:168-177 | queries the whole argument as the address; says something iff the deciding attempt was answered with a well-formed rule list, and then says that summary's reply |
| OnlineCommand.IndexOf | main.go:130 | the first position of the character, or the length, with no occurrence before it |
| OnlineCommand.ParseParamsIff | main.go:127-133 | the parameter pattern accepts exactly `address + " " + filters` with a non-empty, space-free address and non-empty filters without `$`, and returns those two |
| OnlineCommand.LeadingSpaceRejected | main.go:127-133 | a text starting with a space never matches the parameter pattern |
| OnlineCommand.FilterPlayers | main.go:147-155 | the labelled loop keeps, in order, exactly the players whose name contains some filter |
| OnlineCommand.KeptAppend | main.go:147-155 | filtering a concatenation filters each part, so protocol order is kept |
| OnlineCommand.KeptMultiplicity | main.go:147-155 | a matching player is kept as often as it occurs, once per occurrence; any other player never |
| OnlineCommand.EmptyFilterKeepsAll | main.go:134-155 | an empty filter piece keeps every player |
| OnlineCommand.ExampleSplit | main.go:134 | `Bob;Carl` splits into `Bob` and `Carl` |
| OnlineCommand.ExampleMatches | main.go:147-155 | `Bob` and `Carlos` match filter `Bob` or `Carl`, and `Dave` matches neither |
| OnlineCommand.KeptSingle | main.go:147-155 | a single player is kept iff its name contains some filter |
| OnlineCommand.KeptOuterTwo | main.go:147-155 | of three players with only the middle one unmatched, the outer two are kept, in order |
| OnlineCommand.ExampleFilter | main.go:134-155 | the filter text `Bob;Carl` keeps Bob and Carlos, in that order |
| OnlineCommand.BuildReply | main.go:161-164 | the builder loop writes each kept name quoted and followed by a tab |
| OnlineCommand.ReplyTextIsJoin | main.go:161-164 | the reply is the quoted names joined with tabs, with a final tab |
| OnlineCommand.ReplyTextReadsBack | main.go:161-165 | when no name holds a tab, cutting the reply at its tabs gives the quoted names in order and one empty piece |
| OnlineCommand.Online | main.go:126-167 | on a parameter mismatch, queries nothing and says nothing; otherwise queries the address once per attempt (at most 3) with a sleep between attempts; says something iff the deciding attempt was answered and some player is kept, and then says the reply for the kept players |
| Bot.Startup | main.go:115-206 | start-up succeeds iff every alias names a built-in command; the router then holds the built-ins, the resolved aliases and a pattern with the command character whose alternatives are exactly the registered keys, the command keys first and the alias keys after them |
| Bot.BuiltinRouterPrefixFree | main.go:117-178 | with only the built-in commands, the alternatives are the keys and are prefix-free |
| Bot.InfoKeepsLeadingSpace | main.go:209-216 | with no aliases, `<trigger>info 1.2.3.4:27015` runs `info` once with ` 1.2.3.4:27015` |
| Bot.SpaceSeparatedOnlineIsSilent | main.go:127-133 | with no aliases, `<trigger>online <rest>` hands `online` a text with a leading space, which its parameter pattern rejects |
| Bot.GluedOnlineParses | main.go:127-134 | with no aliases, `<trigger>online` followed by one non-whitespace separator, an address, a space and filters reaches `online` intact and parses into that address and those filters |
| Bot.CommandNameShadowsAlias | main.go:38-44 | in a started router, an alias whose newline-free name extends a built-in command name is never the selected key |
| Bot.CommandKeyWins | main.go:38-44 | in a started router, `<trigger> + c + x + rest` for a built-in `c` and newline-free `x + rest` selects `c` with the capture of `x + rest` |
| Bot.AliasExtendingCommandRunsCommand | main.go:209-227 | that message runs the built-in `c` with the capture of `x + rest`, plus an alias registered under `c` itself, and nothing else |
| Bot.ShadowedAliasExample | main.go:209-227 | with the single alias `informal` for `info`, `<trigger>informal x` runs `info` alone with `mal x` |

## Left out

- The Twitch client (connecting, joining channels, `Say`): a reply is a returned `Option<string>`, and the channel and user are not modelled.
- The Steam rules and players queries: they are an oracle of per-attempt replies. The transport is not modelled.
- The address given to the query is recorded but does not influence the oracle's reply. The query library decides what an address such as ` 1.2.3.4:27015` does, and that library is not part of this model.
- Rule and player parsing inside the query library, and every player field but the name: they belong to that library.
- `time.Sleep`: counted as sleeps, without real time.
- Reading `config.json` and `aliases.json`, JSON decoding, the log file and logging, and the `fmt.Println` traces (main.go:86-113, 180-190): foreign I/O. Decoded alias definitions are an input of `Bot.Startup`.
- A general regular-expression engine: the command character and the keys are taken as literal text. Keys or a command character holding regex metacharacters are not modelled, nor is the `regexp.Compile` error at main.go:203-206. When keys are not prefix-free, the alternation order decides the match. Command keys always come before alias keys, because the two loops run in that order (`CommandPattern.BuildPattern`, `Bot.Startup`). Within one map the order is Go's map iteration order, which the model keeps as an arbitrary choice.
- `regexp.MustCompile` of the parameter pattern: it is fixed and compiles.
- Registry.Substitute: models `fmt.Sprintf` only for formats with no `%`, or with one `%s` and no other `%`. Other verbs and the `%!s(MISSING)`/`%!(EXTRA ...)` renderings are not modelled. `Registry.SprintfFill` and `Registry.SubstituteFillsSlot` take that format shape as a hypothesis. `Substitute`'s verbatim branch matches Go for every format without `%s`, a lone `%` such as `100%` included. `Registry.SubstituteVerbatim` states it only for formats without any `%`, which is narrower than that branch.
- Strings.Atoi: a failure is `None`. Go's distinction between a syntax error and a range error is not kept, and a failed query reports `NotAnInt` with the offending value instead of Go's error text.
- Go `int` is taken as 64 bits. A 32-bit platform is not modelled.
- Strings are sequences of characters. Go's strings are UTF-8 bytes, but every operation used here (prefix, containment, splitting at ASCII separators) treats both alike for valid text.
- The bodies of the `help` and `alias` handlers, which only say constant text (main.go:118-125): they are handler names with no further behaviour.
- Concurrency between message callbacks is not modelled; each message is handled on its own.
