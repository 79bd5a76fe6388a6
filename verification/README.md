# wmcc-node configuration, plugin registry and page helpers in Dafny

This project models three parts of the wmcc-node full node.

**The configuration resolver** (`lib/config.js`). A `Config` holds six
key/value tiers. From highest to lowest precedence they are the URL hash, the
URL query, the command-line arguments, the environment, the configuration file
and the injected options. It also holds the positional arguments and the
passthrough list. Every lookup canonicalises the key: hyphens are removed and
letters lower-cased. The parsers fill the tiers:

- `parseConfig` reads `key: value` or `key=value` files;
- `parseArg` reads the command line;
- `parseEnv` reads `<MODULE>_<KEY>` variables;
- `parseQuery` and `parseHash` read `key=value&…` forms.

`load` runs them in a fixed order and then validates the network name. The
typed accessors (`str`, `int`, `uint`, `bool`, `array`, `mb`) read values back
out.

**The plugin registry and lifecycle of `Node`.** The source writes it twice
with identical behaviour: a class in `lib/node.js` and a prototype version in
`lib/node/node.js`. It is modelled once. Rows of the table below cite either file, and the
corresponding lines of the other file behave the same.

- `use` validates a plugin, indexes it under its id and pushes it on the stack.
- `has`, `get` and `require` look plugins up.
- `loadPlugins` resolves names through a loader.
- `openPlugins` and `closePlugins` walk the stack.
- `bind`, `handleOpen`, `handleClose` and `uptime` keep the listener and
  start-time bookkeeping.

**The pure helpers of the information pages** (`lib/node/info.js`):

- the page-number window `median`;
- the navigation arithmetic of `page`;
- the row bound `until`;
- the duplicate filter `filtermeta`;
- the comparator `compare`;
- the duration text `age(t, true)`.

Modules, one per file:

| module | covers |
|---|---|
| `Wrappers` | `Option` and `Result` |
| `Text` | the JavaScript string built-ins the source relies on |
| `Keys` | key predicates, canonical keys, the alias table |
| `Store` | the `Config` record, `get`, `has`, `set`, `inject` |
| `Accessors` | the typed accessors |
| `ConfigFile`, `Args`, `Env`, `Form` | the four parsers |
| `Loading` | `load` |
| `Registry` | the node's plugin registry |
| `Pages`, `Meta`, `Age` | the information-page helpers |

The parsers return a `Result` instead of throwing.

`decodeURIComponent` is the parameter `decode` of the form parser. It returns
`None` where the built-in throws.

The three places where the source consults the clock or the process take
explicit inputs instead:

- the time given to `handleOpen` and `uptime`;
- the environment given to `parseEnv`;
- the argument vector given to `parseArg`.

Only long command-line options (`--n`) and environment variables skip the
alias table for one-character keys. The configuration file, the URL forms and
short flag clusters turn `n` into `network`.

## Model

| member | source | states |
|---|---|---|
| Keys.LowerKeyIsAlpha | lib/config.js:960-980 | a lower-case key is exactly what `isAlpha` accepts, and lower-casing an upper-case key gives a lower-case key |
| Keys.Canon | lib/config.js:170-174 | the canonical key has no hyphen and no upper-case letter and is no longer than the name |
| Keys.CanonCaseInsensitive | lib/config.js:170-174 | names differing only in letter case have one canonical key |
| Keys.CanonHyphenInsensitive | lib/config.js:170-174 | names differing only in a hyphen have one canonical key |
| Keys.CanonIdempotent | lib/config.js:170-174 | canonicalising a canonical key changes nothing |
| Keys.CanonOfLowerKey | lib/config.js:968-973 | a key `isLowerKey` accepts is already canonical |
| Keys.Aliased | lib/config.js:861-865 | a key without an alias entry is kept as it is |
| Keys.AliasedIsCanonical | lib/config.js:861-865 | aliasing a lower-case key, with or without the one-character exemption, gives a canonical lower-case key, so stored values stay reachable by `get` |
| Keys.ConstructorKeyUnreachable | lib/config.js:861-865 | as written, the key `constructor` passes `isLowerKey` but is renamed to a key that no name canonicalises to |
| Store.Create | lib/config.js:22-38 | a new configuration has every tier empty, no positional or passthrough arguments, and network `mainnet` |
| Store.Lookup | lib/config.js:176-192 | the value found is the one in the highest-precedence tier holding the key; nothing is found exactly when no tier holds it |
| Store.Get | lib/config.js:145-195 | an index below the positional count gives that positional argument and any other index the fallback; a name gives the fallback exactly when no tier holds its canonical key, so nothing comes back only when the fallback is nothing and the key is unresolved |
| Store.Has | lib/config.js:111-143 | a list of keys is refused; a name is present exactly when some tier holds its canonical key |
| Store.GetPrecedence | lib/config.js:145-195 | `get` by name returns the value of the highest tier holding the canonical key |
| Store.GetFallback | lib/config.js:145-195 | with no tier holding the key, `get` returns the fallback |
| Store.GetCanonical | lib/config.js:111-195 | two names with the same canonical key give the same `get` and `has` answers |
| Store.HasIffGet | lib/config.js:111-195 | `has` is true exactly when `get` without a fallback finds a value |
| Store.GetCandidates | lib/config.js:149-157 | a list of keys yields the value of the first candidate that resolves |
| Store.GetCandidatesNone | lib/config.js:149-158 | a list of keys none of which resolves yields the fallback |
| Store.Set | lib/config.js:99-109 | `set` with a value writes only the options tier, under the canonical key; with no value it changes nothing |
| Store.SetThenGet | lib/config.js:99-109 | after `set`, `get` returns the new value when no higher tier holds the key |
| Store.SetShadowed | lib/config.js:99-109 | `set` never changes `get` for a key that a higher tier holds |
| Store.Inject | lib/config.js:44-59 | only the options tier changes, no key leaves it, and every entry reaching `set` with a value has its canonical key there afterwards |
| Store.InjectSpec | lib/config.js:44-59 | `inject` writes exactly the non-meta entries that have values into the options tier, in order, under canonical keys |
| Store.AssignSpec | lib/config.js:616-620 | after a sequence of tier writes, a key is present exactly when it was before or some write names it, and it holds the last such write's value |
| Accessors.Str | lib/config.js:206-219 | unset gives the fallback; a string is returned; any other value fails |
| Accessors.Int | lib/config.js:221-249 | unset gives the fallback; success exactly for decimal text or a number that is a safe integer, and the result is safe; a safe integral number is returned as it is and safe decimal text as the integer it denotes |
| Accessors.IntReadsShownInt | lib/config.js:221-249 | `int` reads a printed safe integer back as that integer |
| Accessors.Uint | lib/config.js:251-264 | `uint` succeeds exactly when `int` does with a non-negative result, which it returns |
| Accessors.Mb | lib/config.js:485-495 | `mb` fails exactly when `uint` does; otherwise it is `uint`'s result times 1048576 |
| Accessors.MbExample | lib/config.js:485-495 | the text `100` gives 104857600 bytes |
| Accessors.Bool | lib/config.js:345-376 | true exactly for `"true"`, `"1"`, 1 and `true`; false exactly for `"false"`, `"0"`, 0 and `false`; any other value fails |
| Accessors.SplitList | lib/config.js:419-427 | every list item is non-empty, trimmed and comma-free |
| Accessors.SplitListJoin | lib/config.js:419-427 | splitting a comma-joined list of such items gives the items back |
| Accessors.Array | lib/config.js:404-430 | unset gives the fallback; an array passes through; a string becomes exactly its comma-separated, trimmed, non-empty items; any other value fails |
| Accessors.NetworkFrom | lib/config.js:497-506 | unset or empty gives `mainnet`; a string is accepted exactly when it is lower-case alphanumeric; a non-string fails |
| Accessors.Network | lib/config.js:497-506 | a network that `getNetwork` accepts is lower-case alphanumeric; it fails only with a bad name or a non-string |
| ConfigFile.NormalizeNewlines | lib/config.js:560-561 | no carriage return survives, the text does not grow, and every character kept other than a newline comes from the input |
| ConfigFile.NormalizeTwoPasses | lib/config.js:560-561 | the single rewrite equals the two passes: every `\r\n` becomes `\n`, then every remaining `\r` becomes `\n` |
| ConfigFile.SepOf | lib/config.js:579-601 | a line has a separator exactly when it contains `:` or `=`; it is the earlier of the two, with neither before it |
| ConfigFile.Classify | lib/config.js:569-610 | a line is blank exactly when it is empty or a comment after trimming, and unseparated exactly when it is neither and has no `:` or `=`; otherwise its key is the trimmed, hyphen-free text before the first separator and its value the trimmed text after it |
| ConfigFile.ParseLine | lib/config.js:573-620 | a failure is on a non-blank line and names that line's number; success carries the separator style the file has from then on |
| ConfigFile.ParseLines | lib/config.js:570-621 | a successful parse writes at most one value per line |
| ConfigFile.ParseLineSpec | lib/config.js:573-620 | one line: blank and comment lines are skipped; a missing separator fails expecting the file's separator (`:` until one is set), a separator differing from the file's first fails expecting the first, and a bad key fails as an invalid option naming the key, each on that line; an empty value writes nothing |
| ConfigFile.ParseLinesAccepted | lib/config.js:564-620 | a file parses exactly when every content line has a valid key and all use the first line's separator; the writes are then the non-empty values in order, keys aliased |
| ConfigFile.ParseLinesErrorLine | lib/config.js:584-608 | a failure names a non-blank line; every earlier line is accepted, and the failure is exactly that line's own error under the separator style the earlier lines set |
| ConfigFile.WritesShape | lib/config.js:603-620 | when every content line has a valid key, as in any accepted file, every write has a lower-case alphanumeric key and a non-empty trimmed value |
| ConfigFile.ParseConfigSpec | lib/config.js:554-622 | `parseConfig` succeeds exactly on files obeying the separator rule; then it adds the writes to the file tier and nothing else; a failure names a line between 1 and the line count, every earlier line is accepted, and the error is that line's own |
| ConfigFile.ParseConfig | lib/config.js:554-622 | a successful parse changes only the file tier |
| ConfigFile.MixedSeparators | lib/config.js:584-597 | `a: b` followed by `c=d` fails on line 2 expecting `:`, while `c=d` alone parses |
| ConfigFile.PlainLines | lib/config.js:557-568 | a file with no byte-order mark, carriage return or backslash is split at its newlines unchanged |
| Args.LongParts | lib/config.js:653-672 | without `=`, `--key` is the key text with value `true`, marked pending; with `=`, the token splits at its first `=` |
| Args.VerbatimMembers | lib/config.js:638-646 | the passthrough list holds exactly the tokens other than a further `--`, each as often as it occurs |
| Args.VerbatimAppend | lib/config.js:638-646 | the passthrough list of two runs of tokens is that of the first followed by that of the second, so order is kept |
| Args.Passthrough | lib/config.js:638-646 | once passthrough is on, every later token goes to the passthrough list verbatim and nothing else changes |
| Args.FoldAppend | lib/config.js:633-738 | parsing two runs of tokens is parsing the first and continuing from its state |
| Args.FirstSeparator | lib/config.js:638-646 | everything after the first `--` lands in the passthrough list, whatever it looks like |
| Args.ClusterSpec | lib/config.js:697-721 | a `-abc` cluster succeeds exactly when every character is a letter, a digit or `?`; it sets each one (aliased) to `true` and leaves the last pending; otherwise it fails naming the first bad character, all characters before it being valid |
| Args.FoldSane | lib/config.js:633-738 | every argument write has a lower-case key or a single flag character, and a non-empty value |
| Args.BareLongParts | lib/config.js:667-671 | `--key` splits into the key, the value `true` and a pending mark |
| Args.InlineLongParts | lib/config.js:660-665 | `--key=value` splits into the key and the value, with no pending mark |
| Args.PendingValue | lib/config.js:653-737 | `--key value` first stores `true`, then the value, under the aliased key |
| Args.InlineValue | lib/config.js:653-737 | after `--key=value`, the next plain token is positional |
| Args.UpperShortFlagUnreachable | lib/config.js:697-721 | an upper-case short flag is stored under a key that no canonical lookup produces |
| Args.ParseArg | lib/config.js:624-738 | on success only the argument tier, the positional list and the passthrough list change, and the two lists only grow; a failure is an invalid argument |
| Args.Step | lib/config.js:638-737 | one token only extends the writes, the positional list and the passthrough list; it fails only as an invalid argument before passthrough starts |
| Args.Fold | lib/config.js:636-737 | a run of tokens only extends the writes and the two lists; a failure is an invalid argument |
| Args.Long | lib/config.js:653-693 | a long option adds at most one write, changes nothing but the writes and the pending key, and fails only naming a `--` argument |
| Args.Cluster | lib/config.js:697-721 | a cluster adds one write per remaining character, changes nothing but the writes and the pending key, and fails only as an invalid argument |
| Args.InvalidLongKey | lib/config.js:653-678 | `--key` or `--key=value` whose hyphen-free key is not lower-case alphanumeric fails with `Invalid argument: --key` naming the hyphen-free key |
| Args.ClearsPending | lib/config.js:648-680 | an empty token, and `--key=` with an empty value, write nothing and clear the pending key |
| Args.PositionalTokens | lib/config.js:724-737 | tokens not starting with `-`, with no key pending, are appended to the positional list in order and change nothing else |
| Args.PositionalArgs | lib/config.js:633-736 | `parseArg` skips the first two entries and appends the plain tokens after them to `argv` in order, changing nothing else |
| Env.Prefix | lib/config.js:742-746 | the prefix is the module name upper-cased, character by character, with hyphens as underscores, followed by `_`, and contains no hyphen |
| Env.EnvWriteShape | lib/config.js:753-779 | a variable contributes exactly when it has the prefix, the rest without underscores is upper-case alphanumeric and the value is non-empty; its key is then that rest lower-cased and aliased, which is canonical, and it carries its own value |
| Env.EnvWritesShape | lib/config.js:753-780 | every environment write has a canonical lower-case key and a non-empty value |
| Env.EnvRoundTrip | lib/config.js:753-779 | the variable named by prefix plus upper-cased key is read back under the key, aliased when longer than one character |
| Env.EnvUnderscoreInsensitive | lib/config.js:761-762 | underscores after the prefix are ignored |
| Env.EnvIgnored | lib/config.js:741-781 | a variable without the prefix or with an empty value changes nothing, and `parseEnv` writes only the environment tier |
| Env.EnvWrite | lib/config.js:753-779 | a contribution needs the prefix and a non-empty value, and carries the variable's value |
| Env.ParseEnv | lib/config.js:741-781 | only the environment tier changes |
| Env.LowerCaseNameIgnored | lib/config.js:761-765 | a variable with a lower-case letter after the prefix is ignored |
| Form.Unescape | lib/config.js:949-958 | the result has no NUL; when decoding fails it is the text without NUL, keeping any `+`; when decoding succeeds no `+` survives, and decoded text free of `+` and NUL is returned as it is |
| Form.UnescapePlus | lib/config.js:949-958 | after a successful decode free of NUL, every `+` of the decoded text becomes a space and every other character stays in place |
| Form.PairWrite | lib/config.js:826-853 | a pair that contributes does so under a canonical lower-case key, with a non-empty value free of NUL |
| Form.PairWritesShape | lib/config.js:825-854 | every form write has a canonical lower-case key and a non-empty NUL-free value |
| Form.FormRoundTrip | lib/config.js:811-855 | parsing a form rendered from plain key/value pairs, with or without the leading `?`/`#`, gives back the pairs in order, keys aliased |
| Form.ParseFormFrame | lib/config.js:783-815 | a query form writes only the query tier and a hash form only the hash tier; an empty form changes nothing |
| Form.SkippedPairs | lib/config.js:837-846 | a pair whose key is invalid after hyphen removal is skipped, not rejected |
| Form.PairParts | lib/config.js:826-835 | a pair with `=` splits at its first `=` into key and value; a pair without one is a key with the value `true` |
| Form.ParseForm | lib/config.js:811-855 | a query form changes only the query tier and a hash form only the hash tier |
| Form.EmptyValueSkipped | lib/config.js:849-850 | with plain-text decoding, a pair with an empty value writes nothing |
| Form.PairWriteEncoded | lib/config.js:826-853 | a pair of an encoded lower-case key and an encoded non-empty value free of `+` and NUL is stored under the aliased key with the value decoded |
| Loading.Load | lib/config.js:61-76 | a loaded configuration has a lower-case alphanumeric network, the one its own `network` option gives, and a `prefix` option that is a string or absent; without an argument vector only those two checks can fail |
| Loading.Finish | lib/config.js:74-75 | the end of `load` succeeds exactly when `getNetwork` and `getPrefix`'s `str('prefix')` both succeed, and fails only with a bad network or a non-string |
| Loading.PrefixString | lib/config.js:206-219 | `str('prefix')` can only fail on an injected non-string, as every other tier holds strings |
| Loading.ArgWrite | lib/config.js:653-693 | a command line `--key=value` sets the aliased key in the argument tier and changes nothing else |
| Loading.CliNetworkWins | lib/config.js:61-76 | `--network=x` on the command line decides the network over the environment, the file and injected options |
| Loading.SeedAlias | lib/config.js:682-689 | `--seed=…` is stored and read back as `seeds` |
| Registry.Use | lib/node/node.js:276-318 | a loaded node refuses every plugin; on success the plugin's instance is appended to the stack, the services, listeners and start time are kept, and emitters get error forwarding |
| Registry.Has | lib/node/node.js:326-328 | in a valid node no built-in service name counts as a plugin |
| Registry.UseAccepts | lib/node.js:207-241 | `use` succeeds exactly when there is a plugin with an `init`, the node is not loaded, `open` and `close` are absent or functions, and a non-empty id is a string that is neither reserved nor taken |
| Registry.UseValid | lib/node/node.js:289-312 | `use` keeps every indexed id non-empty, not reserved, and mapped to an instance on the stack |
| Registry.UseThenGet | lib/node.js:238-296 | after `use`, `has`, `get` and `require` find the instance under its id, and every other name answers as before |
| Registry.DuplicateRefused | lib/node/node.js:289-310 | a second plugin with a taken id fails with `is already added` |
| Registry.ReservedRefused | lib/node.js:220-236 | a plugin whose id is a built-in service name is refused |
| Registry.ReservedNotIndexed | lib/node/node.js:326-371 | `has` is false for a built-in service name; `get` on one succeeds exactly when its field is set |
| Registry.Get | lib/node.js:255-290 | `get` fails exactly on a reserved name whose field is unset, with `is not loaded`; a set reserved name gives its service, and any other name the indexed plugin or nothing |
| Registry.Require | lib/node/node.js:380-384 | `require` succeeds exactly when `get` finds an instance, and returns it |
| Registry.LoadPlugins | lib/node.js:298-309 | on success the stack has grown by each entry's instance, in entry order, and services and listeners are kept |
| Registry.LoadPluginsValid | lib/node/node.js:391-402 | loading keeps the index valid |
| Registry.LoadPluginsAppend | lib/node/node.js:391-402 | loading two lists of entries is loading the first and then the second |
| Registry.NamedNeedsLoader | lib/node/node.js:395-399 | without a loader, any named entry makes the load fail |
| Registry.LoadedIdsIndexed | lib/node/node.js:391-402 | after a successful load every entry's id is indexed, none was indexed before, and no two entries share an id |
| Registry.Walk | lib/node/node.js:409-426 | a walk calls at most the stack's instances; when it stops early, the last call is the one that failed; with no rejection it finishes having called exactly the instances that define the method, in stack order |
| Registry.WalkCalls | lib/node/node.js:409-426 | the calls are the stack's instances that define the method, in stack order, up to and including the first that rejects; the walk finishes exactly when none of them rejects, and has then called them all |
| Registry.WalkComplete | lib/node/node.js:409-426 | the calls are a prefix of the defining instances in stack order; the walk finishes exactly when none of them rejects, and then calls them all |
| Registry.WalkDefined | lib/node/node.js:409-426 | only stack instances that define the method are called, and only the last call can have failed |
| Registry.OpenPlugins | lib/node/node.js:409-416 | `openPlugins` calls a prefix of the instances that define `open`, in stack order, and all of them when none rejects |
| Registry.ClosePlugins | lib/node/node.js:421-426 | `closePlugins` calls a prefix of the instances that define `close`, in the same stack order, and all of them when none rejects |
| Registry.WalkAppend | lib/node/node.js:409-426 | walking a concatenated stack walks the first part and, if that finished, the second |
| Registry.StopsAtFailure | lib/node/node.js:409-426 | a failing open or close ends the walk: no later instance is called |
| Registry.SameOrder | lib/node.js:311-323 | when every plugin defines both methods, `openPlugins` and `closePlugins` call the whole stack in the same order, so closing is not in reverse |
| Registry.BindAttached | lib/node.js:190-193 | `bind` keeps every recorded listener attached |
| Registry.Bind | lib/node.js:190-193 | only the record and the listeners change; the triple is added to the record and attached |
| Registry.HandleOpen | lib/node.js:156-157 | only the start time changes, and the uptime at that moment is 0 |
| Registry.HandleClose | lib/node.js:179-185 | only the record, the listeners and the start time change; the record is emptied, no listener is attached anew, and the uptime is 0 at any time |
| Registry.Uptime | lib/node.js:200-205 | with a start time, the start time plus the uptime is the current time; without one the uptime is 0 |
| Registry.CloseDetaches | lib/node.js:179-188 | `handleClose` detaches exactly the bound listeners and clears the record |
| Registry.BindThenClose | lib/node/node.js:223-245 | binding and then closing leaves the emitters as closing alone would |
| Registry.CloseIdempotent | lib/node/node.js:223-232 | closing twice is closing once |
| Registry.UptimeCycle | lib/node.js:156-205 | uptime is 0 for a new node and after closing, and the time since opening in between |
| Pages.Median | lib/node/info.js:1078-1083 | the window starts at 0 or later and ends at the page count or earlier |
| Pages.MedianWindow | lib/node/info.js:1078-1083 | the window starts `l` pages before its end, clipped at 0; it spans at most `l` pages, and exactly `min(m, l)` when `m` is not negative |
| Pages.MedianCovers | lib/node/info.js:1078-1083 | with width at least 2 and `1 ≤ c ≤ m`, page `c`'s index lies in the window |
| Pages.TruncDiv | lib/node/info.js:1024 | for a quotient printed without an exponent, `parseInt` of it is the quotient truncated toward zero |
| Pages.CeilDiv | lib/node/info.js:1025 | `Math.ceil` of a quotient is the least multiple bound |
| Pages.Page | lib/node/info.js:1020-1033 | the bar has at most 10 numbered links, and a link is inactive exactly when it is labelled with the current page |
| Pages.Links | lib/node/info.js:1028-1030 | one link per page index of the window, none for an empty window |
| Pages.PageNumbers | lib/node/info.js:1020-1026 | the current page is the one holding row `offset`, and the page count is the fewest pages holding `total` rows |
| Pages.PageArrows | lib/node/info.js:1027-1032 | back is disabled exactly at offset 0 and forward exactly when the next offset is past the rows; otherwise each steps by one page |
| Pages.LinksTargets | lib/node/info.js:1028-1030 | the links are numbered consecutively from `start + 1`; only the current page's link is inactive, so at most one is; every other link requests the first row of the page it is labelled with |
| Pages.CurrentInRange | lib/node/info.js:1020-1026 | an offset inside the rows falls on a page between 1 and the page count |
| Pages.PageLinks | lib/node/info.js:1020-1033 | within the rows the bar shows `min(pages, 10)` consecutively numbered links, exactly one of them inactive (the current page), and every other one requests its page's first row |
| Pages.Until | lib/node/info.js:297 | the row bound is never past the rows nor more than `limit` past `offset`; it is the row count exactly when the page reaches the last row, and `offset + limit` otherwise |
| Pages.UntilInBounds | lib/node/info.js:297-300 | every index the row loop visits from a non-negative offset is in bounds |
| Pages.Rows | lib/node/info.js:592-594 | the rows a page shows are exactly the slice from `offset` to `until`; a negative offset with rows to show is refused |
| Meta.Compare | lib/node/info.js:979-983 | 1 when `a` is older, -1 when newer, 0 exactly when the effective times tie |
| Meta.CompareOrder | lib/node/info.js:979-983 | `compare` is antisymmetric, zero on equal records and transitive, and negative means newer |
| Meta.NewestFirstTimes | lib/node/info.js:979-983 | a list sorted with `compare` has non-increasing effective times |
| Meta.KeepFirstDistinct | lib/node/info.js:1067-1076 | the filter keeps no hash twice |
| Meta.KeepFirstHashes | lib/node/info.js:1067-1076 | the filter keeps every hash of the input |
| Meta.KeepFirstSubsequence | lib/node/info.js:1067-1076 | the filter keeps records in their order |
| Meta.KeepFirstIsFirst | lib/node/info.js:1067-1076 | each kept record is the first with its hash |
| Meta.FilterMeta | lib/node/info.js:1067-1076 | the result is duplicate-free, an order-preserving subsequence with the input's hashes, and keeps each hash's first record |
| Age.GreedySplit | lib/node/info.js:1035-1056 | the amounts add back up to the seconds given, and every amount after the years covers less than one of the next larger unit |
| Age.ShownPrefix | lib/node/info.js:1052-1055 | what is shown is the first two non-zero amounts |
| Age.AgeShape | lib/node/info.js:1035-1059 | at most two amounts are shown, all non-zero and largest unit first, and they are the first two non-zero amounts of the split |
| Age.AgeEmpty | lib/node/info.js:1035-1059 | zero seconds show nothing and a positive duration shows at least one amount |
| Age.Plural | lib/node/info.js:1055 | a shown amount ends in `s` exactly when it is more than one |
| Age.LargerFirst | lib/node/info.js:1041-1049 | units earlier in the enumeration are larger |
| Age.Decompose | lib/node/info.js:1050-1052 | one amount per unit, none negative for a non-negative duration |
| Age.Piece | lib/node/info.js:1055 | a shown amount starts with its separating space and is never empty after it |
| Age.Age | lib/node/info.js:1035-1058 | the text is empty exactly when no amount is shown, and otherwise starts with the space before the first amount |

## Left out

- `Config.open`, `ensure`, `write`, `location`, `getFile` and `path`: they touch the file system and the home directory. A configuration file is modelled as the text it contains.
- `Loading.Load`: of `getPrefix` only the `str('prefix')` read, which can fail, is modelled; joining the prefix with the home directory and the network name is path handling left out with the file system.
- The `process.argv`, `process.env` and `global.location` fallbacks: the argument vector, the environment and the forms are explicit inputs.
- `float`, `ufloat`, `fixed`, `ufixed`, `buf`, `obj`, `func` and `typeOf`: floating point, Buffer encodings and JavaScript dynamic typing. Non-integral numbers are a single `NonInteger` value that every integer accessor rejects.
- `Form.Unescape`: percent decoding is the `decode` parameter rather than `decodeURIComponent` itself.
- `Text.Lower` and `Text.Upper`: case mapping is limited to ASCII letters. The parsers check keys against ASCII patterns, so they are unaffected, but `get`, `set` and `has` canonicalise any name: `set('Ä', v)` followed by `get('ä')` finds the value in JavaScript and not in the model.
- `Store.Get`: an index is a natural number, so the source's failed assertion `Index must be positive.` for a negative index is not modelled.
- `Store.Has`: likewise, a negative index, which fails the same assertion in the source, cannot be written.
- `Keys.Aliased`: is the corrected alias table, which the four parsers use; it differs from the source's lookup only for `constructor` (see Findings).
- `ConfigFile.ParseConfig`: aliases keys through the corrected table `Keys.Aliased`, so `constructor` is stored under `constructor`; the source's lookup is `Keys.AliasedAsWritten` (see Findings).
- `Args.ParseArg`: uses the corrected alias table `Keys.Aliased` for the same reason, in long options and short clusters.
- `Form.ParseForm`: uses the corrected alias table `Keys.Aliased` for the same reason.
- Writes made before an error: `parseConfig` and `parseArg` have already stored earlier lines when they throw. The model returns the error and no configuration.
- `Env.ParseEnv`: takes the environment as a sequence in `Object.keys` order, and uses the corrected alias table `Keys.Aliased` for the same reason as the other parsers.
- The type assertions on arguments (`typeof … === 'string'`, `Array.isArray`): the Dafny types make them hold.
- `Registry.Use`: `plugin.init(this, Core)` is opaque. Its instance is part of the plugin value; an `init` that throws or returns a non-object is not modelled. Error forwarding is recorded as the `forwarded` list, not as an event subscription.
- The built-in service fields and the `loaded` flag are inputs. They are set by lib/fullnode.js, which is not part of this model.
- `handleOpen`'s warnings, the worker-pool and logger closing in `handleClose`, `handlePreclose`, and the `error` method are logging and external collaborators.
- `Registry.Walk`: `openPlugins` and `closePlugins` are asynchronous. The model gives the order of the calls and where a rejection stops the walk, not timing.
- `Registry.LoadPlugins`: takes the `plugins` entries and the `loader` as inputs rather than reading them through `config.array` and `config.func`.
- `Pages.Page`: requires a positive `limit`. A zero limit divides by zero into `Infinity`/`NaN` in JavaScript, which the integer model cannot express. A negative limit only arises from a negative query parameter.
- `Pages.TruncDiv`: models `parseInt` of a quotient as truncation toward zero. JavaScript's `parseInt` reads the number's printed form, so quotients printed in exponent notation read differently: magnitudes from 1e21 up (`parseInt("1e+21")` is 1), and non-zero magnitudes below 1e-6 (`parseInt("1e-7")` is 1). Doubles beyond 2^53 are not modelled either. The current page of `Pages.Page`, and with it `Pages.PageNumbers` and `Pages.PageLinks`, holds only for offsets whose quotient prints plainly; an offset of `-9999999` with a limit of `10000000` gives page 1 in JavaScript and 0 in the model.
- `Pages.Median`: takes half the width, so odd widths, where `l / 2` is fractional in JavaScript, are not modelled; every caller passes 10.
- Page markup, Date and Amount formatting, the chain, mempool and wallet queries of lib/node/info.js, and `Array.prototype.sort` itself. For sorting, only the comparator's properties are proved.
- The first `filtermeta` (lib/node/info.js:1061-1065): the later declaration of the same name replaces it.
- `age(t, false)`: it reads `Date.now()`. Fractional times are not modelled; uptimes are whole seconds.
- `Meta.When`: records with missing times compare as `NaN` in JavaScript, and those are not modelled.
- lib/node/attach.js, lib/fullnode.js, lib/nodeclient.js and the index files: DOM glue, wiring of external subsystems, and re-exports.

## Findings

| source | as written | input that shows it | evidently intended | confidence | as-written member | corrected member |
|---|---|---|---|---|---|---|
| lib/config.js:861-865 | `Config.ALIAS` is a plain object literal, so `Config.ALIAS['constructor']` finds the inherited `Object` function, which is truthy. Every parser then stores the option under the function's text instead of `constructor`. | a configuration line `constructor: 1` (or `--constructor=1`, `?constructor=1`, `<MODULE>_CONSTRUCTOR=1`) | only the three listed aliases apply, and `constructor` is stored under `constructor` like any other lower-case key | medium, not executed | Keys.ConstructorKeyUnreachable | Keys.AliasedIsCanonical |
