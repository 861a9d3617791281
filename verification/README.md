# kayaclaw: a verified model

This project models the logic of the kayaclaw agent in Dafny and proves what the code and its
documentation promise about it. `dafny verify dfyconfig.toml` checks everything. One module per file:

| area | modules |
|---|---|
| secret scrubber | `Text` (occurrences, `str.replace`, when a marker can complete a pattern), `Scrubber`, `LongestFirst`, `SecretStore` (the global list and the log filter), `SecretThreads` (all interleavings) |
| message handling | `Memory`, `Runtime` (prompt envelope, fallback chain), `Telegram` (environment, handler, whole runs) |
| configuration and start-up | `Config`, `Registry`, `Startup` |
| setup command | `Console`, `Polling` (chat-id capture against a server model), `Writers` (`.env`, config, file writes), `Init`, `RoundTrip` (from `init` to boot) |
| egress allowlist | `Egress` |
| common ground | `Wrappers`, `Sorting` (stable sort), `Environment`, `Numbers` |

Objects that the program updates in place are classes (`SecretStore.Store`, `Memory.Store`,
`Telegram.Connector`, `Writers.Directory`, `Polling.Server`, `Console.Terminal`); their methods are
tied to functions or predicates about which the theorems are proved. What the program does not decide
is an oracle: model calls, sends, store failures, validators, key-shape detection, the URL parser, the
clock, the network and the user. An oracle is an arbitrary parameter or a method that chooses freely
within its contract.

Results where the code does less than its documentation suggests:

- The scrubber cannot hide every registered value: one that touches the marker `[REDACTED]` (a bracket
  or `RED`, say) can be completed by a marker put down for another secret. `Scrubber.HiddenExactlyWhenClear`
  gives the exact condition, which can be checked when a value is registered.
- `history` shows the message just stored if and only if fewer than `limit` rows of its chat carry a
  later time (`Memory.ShownExactlyWhenFewAhead`), so a clock that was set back can hide it
  (`Memory.SetBackClockHides`). Unless `limit` is zero, it shows it last if and only if no row of its chat
  carries a later time (`Memory.ShownLastExactlyWhenNotAhead`).
- The prompt envelope identifies a text among all texts if and only if the text holds neither the
  closing tag nor its escaped form (`Runtime.FrameInjectiveExactly`); every other text has a twin with
  the same frame (`Runtime.FrameTwin`).
- `write_files` promises that an interrupted run leaves the real files alone, and `main` then says that
  nothing was written. That holds if and only if the interrupt comes before the first rename, or the
  renames done put down what was there (`Writers.UntouchedExactlyBeforeRenames`). Between the two
  renames a first run leaves a new `.env` without a `config.yaml` (`Writers.StopBetweenRenames`).
- `clear_backlog` swallows failures, and then an old message may be captured (`Polling.StaleCapture`). A
  search captures nothing from before the clearing if and only if no message was pending between its
  start and the clearing; where the clearing succeeded, none was (`Polling.NoStaleCaptureExactly`).
- Longest first does not help where occurrences of secrets cross: the tail of one stays
  (`LongestFirst.CrossingLeaksTail`). No text has crossing occurrences if and only if no secret's end is a
  secret's beginning (`LongestFirst.LaminarExactlyWhenOverlapFree`).
- `init` accepts an empty model name and any name for the key's variable, so it finishes with files that
  cannot boot as entered (`RoundTrip.UnbootableRunExists`); `RoundTrip.RoundTripExactly` says for which
  entries they do. Through `docker compose` the key's variable must be one that it hands on (the three
  documented keys, token, ids, data directory or log level), unless the container sets that name to the
  very key anyway (`RoundTrip.ComposedExactly`).

## Model

| member | source | states |
|---|---|---|
| `Text.ReplaceAll` | agent/logging.py:40-41 | the replacement loop computes `Replace`, leftmost and non-overlapping |
| `Text.ReplaceIsSplitAndJoin` | agent/logging.py:40-41 | the result is the input cut at its leftmost occurrences and rejoined by the marker; no fragment holds the pattern |
| `Text.LeftmostSplitUnique` | agent/logging.py:40-41 | a text has only one such cut, so the previous row determines the replacement |
| `Text.ReplaceBringsNone` | agent/logging.py:40-41 | replacing any pattern by a marker that is clear of `q` brings no `q` about, and replacing `q` leaves none |
| `Text.ReplaceRoundTrip` | agent/runtime.py:68-69 | replacing and replacing back gives the text exactly when it had no replacement text of its own |
| `Text.SecondPattern` | agent/logging.py:40-41 | a second pattern, no longer than the first, whose replacement puts the marker where it completes the first |
| `Scrubber.ScrubHidesEverySecret` | agent/logging.py:36-42 | scrub completeness: for every text and list of clear secrets, overlapping or not, no secret survives |
| `Scrubber.OrdinarySecretsAreClear` | agent/logging.py:36-42 | bracket-free values that are not a piece of REDACTED are clear |
| `Scrubber.HiddenExactlyWhenClear` | agent/logging.py:36-42 | a value is hidden from every text under every list it can be registered in if and only if it is clear of the marker |
| `Scrubber.Exposure` | agent/logging.py:36-42 | for every value that is not clear, a published list and a text whose scrubbed form still contains it |
| `Scrubber.ScrubIdempotent` | agent/logging.py:45-59 | stacked passes of factory, formatter and filter add nothing to the first |
| `LongestFirst.ScrubMasksMaximalOccurrences` | agent/logging.py:15-27 | where occurrences are disjoint or nested, the passes equal a position-by-position mask: one marker for each maximal occurrence, nothing else changed |
| `LongestFirst.PassesAreOnePass` | agent/logging.py:36-42 | the passes over the list refine one scan that takes the longest secret at each place |
| `LongestFirst.OnePassIsMask` | agent/logging.py:15-18 | that scan is the mask, from any position that cuts no occurrence |
| `LongestFirst.LaminarKept` | agent/logging.py:36-42 | a pass keeps the occurrences of the other secrets disjoint or nested |
| `LongestFirst.OrderOfEqualLengthsIrrelevant` | agent/logging.py:203-203 | the registration order of equally long secrets does not change the scrubbed text |
| `LongestFirst.LaminarExactlyWhenOverlapFree` | agent/logging.py:15-18 | occurrences are disjoint or nested in every text if and only if no secret's end is a secret's beginning |
| `LongestFirst.CrossingLeaksTail` | agent/logging.py:36-42 | for every two secrets that overlap, a text of which the second one's tail stays |
| `LongestFirst.ShortestFirstLeaksTail` | agent/logging.py:15-18 | with `ab` before `abc` the tail of the longer secret stays in plain text; longest first it does not |
| `Sorting.StableSortIsStable` | agent/logging.py:27-27 | sorting orders by key, keeps equal keys in order and loses nothing |
| `Sorting.StableSortUnique` | agent/logging.py:27-27 | a stable sort is determined by its input |
| `Sorting.SortIncrementally` | agent/logging.py:203-203 | sorting the sorted list with one value appended is sorting all values so far |
| `SecretStore.Store.Collect` | agent/logging.py:12-27 | the import-time list is valid and holds exactly the non-empty bot token and the non-empty values of names that end in `_API_KEY` |
| `Environment.EndsWithExactly` | agent/logging.py:25-25 | a name ends in a suffix if and only if it is some text followed by it |
| `Environment.GetFindsFirst` | agent/logging.py:21-25 | a lookup gives the value of the first entry under the name |
| `SecretStore.Store.RegisterSecret` | agent/logging.py:197-203 | the list gains exactly the new non-empty string, stays valid and is the sort of the old list with it |
| `SecretStore.RegisteredPublishes` | agent/logging.py:169-203 | registration keeps the list duplicate-free, non-empty-valued and longest first, and is idempotent |
| `SecretStore.Store.ScrubText` | agent/logging.py:36-42 | the loop over the list computes `Scrub` |
| `SecretStore.Store.Filter` | agent/logging.py:123-134 | what the filter makes of message, exception text and stack info, and that an empty list leaves the record alone |
| `SecretStore.FilterHidesAndSettles` | agent/logging.py:116-134 | no text the filter writes keeps a clear secret, and filtering again changes none |
| `SecretStore.TraceIsKept` | agent/logging.py:128-131 | the exception text after the filter is the existing one, or else the formatter's, scrubbed once |
| `SecretThreads.StepKeepsInv` | agent/logging.py:197-203 | every step of every thread keeps the lock discipline and the link between published lists and lock order |
| `SecretThreads.PublishedLists` | agent/logging.py:178-190 | in every interleaving each published list is duplicate-free, longest first and the stable sort of the values in lock order, and lists only grow |
| `SecretThreads.RegistrationsNeverLost` | agent/logging.py:184-187 | a completed registration is in every later list |
| `SecretThreads.ReaderSeesCompletedRegistrations` | agent/logging.py:36-42 | a reader scrubs against one published list that holds everything registered before it began |
| `SecretThreads.AllCanFinish` | agent/logging.py:200-203 | from every reachable state every writer and reader can still finish |
| `SecretThreads.LoneWriterRegisters` | agent/logging.py:197-203 | with nobody in its way a writer's five steps are one call of register_secret |
| `Memory.Store.Append` | agent/memory.py:31-38 | one row is added at the end |
| `Memory.Store.History` | agent/memory.py:41-55 | query, reversal and conversion give the chat's window |
| `Memory.HistoryIsNewest` | agent/memory.py:42-46 | for any timestamps the window is the `limit` greatest rows by (ts, rowid), ascending |
| `Memory.AppendSlidesWindow` | agent/memory.py:31-55 | with a clock that does not run back, append slides the chat's window by one turn and leaves other chats alone |
| `Memory.NewestExactlyWhenNotAhead` | agent/memory.py:48-53 | a new row is the newest of its chat if and only if no earlier row carries a later time |
| `Memory.ShownExactlyWhenFewAhead` | agent/memory.py:42-53 | the window holds the row just stored if and only if fewer than `limit` rows of its chat carry a later time |
| `Memory.ShownLastExactlyWhenNotAhead` | agent/memory.py:42-53 | for a positive limit the window ends with the row just stored if and only if no row of its chat carries a later time |
| `Memory.SetBackClockHides` | agent/memory.py:42-53 | for every row and limit, a store of that many rows whose window does not show the row just stored |
| `Config.SplitRefInvertsJoin` | agent/config.py:57-60 | splitting at the first slash inverts joining and accepts nothing else |
| `Config.FallbackInvariants` | agent/config.py:87-112 | accepts exactly the lists of at most five distinct entries that repeat no agent model, and reports the first check that fails |
| `Config.FallbackEntriesHaveSlash` | agent/config.py:78-85 | true exactly when every entry splits |
| `Config.Validate` | agent/config.py:40-60 | true exactly for the accepted configurations |
| `Config.AcceptedExactly` | agent/config.py:31-112 | accepted means: every OpenAI-compatible entry has a base URL, every model and fallback is provider, slash, model, at most five fallbacks, all different and none an agent's model |
| `Config.AnthropicEntryIsFree` | agent/config.py:40-44 | an entry of the other kind is never the reason for a refusal |
| `Registry.ResolvedFaithfully` | agent/registry.py:43-93 | a resolved provider says what the reference and the entry say, with a key exactly where one is named |
| `Registry.ResolutionFailures` | agent/registry.py:58-81 | when and why resolution fails: deny by default, then the key, then the kind |
| `Registry.UnresolvableReferences` | agent/registry.py:43-56 | the two earliest failures: no reference, or a provider that is not configured |
| `Registry.ResolvedHasEndpoint` | agent/config.py:40-44 | with an accepted configuration whatever resolves has a base URL |
| `Registry.ChainDistinct` | agent/config.py:87-112 | the chain of an accepted configuration has at most six entries and no (provider, model) pair twice |
| `Runtime.FrameUserText` | agent/runtime.py:68-69 | the framed message is header, escaped text, newline and closing tag |
| `Runtime.ClosesOnceAtEnd` | agent/runtime.py:43-57 | for every text and chat id the closing tag occurs once, at the very end |
| `Runtime.FrameReadsBack` | agent/runtime.py:68-69 | chat id and escaped body can be read back; unescaping recovers the text if and only if it held no escaped tag |
| `Runtime.FrameInjective` | agent/runtime.py:68-69 | among texts without an escaped tag the frame determines text and chat |
| `Runtime.FrameInjectiveExactly` | agent/runtime.py:68-69 | among all texts, the frame determines exactly those that hold neither the tag nor its escaped form |
| `Runtime.FrameTwin` | agent/runtime.py:68-69 | every other text shares its frame with a different one, in every chat |
| `Runtime.ReplyWithFallback` | agent/runtime.py:150-182 | calls a prefix of the chain up to the first success; raises exactly when all fail, with every attempt in order; no fallbacks pass the exception through |
| `Runtime.CallsDistinct` | agent/runtime.py:153-159 | one message to an agent of an accepted configuration asks at most six models, none twice, and gives up only after all of them |
| `Telegram.LoadEnv` | agent/connectors/telegram.py:38-74 | the first failing check decides the error; otherwise the stripped token and exactly the ids the list mentions |
| `Telegram.IdsMeaning` | agent/connectors/telegram.py:56-66 | the allow-list is the set of integers of the non-blank segments, and fails exactly when one is not an integer |
| `Telegram.Truncate` | agent/connectors/telegram.py:30-35 | length at most 4096; short texts unchanged, long ones a prefix with the marker |
| `Telegram.Connector.Handle` | agent/connectors/telegram.py:102-156 | one update appends its events to the journal and its rows to the store |
| `Telegram.Connector.Answer` | agent/connectors/telegram.py:120-151 | asking the chain, storing and sending, or the status line when the chain is exhausted |
| `Telegram.Connector.PersistAndSend` | agent/connectors/telegram.py:147-149 | the reply is stored before it is sent, and not sent if storing fails |
| `Telegram.Connector.RunPolling` | agent/connectors/telegram.py:204-205 | updates are handled one after the other |
| `Telegram.RunStep` | agent/connectors/telegram.py:204-205 | each update of a run finds the rows that the ones before it left |
| `Telegram.AllowedMessageIsHandled` | agent/connectors/telegram.py:118-149 | a message with text from a listed chat, whatever its id, is stored, asked about with the window ending in it, and answered as the chain says, with every failure case spelled out |
| `Telegram.OtherUpdatesAreDropped` | agent/connectors/telegram.py:102-116 | nothing at all happens exactly for an update without chat or text, from a chat that is not listed, or whose first store fails |
| `Telegram.UpdateStores` | agent/connectors/telegram.py:111-119 | an update stores nothing exactly in those cases; otherwise a user row, then at most an assistant row of the same chat |
| `Telegram.RunKeepsStoreInv` | agent/connectors/telegram.py:107-156 | in every run, whatever fails, rows belong to allowed chats and each chat's rows are `user` optionally followed by `assistant` |
| `Telegram.RunOrderly` | agent/connectors/telegram.py:122-149 | whole-run agreement: a sent reply is the assistant row stored just before it, which truncates the answer; the status line goes out only after an exhausted chain and is not stored; an undelivered assistant row comes with a failed send |
| `Telegram.RunSendsAtMostOnePerUpdate` | agent/connectors/telegram.py:102-156 | no more messages go out than updates are admitted |
| `Telegram.RunAnswersEveryUpdate` | agent/connectors/telegram.py:107-151 | in a run in which nothing fails exactly one message goes out per admitted update |
| `Telegram.HistoryShownEndsWithMessage` | agent/connectors/telegram.py:118-123 | the history shown with a message is the old window slid by that message |
| `Telegram.RunShowsLastTurns` | agent/connectors/telegram.py:118-127 | over a whole run with timestamps in order, every question shows the model the last turns of its chat as they were stored |
| `Startup.RegisterKeys` | agent/__main__.py:67-77 | every configured key is present and registered stripped, or a key is missing |
| `Startup.Start` | agent/__main__.py:44-86 | succeeds exactly when config, keys and references are good, with the agent's model and the fallbacks resolved in order and every configured key registered; otherwise the first check that fails decides the error |
| `Startup.ChainKeysRegistered` | agent/__main__.py:54-83 | each key that resolution hands out is one the loop has registered |
| `Startup.Boot` | agent/connectors/telegram.py:161-202 | boot as a whole: token registered, allow-list and memory in place, and a distinct chain in configured order of which every provider has an endpoint |
| `Startup.KeysNeverShown` | agent/__main__.py:54-58 | no scrubbed text contains the key of a provider of the chain, now or after later registrations |
| `Polling.Server.Fetch` | agent/init/polling.py:30-46 | the server side of a fetch: confirms below the offset and delivers the earliest updates left |
| `Polling.ClearBacklog` | agent/init/polling.py:64-78 | the offset goes on where the server stands: after a sound fetch behind everything that has arrived, else at the first update not forgotten |
| `Polling.FirstChat` | agent/init/polling.py:121-129 | the first message of a batch, with the offset behind the last update seen |
| `Polling.PollForChatId` | agent/init/polling.py:81-130 | captures the lowest-id message from the offset on or leaves the offset good; at most `timeout_seconds` sleeps and one batch per update; ends before the deadline plus one fetch and one sleep; times out only if no message was delivered, stops early only for Ctrl-C or a failed fetch |
| `Polling.StepChatId` | agent/init/cli.py:311-337 | over any run of rejections, timeouts, interrupts and failures the backlog is cleared once, the captures are the messages from there on, in order and without gaps, each poll is followed by one question, and polls that were not interrupted waited for the whole deadline |
| `Polling.EndingSpelledOut` | agent/init/cli.py:316-337 | an id is returned only after the first yes of the dialog, all earlier answers being lines that say something else; it is that of the last poll's message or the first integer typed after the yes |
| `Polling.SearchMissesNothing` | agent/init/cli.py:315-337 | no message that arrives after the clearing is passed over, whether or not the clearing succeeded; if it did, none that had arrived before the start is captured |
| `Polling.NoStaleCaptureExactly` | agent/init/polling.py:64-78 | nothing from before the clearing is captured if and only if no message was pending between the start of the search and the clearing |
| `Polling.StaleCapture` | agent/init/polling.py:73-74 | a failed clearing with one old message pending: that message is captured |
| `Polling.TakeBatch` | agent/init/polling.py:121-129 | the first message of a batch is the next one of the search, or there is none and the search goes on behind the batch |
| `Polling.CapturesInOrder` | agent/init/cli.py:316-337 | from the start to the last capture no message is skipped and none captured twice |
| `Polling.PromptManualChatId` | agent/init/cli.py:302-308 | returns the first line that reads as an integer |
| `Writers.QuoteEnvValue` | agent/init/writers.py:24-29 | quotes exactly the values that hold a trigger character |
| `Writers.TwoPassesAreOne` | agent/init/writers.py:27-27 | the two replacements escape each character once |
| `Writers.ValueReadsBack` | agent/init/writers.py:24-29 | one unquoting scan recovers every value |
| `Writers.RenderEnv` | agent/init/writers.py:32-44 | the three lines in fixed order |
| `Writers.EnvTextReadsBack` | agent/init/writers.py:38-44 | reading the text gives the key's line over the ids over the token |
| `Writers.BuiltConfigExactly` | agent/init/writers.py:47-70 | one provider, no fallbacks and the one agent with its prompt and connector |
| `Writers.Directory.WriteFiles` | agent/init/writers.py:84-119 | for every point at which it is stopped, within a write or between operations, all four files are as the crash semantics of two writes and two renames says |
| `Writers.FilesStayWhole` | agent/init/writers.py:108-119 | wherever the write stops each file is wholly old or wholly new, `config.yaml` new only if `.env` is |
| `Writers.TemporaryFilesLeft` | agent/init/writers.py:108-119 | what every stop leaves in the temporary files |
| `Writers.UntouchedExactlyBeforeRenames` | agent/init/writers.py:104-107 | the promise that an interrupt leaves the two files untouched holds exactly before the first rename, or where the renames done change nothing |
| `Writers.PairedUnlessBetweenRenames` | agent/init/writers.py:118-119 | the two files are both old or both new unless the write stops between the renames and each rename changes something |
| `Writers.StopBetweenRenames` | agent/init/writers.py:118-119 | on a first run, for any content, such a stop leaves the new `.env` alone |
| `RoundTrip.RoundTripExactly` | agent/init/writers.py:32-70 | booting from the rendered files yields the entered token, chat, URL, key and model if and only if the entries are bootable |
| `RoundTrip.EnvReads` | agent/init/writers.py:38-44 | the value each variable has after reading the text back |
| `RoundTrip.BootsExactly` | agent/__main__.py:44-86 | in any environment with token and ids as written: boots as entered exactly for coherent entries whose key is there under its name |
| `RoundTrip.ComposedExactly` | docker-compose.yaml:61-79 | through compose: exactly for coherent entries whose key variable is handed on, or set in the container to that key |
| `RoundTrip.DefaultProvidersBoot` | agent/init/cli.py:140-158 | every default of the list names a model and a variable that compose hands on, so its entries are bootable |
| `RoundTrip.DraftIsEntered` | agent/init/cli.py:409-428 | the draft of every run meets the round trip's assumptions |
| `RoundTrip.CustomRunExists` | agent/init/cli.py:166-177 | every custom provider, key, token and id that a terminal can deliver makes up the draft of some run |
| `RoundTrip.UnbootableRunExists` | agent/init/cli.py:166-177 | for every endpoint, key name, key, token and id a run whose draft is not bootable |
| `RoundTrip.FinishedRunBoots` | agent/init/cli.py:409-428 | the files of a finished run boot as entered if and only if the entries are bootable, and through compose if and only if they are coherent and the key reaches the container |
| `RoundTrip.ConfigBoots` | agent/init/writers.py:47-70 | the built configuration validates and resolves to the entered provider exactly for a non-empty model and a readable key name |
| `RoundTrip.EnvironmentLoads` | agent/connectors/telegram.py:44-74 | the connector reads back the token and the one chat exactly when the key's variable does not take them over |
| `Init.RetryMenu` | agent/init/cli.py:180-194 | the first line that makes a choice decides, and what it says |
| `Init.RetryValidator` | agent/init/cli.py:197-231 | which values are tried and where they come from: the given one or the next line, the same again after a retry, the line after a choice of a new value; returns the one accepted, and no value only for Ctrl-C, quit, exhausted input or a validator that raised |
| `Init.SelectProvider` | agent/init/cli.py:140-163 | the first number on the list decides: for the default it names, or for the custom provider of the next three lines |
| `Init.PromptCustomProvider` | agent/init/cli.py:166-177 | three lines make up the custom provider |
| `Init.StepProvider` | agent/init/cli.py:234-283 | when the list is shown (no key recognised, not affirmed, or given up on) and when not; the provider is the detected and affirmed one or the one picked, with the values tried for its key and the one its endpoint accepted |
| `Init.StepExistingFiles` | agent/init/cli.py:340-367 | continues when there are no files or the first answer is overwrite, and stops exactly when it is keep or cancel |
| `Init.RunInit` | agent/init/cli.py:409-428 | over every script, oracle and abort point: no draft, an outside reason and untouched files, or a draft whose every part is what the user entered and the validators accepted at its step, with consent to overwrite and the chat typed or confirmed on the last capture, and files as stopping its write there leaves them |
| `Console.Terminal.Confirm` | agent/init/cli.py:132-137 | yes exactly for an affirming line |
| `Console.AffirmsExactly` | agent/init/cli.py:134-137 | a line affirms exactly if it is y or yes in any case, or empty with yes as the default |
| `Egress.CollectHosts` | container/extract-allowlist.sh:24-37 | exactly the hosts of the providers' URLs and Anthropic's own for an entry of that kind, or none |
| `Egress.GenerateFilter` | tinyproxy/generate-config.sh:24-34 | the Telegram line and one anchored, dot-escaped line per host |
| `Egress.HostLineParses` | tinyproxy/generate-config.sh:31-32 | an escaped host parses as an anchored literal |
| `Egress.UnescapedDotPassesOthers` | tinyproxy/generate-config.sh:29-31 | why dots are escaped: an unescaped one lets any character through |
| `Egress.TelegramLineParses` | tinyproxy/generate-config.sh:28-28 | the Telegram line parses as start or dot, then the literal to the end |
| `Egress.FilterMeansAllowlist` | tinyproxy/generate-config.sh:24-34 | the filter passes a host if and only if it is a given host, telegram.org or a subdomain of it |
| `Egress.TelegramHostExactly` | tinyproxy/generate-config.sh:25-28 | that is, nothing or a text ending in a dot, and then telegram.org |
| `Egress.AllowlistEndToEnd` | container/extract-allowlist.sh:24-39 | from configuration to proxy: a host passes if and only if some provider needs it or it is Telegram's |
| `Egress.ResolvedHostPasses` | container/extract-allowlist.sh:24-39 | the host of every provider the agent can resolve passes |
| `Numbers.IntRoundTrip` | agent/init/writers.py:41-41 | a rendered chat id reads back as that integer |
| `Numbers.IntReads` | agent/connectors/telegram.py:61-62 | a text reads as an integer exactly if it is an optional sign and digits with single underscores between them; the value is positional |
| `Numbers.WritesCanonically` | agent/init/writers.py:41-41 | a rendered integer is a minus sign exactly if negative, then digits without a leading zero |
| `Environment.StripTakesSpaces` | agent/__main__.py:70-70 | stripping takes spaces, and only spaces, off both ends |
| `Environment.SpacesExactly` | agent/__main__.py:70-70 | spaces are the code points that Python takes for white space |
| `Environment.SplitOnMeaning` | agent/connectors/telegram.py:57-57 | splitting cuts at every separator and nowhere else |

## Left out

- The model providers, the bot library, SQLite, YAML, Pydantic and URL parsing: oracles, a row sequence, and identity on the configuration. A failing append is taken to store nothing (one transaction), and `limit` to be non-negative.
- `BaseException` in the handler (cancellation, Ctrl-C): it ends the run where an ordinary exception would have ended the update, so the store is that of a run modelled here.
- The record factory and the formatter patch, except as repeated passes; logger wiring and reload guards.
- Secret registration order across processes; the scrub loop itself touches no shared state after it has bound its list and is one step.
- Update ids that Telegram restarts after a week without updates; ids are taken to increase.
- Time that passes in the program between two clock readings; only fetches and sleeps take time.
- Where Ctrl-C lands: in the polling loop after a fetch or a sleep (elsewhere in it the outcome is the same), in dialogs at a prompt, in the write anywhere it makes a difference; not while the backlog is cleared or a value is validated.
- The JSON of an update: an update is its id and, if it is a message, its chat id.
- Environment files are read as lines `NAME=value` with comments and double quotes; interpolation of `$`, `export`, single quotes and trailing comments are not.
- Numbers are read over ASCII digits; other Unicode digits and the digit limit of `int` are not.
- Lower-casing is over ASCII letters.
- Key-shape detection, HTTP validation and diagnostics: oracles. Prompts, headlines and the docker probe print only.
- The shell hand-off of the host list between the two scripts (an unquoted assignment carries only one host) and the proxy beyond its filter file: hosts are passed as a list.
- Regular expressions with repetition, intervals or brackets: the generator makes none, and they do not parse here.
- The error messages of configuration problems; their kinds are modelled.
- Where the database lies: a key stored under the data directory's name boots, but would also move it. What becomes of the log level when a key is stored under its name.
- Shell variables that override `.env`, and interpolation of values by compose.
- `LongestFirst.ScrubMasksMaximalOccurrences`: for a text in which occurrences do cross, what stays is not characterised beyond completeness (no whole secret) and the tail that `LongestFirst.CrossingLeaksTail` exhibits.
- Container and compose beyond the agent's environment, CVE scan and line-count scripts.
