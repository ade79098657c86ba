# Dice Golem: a verified model of the roll text, the per-user store and the shard pool

Dice Golem is a Discord bot that rolls dice. Most of it is I/O; this project models the parts
that carry text, state or arithmetic, and proves what they guarantee over all inputs, all runs
and all interleavings. `dafny verify dfyconfig.toml` checks everything.

## What is modelled

**Roll text.** `Text`, `Spans`, `Rolls`, `Parser`, `RoundTrips`, `Response` and `Readings` model the one
parser of the bot and the three things it has to understand: what users type, what
`RollableString` prints (suggestions and the slash command's second parse), and the bot's own
replies, which "Roll Message" reads again. `Rolls` also holds the `|`-separated history codec. A
`char` stands for one byte of a Go string. The three regular expressions are explicit matchers
(leftmost start, shortest end, at least one character, no newline). A Go panic is `None`, or a
null reference where the result is an object.

**The per-user store.** `History` models Redis sorted sets and the pipeline that records a roll.
`StoreSpec` is the state machine of the whole store: Redis, a bounded in-memory cache, every
operation, eviction and expiry, and a ghost set of dirty keys (changed in Redis while the cache
kept its entry). `Coherence`, `SavedExpressions`, `StoredHistory` and
`Ledger` prove what every run keeps.
`Bot` is the imperative form, a class whose methods update Redis and the cache in place, each one
proved to be a step of the state machine. `Interleaving` splits reads and writes into their atomic
halves and lets them interleave.

**The shard pool.** `WorkerPool` interleaves the main goroutine of `Open` with its workers over two
buffered channels. `Shards` deals shards out to clusters.

**Lists and arithmetic.** `Buttons` builds the modifier pad and follows a button press back through
the parser, `Choices` builds autocomplete suggestions, `DicePredictor` scans for excessive dice with
64-bit arithmetic written out.

Choices that cut across modules:

- Redis keys are values (`Key`); `StoreSpec.KeyNameInjective` proves that the format strings tell
  all of them apart, for any user IDs, so nothing is lost by it.
- JSON is a bijection: a saved row is the roll itself. CSV input is an already decoded list.
- Clock readings are parameters. "Strictly increasing" is about the millisecond scores.
- The cache may push out any entry but the one just added; least-recently-used is one such choice.
- Fuzzy ranking is any function that returns a selection of its targets.
- The Go field `Label` is `caption` here, because `label` is a Dafny keyword.

## Where the code does less than it says

The model follows the code. Each point is proved, with the exact condition where there is one.

- The reply prefix is documented as a zero-width space, but unquoting a text that is not quoted
  fails, so the prefix is empty (main.go:30-32). `Response.RESPONSE_PREFIX` is the empty text.
- A code span made of comment characters only makes the parser panic; nothing else does
  (`Parser.ParserPanicsExactly`, `Parser.CommentSpanPanics`).
- History scores are milliseconds while the age cutoff is seconds, so entries older than the limit
  stay (`History.EntryStaysExactly`, `History.OldRollIsListed`).
- Unsave, clear, preference writes and an import of no rows leave a stale cache entry behind,
  unless there is no entry or nothing changes (`Coherence.StaleAfterExactly`,
  `Coherence.RunCurrentExactly`, `Coherence.UnsavedRollIsListed`). An opt-out is therefore ignored
  while older preferences are cached (`StoredHistory.OptOutTakesEffectExactly`).
- A pipelined write removes the cache key before Redis executes it, so a concurrent reader can put
  the old value back (`Interleaving.InterleavingIsCurrentExactly`,
  `Interleaving.InterruptedWriteLeavesStale`).
- The save modal has no limit on the number of expressions (`SavedExpressions.ModalSaveFitsExactly`,
  `SavedExpressions.ModalRunIsUnlimited`).
- A label with `|` does not survive the history (`RoundTrips.ParsedRollInHistory`), and an unnamed
  roll shares its ID with a roll named after its serial, so that one hides the other when saved
  (`Rolls.NameIsTakenExactly`, `SavedExpressions.SavedCollisionExactly`).
- A lone underscore in an expression swallows the opening underscore of the reply's label, so another
  label comes back (`Response.RollMessageReadsBack`, `Response.LoneUnderscoreReply`).
- A label typed with spaces inside its underscores loses them in the slash command's second parse
  (`RoundTrips.SecondParseAgrees`, `Response.PaddedLabelIsLost`).
- The dice counter saturates and wraps around, so huge terms are accepted
  (`DicePredictor.CountIsTrueExactly`, `DicePredictor.VerdictInLap`, `DicePredictor.HugeTermsAccepted`).

## Model

| member | source | states |
|---|---|---|
| Spans.Find | roll.go:23 | a match is reported exactly when some span `open(.+?)close` exists on one line |
| Spans.FindIs | roll.go:46-54 | leftmost start and shortest end determine the match the regular expression reports |
| Spans.CaptureShape | roll.go:46-57 | a capture is not empty, stays on one line, and past its first character never holds the closing character |
| Text.SpaceCharacters | expressions.go:45-49 | trimming takes the six ASCII white space characters and no other |
| Rolls.CleanedIsClean | expressions.go:45-49 | cleaning trims every field and changes exactly the rolls that are not trimmed yet |
| Rolls.CleanedKeeps | expressions.go:45-49 | each field is the cleaned one with white space around it: nothing else is taken |
| Rolls.ValidateExactly | expressions.go:28-43 | which of the four faults is found, in numbers, and when none is |
| Rolls.OkExactly | expressions.go:76-87 | Discord's limits in numbers, for any roll: two sums of field lengths are at most 100 |
| Rolls.StringShape | expressions.go:51-63 | the readable text is the name and the unnamed roll's text in parentheses, or the expression and its label |
| Rolls.Split | expressions.go:121 | one part more than there are delimiters, and no part holds a delimiter |
| Rolls.SplitJoins | expressions.go:121 | splitting loses nothing: the parts joined by the delimiter are the text |
| Rolls.DecodedFields | expressions.go:114-129 | a serial with one or two fields replaces those and leaves the others as they were |
| Rolls.DecodedIgnores | expressions.go:121-128 | fields beyond the third are ignored |
| Rolls.CodecRoundTrip | expressions.go:97-129 | a serial decodes to the roll it came from if and only if no field holds the delimiter; the expression alone needs only its own field clean |
| Rolls.SerializeInjective | expressions.go:97-112 | delimiter-free rolls have equal serials exactly when they are equal |
| Rolls.NameIsTakenExactly | expressions.go:90-95 | a name is also the ID of some unnamed roll if and only if it ends in a delimiter and holds another one |
| Rolls.IdSeparates | expressions.go:90-95 | equal IDs mean equal names, for any rolls, unless the one is unnamed and the other's name has that shape |
| Rolls.UnnamedIdIsOwnExactly | expressions.go:90-95 | an unnamed roll shares its ID with no other unnamed one if and only if it holds no delimiter |
| Rolls.NamedRollInput.Clean | expressions.go:45-49 | the record in place becomes its cleaned value |
| Rolls.NamedRollInput.Deserialize | expressions.go:114-129 | decoding overwrites the fields present in the serial and leaves the others |
| Rolls.RollSliceFromSerials | autocomplete.go:46-54 | one fresh record per serial, in order, each decoded from an empty roll |
| Parser.StripMentions | roll.go:33 | text changes exactly when it holds a mention, only shrinks, and gains no characters |
| Parser.MentionsCutOut | roll.go:33 | the text is mention-free pieces with whole, shortest mentions between them, and stripping keeps exactly the pieces, in order |
| Parser.Fields | roll.go:18-20 | every field is non-empty and comment-free; there is no field exactly when all is comment |
| Parser.FieldsAreRuns | roll.go:60 | the fields are, in order, the runs of the text between comment characters: the gaps between them hold nothing else and only the outer two may be empty |
| Parser.NewRollInputFromString | roll.go:31-69 | the step-by-step parser, recursion and overwrites included, computes the parse function and panics exactly where it does; `Readings.ParserReadsExactly` says what that function returns |
| Parser.SplitAtComment | roll.go:53-68 | the label capture, the comment split and the prefix cut, overwriting the record in place, agree with their specification and fail exactly where it does |
| Parser.NestedSpanFree | roll.go:46-51 | a captured code span holds at most one backtick, so the recursion is at most one level deep |
| Parser.ParserPanicsExactly | roll.go:36-66 | the parser panics if and only if the code span consists of comment characters; it never slices past the end |
| Parser.CommentSpanPanics | roll.go:60-61 | any comment characters between backticks, typed as they are, make the parser panic |
| Parser.ParserResult | roll.go:31-69 | every result is unnamed, with a trimmed comment-free expression no longer than the code it was read from |
| Readings.ParserReadsExactly | roll.go:31-69 | for every input, the parser returns a roll if and only if the prepared text says it: the expression is the first run of the code outside comments, the label the text behind it (less one character when the text does not begin with it) or the text's label span; the inner parse never adds anything |
| Readings.CommentedSpan | roll.go:46-66 | a code span that holds a comment, with any text around it: expression and label outright, the backticks and all but the first character of the text included in the label |
| Readings.QuotedCommentExactly | roll.go:60-66 | an expression and a comment between backticks give the expression, and as the label everything but the opening backtick, if and only if the expression is trimmed, comment-free and fits a code span |
| Readings.CommentCharacters | roll.go:18-20 | each of the three comment characters ends the expression, and the label is all that follows it |
| Readings.PreparedExactly | roll.go:33-36 | one leading `/roll` is taken off at the very start, then the white space; a second one stays |
| RoundTrips.UnlabelledResult | roll.go:53-66 | a result without a label has no label span in its expression |
| RoundTrips.FixedExactlyPlain | roll.go:31-69 | a text parses to itself, unlabelled, if and only if it is plain |
| RoundTrips.ExpressionReadsBack | roll.go:31-69 | a text is its own expression if and only if it is trimmed, comment-free and holds no leading `/roll`, mention or code span |
| RoundTrips.RollableReadsBack | expressions.go:65-74 | any roll's rollable text parses back to its expression and label if and only if the expression is trimmed, comment-free and without a leading `/roll`, and the label survives: trimmed or, if blank, captured in the expression, and with the first code span, if any, starting with the expression and a comment |
| RoundTrips.RollableRoundTrip | expressions.go:65-74 | the same for a saved roll, whose fields are trimmed; a label without a code span is unrestricted |
| RoundTrips.MentionMayVanish | roll.go:33 | a mention in a labelled text does not always break the round trip |
| RoundTrips.SecondParseAgrees | interactions.go:287-294 | the slash command's second parse agrees with the first if and only if the expression does not begin with another `/roll` and the label, padding included, survives being printed |
| RoundTrips.SlashCommandStable | interactions.go:283-325 | for every input without backticks, underscores or the start of a mention, the first parse does not panic and the second one is stable under that same exact condition |
| RoundTrips.ParsedRollInHistory | interactions.go:250-257 | a parsed roll's expression always survives the history codec, the whole roll if and only if its label has no delimiter |
| Response.ReplyCode | response.go:13 | the parser finds exactly the expression's code span in a reply |
| Response.LabelOutReadsBack | response.go:13 | the label span found in a reply is the printed label exactly when, with a label, expression and label allow it, and, without one, the reply has no label span at all |
| Response.RollMessageReadsBack | interactions.go:231-257 | "Roll Message" on the bot's reply gives the same expression and label if and only if the expression is trimmed, comment-free and fits a code span, and the label is read back, for any outcome |
| Response.PlainOutcomeReadsBack | interactions.go:231-257 | for an outcome without underscores, the condition is one on expression and label alone |
| Response.OutcomeReadsBack | response.go:13 | a reply begins with who rolled, and the dice rolled and the result read back from its end if and only if they hold no character that closes them |
| Response.LoneUnderscoreReply | response.go:13 | a reply to an expression with one underscore gives back another label, whatever the label is |
| Response.PaddedLabelIsLost | interactions.go:287-294 | a label typed with a space inside its underscores is parsed with it, and lost by the second parse |
| Response.ReplyToParsedInput | interactions.go:238-243 | for whatever the parser produced, only the two span formats decide whether the reply reads back |
| Response.EverydayReplyReadsBack | response.go:12-20 | without underscores, newlines or mention starts the reply always reads back, for labels with comment characters, delimiters and backticks too |
| History.TrimByRank | cache.go:144-146 | seen from the newest entry, trimming ranks 0 to -1-max is truncating to max |
| History.RecordedFromFront | cache.go:134-147 | recording is move-to-front, truncate, drop the old |
| History.StepAgrees | cache.go:144-147 | trimming after every roll loses nothing that trimming once at the end would keep |
| History.DistinctIs | cache.go:136-139 | the reference list holds every rolled serial once, with the score of its latest roll, newest first |
| History.HistoryRefines | cache.go:134-153 | after any run on an increasing clock the sorted set is exactly the reference list, cut once and less the old entries |
| History.SerialsArePrefix | cache.go:161-168 | the serials read are a prefix of the truncated distinct list, and all of it if and only if every score exceeds the cutoff |
| History.RolledComesFirst | cache.go:136-147 | rolling a serial puts it in front without repeating it |
| History.RecordingIsOrdered | cache.go:134-153 | whatever the clock does, the set stays ordered by score and then member, with each member once |
| History.AgeCutoffExactly | cache.go:137-147 | an entry outlives the cutoff exactly until the clock, less the limit, passes its millisecond score read as seconds |
| History.EntryStaysExactly | cache.go:144-147 | a recorded entry is still in the set after trimming by age if and only if the clock, less the limit, has not passed its score read as seconds |
| History.OlderThanLimitIsKept | cache.go:144-147 | entries older than the intended limit are still in the set |
| History.OldRollIsListed | cache.go:134-168 | a run of two rolls: the first is over the age limit when the second is recorded, and is still listed behind it |
| StoreSpec.KeyNameInjective | cache.go:24-25 | recent, expression and preference keys of any users are pairwise different |
| Coherence.StepCoherent | cache.go:49-114 | every operation keeps clean cache entries current and every stored value of its reader's type |
| Coherence.StepDirties | interactions.go:629-642 | no operation dirties a key beyond those it is listed with; reads, recordings, saves and non-empty imports dirty none |
| Coherence.RunCoherent | cache.go:49-114 | over every run clean entries equal Redis and no type assertion fails |
| Coherence.CleanKeys | cache.go:134-153 | a key that no operation of a run may dirty is clean at its end |
| Coherence.OverwriteStaleExactly | settings.go:45-53 | a Redis-only write leaves a clean entry current if and only if it changes nothing the reader can see |
| Coherence.DeleteStaleExactly | interactions.go:809-814 | a deletion or expiry leaves a clean entry current if and only if there was nothing to delete |
| Coherence.StaleAfterExactly | interactions.go:629-642 | a cache that is all current stays so through any operation if and only if what the operation changes in Redis alone is not cached or was there already |
| Coherence.RunCurrentExactly | cache.go:49-114 | reads are never stale in a run if and only if each of its operations is harmless where it happens |
| Coherence.UnsavedRollIsListed | interactions.go:629-642 | save, list, unsave, list: for every valid roll the second list still holds it |
| SavedExpressions.LastWriterWins | cache.go:263-265 | an ID is filed with a roll if and only if that roll is the last entry with the ID |
| SavedExpressions.ImportAllOrNothing | cache.go:245-265 | a refused import changes nothing; an accepted one leaves exactly the cleaned rows, and no row is lost to the second check |
| Ledger.StepRow | interactions.go:596-642 | after any operation a row is there if and only if the operation filed it, or it was there and the operation left its ID alone |
| Ledger.SavedIsLastExactly | interactions.go:596-642 | after any run an ID is filed with a roll if and only if the last operation that touched the ID, a save, import, unsave, clear or expiry, filed it |
| Ledger.SlashSaveTable | interactions.go:596-628 | the slash save leaves the old table with the cleaned roll under its ID if there is room and it passes both checks, and the old table otherwise |
| Ledger.ModalSaveTable | main.go:343-357 | the modal save does so whenever the roll passes, taken IDs included |
| Ledger.UnsaveTable | interactions.go:629-642 | unsaving takes away the row with that ID and no other |
| Ledger.PreferenceIsLastExactly | settings.go:45-53 | after any run a user has a preference if and only if it was set and not unset since |
| Ledger.OutputIsNoOptOut | interactions.go:844-851 | the preference for detailed output changes nothing about the opt-out |
| SavedExpressions.FiledExactly | expressions.go:28-87 | being filed, in numbers: the limits of the fields, of the rollable text and of the readable text |
| SavedExpressions.StepFiled | expressions.go:154-180 | every operation keeps all saved rolls clean, valid, within limits and under their own IDs |
| SavedExpressions.RunFiled | interactions.go:596-642 | that invariant over every run |
| SavedExpressions.RunSize | interactions.go:596-604 | the table never exceeds the limit by more than the modal saves since the last clear or import |
| SavedExpressions.ModalSaveFitsExactly | main.go:343-357 | a modal save stays within the limit if and only if there is room, the roll is refused or its ID is taken; a slash save always does |
| SavedExpressions.ModalSaveExceedsLimit | main.go:343-357 | a modal save of a new roll goes one over at a full table, where the slash command refuses |
| SavedExpressions.ModalRunIsUnlimited | main.go:343-357 | whatever the limit, a run of modal saves leaves a table of any size, as far as the numbers fit an expression |
| SavedExpressions.SavedCollisionExactly | expressions.go:90-95 | a saved unnamed roll shares its ID with one that can be saved under a name if and only if the ID fits the limit of a name |
| SavedExpressions.SavedCollision | expressions.go:90-95 | two concrete rolls, both within all limits, with one ID |
| StoredHistory.UsersAreIsolated | cache.go:24-25 | no operation for one user changes another user's data, in Redis or, evictions apart, in the cache |
| StoredHistory.StepHistory | cache.go:120-159 | how each operation moves a user's sorted set |
| StoredHistory.HistoryIsRecording | cache.go:120-159 | in every mixed run a user's sorted set is the recording of their own accepted rolls since the last drop |
| StoredHistory.CachedSerialsAreHistory | cache.go:161-168 | what the reader returns at the end of any run is that prefix of the user's own history, through the cache |
| StoredHistory.SerialsWereHistory | cache.go:161-168 | for any key, dirty or not, what the reader returns is the recording of what the user's log was after some part of the run, and after all of it for a clean key |
| StoredHistory.CleanPreferenceIsRespected | cache.go:122-129 | over every run, while the preferences are clean in the cache, a roll is recorded if and only if it fits the limits and Redis does not list the opt-out |
| StoredHistory.LogGrowsExactly | cache.go:120-139 | over every run with clean preferences, a roll enters the user's log if and only if the two length sums are at most 100 and Redis does not list the opt-out |
| StoredHistory.SerialWasRolled | cache.go:161-168 | everything the history reader returns, stale or not, is the serial of a roll of that user's accepted in the run |
| StoredHistory.OptOutTakesEffectExactly | interactions.go:835-843 | opting out stops the next recording if and only if no older preferences are cached |
| StoredHistory.SerialIsShort | expressions.go:79-87 | a recorded serial decodes to an expression Discord accepts, delimiters in it or not |
| StoredHistory.HistoryIsShort | cache.go:122-139 | so does everything a history ever holds |
| StoredHistory.StepCached | cache.go:49-114 | a cached value was cached before or is what Redis held at the time |
| StoredHistory.CachedFit | cache.go:49-114 | in every run even stale entries hold only short serials and properly filed rolls |
| StoredHistory.ReadsFit | cache.go:161-204 | so does everything the two readers return |
| Bot.AnswerIsUnique | cache.go:245-258 | the answers an import may give are mutually exclusive: one result for given rows |
| Bot.SuccessExactly | cache.go:245-268 | the answer is a success if and only if every row passes and there are not too many |
| Bot.FindBadRow | cache.go:250-258 | a refused list of rows has a row that fails a check |
| Bot.OkRow | cache.go:250-258 | an accepted list of rows has none |
| Bot.Golem.constructor | cache.go:37-46 | a new store is empty, within capacity and coherent |
| Bot.Golem.Add | cache.go:63 | a fill adds the fetched value, evicts at most one other entry and keeps capacity and coherence |
| Bot.Golem.SMembers | cache.go:49-65 | the set reader returns the cached value, or Redis' own which it then caches |
| Bot.Golem.SIsMember | cache.go:68-76 | true exactly for members of what the set reader sees, which may be stale |
| Bot.Golem.ZRevRangeAll | cache.go:80-96 | the ranked reader returns the cached list, or Redis' members from the highest score down, which it then caches |
| Bot.Golem.HGetAll | cache.go:98-114 | the hash reader returns the cached table, or Redis' own, which it then caches |
| Bot.Golem.CacheRoll | cache.go:120-159 | recording a roll in place is one step of the state machine, with its two early returns |
| Bot.Golem.Record | cache.go:134-153 | the pipeline leaves the recorded set and no cached entry |
| Bot.Golem.CachedSerials | cache.go:161-168 | a user's history is what the ranked reader sees under that user's own key |
| Bot.Golem.SetNamedRoll | expressions.go:154-180 | saving a roll in place is one step; it fails exactly for rolls over Discord's limits |
| Bot.Golem.ModalSave | main.go:343-357 | a modal save cleans the record, and succeeds exactly when it passes both checks |
| Bot.Golem.SlashSave | interactions.go:596-628 | the slash save also needs room; refused for lack of it, it leaves the record untouched |
| Bot.Golem.Unsave | interactions.go:629-642 | the row is gone from Redis, the key is dirty |
| Bot.Golem.ClearExpressions | interactions.go:914-923 | the table is gone from Redis, the key is dirty |
| Bot.Golem.ClearRecent | interactions.go:809-814 | the history is gone from Redis, the key is dirty |
| Bot.Golem.UserSetPreference | settings.go:45-48 | the preference is added in Redis, the key is dirty |
| Bot.Golem.UserUnsetPreference | settings.go:50-53 | the preference is removed in Redis, the key is dirty |
| Bot.Golem.PreferRecent | interactions.go:835-843 | enabling removes the opt-out; disabling adds it and drops the history |
| Bot.Golem.ImportExpressions | cache.go:230-269 | the import in place: the new state, the one right answer with its row, fault or total, and which records were cleaned |
| Bot.Golem.CheckRows | cache.go:250-258 | the validation loop stops at the first bad row, having cleaned exactly the rows up to it |
| Bot.Golem.ReplaceAll | cache.go:260-265 | delete and save loop together leave what saving the cleaned rows one by one into nothing leaves |
| Interleaving.CachedValuesWereHeld | cache.go:49-114 | in every interleaving each cached or about-to-be-cached value was held by Redis for its key at some point |
| Interleaving.ReadsWereHeld | cache.go:49-114 | so was every value a reader returns |
| Interleaving.UninterruptedSteps | cache.go:134-153 | run without interruption the halves compose to the sequential steps |
| Interleaving.InterruptedWriteLeavesStale | cache.go:141-153 | a reader between removal and execution leaves a stale entry after the write |
| Interleaving.StepStaysCurrentExactly | cache.go:134-153 | a step keeps all cached and pending copies current if and only if it changes nothing in Redis that a copy of its key shows |
| Interleaving.InterleavingIsCurrentExactly | cache.go:49-153 | an interleaving keeps all copies current throughout if and only if every step of it does where it happens |
| Interleaving.UncopiedWriteIsQuiet | cache.go:141-153 | a write whose key was just removed, with no read of it under way, is such a step whatever it writes |
| WorkerPool.StepPlaces | bot.go:169-206 | a step moves a session from one place to the next and neither loses nor duplicates it |
| WorkerPool.StepInv | bot.go:169-206 | every step keeps unsent + queued + in hand + reported + collected at n, each session in exactly one place |
| WorkerPool.RunInv | bot.go:179-206 | that invariant over every interleaving |
| WorkerPool.StartedInOrder | bot.go:169-191 | in every interleaving sessions are opened in the order of their indices, and results collected in the order in which they were sent |
| WorkerPool.PollsBeforeCollecting | bot.go:188-206 | collection begins only after every session was sent and every poll made |
| WorkerPool.SendsNeverBlock | bot.go:179-191 | a send on either buffered channel always has room |
| WorkerPool.NoDeadlock | bot.go:183-207 | with at least one worker some step is possible until `Open` returned and all workers ended |
| WorkerPool.NoWorkersNoReturn | bot.go:184-186 | without workers nothing is opened and `Open` never returns |
| WorkerPool.StepsDecrease | bot.go:169-206 | every step of every interleaving makes progress |
| WorkerPool.RunsAreFinite | bot.go:169-206 | the length of every run is bounded by the initial measure |
| WorkerPool.CollectedMeansOpened | bot.go:203-206 | when collection ends every session was opened exactly once and both channels are empty |
| WorkerPool.ReturnedMeansOpened | bot.go:203-207 | `Open` returns only then |
| WorkerPool.MaximalRunsFinish | bot.go:167-207 | a run that cannot go on has finished if and only if there is a worker |
| Buttons.CollapseModifier | buttons.go:207 | collapsing `+-` never merges the base with the modifier: the ID ends in the signed modifier |
| Buttons.IdsDiffer | buttons.go:209-213 | buttons with different modifiers have different IDs, for any base |
| Buttons.CollapseEverywhere | buttons.go:207 | every `+-` becomes `-`, wherever it stands |
| Buttons.ButtonShowsItsRoll | buttons.go:199-206 | a button shows what its press adds to the base; the primary one, for 0, shows the base |
| Buttons.CaptionsDiffer | buttons.go:199-206 | two buttons look alike if and only if the base looks like the modifier of one of them |
| Buttons.OwnMentionIsCut | interactions.go:419-423 | the bot's own mention, plain or by nickname, is cut out wherever it stands |
| Buttons.AddressedMessage | interactions.go:412-425 | a message that addresses the bot and gives a plain expression rolls it |
| Buttons.PressRollsModifier | main.go:295-297 | pressing a button rolls exactly the base and the signed modifier if and only if the base is plain and free of `+-` |
| Buttons.MakeModifierRange | buttons.go:169-179 | the modifiers in order; panics exactly for sizes outside 0 to 30 |
| Buttons.AllocateGrid | buttons.go:184-190 | rows of at most five cells with room for exactly the modifiers, no row shared |
| Buttons.MakeModifierButtonPad | buttons.go:181-221 | every cell filled with its own button, in reading order, no write out of range |
| Buttons.FillPad | buttons.go:192-219 | the running index arrives at each row at five times its number, so every row gets its own buttons |
| Buttons.FillRow | buttons.go:194-218 | one row is filled completely and the index moves on by its length |
| Buttons.CellOf | buttons.go:192-219 | each button is in exactly one cell of the grid |
| Buttons.ModifierPad | interactions.go:708-732 | the command shows at most five rows, panics exactly when the span exceeds 24, and then both bounds were given; with a bound missing the span is 14, and centred on 0 with both missing |
| Shards.DeriveClusterShards | config.go:85-101 | every error case, and otherwise the shards of the cluster in closed form |
| Shards.ShardsArePartitioned | config.go:95-99 | each shard is dealt to exactly one cluster, at the position its quotient names |
| Shards.DealtIncreases | config.go:95-99 | no cluster lists a shard twice |
| Choices.DistinctChoices | autocomplete.go:340-352 | the loop with its seen-set computes the first occurrences |
| Choices.FirstOfIs | autocomplete.go:339-352 | the result has distinct names and is a subsequence |
| Choices.FirstNames | autocomplete.go:339-352 | it has the same set of names |
| Choices.FirstOccurrences | autocomplete.go:344-351 | a choice is kept if and only if it is the first with its name |
| Choices.FirstOfDistinct | autocomplete.go:339-352 | a list is left alone exactly when its names are distinct, hence idempotence |
| Choices.FuzzyFilter | autocomplete.go:28-44 | the matches are exactly the ranked names, each with its own stored choice, no two alike |
| Choices.Lookup | autocomplete.go:39-43 | every ranked name is found in the map |
| Choices.ByName | autocomplete.go:30-35 | with distinct names no choice is lost in the map |
| Choices.RankedNames | autocomplete.go:36-38 | a selection from distinct targets is distinct and made of targets |
| Choices.SuggestRolls | autocomplete.go:59-102 | at most 25 suggestions with distinct names: the typed text and then the matches in ranked order, or without typed text the recent and saved choices; all stored choices unchanged |
| Choices.RankedMatchesAreUnique | autocomplete.go:39-43 | for given choices and ranking there is only one list of matches |
| Choices.OfferedFit | autocomplete.go:266-307 | stored data within limits makes only choices within limits |
| Choices.SuggestionsFit | autocomplete.go:65-83 | after any run, from stale or current reads, every choice offered is within Discord's limits |
| Choices.RecentSuggestion | autocomplete.go:266-279 | a recent suggestion shows and sends the expression of the roll it was recorded from, if and only if that holds no delimiter |
| Choices.PickedRecent | autocomplete.go:74-83 | picking it rolls that expression again under an exact condition, and without a label exactly when the expression is plain |
| Choices.RecentSuggestionWasRolled | autocomplete.go:59-83 | after any run each recent suggestion is the expression of a roll of the user's accepted in it |
| Choices.PickedSuggestion | autocomplete.go:295-307 | the saved rolls follow under their readable texts, and picking one rolls exactly what was saved, under the exact condition that a save does not check |
| DicePredictor.ScanIsTotal | main.go:37-39 | the left-to-right scan counts exactly the words that start with three or more digits and a dice letter |
| DicePredictor.WordDiceExactly | main.go:37-39 | a word counts its number if it has three or more digits and then one of the four dice letters, and nothing otherwise |
| DicePredictor.TermCountsExactly | main.go:37-39 | a term counts its dice from 100 on, unless a letter or an underscore stands right in front of it |
| DicePredictor.TotalIsAdditive | middleware.go:29-34 | the count is additive across any character that is not part of a word |
| DicePredictor.ExcessiveDice | middleware.go:24-43 | the running 64-bit count, wrapped at every addition, decides as the saturated captures summed and wrapped once would |
| DicePredictor.RejectionIsRight | middleware.go:35-42 | a rejected expression does ask for too many dice, overflow or not |
| DicePredictor.CountIsTrueExactly | middleware.go:29-34 | the loop's counter ends as the true number of dice if and only if that number is below 2^63 |
| DicePredictor.VerdictInLap | middleware.go:24-43 | in each lap of 2^64 of the saturated count, which stretch is rejected rightly and which one is accepted although over the limit |
| DicePredictor.TwoTermsAreRightExactly | middleware.go:24-43 | with at most two dice terms, the verdict is right if and only if the saturated terms add up to less than 2^63 |
| DicePredictor.NoOverflowIsRight | middleware.go:24-43 | without overflow the verdict is right |
| DicePredictor.AppendingKeepsRejection | middleware.go:29-42 | without overflow, appending a separated term never turns a rejected expression into an accepted one |
| DicePredictor.HugeTermsAccepted | middleware.go:31-34 | two terms of 2^63 - 1 dice or more are accepted whatever the limit |

## Left out

- Discord sessions, gateway handlers, embeds, modals and help text: I/O without a property of its own.
- Dice evaluation, fuzzy scores, CSV and JSON encoding, the internals of the cache library and of Redis: code outside this repository.
- White space beyond ASCII: Go's trimming also removes Unicode spaces; here a text is a sequence of bytes and only the ASCII ones are trimmed.
- RoundTrips.RollableReadsBack: for a labelled roll, texts that hold a complete mention are outside the claim; the parser deletes mentions first, and `MentionMayVanish` shows that this can go either way. The same holds for `RollableRoundTrip`, `SecondParseAgrees` and `Choices.PickedSuggestion`.
- Readings.QuotedCommentExactly: texts without a mention, whose span closes on the line of the comment; `Readings.ParserReadsExactly` covers every input.
- Buttons.OwnMentionIsCut: the text in front holds no start of a mention, and the bot's own ID does not begin with an exclamation mark.
- Response.RollMessageReadsBack: the name is empty or one well-formed mention; a reply body that holds a mention of its own is outside the claim. The same holds for `ReplyToParsedInput`.
- Buttons.PressRollsModifier: the bot's own ID is not empty and holds no newline.
- DicePredictor.VerdictInLap: the limit is between 0 and 2^63 - 2.
- SavedExpressions.ModalRunIsUnlimited: the size has at most 100 digits, so that each saved number fits an expression.
- WorkerPool.MaximalRunsFinish: needs at least one session, since the code reads the first one; session errors are dropped by the code and not modelled.
- The polling loop of `Open` is bounded by a parameter in place of its ten-second deadline.
- Least-recently-used order: evictions are arbitrary, which covers it; the two halves of an interleaved read are modelled in `Interleaving`, not in the class.
- Redis errors, the mode without Redis, and the lengths of TTLs; expiry of any key at any time is a step.
- In the class `Golem` one Go function may be several methods (`ImportExpressions`, `CheckRows`, `CheckRow`, `ReplaceAll`, `SaveRow`; `CacheRoll`, `Record`; `Add`, `Keep`, `Victim`), and so may the parser and the button pad; the cache maps keys to immutable values, so sharing of slices between cache and callers is not modelled.
- The other suggesters and export: they read the same store through the modelled readers and change nothing in it.
- Guild settings: kept under keys of their own, which no modelled operation reads or writes.
- The splitter of multi-roll messages is called by nothing; the fixed button pads are literals; statistics, metrics and logging never reach the store or the texts.
