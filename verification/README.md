# gatherstack in Dafny

A model of the stateful core of the repository, with proofs over every input, run or reachable
state.  `dafny verify dfyconfig.toml` checks the project.

| component | modules |
|---|---|
| site-configuration store, update protocol, restart flag | `SiteConfig`, `ConfStore`, `Protocol`, `Delivery`, `Client`, `Restart` |
| configuration log and the file that mirrors it | `ConfigLog`, `EscapeHatch` |
| redacting and restoring secrets | `Json`, `Providers`, `Redaction`, `RedactionTheorems` |
| structural templates and their regexp query | `Template`, `Regexp`, `Holes`, `Translate`, `TranslateLimits`, `QueryMeaning`, `QueryText` |
| package graph traversals | `Names`, `Graph`, `Summary`, `Trace` |
| build history and branch lock | `Builds`, `Tally`, `Series`, `History`, `HistoryReport`, `Records` |
| authorization header, access tokens, line counter | `Header`, `HeaderTheorems`, `HeaderOutcomes`, `Octets`, `Hex`, `AccessTokens`, `AccessTokenTheorems`, `LineCount` |

Code that changes state is a class or a method with loops, proved against a specification function
on values; the theorems are about those functions.  `Protocol` is a transition system: the updater,
any number of watchers and any number of writers interleave, one step at a time.  Calls into code
outside the model are parameters: JSON decoding (`unmarshal`, `schema`), validation (`validate`),
the clock, the calendar, the language of a user's regexp (`lang`), lower-casing (`lower`), the hash
and the random bytes of a token.

## Where the code does less than promised

For each there is a lemma at an input, and the exact condition.

- The stored raw configuration can keep an old row id, because the comparison ignores ids
  (`RawIdMayLag`, `RawIsOfferIff`).
- A write can return without error before the store has its text, when the fetch it triggers fails
  (`FailedFetchBreaksWriteThenRead`).  It is in the store exactly when that fetch succeeded with text
  or the store already had that version (`WrittenIsReadIff`).
- The escape hatch reaches agreement exactly when `CanConverge` holds beforehand (`ConvergesIff`).
  It never does after an invalid file edit, after a table edit that keeps the text
  (`SameTextEditBlocksLaterFileEdits`), or after the table's text goes back between two passes
  (`RevertBetweenPassesDiverges`).
- Restoring secrets restores the providers exactly when equal client ids carry equal secrets
  (`ProvidersRoundTripIff`, `SharedClientIDLosesSecret`), and the document exactly when in addition a
  provider list is present and in its decoded form (`DocumentRoundTripIff`,
  `MissingListBecomesNull`).  A secret replaced by a non-string is overwritten by the old one
  (`NullDoesNotClear`, `ReplacementKeptIff`).
- Literal and Hole terms alternate exactly when the template does not end inside a hole
  (`AlternatesIff`, `OpenHoleDoesNotAlternate`).
- The query can miss a text its template describes, because a regexp with a newline is cut wrongly
  (`SoundIff`, `SplitClassMisses`, `NewlineHoleMissesText`).  A hole on its own is translated soundly
  exactly when it is clean (`SingleHoleIff`), and so is every pattern in which nothing that is cut out
  of an unclean hole is the regexp of some hole (`OverApproximatesIff`).  In the other patterns clean
  holes are sufficient and not necessary (`ShadowedSplitClass`).
- At depth 0 the traversal overwrites the caller's root list, unless its self edges come first
  (`RootRowAfter`, `RootRowOverwritten`).
- Parsing auth-params slices out of range exactly when an item that is a name, "=" and one quote
  comes before any other error (`PanicsIff`, `LoneQuotePanics`).
- Three names in the list of options that require a restart (`searchScopes`, `extensions`,
  `insights.commit.indexer.interval`) are no fields of the site configuration in schema/schema.go.
  Names that are no options never ask for a restart (`SurplusNamesDoNothing`).

## Model

| member | source | states |
|---|---|---|
| `SiteConfig.ParseConfigData` | internal/conf/parse.go:11-25 | the decoded options and experimental features are kept, missing experimental features are filled in, and it fails exactly when decoding does |
| `SiteConfig.ParseConfig` | internal/conf/parse.go:28-36 | the parsed site beside the raw service connections |
| `ConfStore.Cell.constructor` | internal/conf/store.go:32-36 | a new store holds nothing and is not ready |
| `ConfStore.Cell.MaybeUpdate` | internal/conf/store.go:97-131 | the new state, whether the parsed value changed, both values, and each error exactly when it arises |
| `ConfStore.OfferKeepsCoherent` | internal/conf/store.go:97-131 | an offer keeps the store coherent, although raw text is stored before it is parsed |
| `ConfStore.StoreTracksNewest` | internal/conf/store.go:97-131 | after any offers the last valid value is the parse of the newest offered text that parses, and the raw text is that of the newest non-empty offer |
| `ConfStore.RawIdMayLag` | internal/conf/conftypes/conftypes.go:52-55 | two offers after which the stored row id is not the newest |
| `ConfStore.RawIsOfferIff` | internal/conf/store.go:110-117 | the stored raw value is the offered one exactly when its content differs from the stored one or the ids agree |
| `Protocol.NoLostWakeUpStep` | internal/conf/client.go:200-215 | every step keeps: a watcher got the current configuration on every read of its latest run, or has a token, is about to read, or is still ahead of the notify pass |
| `Protocol.StoreAgreesStep` | internal/conf/client.go:306-340 | every step keeps the store tied to what the source held, and its version never falls |
| `Protocol.WritersAgreeStep` | internal/conf/server.go:44-68 | every step keeps a returned writer covered by a fetch that started after its write |
| `Protocol.InvRun` | internal/conf/client.go:232-340 | the whole invariant holds along every run |
| `Protocol.ReachableInv` | internal/conf/client.go:232-340 | every reachable state satisfies the invariant |
| `Protocol.QuiescentIsFresh` | internal/conf/client.go:160-215 | in every reachable quiescent state every read of each watcher's last run got the current configuration |
| `Protocol.QuiescentHasNewest` | internal/conf/client.go:160-340 | and when the store has caught up with the source, that is the parse of the source's newest text |
| `Protocol.StaleWatcherIsWoken` | internal/conf/client.go:200-215 | in any interleaving a watcher whose latest run began reading before the newest publication has something left to wake it |
| `Protocol.WriteThenRead` | internal/conf/server.go:44-68 | when a write has returned and its fetch succeeded, the store holds a text the source held at or after that write |
| `Protocol.RawNeverGoesBack` | internal/conf/client.go:306-323 | the version of the stored text never decreases along a run |
| `Protocol.FailedFetchBreaksWriteThenRead` | internal/conf/client.go:268-304 | a reachable state where a returned write is not in the store because the fetch failed |
| `Protocol.WrittenIsReadIff` | internal/conf/client.go:268-323 | a write is in the store when it returns exactly when the fetch that served it succeeded with text or the store had that version already |
| `Delivery.InternalStepDecreases` | internal/conf/client.go:160-340 | every step of writers, updater and watchers without new input lowers a rank, and a further read in one run leaves it |
| `Delivery.SettlesFresh` | internal/conf/client.go:160-340 | every run without new input is bounded by the rank; once no step is left all updates are over, all writes have returned, and every watcher is parked and fresh |
| `Delivery.DeliversNewest` | internal/conf/client.go:160-340 | if one fetch of the settled source succeeds, every watcher ends with the parse of the source's newest text |
| `Client.UpdateClient.Register` | internal/conf/client.go:160-166 | a new watcher is appended with an empty channel |
| `Client.UpdateClient.NotifyWatchers` | internal/conf/client.go:200-215 | afterwards every channel holds a token, full ones included |
| `Client.UpdateClient.FetchAndUpdate` | internal/conf/client.go:306-340 | the new state for a failed and for a successful fetch, and each error, or none, exactly when it arises |
| `Client.UpdateIsProtocolRun` | internal/conf/client.go:306-340 | the sequential method is a run of protocol steps, so the protocol's theorems apply to it |
| `Restart.DiffStruct` | internal/conf/diff.go:21-32 | exactly the fields whose values differ |
| `Restart.Diff` | internal/conf/diff.go:13-19 | exactly the site, experimental and service fields that changed, by prefixed name |
| `Restart.ChangedByKind` | internal/conf/diff.go:13-54 | each name in the diff stands for one option, experimental feature or service connection whose value changed |
| `Restart.NeedRestartToApply` | internal/conf/parse.go:63-74 | true exactly when a changed field is listed |
| `Restart.RequireRestartIsPlain` | internal/conf/parse.go:43-59 | no listed name carries a prefix the diff adds |
| `Restart.NeedRestartIffViewsDiffer` | internal/conf/parse.go:63-74 | a restart is needed exactly when the listed options have different values |
| `Restart.SurplusNamesDoNothing` | internal/conf/parse.go:43-74 | listed names that are no options change no decision |
| `Restart.Server.OnUpdate` | internal/conf/server.go:76-96 | the watcher callback's new state |
| `Restart.FlagIffJump` | internal/conf/server.go:71-113 | the flag is set exactly when some adjacent observed pair needs a restart |
| `Restart.FlagTelescopes` | internal/conf/server.go:71-113 | while unset every listed option is as in the first observation; once set it stays set |
| `ConfigLog.ConfStore.GetLatest` | internal/database/conf.go:281-301 | the row with the largest id, if any |
| `ConfigLog.ConfStore.CreateRow` | internal/database/conf.go:231-279 | the new table and result of compare-and-append |
| `ConfigLog.ConfStore.AddDefaultRow` | internal/database/conf.go:208-223 | the default is added exactly on an empty table |
| `ConfigLog.ConfStore.SiteCreateIfUpToDate` | internal/database/conf.go:104-119 | the whole transaction, rolled back on an error |
| `ConfigLog.ConfStore.SiteGetLatest` | internal/database/conf.go:121-137 | the newest row, after adding the default to an empty table |
| `ConfigLog.DoAppends` | internal/database/conf.go:104-137 | a transaction only appends; an accepted write sits right after the row it named, or after the new default |
| `ConfigLog.WriteOutcome` | internal/database/conf.go:104-119 | every outcome of a write: which refusal and when, all fields of the added rows, and the table left behind |
| `ConfigLog.ReadOutcome` | internal/database/conf.go:121-137 | every outcome of a read: the newest row, or the default that is added, or the refusal |
| `ConfigLog.AcceptedIff` | internal/database/conf.go:231-279 | on a non-empty table a valid write is accepted exactly when it names the newest row or none |
| `ConfigLog.RunShape` | internal/database/conf.go:208-279 | in every run ids grow and the first row is the default |
| `ConfigLog.AppendOnly` | internal/database/conf.go:231-279 | the rows of a prefix of a run stay a prefix of the rows |
| `ConfigLog.AtMostOneWinner` | internal/database/conf.go:231-279 | of two writers that hold the same id of a non-empty table at most one is accepted |
| `ConfigLog.RowsAreAcceptedWrites` | internal/database/conf.go:104-137 | the rows are the default and then exactly the accepted writes, in order |
| `EscapeHatch.Worker.Write` | cmd/frontend/internal/cli/config.go:489-507 | a write is the log's compare-and-append with the given id |
| `EscapeHatch.Worker.Populate` | internal/conf/conf.go:238-255 | it succeeds exactly when the log has a row or the fallback is valid; then the worker is settled, else nothing changed |
| `EscapeHatch.Worker.RunPass` | internal/conf/conf.go:258-312 | one pass of the loop, with its early exits |
| `EscapeHatch.PassOutcome` | internal/conf/conf.go:258-312 | what a pass does in each of its four cases |
| `EscapeHatch.ConvergesIff` | internal/conf/conf.go:237-313 | agreement is reached exactly when it can be: in at most two passes, with at most one row, and for ever; else nothing ever changes |
| `EscapeHatch.FileEditIsSaved` | internal/conf/conf.go:258-290 | an accepted file edit becomes one row, and the worker settles again in two passes |
| `EscapeHatch.TableEditIsMirrored` | internal/conf/conf.go:292-311 | a table edit that changes the text reaches the file in one pass without an echo |
| `EscapeHatch.SameTextEditBlocksLaterFileEdits` | internal/conf/conf.go:258-311 | a row with the same text goes unnoticed, and then no file edit is ever saved |
| `EscapeHatch.RevertBetweenPassesDiverges` | internal/conf/conf.go:258-312 | a revert of the table between two passes leaves file and table apart for ever |
| `EscapeHatch.BlockedWhateverOthersDo` | internal/conf/conf.go:258-290 | a stale file edit stays unsaved whatever rows others append |
| `Json.ReadOwnEdit` | internal/jsonc/jsonc.go:51-74 | reading an edited property gives the new value |
| `Json.ReadOtherEdit` | internal/jsonc/jsonc.go:51-74 | an edit changes no property at a separate path |
| `Json.EditSame` | internal/jsonc/jsonc.go:51-74 | writing back what was read changes nothing |
| `Json.EditTwice` | internal/jsonc/jsonc.go:51-64 | the later of two edits of one property counts |
| `Json.EditsCommute` | internal/jsonc/jsonc.go:51-64 | edits at separate existing paths commute |
| `Providers.DecodeEncodeAll` | schema/schema.go:142-200 | decoding an encoded provider list gives it back |
| `Providers.ParsedIsWellFormed` | schema/schema.go:172-200 | every decoded provider list is one that encodes and decodes to itself |
| `Providers.ParseEdited` | internal/conf/validate.go:278-281 | after an edit of auth.providers the configuration parses to the edited list |
| `Redaction.RedactConfSecrets` | internal/conf/validate.go:329-402 | the redacted text, or the error, for every input |
| `Redaction.UnredactSecrets` | internal/conf/validate.go:230-314 | the restored text, or the error, for every pair of inputs |
| `RedactionTheorems.UnredactFails` | internal/conf/validate.go:230-281 | which error either function gives, exactly when |
| `RedactionTheorems.SiteConfigSecretsAreSeparate` | internal/conf/validate.go:205-224 | no listed path is a prefix of another or lies in auth.providers |
| `RedactionTheorems.RedactHides` | internal/conf/validate.go:329-402 | provider by provider the client secret is masked and nothing else changes, every listed string is masked, and no other location changes |
| `RedactionTheorems.RoundTrip` | internal/conf/validate.go:230-314 | restoring a redacted text gives the original with its provider list restored by client id |
| `RedactionTheorems.ProvidersRestoredIff` | internal/conf/validate.go:236-277 | masking and restoring providers is the identity exactly when equal client ids carry equal secrets |
| `RedactionTheorems.ProvidersRoundTripIff` | internal/conf/validate.go:230-314 | the restored text parses to the original providers exactly under that condition |
| `RedactionTheorems.DocumentRoundTripIff` | internal/conf/validate.go:230-314 | when the restored document is the original one |
| `RedactionTheorems.SharedClientIDLosesSecret` | internal/conf/validate.go:236-277 | two providers with one client id, of which one does not get its secret back |
| `RedactionTheorems.MissingListBecomesNull` | internal/conf/validate.go:278-281 | a document without providers comes back with a null list |
| `RedactionTheorems.EditorKeepsRest` | internal/conf/validate.go:230-314 | provider by provider a secret other than REDACTED is kept, and a redacted one becomes that of the last stored provider with the client id, or empty; each listed path holds the editor's or the old value; all else is kept |
| `RedactionTheorems.ReplacementKeptIff` | internal/conf/validate.go:283-306 | exactly when an editor's replacement of a listed secret survives |
| `RedactionTheorems.NullDoesNotClear` | internal/conf/validate.go:283-306 | a secret set to null comes back |
| `Template.ParseTemplate` | internal/comby/translate.go:55-146 | the rune loop computes the grammar's parse |
| `Template.ParseLosesNothing` | internal/comby/translate.go:55-146 | the terms concatenate to the input |
| `Template.ParseIsCanonical` | internal/comby/translate.go:55-146 | literals hold no hole start, holes are bracketed and balanced, only a last literal may be an open hole |
| `Template.CanonicalIsParse` | internal/comby/translate.go:55-146 | every canonical term list is the parse of its own text |
| `Template.AlternatesIff` | internal/comby/translate.go:55-146 | terms alternate exactly when the text does not end inside a hole |
| `Template.OpenHoleDoesNotAlternate` | internal/comby/translate.go:136-146 | a text that parses to two literals in a row |
| `Template.CloseNoneIffUnterminated` | internal/comby/translate.go:107-146 | a hole is open at the end exactly when no balanced prefix closes it |
| `Holes.MatchHereForm` | internal/comby/translate.go:33-33 | a match is a bracketed word and tilde, and a text up to the last closing bracket of the line |
| `Holes.HasMatchIff` | internal/comby/translate.go:33-33 | the search succeeds exactly when the text has that form somewhere |
| `Holes.OneLineExtracts` | internal/comby/translate.go:33-33 | a one-line regexp hole yields its regexp |
| `Holes.NewlineBreaks` | internal/comby/translate.go:33-33 | a regexp with a newline is never extracted correctly |
| `Holes.SoundIff` | internal/comby/translate.go:172-176 | when what is extracted demands no more than the hole stands for |
| `Regexp.AnyGapMatchesAll` | internal/comby/translate.go:182-191 | the gap between pieces matches every text |
| `Regexp.SpacesMatch` | internal/comby/translate.go:170-170 | the whitespace class matches exactly the non-empty whitespace runs |
| `Translate.LiteralMatchesItsFillings` | internal/comby/translate.go:168-171 | a literal's piece matches exactly the texts that agree with it up to whitespace runs |
| `Translate.TranslationOverApproximates` | internal/comby/translate.go:159-192 | every text that fills the template contains a match of the query |
| `Translate.ShortcircuitIsStricter` | internal/comby/translate.go:187-191 | every match of the shortcircuit query is a match of the full one |
| `Translate.CleanIsSound` | internal/comby/translate.go:172-176 | the condition of the theorem is exactly that every hole is extracted soundly |
| `TranslateLimits.OverApproximatesIff` | internal/comby/translate.go:159-192 | for every pattern without shadowed cuts the query over-approximates for all texts and languages exactly when every hole is clean |
| `TranslateLimits.SingleHoleIff` | internal/comby/translate.go:172-176 | the same for every hole on its own, without a condition |
| `TranslateLimits.ShadowedPairIsSound` | internal/comby/translate.go:159-192 | a hole for what is cut out of the next one makes good for it |
| `TranslateLimits.SplitClassMisses` | internal/comby/translate.go:172-176 | every hole with a bracket class closed before a newline is translated unsoundly |
| `TranslateLimits.ShadowedSplitClass` | internal/comby/translate.go:172-176 | behind the hole for its cut it is sound although it is not clean |
| `TranslateLimits.NewlineHoleMissesText` | internal/comby/translate.go:172-176 | a concrete hole and text, with regexps read the usual way, that the query misses |
| `QueryMeaning.ContainsIffHolds` | internal/comby/translate.go:159-192 | a text contains a match of the query exactly when it holds, in order, a part for each non-empty literal and each extracted regexp, with one-line gaps for shortcircuit |
| `QueryText.PieceText` | internal/comby/translate.go:168-171 | quoting and collapsing a literal prints its piece |
| `QueryText.JoinedText` | internal/comby/translate.go:187-191 | joining the printed pieces prints the joined regexp |
| `QueryText.CollectPieces` | internal/comby/translate.go:162-180 | the loop prints exactly the pieces of the terms, whose meaning `ContainsIffHolds` gives |
| `QueryText.StructuralPatToRegexpQuery` | internal/comby/translate.go:159-192 | the emitted text is that of a regexp that finds exactly the texts holding the template's literals and regexps in order |
| `QueryText.ExampleText` | internal/comby/translate.go:182-191 | the emitted texts of a pattern with a letter, a dot, a space and a regexp hole |
| `Graph.WithinStep` | dev/depgraph/trace.go:69-82 | distance at most n + 1 is distance at most n or one edge from there |
| `Summary.SummaryTraverse` | dev/depgraph/summary.go:123-146 | terminates with exactly the packages reached by a non-empty path, marked direct exactly for neighbours |
| `Trace.PruneOne` | dev/depgraph/trace.go:99-108 | in-place filtering keeps the kept ones in order and the tail as it was |
| `Trace.PruneEdges` | dev/depgraph/trace.go:99-108 | every slice is filtered, whatever order the keys are visited in |
| `Trace.NextBall` | dev/depgraph/trace.go:69-82 | one round of the frontier extends the ball by exactly one |
| `Trace.NextBoundary` | dev/depgraph/trace.go:69-82 | the next frontier is again the boundary of the ball |
| `Trace.LastBall` | dev/depgraph/trace.go:69-82 | stopping early on an empty frontier gives the same ball |
| `Trace.RootRowAfter` | dev/depgraph/trace.go:64-108 | when filtering leaves the aliased root list unchanged |
| `Trace.RootRowOverwritten` | dev/depgraph/trace.go:99-108 | a row that is overwritten at depth 0 |
| `Names.Sorted` | dev/depgraph/trace.go:84-88 | exactly the names of the set, ascending |
| `Trace.TraceTraverse` | dev/depgraph/trace.go:64-108 | exactly the packages within the bound, sorted and each once, exactly the induced edges in order, and when the caller's lists are unchanged |
| `Builds.FindConsecutiveFailures` | dev/buildchecker/failures.go:14-67 | the failures before the first non-scheduled passed build, whether they exceed, and how far it scanned |
| `Builds.CountedIndicesExact` | dev/buildchecker/failures.go:26-40 | the indices of the failures of a stretch, exactly and in order |
| `Builds.FirstRunByIndex` | dev/buildchecker/failures.go:14-67 | the failures found are the builds at those indices, newest first |
| `Builds.SkipNeutral` | dev/buildchecker/checker.go:44-76 | scanning from behind neutral builds finds the same failures |
| `Builds.CheckBuilds` | dev/buildchecker/checker.go:41-111 | locked exactly when the failures of the whole list's current series reach the threshold, then reporting the oldest of them; else unlocked, reporting all; each error exactly when its call fails |
| `Builds.Decide` | dev/buildchecker/checker.go:41-111 | the sliced scan decides as the simple rule on the whole list |
| `Builds.LockReportsOldest` | dev/buildchecker/checker.go:85-106 | a lock reports exactly the oldest `threshold` failures in order |
| `Tally.SumTotal` | dev/buildchecker/history.go:12-20 | the day counters together hold every amount added |
| `Tally.TotalOnDay` | dev/buildchecker/history.go:12-20 | each counter holds the amounts of its own day |
| `History.RunsPartitionFailures` | dev/buildchecker/history.go:22-63 | every counted failure lies in exactly one series, in order |
| `History.FlakesSkip` | dev/buildchecker/history.go:25-35 | skipping builds that did not fail loses no flake |
| `History.IncidentsSkip` | dev/buildchecker/history.go:25-35 | skipping builds that did not fail changes no incident |
| `HistoryReport.GenerateHistory` | dev/buildchecker/history.go:11-66 | by build index: one per build, one per failure of a series that is not exceeded, and for each exceeded series, and no other, the minutes from the last passed build before its first failed one to its oldest failure, on that failure's day |
| `Series.Minutes` | dev/buildchecker/history.go:43-43 | whole minutes, truncated toward zero |
| `History.HistoryConserves` | dev/buildchecker/history.go:11-66 | flakes and the sizes of exceeded series add up to the failures, totals to the builds |
| `Records.SortedRecords` | dev/buildchecker/history.go:75-83 | the entries of the map, by ascending day |
| `Records.FillGaps` | dev/buildchecker/history.go:84-104 | the loop that inserts while it iterates yields every day once, old values kept and zero elsewhere |
| `Records.MapToRecords` | dev/buildchecker/history.go:74-105 | exactly the consecutive days from earliest to latest |
| `LineCount.LineCountWriter.Write` | dev/src-expose/snapshot.go:104-133 | output, count and open line are those of feeding the bytes one by one |
| `LineCount.LineCountWriter.Close` | dev/src-expose/snapshot.go:136-144 | an open last line is ended |
| `LineCount.ChunkingIndependence` | dev/src-expose/snapshot.go:96-144 | any split into writes gives the state of one write |
| `LineCount.ClosedOutput` | dev/src-expose/snapshot.go:96-144 | after closing, the output is prefix, line and newline per line, and the count is their number |
| `Header.ParseHTTPHeaderList` | internal/authz/header.go:140-177 | the rune loop computes the list specification |
| `Header.ParseHTTPAuthParams` | internal/authz/header.go:110-131 | the parameters, or the first error, an out-of-range slice included |
| `HeaderTheorems.ListRoundTrip` | internal/authz/header.go:140-177 | printed parameters, bare or quoted, with space on either side of the commas, split back into their items |
| `HeaderTheorems.TrimSpaceExact` | internal/authz/header.go:163-174 | trimming takes off all whitespace at both ends and nothing else |
| `HeaderTheorems.AuthParamsRoundTrip` | internal/authz/header.go:110-131 | distinct lower-case keys with any values as quoted-strings, or token values as they are, parse back to the same map |
| `HeaderTheorems.SudoHeaderRoundTrip` | internal/authz/header.go:38-67 | a printed sudo header gives its token and user, or the disabled error |
| `HeaderTheorems.Token68RoundTrip` | internal/authz/header.go:38-102 | "token " and any token68 of section 2.1 of RFC 7235, padded or not, parses to it |
| `HeaderOutcomes.ParamsOutcome` | internal/authz/header.go:110-131 | by the text of the items: when the parameters parse and to which map, and when each error arises |
| `HeaderOutcomes.HeaderOutcome` | internal/authz/header.go:38-102 | for every header text the exact condition of every refusal and of success, and the token and user then |
| `HeaderOutcomes.BasicIsRefused` | internal/authz/header.go:44-46 | another scheme is refused, whatever it carries |
| `HeaderOutcomes.PanicsIff` | internal/authz/header.go:110-131 | the slice of a quoted value is out of range exactly when the first item that is no fresh pair is a name, "=" and one quote |
| `HeaderOutcomes.LoneQuotePanics` | internal/authz/header.go:120-123 | an input for which it is |
| `Hex.DecodeEncode` | internal/database/access_tokens.go:448-455 | decoding hex text gives back the encoded bytes |
| `Hex.EncodeDecode` | internal/database/access_tokens.go:448-455 | exactly the even-length texts of hex digits in either case decode, to bytes that encode to the text in lower case |
| `AccessTokens.AccessTokenStore.CreateToken` | internal/database/access_tokens.go:167-228 | the added row in full, each error exactly when it arises, and a token that carries the secret |
| `AccessTokens.AccessTokenStore.LookupToken` | internal/database/access_tokens.go:231-262 | the subject of a usable row, each error exactly when it arises, and last use set on exactly the usable rows |
| `AccessTokens.AccessTokenStore.DeleteByID` | internal/database/access_tokens.go:360-376 | row by row: the rows with the id are marked, nothing else changes, and not found exactly when none was live |
| `AccessTokens.AccessTokenStore.DeleteByToken` | internal/database/access_tokens.go:403-444 | the same by the hash of the token's bytes; an invalid token changes nothing |
| `AccessTokens.AccessTokenStore.HardDeleteByID` | internal/database/access_tokens.go:378-401 | exactly the rows with the id are gone, the others stay in order, and not found exactly when nothing changed |
| `AccessTokens.SecretOfToken` | internal/database/access_tokens.go:448-455 | an issued token decodes to its secret |
| `AccessTokens.SecretOfIff` | internal/database/access_tokens.go:448-455 | which texts decode, and to which bytes |
| `AccessTokenTheorems.RunTracks` | internal/database/access_tokens.go:167-444 | along every run the live rows are exactly the issued and not revoked tokens |
| `AccessTokenTheorems.LookupIffValid` | internal/database/access_tokens.go:231-262 | over whole runs a lookup answers u exactly when the token was issued for u with that scope, is not revoked since, and both users exist |
| `AccessTokenTheorems.PrefixIsOptional` | internal/database/access_tokens.go:448-455 | a lookup with and without the prefix gives the same answer |
| `AccessTokenTheorems.IdsNeverReused` | internal/database/access_tokens.go:378-389 | ids grow along every run, hard deletes included |
| `AccessTokenTheorems.RevokedForever` | internal/database/access_tokens.go:428-444 | a revoked token is refused after every continuation, whatever users come back |
| `AccessTokenTheorems.CreatedThenLookedUp` | internal/database/access_tokens.go:167-262 | a token just issued is accepted for each of its scopes |

## Left out

- `Mock`, the deadlock detector, sleeps, logging and metrics of the configuration client.
- The cached configuration source and its time to live (internal/conf/conf.go:128-166).
- JSON text: comments, formatting, key order, duplicate keys and omitted empty fields; a document is a value, and decoding of options other than auth.providers is a parameter.
- The digest of hashed redaction: the mask is any function of the secret.
- Regexp anchors, greediness and the matching order; a regexp has a set of matches.
- Text that is not valid UTF-8, and Unicode case and space tables beyond the `lower` parameter and ASCII whitespace.
- SQL isolation: every transaction is atomic, and a failed one consumes ids but leaves no row.
- Listing, counting and pagination of configurations and tokens; security event logs.
- `HistoryReport.GenerateHistory`: incident minutes are truncated toward zero; the floating-point rounding of the duration conversion is not modelled.
- `LineCount.LineCountWriter.Write`: the underlying writer always succeeds; short writes and their errors are not modelled.
- `TranslateLimits.OverApproximatesIff`: leaves out patterns in which what is cut out of one hole is the regexp of some hole; there `Translate.TranslationOverApproximates` is one way, because whether a filling holds enough matches then depends on the order and number of such holes.
- `Restart.FlagTelescopes`: the observed configurations have the same field names, as values of one Go struct do.
- `Restart.Diff`: field values are JSON texts; Go's deep equality on decoded values is text equality.
- `AccessTokens.AccessTokenStore.LookupToken`: when several rows match it returns the first; `LookupIffValid` assumes an injective hash and distinct random bytes, under which at most one does.
- Single-branch defaults, HTTP and chat clients, command-line wiring, generated code.
