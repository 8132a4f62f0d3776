# Voting bot engine, modelled in Dafny

This project is a functional model of the voting engine of `VotingBot`, a chat bot. The bot reads `!vote ...` commands in Mattermost channels and keeps polls and vote receipts in a Tarantool store. The model covers:

- **Maybe** (`maybe.dfy`): the optional-value datatype shared by the other modules.
- **Text** (`text.dfy`): the Python string helpers the bot relies on, namely `strip`, `split`, `' '.join`, ASCII `lower` and `str(int)`.
- **Choices** (`choices.dfy`): `split_choices`, the quote-aware comma splitter behind `-c="..."`.
- **Arguments** (`arguments.dfy`): `parse_arguments`, the `-key=value` state machine over whitespace tokens.
- **Polls** (`polls.dfy`): the records.
  - A poll has a creator, a question, options, an active flag and a channel.
  - The options are kept in creation order, each under its key `"1"`, `"2"`, ..., with its text and vote count.
  - The store is a map from poll id to poll plus a set of `(poll, user)` receipts.
  - The store invariant has three parts: each poll's total equals its number of receipts, no receipt outlives its poll, and option keys are distinct.
- **Ranking** (`ranking.dfy`): the order of a results report. Options are sorted by non-increasing count, and ties keep poll order, as Python's stable `sorted(..., reverse=True)` does.
- **Engine** (`engine.dfy`): create, vote, end, delete and results.
  - Each is a pure function from a store to an outcome and the next store.
  - Outcomes are evaluated in the order the source evaluates its checks.
- **Dispatch** (`dispatch.dfy`): `handle_message`.
  - The `!vote` prefix test, the split into tokens, the lower-cased subcommand and each subcommand's arity check.
  - The reply as an abstract value.
  - Replaying any sequence of messages.
- **Feed** (`feed.dfy`): the per-channel high-water mark of `message_loop`.
  - Python's `max` picks the first newest post.
  - The post is handled only when it is newer than the mark and not the bot's own, and the mark moves in both cases.
  - A channel with an empty post list aborts the rest of the round.

Points where the behaviour of the source deserves a note:

- **Empty choices.** `split_choices` appends the trimmed current choice at every comma outside quotes, empty or not, so `"a,,b"` gives `["a", "", "b"]` (`Choices.SplitKeepsEmptyChoice`). At the end of the string a choice is appended only when characters were collected.
- **Delete.** `handle_delete` removes the poll and then only the requester's own receipt (bot/main.py:427-429), although its reply says that all of the poll's data was cleared (bot/main.py:434). `Engine.Delete` models the code as written. `Engine.DeleteWithReceipts` removes every receipt of the poll, as the reply says. `Engine.DeleteVersions` states exactly how the two differ, and Findings reports the discrepancy.
- **Deletion mode.** The dispatcher, the message replay and the polling loop take the deletion as a parameter of type `Engine.Deletion`. `AsWritten` runs `Engine.Delete`, which is the program of bot/main.py, and `Corrected` runs `Engine.DeleteWithReceipts`.
  - With either deletion the store keeps the weaker invariant `Polls.Sound`: no poll counts more votes than it has receipts, and option keys are distinct.
  - The full invariant `Polls.Inv` holds only with `Corrected`: `Engine.DeleteLeavesOrphans` shows the as-written deletion leaving receipts behind.
- **Key tokens inside quotes.** A token that starts with `-` and holds `=` is recognised before the open quote is looked at (bot/main.py:225 comes before bot/main.py:242). It therefore ends a quoted value and opens its own key: `-q="What is -x=y?"` gives `q` = `What is` and `x` = `y?` (`Arguments.KeyTokenEndsQuote`).
- **Duplicate ids.** When a drawn poll id already exists, the store refuses the insert, and `Create` answers `IdTaken` with the store unchanged.

## Model

| member | source | states |
|---|---|---|
| Text.StripBy | bot/main.py:202 | `strip` leaves no strippable character at either end, and what it removes is exactly a run of strippable characters in front and another behind, keeping the slice between them |
| Text.StripUnique | bot/main.py:227 | Any split of a string into a strippable front, a slice with no strippable character at either end and a strippable back makes `strip` return that slice |
| Text.StripDropFirst | bot/main.py:227 | Dropping a leading strippable character does not change what `strip` returns |
| Text.StripDropLast | bot/main.py:227 | Dropping a trailing strippable character does not change what `strip` returns |
| Text.StripKeepsQuoteFree | bot/main.py:202 | Stripping a quote-free string gives a quote-free string |
| Text.WordsOfJoin | bot/main.py:97 | Splitting the single-space join of non-empty, space-free tokens gives the tokens back, so `message.split()` recovers a command's words |
| Text.DecimalInjective | bot/main.py:146 | Distinct option numbers get distinct `str(i)` keys |
| Text.DecimalRoundTrip | bot/main.py:146 | The decimal key of an option number reads back as that number |
| Choices.Scan | bot/main.py:195-213 | From any state of the loop, every choice still appended is whitespace-trimmed and contains no quote character |
| Choices.SplitChoices | bot/main.py:187-215 | Every choice returned is trimmed and quote-free |
| Choices.SplitEncode | bot/main.py:195-213 | Round trip: trimmed, quote-free choices, the last non-empty, written with `,`-plus-whitespace separators (commas inside choices quoted), split back to exactly those choices; empty middle choices survive, and one trailing separator adds none |
| Choices.SplitEmpty | bot/main.py:212-215 | The empty string gives no choices |
| Choices.SplitExample | bot/main.py:187-215 | `"Go, Rust, C++"` gives three choices |
| Choices.SplitTwo | bot/main.py:201-213 | `"u,v"` gives `["u", "v"]` |
| Choices.SplitKeepsEmptyChoice | bot/main.py:201-204 | `"a,,b"` keeps the empty middle choice |
| Choices.SplitTrailingComma | bot/main.py:205-213 | A comma plus whitespace at the end adds no empty choice |
| Choices.SplitQuotedComma | bot/main.py:198-203 | A comma inside quotes belongs to the choice, and the quotes are dropped |
| Arguments.ParseArguments | bot/main.py:217-254 | The result's keys are exactly the non-empty lower-cased keys named by `-key=` tokens; all are lower case |
| Arguments.StrayTokensIgnored | bot/main.py:242-249 | From the start state, tokens that are not key tokens, seen before any key token, change nothing |
| Arguments.StrayPrefixDropped | bot/main.py:224-249 | Tokens before the first key token do not affect the result |
| Arguments.LastKeyWins | bot/main.py:225-254 | A final `-key=value` token stores its value, outer quotes stripped, over whatever the key held, and changes no other key, even with a quote still open |
| Arguments.KeyStep | bot/main.py:225-241 | From a state where no value hangs without a key, a key token stores the open key, and flushing afterwards gives the earlier pairs with the token's key mapped to its value, outer quotes stripped |
| Arguments.KeyStepParts | bot/main.py:225-241 | From such a state, a key token leaves the earlier pairs flushed, its own key open and a value of exactly one word, its value with the opening and matched closing quote taken off |
| Arguments.EdgeQuotes | bot/main.py:233-241 | Taking the opening quote off a key token's value, and then its closing quote, leaves the final `strip('"')` of that value unchanged |
| Arguments.QuotedNoEmptyKey | bot/main.py:225-247 | The tokens of a quoted group open no empty key: only the first is a key token, and its key is non-empty |
| Arguments.KeyAfterOpenQuote | bot/main.py:225-254 | A key token after a quoted group whose closing quote is missing ends that group's value and stores its own value |
| Arguments.KeyTokenEndsQuote | bot/main.py:224-254 | The tokens of `-q="What is -x=y?"` give `q` = `What is` and `x` = `y?` |
| Arguments.RunInsideQuotes | bot/main.py:242-247 | While a quote is open, words without quotes that open no key are appended to the value in order |
| Arguments.RunOutsideQuotes | bot/main.py:248-249 | With a key open and no quote open, words that open no key are appended to the value in order |
| Arguments.RunPair | bot/main.py:225-247 | A quoted group read from a settled state stores the previous key and leaves its own key open with exactly its words; the quote stays open exactly when the group does not close it |
| Arguments.RunPlain | bot/main.py:225-249 | A plain group `-k=w1 w2 ... wn` read from a settled state stores the previous key and leaves `k` open with exactly its words, no quote open |
| Arguments.ParsePairs | bot/main.py:224-254 | Round trip: any sequence of groups, each either quoted (`-k="w1`, ..., `wn"`) or plain (`-k=w1`, `w2`, ..., `wn`), parses to the map from each key to its words joined with single spaces; a later group overrides an earlier one with the same key |
| Arguments.ParseUnterminated | bot/main.py:242-252 | A last quoted group whose closing quote is missing still yields its value |
| Arguments.ParseExample | bot/main.py:224-254 | The tokens of `-q="Best lang?" -c="Go, Rust, C++"` give `q` and `c` with the spaces restored |
| Arguments.ParsePlainExample | bot/main.py:224-254 | The tokens of `-q=Best lang? -c="Go, Rust, C++"` give `q` = `Best lang?`: unquoted words after a key token continue its value |
| Arguments.EmptyKeyValueCarriesOver | bot/main.py:225-237 | A `-=v` token opens no key, but its collected value is not reset and is prefixed to the next key's value |
| Polls.FindKey | bot/main.py:456 | The dictionary lookup: the first position holding the key, or none exactly when no option has it |
| Polls.NumberedOptions | bot/main.py:146-147 | The i-th choice is stored under `str(i+1)` with count 0; keys are distinct and the total is 0 |
| Polls.Bump | bot/main.py:462 | Exactly one option's count rises by one; all other options are unchanged; the total rises by one |
| Polls.EmptyInv | bot/main.py:146-147 | The empty store satisfies the invariant |
| Polls.InvSound | bot/main.py:462-465 | The full invariant implies the weaker one: receipts back every counted vote and keys are distinct |
| Ranking.Rank | bot/main.py:329-333 | The ranking is non-increasing by count and a permutation of the options |
| Ranking.RankStable | bot/main.py:329-333 | For every count, the options with that count keep their poll order (stability) |
| Ranking.RankUnique | bot/main.py:329-333 | Any non-increasing, per-count order-preserving list of the options equals the ranking |
| Ranking.RankTieExample | bot/main.py:329-333 | Counts 5, 5, 2 keep keys 1, 2, 3 in order |
| Ranking.RankReorderExample | bot/main.py:329-333 | Counts 2, 5, 5 rank as keys 2, 3, 1 |
| Engine.Validate | bot/main.py:126-143 | The create checks in order: no tokens; `q` missing or empty; `c` missing or empty; fewer than two choices. Accepted exactly when all pass, with the question and split choices |
| Engine.NewPoll | bot/main.py:145-169 | The stored poll: the caller as creator, the question, active, the channel, options `"1".."N"` in choice order with count 0 |
| Engine.Create | bot/main.py:124-170 | Rejections store nothing; a taken id stores nothing; otherwise only the new poll is added, under the drawn id; receipts never change |
| Engine.AddVote | bot/main.py:447-466 | Precedence: not found, then inactive (even for a bad option), then invalid option, then already voted; only an accepted vote changes the store (one count, one receipt) |
| Engine.End | bot/main.py:370-384 | A missing poll or a non-creator leaves the store unchanged; the creator's end clears only the active flag |
| Engine.Delete | bot/main.py:413-429 | As written: guards as for end; the poll record and only the requester's receipt are removed |
| Engine.DeleteWithReceipts | bot/main.py:413-429 | Corrected deletion: the same guards; the poll and every receipt of it are removed |
| Engine.Results | bot/main.py:318-333 | Nothing for an unknown id; otherwise the question, the status, the total of the counts and the stable non-increasing ranking |
| Engine.CreatePreservesInv | bot/main.py:145-169 | Creating keeps the store invariant |
| Engine.AddVotePreservesInv | bot/main.py:462-465 | Voting keeps every poll's total equal to its receipts |
| Engine.EndPreservesInv | bot/main.py:384 | Ending keeps the invariant |
| Engine.DeleteWithReceiptsPreservesInv | bot/main.py:427-429 | The corrected deletion keeps the invariant |
| Engine.CreateKeepsSound | bot/main.py:145-169 | Creating keeps receipts behind every counted vote and keys distinct |
| Engine.AddVoteKeepsSound | bot/main.py:462-465 | An accepted vote adds one count and one receipt, so receipts still back every count |
| Engine.EndKeepsSound | bot/main.py:384 | Ending keeps the weaker invariant |
| Engine.DeleteKeepsSound | bot/main.py:427-429 | Both deletions keep the weaker invariant: removing the poll drops its counts, and the receipts removed are only the deleted poll's |
| Engine.DeleteKeepsConserved | bot/main.py:427-429 | The as-written deletion keeps the totals of the remaining polls, but leaves the deleted poll's other receipts behind |
| Engine.DeleteVersions | bot/main.py:427-429 | The two deletions agree on outcome and polls, and differ exactly in the deleted poll's receipts held by other users |
| Engine.DeleteLeavesOrphans | bot/main.py:427-429 | Counterexample: after the creator deletes a poll that bob voted in, bob's receipt remains; a new poll under the same id counts 0 votes but has a voter, and bob's vote in it is refused |
| Engine.ValidQuestionAndChoices | bot/main.py:126-143 | `-q=<q> -c=<c>` with plain values and at least two choices passes validation |
| Engine.CreateExampleArgs | bot/main.py:126-143 | `-q=Q2 -c=u,v` is a valid request for choices `u`, `v` |
| Engine.CountedVoteEffect | bot/main.py:462-466 | In any store whose polls have distinct option keys (every store the code as written reaches), an accepted vote raises exactly the chosen key's count by one; texts, keys, question, creator and status stay; the total rises by one |
| Engine.SecondVoteRefused | bot/main.py:459-460 | After an accepted vote, the same user's next vote in the poll, for any option, is refused and changes nothing |
| Engine.EndedRefusesVotes | bot/main.py:452-453 | After an end, every vote in the poll is answered inactive with the store unchanged |
| Engine.EndTwice | bot/main.py:376-384 | Ending twice is the same as ending once |
| Engine.CreateKeepsClosed | bot/main.py:145-169 | Creating a poll never makes an existing closed poll active |
| Engine.AddVoteKeepsClosed | bot/main.py:447-466 | A vote never makes a closed poll active |
| Engine.EndKeepsClosed | bot/main.py:384 | Ending never makes a closed poll active |
| Engine.DeleteKeepsClosed | bot/main.py:427-429 | Neither deletion makes a remaining closed poll active |
| Dispatch.Classify | bot/main.py:97-122 | Fewer than two tokens or an unknown lower-cased subcommand give help; `vote` with other than two arguments, or `results`, `end`, `delete` with other than one, give the usage line (the arity checks at the head of each handler, e.g. bot/main.py:259); otherwise the subcommand with its arguments |
| Dispatch.ParseMessage | bot/main.py:94-95 | A message is a command exactly when it starts with `!vote` |
| Dispatch.ParseUnparse | bot/main.py:93-122 | Round trip: the canonical message of any well-formed command is read back as that command |
| Dispatch.ClassifyIgnoresCase | bot/main.py:103 | The subcommand word is recognised in any letter case |
| Dispatch.Execute | bot/main.py:105-122 | Each command runs its engine operation, a delete running the deletion the mode names; after a successful end the reply carries the results report of the store the end leaves, which shows the poll closed |
| Dispatch.HandleMessage | bot/main.py:93-95 | A message that does not start with `!vote` is ignored and changes nothing |
| Dispatch.HandleUnparsed | bot/main.py:93-122 | The canonical message of a command runs exactly that command |
| Dispatch.ReadOnlyMessages | bot/main.py:96-122 | Ignored, help, usage and results messages leave the store unchanged |
| Dispatch.HandlePreservesInv | bot/main.py:93-122 | With the corrected deletion, every message keeps the store invariant |
| Dispatch.ReplayPreservesInv | bot/main.py:93-122 | With the corrected deletion, any sequence of messages keeps the store invariant |
| Dispatch.HandleKeepsSound | bot/main.py:93-122 | With either deletion, the one of bot/main.py included, every message keeps receipts behind every counted vote and keys distinct |
| Dispatch.ReplayKeepsSound | bot/main.py:93-122 | With either deletion, any sequence of messages keeps the weaker invariant |
| Dispatch.HandleNeverReopens | bot/main.py:93-122 | No single message makes a closed poll active again |
| Dispatch.ReplayNeverReopens | bot/main.py:357-384 | A closed poll stays closed through any sequence of messages while it exists |
| Feed.FirstMax | bot/main.py:73 | `max` by creation time: a post no older than any other, and every post before it strictly older, so the first maximum |
| Feed.Visit | bot/main.py:72-84 | Empty post list aborts the round; the newest post is handled exactly when it is newer than the mark and not the bot's, and a post no newer than the mark changes nothing; and then the store is the one `handle_message` leaves for that post's text, channel and author; the mark moves for the bot's own posts too; marks never decrease and other channels' marks stay |
| Feed.NoReplay | bot/main.py:75-78 | Seeing the same posts again right after handles nothing and changes nothing |
| Feed.EmptyChannelEndsRound | bot/main.py:73 | Channels after one with an empty post list are not visited in that round |
| Feed.VisitGood | bot/main.py:72-84 | With either deletion, one channel visit keeps per-channel handling in strictly increasing time, no bot posts, and the store invariant that deletion keeps |
| Feed.RoundGood | bot/main.py:66-84 | With either deletion, one round keeps the loop invariant |
| Feed.WatchGood | bot/main.py:65-84 | With either deletion, any number of rounds keeps the loop invariant |
| Feed.WatchFromIdle | bot/main.py:62-84 | From the start, no post is handled twice or out of order in its channel and none of the bot's own is handled; as written, receipts back every counted vote and keys stay distinct; with the corrected deletion the full store invariant holds |

## Left out

- The Mattermost driver, login, team and channel discovery and `send_message` (bot/main.py:31-59, 480-484): network I/O. Replies are the abstract `Dispatch.Reply` value, and the fetched posts are the parameter of `Feed.Round`.
- The Tarantool connection: the store is a Dafny map and set. The wire protocol and storage failures are not modelled, and neither are the exceptions the handlers catch for them.
- `uuid.uuid4()` (bot/main.py:145): the id is a parameter (`freshId`, `Fetch.freshId`).
- `handle_create` sends the success reply before the insert (bot/main.py:159-169). On a duplicate id the insert raises, so an error reply follows the success reply. The model answers only `IdTaken`.
- The `while True` loop, `time.sleep` and the back-off after an exception (bot/main.py:65-91). Rounds are a finite sequence (`Feed.Watch`). Exceptions other than `max` of an empty post list are not modelled.
- Percentages and bar lengths of the results (bot/main.py:336-344): float arithmetic. The report carries the total and the ranking.
- Concurrency of the check-then-act in `add_vote`: each operation is one sequential step.
- Logging, the help text and all reply wording (bot/main.py:469-478).
- Python's Unicode `isspace`, `split` and `lower`: whitespace is the ASCII set `isspace` accepts (space, tab through carriage return, and the four separator controls 28-31), and lower-casing covers A-Z only.
- `handle_results` re-reads the poll after `handle_end` updates it. The model reads the same store value.
- A handler that raises after the mark has moved (bot/main.py:78-84) is not modelled: every handled message completes.

- Dispatch.HandlePreservesInv: stated for the corrected deletion only. With the deletion of bot/main.py:429 the full invariant fails (`Engine.DeleteLeavesOrphans`); `Dispatch.HandleKeepsSound` states what the code as written keeps.
- Dispatch.ReplayPreservesInv: stated for the corrected deletion only, for the same reason; `Dispatch.ReplayKeepsSound` is its counterpart for the code as written.
- Feed.VisitGood: for the code as written the store part is the weaker invariant `Polls.Sound`, since the as-written deletion breaks the full one; the full invariant is promised only with the corrected deletion.
- Feed.RoundGood: the store part is `Polls.Sound` for the code as written, as for `Feed.VisitGood`.
- Feed.WatchGood: the store part is `Polls.Sound` for the code as written, as for `Feed.VisitGood`.
- Feed.WatchFromIdle: the full store invariant is promised only with the corrected deletion; for the code as written, `Polls.Sound`.

## Findings

| source | as written | input that shows it | evidently intended | confidence | as-written member | corrected member |
|---|---|---|---|---|---|---|
| bot/main.py:429 | Deleting a poll removes only the receipt `(voting_id, user_id)` of the requester, while the reply says all data was cleared | alice creates poll `p`, bob votes, alice deletes `p`; bob's receipt for `p` remains. A later poll under id `p` has total 0 and one receipt, and bob's vote in it is refused as already voted | every receipt of the deleted poll is removed | not executed | Engine.Delete, Engine.DeleteLeavesOrphans | Engine.DeleteWithReceipts, Engine.DeleteWithReceiptsPreservesInv |
