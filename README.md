# Live polling backend: a Dafny model of its two poll stores

The backend keeps two in-memory collections of polls.

**The live poll engine** (`server/sockets/pollSocket.js`). A module-level
dictionary `activePolls` maps the id of the presenter's socket connection to
the poll that connection created last. The socket events drive it:

- `create-poll` stores a fresh poll with zero tallies, broadcasts it and
  schedules an expiry timer.
- `submit-answer` adds one vote to an option and to the total, then
  recomputes every option's rounded percentage.
- `get-results` broadcasts a poll.
- `end-poll` and the timer callback mark a poll inactive.
- `disconnect` only logs.

The model is the class `PollSocket.PollEngine`. Its state is:

- the dictionary, as a `map<string, Poll>`;
- every broadcast, kept in an event log;
- the poll ids captured by the expiry timers that are still pending.

A timer firing is the explicit method `Expire`. The pure functions and
lemmas beside the class are in `PollTally` and `PollSocket`. `PollTally`
holds the tally arithmetic: sums, rounding, one vote. `PollSocket` holds the
handlers' effect on the dictionary and what any run of them preserves.

**The persisted poll list** (`server/routes/pollRoutes.js`). An array
`polls` that four HTTP routes use:

- `POST /create` validates the request and appends a poll.
- `GET /all` returns a reversed copy.
- `GET /:id` returns the first poll with the id.
- `DELETE /:id` splices out the first poll with the id.

The model is the class `PollRoutes.PollList`, whose state is a
`seq<StoredPoll>`. The generated id and the creation time are parameters of
`Create`.

A few facts about the code shape the model:

- A connection may vote any number of times: every vote on an active poll
  with a valid index is counted.
- `end-poll` has no owner check: it closes any existing poll for any caller.
- `disconnect` closes nothing and removes nothing.
- There is no waiting room; `socket.join` is the only room operation.
- Ids are never checked for duplicates. A second `create-poll` from the same
  connection replaces the earlier poll without closing it first.
- A poll that expires with no votes is broadcast with its options' `percent`
  still as the client sent it (normally absent), not as 0: percentages are
  only computed when a vote is counted.

## Model

| member | source | states |
|---|---|---|
| `PollTally.Percent` | server/sockets/pollSocket.js:40-42 | 0 when the total is 0; otherwise the integer nearest to 100·votes/total, with halves rounded up (`2t·r <= 200v + t < 2t·r + 2t`); at most 100 when votes ≤ total |
| `PollTally.RoundedShareBounds` | server/sockets/pollSocket.js:41 | the quotient `(200v + t) / 2t` is that nearest integer and is at most 100 when v ≤ t |
| `PollTally.Recompute` | server/sockets/pollSocket.js:38-43 | one option out per option in, in order, with the same client fields and tally, and `percent` set to `Percent(votes, total)` |
| `PollTally.NewPoll` | server/sockets/pollSocket.js:7-12 | the created poll is active, has total 0 and the given question, has one option per given option (same client fields, 0 votes, the client's `percent` kept by the spread), and its total equals the sum of its tallies |
| `PollTally.Tally` | server/sockets/pollSocket.js:34-46 | exactly the chosen option gains one vote and the total gains one; other tallies, option fields, question, active flag and option count are unchanged; a consistent total stays consistent; afterwards every percentage is current |
| `PollTally.ZeroVotesSumToZero` | server/sockets/pollSocket.js:9-10 | options that all have zero votes sum to 0, so a new poll's total of 0 is consistent |
| `PollTally.SumVotesBump` | server/sockets/pollSocket.js:34-35 | adding one vote to one option adds exactly one to the sum of tallies |
| `PollTally.SameVotesSameSum` | server/sockets/pollSocket.js:38-43 | recomputing percentages, or any change that keeps each tally, keeps the sum of tallies |
| `PollTally.VotesAtMostSum` | server/sockets/pollSocket.js:34-35 | no option's tally exceeds the sum of all tallies |
| `PollTally.PercentsInRange` | server/sockets/pollSocket.js:38-43 | in a consistent poll with current percentages, every percentage is present and lies in 0..100, and all are 0 when the total is 0 |
| `PollTally.TwoVotesSplitEvenly` | server/sockets/pollSocket.js:34-43 | two options with one vote each show 1 vote and 50 percent apiece, with a total of 2 |
| `PollTally.PercentsNeedNotSumToHundred` | server/sockets/pollSocket.js:38-43 | percentages are rounded one by one: three single votes give 33 each (99 in all), and 1 and 5 votes out of 6 give 17 and 83 |
| `PollSocket.Close` | server/sockets/pollSocket.js:60-65 | keeps every key; the poll under the id, if present, becomes inactive with every other field unchanged; every other poll is unchanged |
| `PollSocket.SubmitStatus` | server/sockets/pollSocket.js:31-35 | a vote is ignored exactly when the poll is missing or inactive, and accepted exactly when the poll is active and the index is within its options; otherwise the option lookup fails |
| `PollSocket.Step` | server/sockets/pollSocket.js:30-72 | one vote, read, manual end, timer callback or disconnect keeps every key and changes no poll but the one it names; reads and disconnects change nothing; an end or timer callback on a present poll leaves it inactive |
| `PollSocket.Run` | server/sockets/pollSocket.js:21-72 | a run of those handlers, first to last, keeps the set of keys (timer callbacks included) |
| `PollSocket.CloseOnlyDeactivates` | server/sockets/pollSocket.js:60-65 | closing changes only the active flag of the poll under that id, makes it inactive, is idempotent, leaves every other poll alone and does nothing for an unknown id |
| `PollSocket.CloseKeepsConsistent` | server/sockets/pollSocket.js:21-25 | closing a poll keeps every stored total equal to its tallies |
| `PollSocket.TallyKeepsStoreConsistent` | server/sockets/pollSocket.js:30-46 | an accepted vote keeps every stored total consistent and every voted poll's percentages current, and the poll stays active |
| `PollSocket.StepKeepsInvariants` | server/sockets/pollSocket.js:30-72 | one vote, read, manual end, timer callback or disconnect keeps the store consistent; it keeps every key, question and option count; and it never turns an inactive poll active |
| `PollSocket.RunKeepsInvariants` | server/sockets/pollSocket.js:21-72 | the same holds for any sequence of those handlers in any order, so `isActive` only goes from true to false |
| `PollSocket.ClosedPollFrozen` | server/sockets/pollSocket.js:30-66 | once a poll is inactive, no later vote, read, end, timer or disconnect changes any part of it |
| `PollSocket.PollEngine.constructor` | server/sockets/pollSocket.js:1 | the engine starts with an empty dictionary, no broadcasts and no pending timers |
| `PollSocket.PollEngine.CreatePoll` | server/sockets/pollSocket.js:5-27 | with options present, stores `NewPoll` under the caller's connection id (replacing any earlier poll there), broadcasts `poll-started` with it and schedules one timer for that id; with options absent, throws at `options.map` and changes nothing |
| `PollSocket.PollEngine.SubmitAnswer` | server/sockets/pollSocket.js:30-49 | a missing or closed poll, or an index outside the options, changes nothing and broadcasts nothing; an accepted vote stores `Tally` of the poll and broadcasts `poll-update` with its new options; timers are untouched; the store stays consistent |
| `PollSocket.PollEngine.GetResults` | server/sockets/pollSocket.js:52-57 | broadcasts `poll-results` exactly when the poll exists; never changes the dictionary |
| `PollSocket.PollEngine.EndPoll` | server/sockets/pollSocket.js:60-66 | closes the poll under the id, if any, for any caller; broadcasts `poll-ended` with the closed poll only when it exists |
| `PollSocket.PollEngine.Expire` | server/sockets/pollSocket.js:21-25 | the fired timer leaves the pending list; the poll now stored under the id it captured is closed and broadcast as ended |
| `PollSocket.PollEngine.Disconnect` | server/sockets/pollSocket.js:69-72 | the dictionary, the broadcasts and the timers are unchanged |
| `PollSocket.StaleTimerClosesNewerPoll` | server/sockets/pollSocket.js:5-26 | after two `create-poll`s from one connection, the first poll's timer closes the second poll, and the second poll's timer is still pending |
| `PollRoutes.ValidRequest` | server/routes/pollRoutes.js:11-13 | a request is accepted only with a question, options and at least two of them; an absent or empty question, absent options, or fewer than two options is refused |
| `PollRoutes.BuildPoll` | server/routes/pollRoutes.js:15-25 | the new record has the given id, question and creation time; its total is 0; it has one option per input option, with the input's text, 0 votes, and `isCorrect` true only when the input's is true (false when absent) |
| `PollRoutes.Reverse` | server/routes/pollRoutes.js:36 | the copy has the same length and holds the element from the mirrored position at every index |
| `PollRoutes.ReversePermutes` | server/routes/pollRoutes.js:36 | the reversed listing is a permutation of the stored list |
| `PollRoutes.ReverseInvolutive` | server/routes/pollRoutes.js:36 | reversing twice gives the list back |
| `PollRoutes.NewestFirst` | server/routes/pollRoutes.js:35-37 | after a poll is appended, the listing shows it first, followed by the earlier listing |
| `PollRoutes.FindIndex` | server/routes/pollRoutes.js:48 | -1 exactly when no poll has the id; otherwise the position of a poll with the id before which none has it |
| `PollRoutes.Find` | server/routes/pollRoutes.js:41 | nothing exactly when no poll has the id; otherwise a stored poll with that id |
| `PollRoutes.FindAtFindIndex` | server/routes/pollRoutes.js:41-48 | `find` returns the poll at the position `findIndex` reports, so it is the first match |
| `PollRoutes.RemoveAt` | server/routes/pollRoutes.js:51 | one element fewer; the elements before the index are unchanged and those after shift down by one in order; the multiset loses exactly the removed poll |
| `PollRoutes.FindSkipsPrefix` | server/routes/pollRoutes.js:41 | polls without the id placed in front do not change what `find` returns |
| `PollRoutes.DeleteThenFind` | server/routes/pollRoutes.js:47-53 | after a delete, looking the id up finds the next poll with that id, if any |
| `PollRoutes.DeleteUniqueThenGone` | server/routes/pollRoutes.js:47-53 | when ids are distinct, a deleted poll can no longer be found |
| `PollRoutes.PollList.constructor` | server/routes/pollRoutes.js:5 | the list starts empty |
| `PollRoutes.PollList.Create` | server/routes/pollRoutes.js:8-32 | rejected, with the list unchanged, exactly when the question is missing or empty, the options are missing, or fewer than two options are given; otherwise exactly one `BuildPoll` record is appended at the end |
| `PollRoutes.PollList.ListAll` | server/routes/pollRoutes.js:35-37 | returns the list in reverse order, as a permutation of it, without changing it |
| `PollRoutes.PollList.GetById` | server/routes/pollRoutes.js:40-44 | returns the first poll with the id, or nothing when none has it |
| `PollRoutes.PollList.DeleteById` | server/routes/pollRoutes.js:47-53 | not found, with the list unchanged, exactly when no poll has the id; otherwise removes exactly the first poll with the id, keeping the others in order |

## Left out

- Timers: the `setTimeout` delay and the `duration` argument (default 60000 ms) are not modelled. There is no clock, and a pending timer may fire at any point, through `Expire`.
- Broadcast targets: `io.emit` reaches every client, and `socket.join` has no observable effect here. Broadcasts are entries in the event log, with no recipients.
- `PollTally.Percent`: `Math.round((votes / total) * 100)` is evaluated in IEEE doubles. The model uses exact integer rounding, so results may differ at rare boundaries where the double quotient lands just beside a half.
- `PollSocket.PollEngine.SubmitAnswer`: `optionIndex` is an integer. JavaScript also accepts property names such as `"length"`. There, in non-strict code, the write to `votes` is silently lost while `totalVotes` still grows. Such a vote leaves `totalVotes` one above the sum of the tallies, so `StoreConsistent`, `TallyKeepsStoreConsistent` and `RunKeepsInvariants` hold only for integer indices. That input is not modelled.
- `PollSocket.PollEngine.CreatePoll`: the question is any string. An absent question, stored as `undefined`, is not distinguished.
- Option fields a client sends are an opaque string-to-string map. The spread `{...opt, votes: 0}` overwrites a client-sent `votes` key; the model keeps the tally in its own field and does not model a `votes` or `percent` key inside that map. A client-sent `percent` is an integer. Other JSON value kinds are not modelled.
- Keys inherited from `Object.prototype` (such as `"constructor"`) are not modelled. `activePolls` is a plain object, so they look present there; the model's dictionary starts empty.
- A handler that throws (a missing `options`, an out-of-range index) ends that handler with nothing changed. What the process then does with the exception is not modelled.
- `PollRoutes.PollList.Create`: only an absent question and `""` are modelled as falsy. Other falsy or non-string JSON values, non-array `options`, and `null` option entries are not modelled.
- `PollRoutes.BuildPoll`: an option's `text` is modelled only as an absent value or a string, and `isCorrect` only as an absent value or a boolean. The code copies any JSON `text` as sent, and `opt.isCorrect || false` keeps a truthy non-boolean `isCorrect` (such as `1` or `"yes"`) as sent, where the model stores `true`.
- HTTP status codes and JSON bodies: the model keeps only success versus rejection or not found.
- `uuidv4()` and `new Date()` are parameters of `Create`. The model does not assume ids are unique; `DeleteUniqueThenGone` states what uniqueness gives.
- Logging (`console.log`, the logger) and `server/server.js` are not modelled. That covers HTTP and socket setup, middleware, health endpoints, listening and shutdown.
