# Murmur-server core in Dafny

Murmur-server stores short geo-located messages ("messages in space") in a
MongoDB collection, serves a random, freshness-biased sample of them to
clients, lets clients up-vote messages once each, and periodically sweeps
the collection to delete messages that did not collect enough recent votes.
This project models the logic of that core and proves what it does:

- **The retention sweep** (`voter.js`, module `Voter` in `voter.dfy`).
  `cleanDatabase` reads every stored message. For each one it computes a
  vote quota from the message's age (`getVoteReq`: none in the first hour,
  then five per hour of age) and a voting window (`getWindow`: the age,
  capped at one hour). It then walks the vote list, splicing out votes older
  than the window and counting the rest. A message whose tally is below the
  quota is deleted from the store; otherwise it gets a rating from the
  surplus.
- **The read, vote and normalise path** (`database.js`, module `Database` in
  `database.dfy`). `getMessages` issues a query for a fifth of the requested
  size among messages younger than one hour, then a query among the older
  ones for the rest. Both carry a random `rand` threshold, the bounding box
  and, for clients that exclude flagged content, `nsfw: false`. When both
  come back empty it issues a fallback query with the `rand` inequality
  flipped. The rows are then passed through `normalize`, which rescales
  ratings linearly by their minimum and maximum (`getMinMax`). `voteFor`
  appends a vote unless that voter already voted for the message.
- **The session table** (`user.js`, module `Users` in `users.dfy`): a map
  from socket id to vendor id with insert-if-absent, delete and lookup.

The store is the class `Store.Collection` (`store.dfy`), whose field `docs`
maps each message id to its document. Its methods are the store calls of the
sweep and of `voteFor`: a lookup by id, a full scan, an append to one
message's vote list and a delete by id. The other store call, the filtered,
sorted and limited `query` of `getMessages` (database.js:143-156), is taken
as a parameter of `Database.GetMessages`. The shared record types are in
`messages.dfy`.
Timestamps are integer milliseconds. The wall clock is a parameter `now`
(`start` in `getMessages`), and each `Math.random()` draw is a real
parameter in [0,1). Quotas, thresholds and normalised ratings are exact
`real`s.

The model follows the code, and several of its proved properties differ
from what the comments in the source describe:

- **The pruning loop undercounts.** After `splice(j, 1)` the index still
  advances, so the vote that moved into slot `j` is never examined. It is
  neither counted nor, if it was expired too, removed. `Voter.Prune` is that
  loop as a recursion. The lemmas show that it drops only expired votes and
  keeps every in-window vote in order. Its tally is at most the true
  in-window count, and `[expired, recent]` counts 0.
- **The rating is 1 or 10, never 2 to 9.** The header comment of voter.js
  (lines 57-67) describes ten bands. The loop, however, starts at `k = 9`,
  whose threshold `q + q/9` is the lowest of all, so the first test decides
  the outcome (`Voter.BandTwoValued`).
- **Only deletions reach the store.** The pruned votes and the new rating
  are written to the sweep's local copies, never back to the collection.
  So a rating stored by `insertMessage` (database.js:51) stays 1, while
  `insertMessageArray` stores the caller's ratings as given. When every
  rating is equal and lies between 1 and 10, in particular when every
  rating is 1, `normalize` divides zero by zero
  (`Database.AllOnesNotSpread`).
- **Limit 0.** MongoDB reads `limit(0)` as "no limit". For a request of one
  message, a fresh query that returns its one row leaves the aged query a
  limit of 0, which is unbounded. The bound "no more rows than requested"
  is therefore proved for requests of two or more.

## Model

| member | source | states |
|---|---|---|
| Voter.GetVoteReq | voter.js:134-143 | the quota is 0 exactly when the age is under one hour (negative ages included); from one hour on it is 5 per hour of age, hence at least 5 |
| Voter.VoteReqStrictlyIncreasing | voter.js:138-142 | from one hour of age on, an older message needs strictly more votes |
| Voter.GetWindow | voter.js:151-159 | the window is the age capped at one hour; whenever a quota is due, the pruning threshold `now - window` is exactly one hour before `now` |
| Voter.PruneVotes | voter.js:97-105 | the splice loop leaves exactly the vote list and tally described by `Prune`, whose properties are the lemmas below |
| Voter.PruneDropsOnlyExpired | voter.js:97-105 | every vote the loop removes is older than the threshold, and the kept votes are in their original order |
| Voter.DropsOnlyExpiredKeepsRecent | voter.js:97-105 | removing only expired votes loses no in-window vote and does not lengthen the list |
| Voter.PruneKeepsRecent | voter.js:97-105 | after the loop the in-window votes are exactly those before it, in order |
| Voter.PruneUndercounts | voter.js:97-105 | the tally never exceeds the number of in-window votes |
| Voter.PruneNothingExpired | voter.js:97-105 | with no expired vote, the list is unchanged and every vote is counted |
| Voter.PruneSkipsAfterSplice | voter.js:99-100 | after a splice the next vote is skipped: `[expired, recent]` counts 0 with one vote in the window, and `[expired, expired]` keeps the second expired vote |
| Voter.BandTwoValued | voter.js:115-120 | the k-loop started at k gives k + 1 if the tally exceeds `q + q/k`, and 1 otherwise |
| Voter.SurplusRating | voter.js:113-120 | the rating loop gives 10 when the tally exceeds the quota by more than a ninth, and 1 otherwise |
| Voter.Evaluate | voter.js:90-123 | for one message, only the votes and rating of the local copy can change; under one hour of age nothing changes and nothing is deleted; once a quota is due the local votes are the pruning loop's result at `now - 1h`; a deleted message's rating is untouched |
| Voter.EvictionRule | voter.js:107-110 | a message is deleted exactly when a quota is due and its tally of votes newer than one hour is below it; a tally equal to the quota survives |
| Voter.RatingRule | voter.js:113-120 | a surviving message with a quota is rated 10 when its tally exceeds quota + quota/9, and 1 otherwise; never 2 to 9 |
| Voter.TwoHourExamples | voter.js:107-120 | at two hours of age the quota is 10: 9 recent votes are deleted, 10 give rating 1, 20 give rating 10 |
| Voter.WindowPruningExample | voter.js:95-110 | a vote two hours old on a message ninety minutes old is pruned, and the message is deleted |
| Voter.EvaluateMessage | voter.js:90-123 | the body of the outer loop computes exactly the local copy and deletion verdict of `Evaluate` |
| Voter.Survivors | voter.js:107-111 | the store after a sweep holds only messages it already held, each unchanged |
| Voter.EvictedIdsMember | voter.js:107-110 | an id is deleted by a pass over a scan exactly when some scanned message with that id fails its quota |
| Voter.SweepMessage | voter.js:89-124 | one turn of the outer loop changes only that message's local copy, and removes that message from the store exactly when it fails its quota |
| Voter.SweepAll | voter.js:89-124 | after the outer loop, the store has lost exactly the failing scanned messages, and every local copy is its evaluated version |
| Voter.LocalCopiesAt | voter.js:89-124 | the k-th local copy after the loop is the evaluation of the k-th scanned message |
| Voter.SweepLeavesSurvivors | voter.js:75-124 | deleting the failing messages of a full scan leaves exactly the survivors |
| Voter.CleanDatabase | voter.js:69-125 | the sweep scans every stored message, leaves the store holding exactly the messages that meet their quota, unchanged, and writes pruned votes and ratings only to its local copies |
| Store.Collection.Find | database.js:169-173 | the lookup by id yields the document when the id is present and nothing otherwise |
| Store.Collection.FindAll | voter.js:75-81 | the full scan returns every stored document once, each as stored |
| Store.Collection.Push | database.js:188 | `$push` appends the vote to that message's list and changes nothing else |
| Store.Collection.Remove | voter.js:110 | `remove` deletes that id only; a missing id changes nothing |
| Database.AgeFiltersDisjoint | database.js:84-116 | the fresh (`$gt`) and aged (`$lt`) time filters match no common message, and neither matches a message stamped at the boundary |
| Database.Flip | database.js:120-124 | the fallback keeps the rand key and reverses the inequality |
| Database.NewMsgQuerySize | database.js:83 | the fresh slice is the least n with 5n at least the requested size; it lies between 0 and the size for non-negative sizes, is positive for a positive size, and is below the size from 2 on |
| Database.RandomIntegerInRange | database.js:258-260 | for a draw in [0,1) and min ≤ max, the result lies between min and max |
| Database.SortOrder | database.js:109 | the sort order is ascending (1) exactly when the draw is at least one half, and descending (-1) otherwise |
| Database.GetMessages | database.js:80-131 | fresh query with `time > start - 1h`, then aged query with `time < start - 1h` for the rest of the size; rand ceiling above 0.5 and floor otherwise; fallback with the flipped inequality, the aged time filter and the full size, issued exactly when both slices are empty; box, nsfw and order shared by all queries, the order being the one `SortOrder` draws; rows in the box and unflagged when asked; the answer is the normalised rows, no more than requested from size 2 on |
| Database.CollectedWithinSize | database.js:115-126 | with positive limits throughout, the rows collected number at most the requested size |
| Database.RowsAdmissible | database.js:87-95 | every row returned lies in the box and, when flagged content is excluded, is not flagged |
| Database.NormalizeRows | database.js:128 | the rows keep their number, order and every field but the rating; they are normalised whenever min and max differ or are 1 and 10, and otherwise share one rating |
| Database.CastVote | database.js:165-191 | `voteFor` returns undefined exactly when the message exists and that voter already voted, and true otherwise; a duplicate vote writes nothing; no message is added or removed, and other messages are untouched |
| Database.VoteFor | database.js:165-191 | the lookup, the voter scan with its early return and the `$push` together have exactly the effect and result of `CastVote` |
| Database.VoteAppendsOne | database.js:183-188 | a recorded vote is one `{vid, now}` appended at the end of that message's list, with the rest of the message unchanged |
| Database.VoteForKeepsVotersUnique | database.js:176-188 | `voteFor` keeps every message's voters distinct |
| Database.DistinctVotesBy | database.js:176-181 | in a list without repeated voters, a voter has exactly one vote if they voted and none otherwise |
| Database.VoteTwiceRecordsOnce | database.js:176-188 | two votes in a row by one voter for one message leave exactly one vote from that voter; the second changes nothing and returns undefined |
| Database.LowScan | database.js:230-240 | `low` starts at 10, is at most every rating, and is either 10 or one of the ratings |
| Database.HighScan | database.js:231-240 | `high` starts at 1, is at least every rating, and is either 1 or one of the ratings |
| Database.MinMaxOf | database.js:224-248 | `{min: 1, max: 10}` for no rows; otherwise every rating lies between min and max, min is 10 or a rating and max is 1 or a rating, so they are min(10, least rating) and max(1, greatest rating) |
| Database.GetMinMax | database.js:224-248 | the scan loop returns exactly `MinMaxOf` of the rows |
| Database.AllOnesNotSpread | database.js:204-208 | when every rating is 1, min and max are both 1 and the rescaling would divide by zero |
| Database.Normalized | database.js:201-215 | normalising keeps the length and every field but the rating |
| Database.NormalizeIdentity | database.js:204 | with min 1 and max 10 the rows are returned unchanged |
| Database.NormalizedRange | database.js:206-211 | otherwise every rating lands in [0, 10] and the order of ratings is kept |
| Database.Normalize | database.js:201-215 | the in-place loop leaves the array equal to `Normalized` of its old contents |
| Users.ConnectedUsers.constructor | user.js:14 | the table starts empty |
| Users.ConnectedUsers.GetVID | user.js:48-50 | the lookup yields the bound vendor id when the socket is present and undefined otherwise |
| Users.ConnectedUsers.AddConnectedUser | user.js:24-28 | an absent socket is bound to the id with every other key unchanged; a present socket leaves the table as it was, so the first binding wins |
| Users.ConnectedUsers.RemoveConnectedUser | user.js:37-39 | only that socket's key is deleted, an absent socket is a no-op, and the lookup afterwards yields undefined |
| Users.ConnectThenDisconnect | server.js:46-104 | a socket that connects then disconnects is found while connected and not afterwards, and the rest of the table is as before |

## Left out

- The MongoDB connection, index creation, capped collection and `deasync`
  busy-waits (database.js:15-30, voter.js:18-26): I/O. Store errors and the
  `assert.equal` calls on them are not modelled.
- The `setInterval` schedule of the sweep (voter.js:29): timing.
- `query` (database.js:143-156) is a parameter. The model assumes only that
  its rows match the filter and that they number at most `limit` when
  `limit` is positive. The sort by time and the `returnFields` projection
  are not modelled: rows are whole documents in an unspecified order. No
  bound is assumed for a zero or negative limit.
- `$geoWithin`/`$box`: the model assumes the rectangle the two corners
  span, in whichever order they come. The callers pass the north-west and
  south-east corners, and a store that reads an inverted box as matching
  nothing is not modelled. The spherical and wrap-around semantics of the
  2d index are left out too. The box test appears only in what the store
  is assumed to return, so `Database.RowsAdmissible` holds for the same
  test whatever reading is chosen.
- `insertMessage` and `insertMessageArray` (database.js:42-69): thin
  wrappers over the profanity filter, the clock, `Math.random` and the
  driver. `insertMessage` rates a new message 1, which is the case
  `Database.AllOnesNotSpread` takes as its hypothesis; `insertMessageArray`
  stores whatever ratings its caller supplies.
- `count`, `deleteDB`, `printEntries` (database.js:267-302) and
  `printConnectedUsers` (user.js:56-60): I/O helpers.
- `server.js` is not part of this model beyond the connect/disconnect pairing
  in `Users.ConnectThenDisconnect`. Its `numberOfUsers` counter (user.js:7,
  user.js:65) increments a copied export and is left out.
- Floating point: quotas, thresholds and ratings are exact reals, so no
  rounding is modelled.
- Database.NormalizeRows: when min and max are equal and not 1 and 10, the
  source computes 0/0, a NaN with no real value. The model leaves the rating
  unspecified in that case, except that every row gets the same one.
- Database.Normalize: requires min and max to differ (or be 1 and 10),
  because otherwise the division has no real result.
- Database.GetMessages: the bound "no more rows than requested" is stated
  only for sizes of two or more. For sizes 0 and 1, a limit of 0 reaches the
  store, which reads it as no limit.
- Voter.CleanDatabase: one `now` is used for the whole sweep. The source
  reads the clock separately in `getVoteReq`, `getWindow` and line 95.
- Database.VoteTwiceRecordsOnce: assumes the first call's `$push` has
  reached the store before the second call's lookup. In the source the push
  is not awaited and `deasync` runs the event loop inside `voteFor`, so two
  overlapping upvotes can both pass the scan and both append a vote.
- Users.ConnectedUsers.AddConnectedUser: the map ignores keys a JavaScript
  object inherits from `Object.prototype`. For a socket id that names an
  inherited property (`toString`, `constructor`, `__proto__`) the `in` test
  already succeeds, so the source binds nothing, and `getVID` returns the
  inherited value (a function, or `Object.prototype`). socket.io's generated
  ids never take these values.
- Voter.CleanDatabase: the full scan's order is unspecified, and the store
  is assumed not to change during the sweep. Concurrent `voteFor` calls and
  sweeps are not modelled.
