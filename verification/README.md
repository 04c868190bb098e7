# BODDOS: verified model of the stateful core

BODDOS is a small mesh of HTTP nodes. This project models the parts of it that make promises over
whole runs, and proves those promises for every run: signed mesh requests with a collected nonce
cache, the rate limiter and lockout behind the request guard, the hash-chained audit log, the
streamed chat reply and the camera frame extractor, the dead-man's switch and the duress state it
drives, the in-process event bus, the tracker index and the one-time passwords.

`dafny verify dfyconfig.toml` checks everything.

| file | what it models |
|---|---|
| `MeshAuth.dfy`, `MeshAuthSlack.dfy`, `MeshAuthText.dfy` | `MeshAuth`: the class, runs of `verify`, the exact clock condition for replay protection, and the signed text against its parts |
| `Mesh.dfy` | several nodes with their own clocks over a network that drops, delays, reorders, duplicates and misdelivers |
| `TokenBucket.dfy`, `RateLimiter.dfy`, `Guard.dfy` | the token bucket against its history, the limiter object, the guard's order of calls |
| `Audit.dfy`, `AuditThreads.dfy` | the log object, tamper evidence, `record` in any number of threads |
| `JsonText.dfy`, `Stream.dfy`, `BrokenPeer.dfy` | JSON strings; the event stream's writers, the relay and the browser's reader; a peer that breaks off |
| `Mjpeg.dfy` | the MJPEG loop |
| `DeadMan.dfy`, `Duress.dfy` | check-in timers against their event history; the loop, the manual endpoints and the duress state |
| `Bus.dfy` | queues and the bus as objects; whole runs per subscriber |
| `Trackers.dfy` | the index against the full log, and the sorted list of suspects |
| `Totp.dfy`, `Decimal.dfy` | truncation, printing and the search window; decimal text |
| `Wrappers.dfy` | a value that may be missing, shared by the other modules |

An object whose methods update its fields is a class here, with its loops. Each method is proved
against a function of the old state, and the runs are runs of those functions. What those functions
answer is stated a second time in plain terms, on the inputs, without them: the lemmas whose names end
in `InPlain`. Clock readings,
nonces, chunks and network deliveries are inputs. A clock that the source reads twice is read twice
here: a new bucket's creation reading and a new track's creation reading are separate inputs.

What the proofs found about the code:

- Replay protection needs a clock that does not fall back too far, and how far is exact
  (`MeshAuthSlack.SlackIsExact`): with a skew of half a second or more, by at most
  `nonce_ttl_s - 2 * max_skew_s`, a minute with the defaults. On any larger fall there is a run that accepts
  a (timestamp, nonce) pair twice. `boddos/security/auth.py:3-8` and `docs/SECURITY.md:45-47` promise
  replay protection without the condition; the model follows the code.
- That is about pairs. The signed text stands for one request only when neither nonce nor body holds a
  dot (`MeshAuthText.FrameHasTwin`). `sign` draws nonces without dots, but a body may hold one, as any
  fraction in it does; then `verify` also accepts the request whose nonce runs on to that dot
  (`MeshAuthText.TwinIsAccepted`). So a text that `sign` made is accepted at most once in every run on a
  tolerated clock if and only if its body holds no dot (`MeshAuthText.SignatureIsUsedOnce`).
- A signed request names no receiver, so every node of the mesh accepts it once
  (`Mesh.DeliveryIsDecided`); at most once per node and peer-list entry is what holds.
- `docs/SECURITY.md:52-53` has `verify_chain` detect edits. What holds, for a hash that is not broken: a log
  that verifies and ends in the original's final hash is the original (`Audit.EditIsReported`, both ways).
  Without that hash to compare with, any tail may be missing, or rewritten and hashed anew, unreported
  (`Audit.TruncationIsNotReported`, `Audit.RewrittenTailVerifies`).
- A peer that breaks off during a streamed reply, at whatever character, makes the reply repeat what was
  already heard (`BrokenPeer.BrokenPeerRepeats`).
- A frame that ends after the first 5,000,000 bytes may or may not be returned, depending on how the
  stream is cut. `Mjpeg.HttpFrame` states exactly when.
- A check-in between the poll and the alarm does not stop the alarm (`Duress.HistoryIsExpected`: what
  fires is what was returned, in order).
- Only a clock that goes back can take a device off the list of suspects, and exactly by how far is
  `Trackers.UnflaggedByClock`.
- `totp.verify` raises, instead of answering, while the clock's counter is below the window: in the
  first thirty seconds of the epoch under the defaults (`Totp.FreshCodeIsAccepted`). It keeps no
  record of accepted codes, so an accepted code is accepted again while its window lasts; section 5.2
  of RFC 6238 asks a verifier not to do that.

## Model

| member | source | states |
|---|---|---|
| `MeshAuth.NoDoubleAcceptance` | boddos/security/auth.py:47-72 | in every run, collections included, no (integer timestamp, nonce) pair is accepted twice if the clock never falls, between any two readings, by more than is tolerated: `nonce_ttl_s - 2*max_skew_s`, or, where the windows leave gaps between whole seconds, less than the end of the gap that follows |
| `MeshAuth.CollectionIsInvisible` | boddos/security/auth.py:47-72 | under that clock, if no nonce is validly signed under two timestamps, every call gets the answer and the reason of a verifier that never forgets a nonce |
| `MeshAuth.CacheSize` | boddos/security/auth.py:47-51 | after any calls on any clock the cache has at most 4097 nonces, or at most one for the last acceptance and one for each earlier acceptance within `nonce_ttl_s` before it |
| `MeshAuth.RunIsMemoryOk` | boddos/security/auth.py:47-72 | what every call keeps: each acceptance was in the window, and its nonce is cached under its own expiry unless a later acceptance read past that expiry; each cached nonce comes from an acceptance |
| `MeshAuth.AcceptancesAreCalls` | boddos/security/auth.py:53-72 | an acceptance goes back to a call at that reading and to a validly signed call with that timestamp and nonce |
| `MeshAuth.SameStampIsCached` | boddos/security/auth.py:61-71 | a request that passes all other checks finds in the cache the nonce of any earlier acceptance under its timestamp |
| `MeshAuth.NotCollectedYet` | boddos/security/auth.py:47-71 | no reading that is accepted, and a tolerated fall above the current one, is past the expiry of an acceptance whose timestamp is still current |
| `MeshAuth.CacheAnswersForAllNonces` | boddos/security/auth.py:61-71 | a request that passes all other checks finds its nonce cached if it was ever accepted |
| `MeshAuth.SignedIsAccepted` | boddos/security/auth.py:38-72 | what `sign` made is accepted if and only if the receiver's clock is within `max_skew_s` of its whole second, on either side, and the nonce is not cached; otherwise the reason is the stale timestamp or the replay |
| `MeshAuth.MissingHeadersInPlain` | boddos/security/auth.py:54-58 | a request is refused for its headers if and only if one of the three is missing or empty under both spellings |
| `MeshAuth.VerifyInPlain` | boddos/security/auth.py:53-72 | with all three headers, in either spelling: when each of the five reasons, the exception and the acceptance are given, on the header texts, the reading and the cache; and the cache after it, entry by entry |
| `MeshAuth.SignInPlain` | boddos/security/auth.py:34-45 | the three headers of a signed request, and the whole second it is dated with |
| `MeshAuth.SignedInPlain` | boddos/security/auth.py:38-72 | signed in second t, it is accepted if and only if the reading is from t - `max_skew_s` to t + `max_skew_s` and the nonce is not cached |
| `MeshAuth.FrameIsInjective` | boddos/security/auth.py:34-36 | equal signed texts have equal timestamp, nonce and body when timestamp and nonce hold no dot |
| `MeshAuthText.FrameHasTwin` | boddos/security/auth.py:34-36 | under any given timestamp, another nonce and body make the same signed text if and only if the nonce or the body holds a dot |
| `MeshAuthText.TwinCutsElsewhere` | boddos/security/auth.py:34-36 | such a twin cuts the text at another dot of nonce or body |
| `MeshAuthText.TwinIsAccepted` | boddos/security/auth.py:65-72 | a request accepted with a dot in its body is accepted once more, at the same reading and by any cache, with the text before the dot moved into the nonce, if and only if that nonce is not cached |
| `MeshAuthText.AcceptedNoncesDiffer` | boddos/security/auth.py:47-72 | two accepted calls of a run under one timestamp have different nonces |
| `MeshAuthText.NoTextTwice` | boddos/security/auth.py:34-72 | in every run on a tolerated clock no signed text is accepted twice from requests whose timestamps and nonces hold no dot |
| `MeshAuthText.OneAcceptancePerText` | boddos/security/auth.py:34-72 | a validly signed text is accepted at most once in every run on a tolerated clock if and only if there is no dot in the body, nor in the nonce past its first character |
| `MeshAuthText.SignatureIsUsedOnce` | boddos/security/auth.py:38-72 | for what `sign` makes, if and only if there is no dot in the body |
| `MeshAuth.MeshAuth.Gc` | boddos/security/auth.py:47-51 | the loop drops exactly the expired nonces, and only from more than 4096 |
| `MeshAuth.MeshAuth.Verify` | boddos/security/auth.py:53-72 | outcome, reason and new cache of a call, and that the cache is the one the history of calls leaves |
| `MeshAuthSlack.SlackIsExact` | boddos/security/auth.py:28-72 | no run on a clock that falls back by at most `slack` accepts a pair twice, if and only if that fall is tolerated, for all limits |
| `MeshAuthSlack.WideWindowSlack` | boddos/security/auth.py:28-72 | from a skew of half a second on, if and only if `slack <= nonce_ttl_s - 2*max_skew_s` |
| `MeshAuthSlack.ZeroSkewSlack` | boddos/security/auth.py:28-72 | with a skew of 0 and a whole lifetime, if and only if `slack < nonce_ttl_s + 1` |
| `MeshAuthSlack.LargerFallsReplay` | boddos/security/auth.py:47-72 | for any fresh nonces and any second there is a run of signed requests, from that second on, that accepts a pair twice on a clock that falls by no more than an untolerated slack |
| `MeshAuthSlack.PaddedReadsBack` | boddos/security/auth.py:40 | enough different nonces of 32 hexadecimal digits exist |
| `MeshAuthSlack.DefaultSlack` | boddos/security/auth.py:28 | with the defaults the bound is 60 seconds, both ways |
| `MeshAuthSlack.ReplayIsAccepted` | boddos/security/auth.py:47-72 | the run that shows it: fill the cache, let it expire and be collected, set the clock back, and the first request is accepted again |
| `MeshAuthSlack.CollectorEmptiesTheCache` | boddos/security/auth.py:47-51 | the 4098th acceptance collects the nonces that have expired |
| `Mesh.PublishedAtMostOnce` | boddos/api/server.py:192-201 | in every run of the mesh no node publishes the same signed request twice |
| `Mesh.BroadcastIsBounded` | boddos/api/server.py:223-238 | one broadcast reaches any one bus at most as often as its sender has peer-list entries, and never with broadcasting switched off |
| `Mesh.RelayedEventIsTheBroadcast` | boddos/api/server.py:223-238 | what a receiver publishes for a broadcast is the sender's event marked as relayed |
| `Mesh.ReceiptsSendNothing` | boddos/api/server.py:223-227 | the same requests are sent in the same order when every delivery is struck out of the run |
| `Mesh.EveryRunIsSendingOk` | boddos/api/server.py:229-238 | at most one signed copy per peer-list entry and broadcast, addressed and filled from that entry |
| `Mesh.EveryEntryIsServed` | boddos/api/server.py:229-238 | every peer-list entry a broadcast has passed has had its copy |
| `Mesh.EveryRunIsReceivingOk` | boddos/api/server.py:192-227 | every relayed event goes back to a sent request under an acceptance of its nonce and timestamp, a later one for each |
| `Mesh.DeliveryIsDecided` | boddos/api/server.py:192-201 | with fresh nonces, a sent request handed to a node is accepted if and only if it arrives in the window and was not accepted there before |
| `Mesh.PublicationIsDecided` | boddos/api/server.py:223-227 | handing a sent request to the event endpoint publishes its event, marked as relayed, if and only if it is readable, in the window and new there; no other bus changes |
| `Mesh.BeginInPlain` | boddos/api/server.py:229-230 | a broadcast begins by putting its event on the sender's own bus, and on no other |
| `Mesh.SendInPlain` | boddos/api/server.py:231-236 | each turn of an unfinished broadcast sends its event, signed there and then, to the next entry of the peer list, and nothing when broadcasting is off |
| `Mesh.GreetInPlain` | boddos/api/server.py:123-129 | a greeting is one signed request, and touches no bus |
| `Mesh.HelloInPlain` | boddos/api/server.py:213-217 | a request at the greeting endpoint is verified like any other and puts nothing on any bus |
| `TokenBucket.NextTakeIsMinimum` | boddos/security/ratelimit.py:31-41 | a call on a bucket that is the minimum over its history answers as the history says and leaves the minimum over the longer history |
| `TokenBucket.FirstTakeIsMinimum` | boddos/security/ratelimit.py:12-17 | the same for a client's first call, from the level at the bucket's creation |
| `TokenBucket.WindowBound` | boddos/security/ratelimit.py:31-41 | on a clock that counts tokens, at most `capacity + (t - s)` is granted from s to t |
| `TokenBucket.GrantFitsWindow` | boddos/security/ratelimit.py:36-41 | one more grant inside the window still fits |
| `RateLimiter.AllowIsExact` | boddos/security/ratelimit.py:31-41 | `allow(cost)` succeeds if and only if, for every earlier call, cost and all costs granted since fit under capacity plus rate times the time since, with the creation level for the first call; the two stored fields are the minimum over the whole history |
| `RateLimiter.AllowKeepsBucketsOk` | boddos/security/ratelimit.py:31-41 | one call keeps every client's bucket the minimum over that client's history |
| `RateLimiter.WindowBoundInSeconds` | boddos/security/ratelimit.py:31-41 | between any two moments s and t a client is granted at most `capacity + rate*(t - s)` |
| `RateLimiter.BucketOkInTokens` | boddos/security/ratelimit.py:36-37 | the minimum in seconds is the minimum on a clock that counts tokens |
| `RateLimiter.RateLimiter.Allow` | boddos/security/ratelimit.py:31-41 | the answer is the exact law over the client's history, which grows by this call; both clock readings are separate |
| `RateLimiter.RateLimiter.IsLocked` | boddos/security/ratelimit.py:43-51 | the answer, and that a lockout that has run out is forgotten together with the failures |
| `RateLimiter.RateLimiter.RecordFailure` | boddos/security/ratelimit.py:53-57 | the count goes up by one and at the threshold the client is locked from this reading |
| `RateLimiter.RateLimiter.RecordSuccess` | boddos/security/ratelimit.py:59-61 | both entries of the client are gone, nothing else changes |
| `Guard.NodeState.Guard` | boddos/api/server.py:170-190 | response and limiter state of one request as one atomic step |
| `Guard.EveryAnswerIsRight` | boddos/api/server.py:175-190 | in every run, when each of the six answers is given: by path, lockout, the history of `allow` calls, whether a token is required and whether it is right |
| `Guard.ExemptInPlain` | boddos/api/server.py:49 | the paths that need no token, by their prefixes |
| `Guard.WrongTokenStops` | boddos/api/server.py:184-188 | in every run no request without the right token gets to a handler of a gated path |
| `Guard.RightTokenClears` | boddos/security/ratelimit.py:59-61 | after a right token the client has no failures and no lockout |
| `Guard.LockoutTakesThreshold` | boddos/security/ratelimit.py:53-61 | after a right token, whoever else makes requests, a lockout of the client takes a full threshold of its failures |
| `Guard.EveryRunIsLockoutOk` | boddos/api/server.py:178-190 | in every guarded run a client is locked if and only if its failures equal the threshold, which they never exceed |
| `Guard.FailuresAreBounded` | boddos/api/server.py:178-190 | a window of length W without a success of the client records at most `threshold * (floor(W/lockout_seconds) + 1)` of its failures |
| `Guard.LockoutHolds` | boddos/api/server.py:175-179 | over any further requests of any clients, a locked client is answered with the lockout, exempt paths apart, until it runs out |
| `Guard.LockoutBeginsAndEnds` | boddos/security/ratelimit.py:43-57 | the failure that reaches the threshold, and no other, locks the client: its next request, with any requests of others in between, is refused if and only if it comes within `lockout_seconds` |
| `Guard.TallyStep` | boddos/api/server.py:178-190 | one request keeps the window's account of failures, closed lockouts and time |
| `Guard.TallyUnlock` | boddos/security/ratelimit.py:43-51 | a lockout that runs out closes one round of the account |
| `Guard.ThroughIsBounded` | boddos/api/server.py:175-190 | whatever the mix of locked, limited and failed requests, at most `capacity + rate*(t - s)` non-exempt requests of a client reach authentication or a handler from s to t |
| `Guard.TakesCountThrough` | boddos/api/server.py:180-190 | the requests that got through are exactly the granted calls |
| `Guard.EveryRunIsLedgersOk` | boddos/api/server.py:178-181 | in every guarded run each bucket is the minimum of its history and each answer the exact one |
| `Audit.VerifyIsLongestPrefix` | boddos/security/audit.py:54-72 | the count is the length of the longest verifying prefix, and the answer is intact if and only if that is the whole log |
| `Audit.VerifyInPlain` | boddos/security/audit.py:54-72 | a log verifies if and only if each entry names the hash stored before it, at first 64 zeros, and stores the hash of that and its other fields; the count is that of the entries before the first that does not |
| `Audit.TamperEvidence` | boddos/security/audit.py:54-72 | two logs that both verify and end in the same hash hold the same entries in the same order, or the texts hashed show a collision or a preimage of the all-zero string |
| `Audit.EditIsReported` | boddos/security/audit.py:54-72 | against a log that verifies, and unless the hash is broken: another log verifies with the same final hash if and only if it is the same log, so an edit, deletion, insertion or swap that keeps the final hash is reported |
| `Audit.CommonHashCommonPast` | boddos/security/audit.py:54-72 | two logs that verify and have a stored hash in common, wherever in each, agree on everything up to it, unless the hash is broken |
| `Audit.RewrittenTailVerifies` | boddos/security/audit.py:38-72 | whatever events are recorded on whatever prefix of a log that verifies, the result verifies with its own length |
| `Audit.TruncationIsNotReported` | boddos/security/audit.py:54-72 | every prefix of a log that verifies does so with its own length |
| `Audit.BlanksAreIgnored` | boddos/security/audit.py:60-62 | verifying line by line, blank lines included, is verifying the entries |
| `Audit.SameLast` | boddos/security/audit.py:63-70 | equal final hashes come from equal last entries on equal hashes |
| `Audit.LastHashOfIntact` | boddos/security/audit.py:23-36 | on an intact log the hash `record` reads is the one `verify_chain` ends with |
| `Audit.RecordKeepsIntact` | boddos/security/audit.py:38-52 | a record appended to an intact log leaves it intact |
| `Audit.EntryInPlain` | boddos/security/audit.py:41-49 | a recorded entry has exactly six fields, each with its own value, and the hash is that of the previous one and the other five |
| `Audit.NewEntryIsLinked` | boddos/security/audit.py:41-49 | taking the hash out of a new entry gives back the text it was taken of |
| `Audit.VerifyTurn` | boddos/security/audit.py:60-71 | what one line, blank or not, adds to the verification of the lines after it |
| `Audit.AuditLog.ReadLastHash` | boddos/security/audit.py:23-36 | the hash stored in the last line that is not blank, or 64 zeros |
| `Audit.AuditLog.Record` | boddos/security/audit.py:38-52 | the appended entry, field by field, or the type error and an unchanged file when the last stored hash is no string |
| `Audit.AuditLog.VerifyChain` | boddos/security/audit.py:54-72 | the loop computes the verification of the entries, blank lines ignored |
| `AuditThreads.RecordsChain` | boddos/security/audit.py:38-52 | from an intact log of n entries, any number of threads in any interleaving of lock, read, append and unlock: after m completed records `verify_chain` returns intact with n+m entries, and one more while a record is past its append |
| `AuditThreads.RecordsAreWritten` | boddos/security/audit.py:38-52 | under any interleaving the entries after the first n are those of the appends the lock let through, in order, each with its own fields and the hash before it; the completed records are counted |
| `AuditThreads.EveryStateIsOk` | boddos/security/audit.py:38-52 | in every state the log is intact, at most one thread is inside, and what it has read is the final hash |
| `AuditThreads.AppendKeepsStateOk` | boddos/security/audit.py:48-51 | an append in progress keeps that invariant |
| `JsonText.TextReadsBack` | boddos/api/server.py:298 | any text survives `json.dumps` and parsing, whatever follows the string (section 7 of RFC 8259) |
| `JsonText.ShortEscapeInPlain` | boddos/api/server.py:298 | the code units with a short form and those that stand for themselves (section 7 of RFC 8259) |
| `JsonText.LongEscapeInPlain` | boddos/api/server.py:298 | all others are printed as four hexadecimal digits of their value |
| `JsonText.EscapeReadsBack` | boddos/api/server.py:298 | each code unit is printed as printable ASCII and read back |
| `JsonText.EscapedIsPrintable` | boddos/api/server.py:298 | a printed string holds no line break or other control character |
| `Stream.ReadStream` | boddos/ui/app.js:84-99 | the reply is that of the whole text, however the stream is cut into pieces |
| `Stream.ReadCompleteLines` | boddos/ui/app.js:93-98 | the inner loop reads the lines up to the first that does not parse |
| `Stream.CutConcat` | boddos/ui/app.js:90-92 | carrying over the unfinished line cuts a text like cutting it whole |
| `Stream.FailureIsFinal` | boddos/ui/app.js:95-100 | after a line that does not parse nothing later changes the reply |
| `Stream.GenLocal` | boddos/api/server.py:296-299 | the bytes the local generator writes: one event per chunk under the key `t`, and a closing one with `done` and `served_by` |
| `Stream.GenPeer` | boddos/api/server.py:301-317 | the relay writes every line that is not blank, with one newline; when the peer breaks off, the complete ones, and then the bytes of the notice, the local chunks and the closing event |
| `Stream.NonBlankKeeps` | boddos/api/server.py:311 | lines that are not blank are all handed on |
| `Stream.NonBlankDrops` | boddos/api/server.py:311 | a blank line makes no difference to what is handed on |
| `Stream.ChunkEventBytes` | boddos/api/server.py:298 | the bytes of a chunk event |
| `Stream.ServedEventBytes` | boddos/api/server.py:299 | the bytes of a node's closing event |
| `Stream.DumpsAreRead` | boddos/ui/app.js:95-97 | a parser that reads the three literal objects reads back what is written |
| `Stream.ReadLineInPlain` | boddos/ui/app.js:93-97 | a line that does not begin with `data:` changes nothing; one that does is parsed without that and its margins, and its `t` appended |
| `Stream.RelayIsInvisible` | boddos/api/server.py:310-312 | on a text of whole lines the relay changes nothing for the reader |
| `Stream.ReadEvents` | boddos/ui/app.js:90-98 | reading whole events appends exactly their texts |
| `Stream.ParseReadsObjects` | boddos/ui/app.js:95 | a parser that reads the three literal objects exists: this one does |
| `Stream.StreamRoundTrip` | boddos/api/server.py:296-312 | the text assembled from a local or a relayed reply is the provider's chunks put together |
| `BrokenPeer.BrokenPeerRepeats` | boddos/api/server.py:301-317 | for any reply of a peer, cut off after any number of characters: the browser assembles the text of the events heard, the notice, and the whole local answer |
| `BrokenPeer.RelayedBeforeIsHeard` | boddos/api/server.py:310-312 | what the relay has handed on by then is what it hands on of the events heard |
| `BrokenPeer.HeardIsExact` | boddos/api/server.py:310-312 | the events heard are those of which at most the last newline is missing, and no more |
| `BrokenPeer.LinesOfPrefix` | boddos/api/server.py:310-312 | the lines complete in a prefix of a reply are those of the events heard |
| `Mjpeg.HttpFrame` | boddos/sensors/cameras.py:74-85 | the loop returns only the whole stream's first frame, does so if and only if the stream was not given up on before that was complete, and always for a frame that ends within 5,000,000 bytes |
| `Mjpeg.FrameOfPrefix` | boddos/sensors/cameras.py:78-82 | a prefix shows the stream's frame once it is complete and nothing before |
| `Mjpeg.FrameOfPrefixStays` | boddos/sensors/cameras.py:78-82 | a frame found in a prefix is the whole stream's |
| `Mjpeg.Find` | boddos/sensors/cameras.py:79-80 | the first marker at or after a position, or none |
| `DeadMan.FiresAtFirstDuePoll` | boddos/safety/deadman.py:48-56 | a poll returns a label if and only if it is the first poll in the label's epoch to read at or past the deadline |
| `DeadMan.EpochFiresOnce` | boddos/safety/deadman.py:25-56 | two polls that return a label return different epochs of it, on any clock |
| `DeadMan.DueEpochHasFired` | boddos/safety/deadman.py:48-56 | an epoch that some poll has found due was returned by a poll in it |
| `DeadMan.AlarmInTime` | boddos/api/server.py:142-151 | on a monotone clock with polls at most D apart, an epoch that survives by D the later of its beginning and its deadline is returned between that moment and D later |
| `DeadMan.EntriesAreEpochs` | boddos/safety/deadman.py:25-56 | after any events each entry of the dictionary is the label's epoch as read off the events, marked as fired if and only if a poll found it due |
| `DeadMan.EpochLasts` | boddos/safety/deadman.py:25-46 | a label still in an epoch has been in it since the epoch began |
| `DeadMan.DueAmongHolds` | boddos/safety/deadman.py:52-56 | a poll returns exactly the overdue entries that had not fired |
| `DeadMan.CheckInInPlain` | boddos/safety/deadman.py:34-43 | which of the three answers a check-in gives, and the seconds it is re-armed for |
| `DeadMan.CancelInPlain` | boddos/safety/deadman.py:45-46 | cancelling says whether there was an entry, and removes it |
| `DeadMan.DeadMansSwitch.Arm` | boddos/safety/deadman.py:25-32 | the entry is new, with the deadline one interval away, and nothing else changes |
| `DeadMan.DeadMansSwitch.CheckInNow` | boddos/safety/deadman.py:34-43 | a check-in re-arms an entry with a nonzero interval, removes one without, and reports an unknown label |
| `DeadMan.DeadMansSwitch.Cancel` | boddos/safety/deadman.py:45-46 | the entry is gone, and whether there was one |
| `DeadMan.DeadMansSwitch.Due` | boddos/safety/deadman.py:48-56 | the loop returns the overdue entries in dictionary order and marks exactly those |
| `Duress.HistoryIsExpected` | boddos/api/server.py:142-151 | over any interleaving of timers, polls, turns of the loop, manual triggers and clears: one alarm per manual trigger and per processed firing, in order, each automatic one with the location of the latest manual trigger; active if and only if the latest trigger or clear was a trigger |
| `Duress.EveryRunShowsLatest` | boddos/safety/duress.py:34-39 | the note shown is that of the latest alarm, and an alert dates from it |
| `Duress.TurnsInPlain` | boddos/api/server.py:142-151 | the loop takes a turn while labels are left and polls only when none are |
| `Duress.EveryRunIsLoopOk` | boddos/api/server.py:142-151 | what the loop has still to process is what was returned and not yet fired, in order |
| `Duress.ReturnedGrows` | boddos/api/server.py:142-151 | labels are only ever added to those returned |
| `Duress.ReturnedAreFirings` | boddos/api/server.py:144 | what a poll adds is exactly what fires in the dead-man's switch |
| `Duress.DuressManager.Trigger` | boddos/safety/duress.py:34-64 | the new state and the alarm appended to the history |
| `Duress.DuressManager.Clear` | boddos/safety/duress.py:66-69 | the alert is off; note, location and history stay |
| `Bus.Delivery` | boddos/mesh/bus.py:13-30 | received followed by pending is, in order and once each, the events of exactly those publications that found the subscriber on the bus with fewer than 100 pending; pending is at most 100 |
| `Bus.OnBusIsSubscribed` | boddos/mesh/bus.py:17-23 | in every run a queue is on the bus if and only if it has been subscribed and not unsubscribed since |
| `Bus.Isolation` | boddos/mesh/bus.py:25-30 | a run without the other subscribers' actions leaves a subscriber the same queue and the same received events |
| `Bus.EventBus.Subscribe` | boddos/mesh/bus.py:17-20 | a fresh empty queue is on the bus, no other queue changes |
| `Bus.EventBus.Unsubscribe` | boddos/mesh/bus.py:22-23 | that queue is off the bus, its pending events and all other queues stay |
| `Bus.EventBus.Publish` | boddos/mesh/bus.py:25-30 | every queue on the bus gets the event if it has a free slot, every other queue stays as it was |
| `Trackers.TrackerDetector.Observe` | boddos/safety/trackers.py:48-61 | after a scan the index is the recomputation from the log of all sightings, which grew by the entries that have an address |
| `Trackers.SightingsInPlain` | boddos/safety/trackers.py:50-54 | a scan adds to the log the entries that have an address, with its place and time |
| `Trackers.PlaceInPlain` | boddos/safety/trackers.py:25-29 | the place is the grid cell, or unknown without both coordinates |
| `Trackers.ListedInPlain` | boddos/safety/trackers.py:65-73 | what being listed means on the sightings of one address |
| `Trackers.TrackerDetector.Note` | boddos/safety/trackers.py:55-61 | one entry keeps index and dictionary order what the log says |
| `Trackers.TrackerDetector.Suspects` | boddos/safety/trackers.py:63-80 | the list holds exactly the addresses seen in enough different known places for long enough, with their numbers, as the log has them, by places, then sightings, descending, then first sighting |
| `Trackers.ListIsDetermined` | boddos/safety/trackers.py:79 | contents and rank order leave one list |
| `Trackers.Sort` | boddos/safety/trackers.py:79 | the same elements, largest key first, equal keys in the order of the dictionary |
| `Trackers.IndexLast` | boddos/safety/trackers.py:55-61 | updating one track in place gives the recomputation from the longer log, for every address |
| `Trackers.UnflaggedByClock` | boddos/safety/trackers.py:63-67 | however the log goes on, a flagged address stays flagged if and only if its last sighting reads at least the span after the start of its track |
| `Trackers.FlaggedStays` | boddos/safety/trackers.py:63-67 | under a monotone clock a flagged address is never unflagged |
| `Totp.Verify` | boddos/security/totp.py:32-41 | accepted if and only if a counter of the window prints the stripped code and none before it raises; raised if and only if the search raises first |
| `Totp.AcceptsInPlain` | boddos/security/totp.py:23-41 | for every secret, code and reading: accepted if and only if the upper-cased secret, filled up with `=`, is base32, no step of the window is below 0, and the code without its margins is that of a counter of the window |
| `Totp.RaisesInPlain` | boddos/security/totp.py:23-41 | raised if and only if it is not accepted and the secret is not base32, a step of the window is outside 64 bits, or the code is not ASCII |
| `Totp.CodeInPlain` | boddos/security/totp.py:23-29 | the code of a counter: the six digits of the number that the digest of its eight bytes stands for, modulo a million |
| `Totp.CounterInPlain` | boddos/security/totp.py:37 | step c lasts from c times `step` seconds to the next multiple |
| `Totp.KeyInPlain` | boddos/security/totp.py:24-25 | the secret is put in upper case and filled up to whole groups of eight |
| `Totp.StripInPlain` | boddos/security/totp.py:36 | the margins of white space come off, and nothing else |
| `Totp.Search` | boddos/security/totp.py:38-41 | the loop over the window, with its exceptions |
| `Totp.FreshCodeIsAccepted` | boddos/security/totp.py:32-41 | a code made within `window` steps of the clock is accepted if and only if the clock's counter is not below the window, and raises otherwise (section 5.2 of RFC 6238) |
| `Totp.StaleCodeNeedsATwin` | boddos/security/totp.py:37-41 | from `window + 1` steps away the code's own counter is outside the search, and the code is accepted only if another counter prints it |
| `Totp.PrintedReadsBack` | boddos/security/totp.py:28-29 | a printed code has exactly the digits asked for and reads back as the truncated number (section 5.3 of RFC 4226) |
| `Totp.PrintingIsInjective` | boddos/security/totp.py:28-29 | below `10^digits` no two numbers print alike |
| `Totp.TruncateByBytes` | boddos/security/totp.py:27-28 | the truncation is the byte-by-byte one of section 5.4 of RFC 4226, from the offset in the low four bits of the last byte |
| `Totp.Offset` | boddos/security/totp.py:27-28 | the four bytes lie inside the 20-byte digest |
| `Totp.MessagesDiffer` | boddos/security/totp.py:26 | different counters are packed into different messages |
| `Decimal.StrReadsBack` | boddos/security/totp.py:29 | a number's decimal text reads back as the number |
| `Decimal.StrWidth` | boddos/security/totp.py:29 | a number below `10^w` needs at most w digits |
| `Decimal.LeadingZeros` | boddos/security/totp.py:29 | `zfill` does not change what the text denotes |

## Left out

- Node restarts: the nonce cache, the buckets, the lockouts and the queues start empty, so replay protection is stated for one life of a node.
- Floating-point rounding: times, tokens and durations are reals; `int(ts)` of a timestamp too large for a float, which raises OverflowError, is not modelled.
- The grammar of Python's `int()` is a parameter of `MeshAuth`; only that it reads back what `sign` prints is used, and only where a lemma says so.
- HMAC, SHA-1, SHA-256, base32 and the canonical JSON text of an audit entry are parameters. The canonical text is taken as injective on entries; no freedom from collisions is assumed, `Audit.TamperEvidence` shows the collision instead.
- The time in which `hmac.compare_digest` answers.
- Audit files with malformed lines or text cut short by a crash, writers in other processes, readers without the lock that see a half-written line, and detail keys that are not strings.
- JSON encoding and decoding of mesh events are parameters, and a peer's answer and a failed post have no effect, as in the code; heartbeats appear as greetings at any time.
- The bytes on the wire of the event stream: the text is ASCII, so decoding and cutting bytes are those of characters; httpx's line decoder is taken as splitting at the line breaks it knows, over the whole text, with the unfinished line handed out only when the stream ends regularly.
- JSON.parse is a parameter that reads the three kinds of object the server writes as JSON means them; what it makes of any other text is left open.
- The page itself: bubbles, speech, history, and the title set from `served_by`.
- Snapshots and RTSP cameras, HTTP status errors and timeouts in `_http_frame`, and the other camera operations.
- Exceptions in the dead-man loop (mail, push and audit failures end the loop in the code), and the delivery of alerts; the text of an alert and the answer dictionaries of the endpoints.
- The rounding of `span_minutes` and the advice text; the grid of `_loc_bin` is a parameter, so nothing is said about which positions share a bin.
- Trackers.Sort: Python's own sort algorithm; an insertion sort stands for it, and `Trackers.ListIsDetermined` shows that the choice makes no difference.
- The secret's upper-casing and the set of characters that `strip` removes are parameters; the results on whole codes ask only that no digit is a space.
- Bearer tokens (one comparison), the vault, the router, the registry, geofences, camera and push storage, surveillance grouping, exposure and sensor thresholds: each is close to a one-branch claim.
- HTTP, WebSocket, SMTP, subprocess, drone, model and weather clients: input and output.
