# Model of the nad.fun API server

This project models the parts of the API server that hold real state, concurrency or translation
logic, and proves what they promise. `dafny verify dfyconfig.toml` checks everything.

Each protocol is a state machine whose steps are the single commands the server sends (one Redis
command, one SQL statement, one clock check, one atomic load or store). A run is any sequence of
steps; a step that is not enabled changes nothing, so every interleaving of every number of requests
and server instances is a run. Beside each machine stands the code in its own form: classes with the
fields the server updates and methods that are proved against the machine or against a specification
function.

| module | what it models |
|---|---|
| `SaltMiner`, `SaltAddress` | the parallel vanity-salt miner, CREATE2 over an ERC-1167 proxy, the hex suffix test, address text forms |
| `SwapQuery`, `SwapHistory`, `VolumeRanges` | the two SQL compilers of the swap history, a parser and evaluator for their WHERE text, the counter fast path, paging, the volume parameter |
| `ApiUsage` | usage counters of API keys: INCR, GETSET, the sync loops, deletion, start-up cleanup |
| `ApiKeyCache` | validation of API keys through the 300 s Redis cache |
| `RateLimiter` | the fixed-window limiter: INCR and a separate EXPIRE |
| `AuthNonce`, `NonceReplicas`, `Session` | single-use login nonces, their replication to several nodes, sessions in Postgres with a read-through Redis cache |
| `CacheKey`, `TwoTierCache` | `cache_key!`, the Redis order key, single flight plus 1 s TTL behind the Redis TTL |
| `EventFeed`, `SwapRender` | the merged terminal event feed, decimal rendering and orientation of amounts |
| `Holders` | the holder list with floored LP shares |
| `SearchMerge` | the merge of symbol hits and name hits |
| `StableSort`, `Paging`, `Text`, `Arithmetic`, `Prelude` | what several modules share |

Several properties one might expect are false of the code. For each the model keeps the code as it is,
shows a run or an input that breaks the property, and proves exactly when it holds:

* A minute of the rate limiter is counted exactly, in a run whose calls reach Redis within 60 s of their
  clock read, exactly when its counter is not deleted between two of its calls
  (`RateLimiter.MinuteIsExactIff`); the cleanup of a starting instance can delete it. That equivalence
  holds over all runs exactly when the delay is at most 60 s (`RateLimiter.ExactIffDelayBounded`). Every
  deletion admits at most one more limit of calls.
* A deletion of an API key, whose row and cache entry are deleted by two commands with anything in
  between, takes effect at once exactly when no validation holds the key when the second one is executed
  (`ApiKeyCache.DeletionRevokesIff`). Some scheduling lets a key outlive its deletion exactly when a
  validation already holds it, or its cache entry can still be hit (`ApiKeyCache.CanOutliveIff`). With no
  validation under way or started in between it never does (`ApiKeyCache.DeletionRevokes`), and in any
  case the lag is bounded (`ApiKeyCache.RevocationLagIsBounded`).
* A cache hit is never accepted at or after the key's expiry. After a miss only the clock check comes
  before the expiry: the cache write that follows may outlive it, so acceptance always precedes expiry
  exactly when no time passes from reading the row to that write (`ApiKeyCache.NeverAfterExpiryIff`).
* A logout, whose two deletes run concurrently with anything in between, is undone exactly when a resolve
  of the session stands between its read and its re-cache at the end, or has re-cached it after the
  Redis delete (`Session.LogoutIsFinalIff`). Some scheduling undoes a logout exactly when a resolve has
  already read the row, or Redis is deleted first and the row is still there to be read
  (`Session.CanBeUndoneIff`). With no resolve under way or started in between it is final
  (`Session.LogoutIsFinal`).
* Splitting an event range loses nothing exactly when the upper end fits the signed column, or the
  split point is beyond it as well (`EventFeed.LosslessIff`): block numbers are cast from u64 to i64,
  and the request validation does not rule the failing ranges out.
* A total is the length of its list exactly when the token has one market row, or there is nothing to
  list (`SwapHistory.TotalMatchesIff`, `Holders.CountMatchesIff`): the list queries join the market table
  and the count queries do not.
* Nonces are single-use in one database; if the table is replicated to several nodes that each accept
  the deletion, single use survives exactly with one node (`NonceReplicas.SingleUseIff`).

Where code and comments disagree the model follows the code:

* `incr_with_expire` is described as an atomic INCR with EXPIRE; it sends two commands, and the
  second may fail after the first has counted.
* The miner's comment says that different requests never try the same salt; starting salts are hashes
  of unseparated concatenations, and nothing is claimed about them.
* A comment gives the Redis cache the same TTL of one second as the in-process cache; the Redis TTL of
  order lists is configured, and a parameter here.

## Model

| member | source | states |
|---|---|---|
| SaltAddress.SuffixTestIsArithmetic | src/services/token/salt.rs:265-299 | for a hex suffix of k <= 40 digits in any letter case, an address ends with it if and only if the address is congruent to the suffix value modulo 16^k |
| SaltAddress.MatchingSuffixIsHex | src/services/token/salt.rs:265-268 | a suffix that any address matches consists of at most 40 hex digits |
| SaltAddress.HexRoundTrip | src/services/token/salt.rs:265-268 | decoding any letter-case form of an address's hex text gives the address back |
| SaltAddress.ParseAnyCase | src/utils/mod.rs:12-16 | every letter-case form of an address with its 0x prefix is read as that address |
| SaltAddress.MinedAddressIsValidTokenId | src/utils/mod.rs:31-39 | the EIP-55 form of any address that matches the configured suffix passes token id validation and comes back unchanged |
| SaltAddress.ValidTokenIdHasSuffix | src/utils/mod.rs:31-39 | conversely, an accepted token id names one address, and that address carries the suffix if and only if the suffix is no longer than an address |
| SaltAddress.Create2Layout | src/services/token/salt.rs:213-256 | the creation code is the 55-byte EIP-1167 code, checked against its hex text, whose operands announce its own 45-byte runtime; the EIP-1014 preimage has 85 bytes: 0xff, deployer, salt and code hash at their places |
| SaltAddress.ComputeCreate2Address | src/services/token/salt.rs:228-256 | growing the two byte buffers piece by piece yields an address whose value is that of the digest of the EIP-1014 preimage modulo 256^20, the code hash in it being that of the EIP-1167 creation code |
| SaltAddress.Create2AddressIff | src/services/token/salt.rs:213-256 | an address has that property if and only if it is the last 20 bytes of the digest, so there is exactly one |
| SaltMiner.SaltsDistinct | src/services/token/salt.rs:310-336 | within a bound of at most 2^256 attempts the wrapping additions never repeat a salt |
| SaltMiner.ChunksPartition | src/services/token/salt.rs:313-328 | every attempt below the bound lies in exactly one of the chunks, for any chunk size and bound |
| SaltMiner.StepKeepsInv | src/services/token/salt.rs:319-362 | what every step of every worker keeps: scanned attempts had no match, a stored result is a match, and a set flag means a result that is there or about to be written |
| SaltMiner.RunKeepsInv | src/services/token/salt.rs:319-362 | the same over every run, stale loads and early exits included |
| SaltMiner.FinishedIsExact | src/services/token/salt.rs:364-367 | when all closures have returned, a result is there if and only if some attempt within the bound matches |
| SaltMiner.RunIsBounded | src/services/token/salt.rs:319-362 | the remaining work strictly decreases with every step, so no run is longer than the initial measure |
| SaltMiner.NoDeadlock | src/services/token/salt.rs:319-362 | every unfinished worker has a step it can take |
| SaltMiner.MinerRefinesSearch | src/services/token/salt.rs:288-368 | main result: every interleaving is finite and can be completed, and then reports a result exactly when some attempt i below the bound, its salt being start + i modulo 2^256, has a CREATE2 address whose hex text ends with the suffix; the reported salt, address and count are those of such an attempt |
| SaltMiner.RecordsIff | src/services/token/salt.rs:330-357 | a record has the value start + i modulo 2^256 as its salt, the CREATE2 address of that salt and the count i + 1 if and only if it is the one the loop builds for attempt i |
| SaltMiner.MinerFindsCongruentAddress | src/services/token/salt.rs:288-368 | the same in numbers: a result exactly when some attempt's CREATE2 address is congruent to the suffix value modulo 16^k, and then it records such an attempt |
| SaltMiner.ConfiguredSearch | src/services/token/salt.rs:16-20 | with the service's constants there are 1000 chunks, no salt repeats, and a finished search has a result exactly when one of ten million salts matches |
| SaltMiner.TryAttempt | src/services/token/salt.rs:335-357 | one iteration of the scan decides the match and builds the record of the specification |
| SaltMiner.SharedSearch.ScanChunk | src/services/token/salt.rs:319-362 | a chunk closure returns its first match and leaves flag and result set, or changes neither and has either seen the flag or found no match in its whole chunk |
| SaltMiner.MineInOrder | src/services/token/salt.rs:319-367 | taking the chunks in order finds a match of the range if and only if there is one, and then the one with the fewest attempts |
| SwapQuery.ListMeansFilter | src/controllers/trading/swap_history.rs:255-346 | parsed with AND above OR and evaluated with the binds, the list's WHERE text holds of a row exactly when token, account, trade type and some range match |
| SwapQuery.CountMeansFilter | src/controllers/trading/swap_history.rs:418-487 | so does the count's WHERE text, although its clauses come in another order |
| SwapQuery.RangesPartition | src/types/trading/swap_history.rs:26-44 | the bounds put into the query are those of SMALL, MEDIUM and LARGE at 1000 and 10000 dollars, and every value from 0 on lies in exactly one range |
| SwapQuery.PlaceholdersMatchBinds | src/controllers/trading/swap_history.rs:279-346 | the placeholders of both texts are exactly $1 to $n from left to right, n being the number of values the separate loop binds |
| SwapQuery.EmitRanges | src/controllers/trading/swap_history.rs:295-320 | the loop emits nothing for no ranges, and otherwise the parenthesised alternatives with consecutive placeholders |
| SwapQuery.EmitRangeList | src/controllers/trading/swap_history.rs:299-318 | the loop over the ranges emits them in order, joined by OR, and advances the counter by one number per bound |
| SwapQuery.BindValues | src/controllers/trading/swap_history.rs:328-346 | the binding loop produces the token, the account if any, and each range's bounds in order |
| SwapQuery.BuildList | src/controllers/trading/swap_history.rs:279-346 | the list compiler: text and binds agree in number and order, and accept exactly the rows asked for |
| SwapQuery.BuildCount | src/controllers/trading/swap_history.rs:418-481 | the same for the count compiler |
| VolumeRanges.DeserializeVolumeRanges | src/types/trading/swap_history.rs:136-171 | the loop over comma-separated parts equals reading part by part: white space is trimmed, blanks are skipped, case is ignored, an unknown name is an error, an empty list is no list |
| VolumeRanges.RangeListRoundTrip | src/types/trading/swap_history.rs:136-171 | every non-empty list of ranges has a text that is read back as that list |
| VolumeRanges.PartIff | src/types/trading/swap_history.rs:136-171 | a part of the parameter is read as a range if and only if it is the range's name in some letter case with white space around it, and as nothing if and only if it is blank |
| VolumeRanges.SplitJoins | src/types/trading/swap_history.rs:136-171 | the parts contain no comma and, joined with commas, are the parameter |
| SwapHistory.GetSwapsByToken | src/controllers/trading/swap_history.rs:233-389 | the response to a request is the requested page of the sorted matching rows, each as often as its token has market rows; for a validated request every listed row has the token, the checksum form of the given account, the side and some range asked for, the rows are in the order asked for, and with true counters the total of a non-empty page counts all such rows of existing accounts |
| SwapHistory.FilterIsRequest | src/controllers/trading/swap_history.rs:276-300 | for a validated request the compiled filter keeps a row if and only if the row answers the fields of the request |
| SwapHistory.GetTotalCount | src/controllers/trading/swap_history.rs:391-505 | the count is the counter table's column when neither account nor ranges are given, and the count query otherwise |
| SwapHistory.ListKeepsAsked | src/controllers/trading/swap_history.rs:253-325 | before its join with the market table the list query keeps exactly the rows the request asks for |
| SwapHistory.CountKeepsAsked | src/controllers/trading/swap_history.rs:418-487 | the count query keeps exactly the rows the request asks for |
| SwapHistory.CachedCountIsTrue | src/controllers/trading/swap_history.rs:401-416 | with a maintained counter table, the column the fast path picks counts exactly the rows the request asks for; a missing row means none |
| SwapHistory.NonEmptyListHasMarket | src/controllers/trading/swap_history.rs:266-275 | a list with any row belongs to a token with a market row |
| SwapHistory.TotalMatchesIff | src/controllers/trading/swap_history.rs:266-275 | with true counters the total is the length of the list if and only if the token has exactly one market row or nothing is asked for |
| SwapHistory.TotalIsListLength | src/controllers/trading/swap_history.rs:381-386 | with true counters and one market row the list is the sorted rows asked for, and the total is its length on every path |
| SwapHistory.TotalCountsAllPages | src/controllers/trading/swap_history.rs:233-389 | main result: for any validated request with rows, of a token with one market row, the total counts the rows that answer the request's fields, pages 1 to ceil(total / limit) join to exactly those rows by block, transaction and log index in the order asked for, without gap or repeat, and exactly those pages are non-empty |
| Paging.PagesArePrefix | src/controllers/trading/swap_history.rs:238-325 | the first n pages are the first n * limit rows |
| Paging.AllPages | src/controllers/trading/position.rs:90-163 | as soon as there are enough pages they join to the whole list |
| Paging.PageNonEmpty | src/controllers/trading/swap_history.rs:238-325 | a page holds at most limit rows and is non-empty exactly when its offset is inside the list |
| ApiUsage.StepConserves | src/services/api_key.rs:163-217 | every step keeps increments = database + Redis + taken and unwritten + lost |
| ApiUsage.UsageConserved | src/services/api_key.rs:154-217 | main result: over every interleaving of requests, sync loops, repeated SCAN keys, failed writes, crashes, deletions and start-up cleanups the requests counted for a key are what is in the database, in Redis, taken and unwritten, or lost, so the database never over-counts |
| ApiUsage.HarmlessRunLosesNothing | src/services/api_key.rs:163-217 | a run in which none of a key's own writes or replies fails and its row and counter are not deleted loses none of its counts, whatever happens to other keys |
| ApiUsage.ExactAtQuiescence | src/services/api_key.rs:163-217 | main result: after such a run, once Redis holds nothing of the key and no loop carries it, its database count is the number of its requests in the run |
| ApiUsage.ShortfallIsLoss | src/services/api_key.rs:154-217 | at quiescence of any run the database count is the number of requests if and only if nothing of the key was lost |
| ApiUsage.StoredKeyRoundTrip | src/db/redis/mod.rs:1219-1248 | stripping namespace and key prefix from a stored counter name gives back the hash it was stored for, with or without a namespace |
| ApiUsage.UsageStore.SyncToDb | src/services/api_key.rs:163-217 | the sync loop's effect on database, counters and its own count equals the pass of the specification, whichever updates fail |
| ApiUsage.SyncPassMovesOnce | src/services/api_key.rs:176-214 | over any list of names, repeats and foreign names included, every visited counter is reset and its whole amount is credited once, at the first visit, exactly if that write succeeds and the row exists |
| ApiUsage.SyncPassCounts | src/services/api_key.rs:176-217 | the number a pass reports is that of the counters above zero whose write, at their first visit, succeeds |
| ApiUsage.SyncPassIsRun | src/services/api_key.rs:176-214 | an undisturbed pass is a run of the interleaving machine with the same outcome |
| ApiKeyCache.RevocationLagIsBounded | src/services/api_key.rs:89-150 | main result: over every run a key is accepted only with its own hash, only if less than 300 s plus in-flight delays before some state of the run had its row active and unexpired, never from that long after a step that deletes its row, and a cache hit never at or after the expiry |
| ApiKeyCache.NeverAfterExpiryIff | src/services/api_key.rs:128-149 | acceptance precedes the expiry in every run if and only if no time passes between reading the row and the cache write's reply; otherwise a run accepts a key after it expired |
| ApiKeyCache.StepKeepsInv | src/services/api_key.rs:89-150 | what every command of every validation keeps about cache entries and calls in flight |
| ApiKeyCache.RevokedIff | src/services/api_key.rs:89-150 | a key can still be accepted in some continuation if and only if it has a valid row, a live unexpired cache entry, or a call in flight that holds it |
| ApiKeyCache.DeletionRevokesIff | src/services/api_key.rs:255-275 | for a deletion with any commands between its two: row and cache entry are gone, and the key can still be accepted if and only if a call holds it when the DEL is executed |
| ApiKeyCache.DeletionRevokes | src/services/api_key.rs:255-275 | main result: if no call for the key is under way at the row delete and none starts before the DEL, the deletion takes effect at once and for good |
| ApiKeyCache.CanOutliveIff | src/services/api_key.rs:255-275 | judged before it, some scheduling lets a key outlive its deletion if and only if a call already holds it or its cache entry is live and unexpired |
| ApiKeyCache.DeletionIsNotImmediate | src/services/api_key.rs:255-275 | a reachable state in which a call that read the row lets the key outlive its deletion |
| ApiKeyCache.HitBetweenDeletes | src/services/api_key.rs:265-270 | a reachable state with no call under way in which one that hits the cache between the two deletes outlives them |
| ApiKeyCache.GoneForGood | src/services/api_key.rs:89-150 | once a key is neither stored nor held, no run accepts it again |
| ApiKeyCache.KeyStore.ValidateApiKey | src/services/api_key.rs:89-150 | a key that is not nadfun_ and 32 more characters is unauthorised without touching the cache; an entry less than 300 s old answers alone, unless expired; otherwise the key must have an active unexpired row, which is cached if Redis takes it; result and cache are those of the machine's steps |
| ApiKeyCache.CallOutcome | src/services/api_key.rs:102-149 | the outcome of one undisturbed call: an expired hit is refused, a database error is internal, a missing or invalid row is unauthorised, and only an accepted miss writes the cache |
| ApiKeyCache.KeyStore.DeleteApiKey | src/services/api_key.rs:255-303 | a deleted row had that id and, if an owner is given, that owner, and nothing else goes but its cache entry; if nothing is found, every row has another id or, with an owner given, another owner, and nothing changes |
| RateLimiter.RedisKeyInjective | src/services/rate_limiter.rs:28-32 | different identifiers or minutes never share a counter, whatever text a client's address header contains |
| RateLimiter.StepKeepsInv | src/db/redis/mod.rs:1114-1131 | with delays of at most 60 s every step, deletions of counters included, keeps each minute's counter equal to the calls counted since it was last deleted and its expiry beyond the minute's last possible call |
| RateLimiter.ExactIffDelayBounded | src/services/rate_limiter.rs:18-46 | over all runs each minute is counted 1, 2, 3, .. exactly when its counter is not deleted between two of its calls, if and only if the delay from clock read to INCR is at most 60 s |
| RateLimiter.MinuteIsExactIff | src/services/rate_limiter.rs:18-46 | for every run with delays of at most 60 s and every minute: its calls are numbered 1, 2, 3, .. if and only if its counter was not deleted between two of them |
| RateLimiter.LateCallCountsAgain | src/services/rate_limiter.rs:35-38 | a run in which a call 61 s late finds its minute's counter expired and counts from 1 again |
| RateLimiter.WipedMinuteCountsAgain | src/db/redis/mod.rs:73-108 | a run without any delay in which the cleanup of a starting instance makes a minute count from 1 again |
| RateLimiter.WindowIsExact | src/services/rate_limiter.rs:18-46 | main result: with the limit 100 for an API key and 10 for a client address, a minute whose counter was deleted w times lets at most (w + 1) * limit calls in; if no deletion fell between its n calls, at most min(n, limit), exactly that many when every reply came back, and its i-th call, if answered, is let in exactly when i <= limit, with limit - i remaining; a call that is turned away is told to wait until exactly the next minute |
| RateLimiter.SpanIsBounded | src/services/rate_limiter.rs:18-46 | any span of T seconds admits at most limit * (ceil(T / 60) + 1 + w) calls of an identifier, w being the deletions of the counters of its minutes and the limit 100 or 10 as above |
| RateLimiter.Limiter.IncrWithExpire | src/db/redis/mod.rs:1114-1131 | INCR counts from the unexpired entry and keeps its expiry, and only a first count gets one, by a second command; a failed EXPIRE or lost reply is an error after counting, and no other key changes |
| RateLimiter.Limiter.CheckAndIncrement | src/services/rate_limiter.rs:18-46 | one call counts under its identifier and minute alone, lets the n-th call in with limit - n remaining, turns later ones away until the next minute, and changes the state exactly as the machine's two steps do |
| AuthNonce.NonceIsSingleUse | src/controllers/auth/nonce.rs:21-98 | main result: in every interleaving of issuing, late landing, takers and retries a message lets at most one login through, and that login's own delete took the row in which the message had landed for its own address, before the lifetime it was issued with was over |
| AuthNonce.RowStaysUntil | src/controllers/auth/nonce.rs:78-98 | a stored nonce stays through any run until a login of its own address takes that very message before expiry or a newer nonce of the address lands; nobody removes a message they did not sign |
| AuthNonce.UsableIff | src/controllers/auth/nonce.rs:21-98 | an issued nonce can still log someone in if and only if it has yet to land with some lifetime or is the current unexpired row of its address |
| AuthNonce.StepKeepsInv | src/controllers/auth/nonce.rs:21-98 | what every statement keeps: stored messages were issued for their address and never taken, each taken message has one taker |
| AuthNonce.NonceController.TryTakeNonce | src/controllers/auth/nonce.rs:78-98 | deletes and returns the row only if address and message match and it has not expired, else nothing; an error is passed on |
| AuthNonce.NonceController.TakeNonce | src/controllers/auth/nonce.rs:56-73 | succeeds if and only if the row is there at the first attempt or, whatever happened in the 2 s wait, at the second; removes at most that one row; a database error ends the call |
| NonceReplicas.OneWinPerNode | src/controllers/auth/nonce.rs:8-10 | with the table replicated to several nodes that accept writes, over every run a nonce lets at most one login through on each node |
| NonceReplicas.SingleUseIff | src/controllers/auth/nonce.rs:8-10 | single use survives replication in every run if and only if there is at most one such node |
| NonceReplicas.TwoNodesUseTwice | src/controllers/auth/nonce.rs:84-94 | a run in which a second node lets a nonce through again before the first deletion reaches it |
| Session.ResolvesToOwner | src/middleware.rs:34-67 | main result: over every run of logins, resolves, logouts and expiry an id resolves only to the address of the login that created it, and Postgres holds at most one session per account, each with the id and account of such a login |
| Session.RowFrames | src/controllers/auth/session.rs:22-98 | the write of a login replaces the row of its own account and no other, and the delete of a logout removes the rows with its id and no other |
| Session.StepKeepsInv | src/controllers/auth/session.rs:22-98 | what every single command keeps about Redis, the table and resolves in flight |
| Session.OverIff | src/middleware.rs:34-67 | a session id can resolve again in some continuation if and only if it is in a store, or a login write or a resolve that already read it is under way |
| Session.OverForGood | src/middleware.rs:34-67 | once a session is over, no run resolves it again |
| Session.LogoutIsFinalIff | src/services/auth/mod.rs:112-136 | for a logout with its two deletes in either order and any commands between them: the session can resolve again if and only if a resolve of it stands between read and re-cache at the end, or it was re-cached after the Redis delete; never the latter if the row went first |
| Session.LogoutIsFinal | src/services/auth/mod.rs:112-136 | main result: if no resolve of the session is under way at the first delete and none starts before the second, nothing ever resolves it again |
| Session.CanBeUndoneIff | src/services/auth/mod.rs:112-136 | judged before it, some scheduling undoes a logout if and only if a resolve has already read the row, or Redis is deleted first and the row is there |
| Session.LogoutCanBeUndone | src/middleware.rs:49-64 | a reachable state in which a resolve that already read the row brings the session back, whatever the order of the deletes |
| Session.ResolveBetweenDeletes | src/middleware.rs:49-64 | a reachable state with no resolve under way in which one that falls between the two deletes brings the session back |
| Session.SessionStore.CreateSession | src/services/auth/mod.rs:86-109 | the two writes of a login, either of which may fail: the row replaces the account's old one and leaves all other accounts' rows, Redis gets the id, and success means both |
| Session.SessionStore.ResolveSession | src/middleware.rs:49-66 | Redis first, any Redis error counting as a miss, then the table's row with that id and back into Redis; it fails if that last write fails, and whatever resolves is the bound address |
| Session.SessionStore.DeleteSession | src/services/auth/mod.rs:112-136 | both deletes are attempted; each store loses exactly that id if its delete succeeds, rows with another id stay, and success means both |
| CacheKey.KeyRoundTrip | src/utils/single_flight.rs:122-127 | main result: a parser recovers prefix and arguments from the rendered key for every argument list, whatever colons, quotes, backslashes or control characters the strings contain |
| CacheKey.KeyInjective | src/utils/single_flight.rs:122-127 | different prefixes or argument lists never render to the same key |
| CacheKey.LocalKeyInjective | src/controllers/token/order.rs:82-89 | different order queries never share an entry of the in-process cache |
| CacheKey.RedisOrderKeyInjective | src/db/redis/mod.rs:363-378 | different order queries never share a Redis entry |
| TwoTierCache.ServedListsAreFresh | src/services/token/order.rs:25-66 | main result: over every run of every number of processes a served list is the database's answer to the very same query, read less than Redis TTL + 1000 ms + in-flight delays earlier, and no process fetches one query twice at a time |
| TwoTierCache.StepKeepsInv | src/utils/single_flight.rs:59-105 | what every step keeps about the age and origin of lists in both tiers and in flight, shared results, shared errors and dropped fetches included |
| TwoTierCache.NobodyIsStranded | src/utils/single_flight.rs:74-90 | over every run each waiter has a call in flight that fetches its key, so no wake-up is lost |
| TwoTierCache.OutcomeIsShared | src/utils/single_flight.rs:74-96 | the end of a fetch reaches every waiter: the same list, the error, or, if the fetch was dropped, the need to look again |
| TwoTierCache.BoundIsAttained | src/services/token/order.rs:25-66 | the two tiers really add up: some run serves a list 2 ms short of the bound |
| TwoTierCache.OrderService.WithCache | src/utils/single_flight.rs:59-105 | a live entry is returned unchanged and not renewed; otherwise a fetched answer is inserted; an error inserts nothing |
| TwoTierCache.OrderService.GetOrder | src/services/token/order.rs:25-66 | Redis, else list and count together, then back into Redis; a failed count fails the call, a failed Redis write does not; the list is the first live entry's or the database's answer now, and only a fetch fills the in-process cache |
| EventFeed.FeedIsOrdered | src/services/terminal/mod.rs:205-256 | the feed is sorted by block, transaction and log index, is a permutation of the converted rows of the three tables, and puts swaps before mints before burns on ties |
| EventFeed.FeedIsFaithful | src/services/terminal/mod.rs:205-256 | main result: the feed lists each row of the three tables in range once; every event has its row's block, time, transaction (0 if missing), log index, hash, maker and pair, and amounts as `SwapIsFaithful` and `LiquidityIsFaithful` say of that row; rows come by block, transaction or 0, log index and kind |
| EventFeed.SplitIsLossless | src/services/terminal/mod.rs:205-256 | for a <= b < c within the signed column, the feed of a..c is the feed of a..b followed by that of b+1..c, whatever the tables hold |
| EventFeed.LosslessIff | src/controllers/terminal/mod.rs:143-258 | main result: over all 64-bit block numbers splitting is lossless for all tables if and only if not b < 2^63 <= c |
| EventFeed.OneSwapIsLost | src/controllers/terminal/mod.rs:171-172 | a table whose one swap is missing from the joint range but present in the first half |
| EventFeed.AcceptedRangeMayNotSplit | src/types/terminal/mod.rs:194-205 | the request validation accepts a range that loses events when split |
| EventFeed.Extend | src/services/terminal/mod.rs:234-245 | extending the vector appends the converted rows in table order |
| EventFeed.GetEvents | src/services/terminal/mod.rs:205-256 | the service's three extensions and one sort produce the feed, whose every event says what its row says, in the order of the rows |
| SwapRender.WeiRoundTrip | src/services/terminal/mod.rs:22-27 | the rendered decimal of any wei amount reads back as exactly that amount: fifty places never cut one |
| SwapRender.ParsePlainOfPlain | src/services/terminal/mod.rs:22-27 | the plain string stands for exactly the normalised number |
| SwapRender.StripKeepsValue | src/services/terminal/mod.rs:22-27 | normalising keeps the value and leaves no trailing zero |
| SwapRender.PriceIsTruncation | src/services/terminal/mod.rs:317-321 | a rendered price is the exact quotient cut off by less than 10^-50 |
| SwapRender.OrderIsSymmetric | src/services/terminal/mod.rs:34-40 | the asset pair is the same whichever of the two is the token, in ascending lower-case order |
| SwapRender.SwapIsFaithful | src/services/terminal/mod.rs:258-342 | main result: a swap renders unless asset0's amount is zero; exactly one side is in and the other out, the quote on a buy and the token on a sale; all amounts and reserves read back as the exact wei of the pair's own asset0 and asset1; the price is asset1 per asset0 cut off by less than 10^-50 |
| SwapRender.LiquidityIsFaithful | src/services/terminal/mod.rs:344-463 | mints and burns put each amount and reserve, exact to the wei, on the pair's own side |
| Holders.HoldersArePaged | src/controllers/trading/position.rs:85-165 | main result: for a token with one market row the list is sorted by (total desc, account asc), names each existing account with a positive balance of the token or position in its pool exactly once, with its wallet balance, the floored share of the reserve on the token's side of the pool, and their sum; it is as long as the count query says, and pages of any size join to it |
| Holders.ListIsDeterministic | src/controllers/trading/position.rs:110-158 | the list does not depend on the order in which the database finds the holders |
| Holders.CountMatchesIff | src/controllers/trading/position.rs:46-68 | the count query agrees with the list if and only if the token has exactly one market row or no holder |
| Holders.TotalIsListLength | src/controllers/trading/position.rs:167-171 | a non-empty page reports the length of the whole list, an empty one 0 |
| Holders.ShareBounds | src/controllers/trading/position.rs:126-135 | a floored share is within one unit below the exact quotient, and nothing for an empty position |
| Holders.LpSharesConserved | src/controllers/trading/position.rs:126-141 | main result: listed LP shares add up to at most the reserve while positions do not exceed the supply, and when they make up the supply less than one unit per LP holder is lost |
| SearchMerge.MergedIsOrdered | src/controllers/search/mod.rs:374-391 | for hit lists of any length the result has at most 50 hits, repeats no id, represents each id by the earliest hit of it, is sorted by price descending and puts symbol hits before name hits on equal price |
| SearchMerge.CapDropsLast | src/controllers/search/mod.rs:374-391 | with at most 50 symbol ids the cap drops the hits that came last in query order; with more, every name hit and the cheapest symbols |
| SearchMerge.NothingDroppedIff | src/controllers/search/mod.rs:374-391 | the result holds the union of the ids if and only if there are at most 50 different ones |
| SearchMerge.QueriesNeverLoseAHit | src/controllers/search/mod.rs:303-391 | with at most 25 hits from each query no id is ever dropped |
| SearchMerge.CollectSymbols | src/controllers/search/mod.rs:374-381 | the symbol loop keeps the first hit of each id and records the ids |
| SearchMerge.CollectNames | src/controllers/search/mod.rs:383-387 | the name loop adds the first hit of each new id while there is room |
| SearchMerge.Merge | src/controllers/search/mod.rs:374-391 | the loops, the stable sort and the cut produce the merged list |
| StableSort.SortStable | src/services/terminal/mod.rs:248-254 | sorting keeps the order of tied elements, as `sort_by` promises |
| StableSort.SortSorted | src/services/terminal/mod.rs:248-254 | sorting by a total preorder leaves a sorted list |
| StableSort.SortedUnique | src/services/terminal/mod.rs:248-254 | sortedness, permutation and stability determine the result, so any stable sort gives this list |
| Text.LessIff | src/services/terminal/mod.rs:34-40 | one text is smaller than another if and only if, where they first differ, it ends or has the smaller character |

## Left out

- Routers, handlers, cookies, CORS, logging and configuration: plumbing without state of their own.
- Object storage, image moderation, image conversion and RPC calls: foreign services.
- Keccak, SHA-256, signature recovery and UUIDs: Keccak and SHA-256 are parameters, nonces and session ids are assumed fresh, and of EIP-55 only that it changes nothing but letter case.
- Redis, Postgres and the in-process cache library: each command is one atomic step; replicas answer like the primary; Redis and the servers share one clock.
- Leaderboards, price change percentages, charts and analytics: floating point or opaque aggregates.
- Agreement of the chart cache and of the search cache with their fetches: their Redis keys leave out, or alter, part of the arguments.
- Starting salts: that different requests get different ones is not promised by the code, which hashes an unseparated concatenation.
- Choice of the client address from request headers: a single chain of fallbacks; the limiter takes the chosen identifier as given.
- Creation and listing of API keys: the per-account limit of five is a read followed by a separate insert; nothing is claimed about it.
- The last-used timestamps of API keys: written beside the counters and not part of any result here.
- SaltMiner.MinerRefinesSearch: the claim is about safety and termination; which of several matches is reported is left open, as in the code.
- SwapHistory.TotalMatchesIff: accounts have one row each.
- SaltAddress.ParseAnyCase: letter case is that of ASCII, and an upper-case 0X prefix is read as no prefix.
- SwapQuery.ListMeansFilter: SQL text is a list of tokens; its lexing, and SQL's NULL logic for columns that are never NULL, are not modelled.
- SwapHistory.TotalCountsAllPages: rows with the same block, transaction and log index keep one fixed order in all pages; SQL leaves their order open.
- Paging.PagesArePrefix: pages whose offset leaves 64 bits are excluded.
- ApiUsage.ExactAtQuiescence: a GETSET whose reply is lost is a loss, since the code reads the error as count 0.
- AuthNonce.NonceIsSingleUse: one table; several nodes that accept writes are modelled on values, without takers and retries, in `NonceReplicas`.
- Session.ResolvesToOwner: it is not claimed that a new login ends the old session in Redis before its TTL.
- CacheKey.KeyRoundTrip: which characters count as printable is a parameter; integer widths are not part of a key.
- TwoTierCache.ServedListsAreFresh: the total count comes from its own query and is not part of the claim.
- EventFeed.LosslessIff: each table lists its rows in one fixed order, and block numbers are not negative.
- SwapRender.SwapIsFaithful: decimals are exact rationals; the library rounds quotients to 100 digits before they are cut, and an amount of zero for asset0, where the library panics, is the case without text.
- SwapRender.OrderIsSymmetric: lower-casing is that of ASCII, which covers hexadecimal addresses.
- Holders.LpSharesConserved: quotients are exact; NUMERIC division rounds to a limited scale before FLOOR.
- Holders.HoldersArePaged: accounts are compared character by character, which stands for the database's collation.
- SearchMerge.MergedIsOrdered: the two queries themselves, and the pattern analysis that picks the search, are taken as given.
