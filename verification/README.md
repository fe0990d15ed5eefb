# auth-go: a verified model

This project models the parts of the authentication library whose guarantees are about state over
time, about interleaving, or about exact formats, and proves those guarantees in Dafny 4.11.
`dafny verify dfyconfig.toml` checks every file.

| module | what it models |
|---|---|
| `CacheControl`, `KeyCache`, `KeyCacheRuns` | the issuer key-set cache: the `Cache-Control` lifetime in 64-bit arithmetic, the critical sections under the cache mutex, and every interleaving of callers, fetches, cancellations and clock readings |
| `Base64`, `CompactJws`, `JsonWalk`, `StrictToken`, `NumericId` | strict JWS parsing: canonical base64url, the compact serialization, the walker that refuses repeated member names, and the numeric GitHub identifiers |
| `Lockout`, `LockoutSql`, `Timestamp` | brute-force lockout on its atomic, Get-then-Save, SQLite and Postgres paths, and the order of encoded timestamps |
| `MagicLinks`, `Sessions`, `WorkloadKeys` | the credential lifecycles over the in-memory adapter, as sequential methods and as interleaved runs |
| `Totp` | code generation, the skew window, step consumption |
| `Scope`, `Password` | scope normalisation with its two storage forms, and the PHC password string |
| `Common`, `Text` | shared datatypes; splitting, joining, trimming, decimals and string order |

## How the model is built

Each repository, and each service over it, is a class whose methods are proved against functions on
the stored value. The same functions are the steps of a transition system: a run is a sequence of
labelled events, `Valid` says that each event was enabled when it happened, and `Exec` is the state
reached. Every theorem about runs quantifies over all valid event sequences, hence over all
interleavings, and a service call is as many events as it takes repository steps.

Stated assumptions:

- Time is an integer number of nanoseconds with 0 for Go's zero time, which the source uses as
  "unset". Clock readings are arbitrary, and may go back, unless a statement says otherwise.
- Token hashes, HMAC, base32, argon2id, UTF-8 validation, the JSON lexer and the header parser are
  parameters. Where a token hash must tell tokens apart, it is required to be injective on the
  tokens of the run only.
  argon2id panics exactly without a pass, a lane or a byte of output to fill.
- Freshly drawn tokens and key identifiers have not been drawn before in the run. Outside runs the
  draws are arbitrary arguments.
- A fetch's done channel is named by the ordinal of the fetch. A fetch ends in a discovery failure,
  a key-set failure or a success.
- A mutex-protected method of the memory adapter is one step.

Where the code differs from what its comments say, the model follows the code:

- `adapters/sqlite/db.go:30-33` calls the stored timestamps lexically sortable. Within one second
  they are not: the layout drops trailing zeros. `Timestamp.EncodedOrderIff` gives the exact
  condition, `LockoutSql.SqliteLockCanEndEarly` a lock that SQLite drops up to a second early, and
  `LockoutSql.SqliteMatchesMemoryIff` and `LockoutSql.SqliteRunsMatchIff` say exactly when the
  statement still agrees.
- A failure recorded exactly one window before the zero time computes a lock that ends at the zero
  time, which the code reads as "unset". After such a failure the two lockout paths may answer
  differently, the atomic path may engage a lock without reporting it, the number of guesses is
  unbounded and the SQL statements depart from the in-memory store; on a clock that never shows that
  reading none of this happens (`Lockout.InterchangeableIff`, `Lockout.ReportedIff`,
  `Lockout.GuessBoundHoldsIff`, `LockoutSql.PostgresRunsMatchIff`).
- Fetch starts are spaced by the refresh interval except after a start that reads the zero time,
  which the cache takes for "never attempted" (`KeyCacheRuns.ZeroReadingLiftsTheLimit`,
  `KeyCacheRuns.RateLimitHoldsIff`, `KeyCacheRuns.FetchRateHoldsIff`).
- `hotp` computes ten to the number of digits in 32 bits; the power is zero, and the reduction
  panics, exactly from 32 digits on (`Totp.ModulusVanishes`).
- `decodePHC` does not validate the cost it reads, so a well-formed stored hash can make password
  checking panic; `Password.PanicsExactlyOnEmptyCost` says which ones.

## Model

| member | source | states |
|---|---|---|
| `CacheControl.Ttl` | oidc/jwks.go:263-278 | every directive list grants between 5 minutes and 24 hours |
| `CacheControl.CacheTtl` | oidc/jwks.go:263-278 | the one-pass 64-bit loop over any header never overflows and stays in range; no-store or no-cache gives the minimum, otherwise the last max-age gives its seconds within 5 minutes and 24 hours and the nearer bound outside, and no max-age the default |
| `CacheControl.MaxAgeIsRead` | oidc/jwks.go:266-275 | a max-age directive, in any letter case, with any space around it, quoted or not, is read back as the number it spells, for every int64 value |
| `CacheControl.MaxAgeIff` | oidc/jwks.go:266-275 | a directive grants n seconds if and only if it spells max-age= and a value that reads, without its quotes, as the number n |
| `CacheControl.NoCachingIff` | oidc/jwks.go:266-270 | a directive forbids caching if and only if it spells no-store or no-cache, in any letter case and with any space around it |
| `CacheControl.EffectiveMaxStale` | oidc/verifier.go:149-171 | a configuration is refused exactly for a bound, other than 0, that does not exceed the minimum lifetime; 0 gives 24 hours and any other bound itself |
| `KeyCache.KeyCacheStore.constructor` | oidc/verifier.go:169-171 | the cache starts without keys, attempts or a fetch in flight |
| `KeyCache.KeyCacheStore.LookupPass` | oidc/jwks.go:306-332 | one locked iteration of lookup: new fields and verdict |
| `KeyCache.KeyCacheStore.StartFetchLocked` | oidc/jwks.go:373-408 | launching a fetch records the attempt and hands out its channel |
| `KeyCache.KeyCacheStore.FinishFetch` | oidc/jwks.go:391-405 | the locked end of a fetch: install or error, jwks_uri, flight over |
| `KeyCacheRuns.Reachable` | oidc/jwks.go:306-408 | in every reachable state the in-flight field names the one running fetch, the latest started, and every waited-on channel belongs to a started fetch; starts equal completions plus the one in flight |
| `KeyCacheRuns.CacheHoldsLastInstall` | oidc/jwks.go:391-405 | in every run the cache holds exactly the most recent successful fetch, its lifetime cut at the staleness bound, and the failure since, if any |
| `KeyCacheRuns.FreshImpliesUsable` | oidc/jwks.go:316-316 | with an accepted configuration, fetchedAt + 5 min <= expiresAt <= fetchedAt + maxStale after every run, so a fresh set is usable |
| `KeyCacheRuns.SingleFlight` | oidc/jwks.go:321-332 | two running fetches are the same fetch, in every reachable state |
| `KeyCacheRuns.StartsAreRecorded` | oidc/jwks.go:373-377 | lastAttempt is the clock reading of the latest start of the run |
| `KeyCacheRuns.StartsAreSpaced` | oidc/jwks.go:344-346 | consecutive starts are at least 30 s apart whatever the readings, unless the earlier read the zero time |
| `KeyCacheRuns.FetchRateBound` | oidc/jwks.go:344-346 | a run whose starts read the clock within a span T, none of them the zero time, makes at most T / 30 s + 1 of them |
| `KeyCacheRuns.ZeroReadingLiftsTheLimit` | oidc/jwks.go:344-346 | for every reading t there is a run that starts at the zero time and again at t |
| `KeyCacheRuns.RateLimitHoldsIff` | oidc/jwks.go:344-346 | all runs over a clock keep their starts 30 s apart if and only if that clock never shows the zero time |
| `KeyCacheRuns.FetchRateHoldsIff` | oidc/jwks.go:344-346 | that bound holds for all runs over a clock if and only if the clock never shows the zero time |
| `KeyCacheRuns.JwksUriIsFirstDiscovered` | oidc/jwks.go:391-394 | jwksURI is the one of the first fetch whose discovery succeeded, even if its key set failed |
| `KeyCacheRuns.JwksUriIsSticky` | oidc/jwks.go:391-394 | once set, jwksURI never changes in the rest of a run |
| `KeyCacheRuns.WaitsStayInOrder` | oidc/jwks.go:306-342 | the channels one caller waits on have increasing ordinals, and once it is awake all are completed |
| `KeyCacheRuns.WaitsAreDistinct` | oidc/jwks.go:306-342 | no caller waits twice for the same fetch |
| `KeyCacheRuns.AtMostOneStart` | oidc/jwks.go:306-342 | one lookup call starts at most one fetch, in every interleaving |
| `KeyCacheRuns.IterationsAreBounded` | oidc/jwks.go:306-342 | a call iterates at most once more than fetches finished since it began |
| `KeyCacheRuns.WaiterCanAlwaysWake` | oidc/jwks.go:391-405 | no lost wake-up: from every reachable state a waiter runs again after at most three steps of the fetch and itself |
| `KeyCacheRuns.PassTable` | oidc/jwks.go:306-332 | when one iteration serves, waits or launches, as if-and-only-ifs on the cache |
| `KeyCacheRuns.PassDecision` | oidc/jwks.go:306-332 | the same three if-and-only-ifs in terms of the history of the run: last install, earlier waits, running fetch, latest start |
| `KeyCacheRuns.ReturnedKeysAreCurrent` | oidc/jwks.go:306-352 | returned keys are those of the most recent successful fetch for the requested kid, read strictly before its staleness bound; stale ones only after a wait or under the rate limit |
| `KeyCacheRuns.ErrorsArePrecise` | oidc/jwks.go:335-367 | an unknown-key error means a usable set without that kid, an unavailable error other than a cancelled wait means no usable set and names reason and latest failure, and neither comes before a wait unless rate-limited; a cancelled wait, which the source also reports as unavailable, is the only error that says nothing of the cache |
| `Base64.DecodeUndoesEncode` | oidc/jws.go:114-129 | every byte string is recovered from its unpadded encoding |
| `Base64.EncodeUndoesStrictDecode` | oidc/jws.go:106-129 | strict decoding accepts only canonical text: encoding the result gives the text back |
| `Base64.AlphabetOf` | oidc/jws.go:131-134 | the two alphabets of sections 4 and 5 of RFC 4648 |
| `Base64.PackIsBigEndian` | oidc/jws.go:106-129 | three bytes and their four letters are the same 24-bit number, most significant first |
| `Base64.PackPadsOneByte` | oidc/jws.go:106-129 | a last byte is filled up with zero bits to two letters |
| `Base64.PackPadsTwoBytes` | oidc/jws.go:106-129 | two last bytes are filled up with zero bits to three letters |
| `Base64.UnpackAccepts` | oidc/jws.go:114-129 | a single leftover letter is always refused, loose bits by the strict decoder alone |
| `Text.SplitsExactly` | oidc/jws.go:79-82 | splitting finds the only parts without the separator that join to the text |
| `Text.NormalizedIff` | domain/workload.go:138-139 | trimming and lower-casing give a plain text back from exactly its spellings: any letter case, any space around it |
| `Text.ParseInt64Iff` | oidc/jwks.go:272-274 | exactly an optional sign and digits within the int64 range are read, with the number they denote |
| `CompactJws.DecodeSegment` | oidc/jws.go:114-129 | the alphabet scan and the strict decoder, with their two errors |
| `CompactJws.SegmentsAreCanonical` | oidc/jws.go:106-134 | a segment is accepted with result b if and only if b is non-empty and the segment is the encoding of b |
| `CompactJws.LineBreaksNeedTheScan` | oidc/jws.go:118-123 | a line break anywhere in any accepted segment is invisible to the strict decoder and refused by the scan |
| `CompactJws.ParseCompact` | oidc/jws.go:75-104 | the three-segment parser with its errors in the source's order |
| `CompactJws.AcceptsExactlySerializations` | oidc/jws.go:75-104 | a token is accepted with result j if and only if it is the serialization of three non-empty byte strings that pass their checks, and j holds them |
| `CompactJws.TokenIsSigningInputAndSignature` | oidc/jws.go:98-103 | an accepted token is its signing input, a dot and the encoding of its signature |
| `CompactJws.ShapeRefusalsAreTold` | oidc/jws.go:75-82 | the length and the segment count are refused first, if and only if they are wrong |
| `CompactJws.SegmentRefusalsAreTold` | oidc/jws.go:83-90 | the segment named is the first that is empty or no encoding, and empty is told apart |
| `CompactJws.DocumentRefusalsAreTold` | oidc/jws.go:91-97 | of three good segments the header is refused before the claims |
| `CompactJws.DecodedSegmentsDetermineToken` | oidc/jws.go:75-134 | distinct accepted tokens never have the same three decoded segments |
| `JsonWalk.Decoder.ReadToken` | oidc/jws.go:211-256 | the token decoder the walker drives: separators checked and skipped, end and misplaced text told apart |
| `JsonWalk.WalkObjectIn` | oidc/jws.go:211-232 | the walking loop over one object, with its set of names seen |
| `JsonWalk.WalkValueIn` | oidc/jws.go:234-256 | the recursion over one value, terminating on the remaining input |
| `JsonWalk.WalkArrayIn` | oidc/jws.go:249-255 | the walking loop over the items of an array |
| `JsonWalk.CheckJsonObject` | oidc/jws.go:189-209 | accepts exactly valid UTF-8 whose lexemes are one object with no repeated member name at any depth and at most 32 nested containers |
| `JsonWalk.WalkPrintedValue` | oidc/jws.go:234-256 | on a printed value the walker consumes exactly that value, and succeeds if and only if it is unambiguous and fits the depth |
| `JsonWalk.WalkPrintedItems` | oidc/jws.go:241-252 | the same for the items of an array |
| `JsonWalk.WalkPrintedMembers` | oidc/jws.go:211-232 | the same for the members of an object, given the names already seen |
| `JsonWalk.WalkedValueIsPrinted` | oidc/jws.go:234-256 | whatever the walker gets past is the printed form of some value |
| `JsonWalk.AcceptsExactlyStrictObjects` | oidc/jws.go:189-256 | an input is accepted if and only if it is the printed form of an object with no repeated member name at any depth and at most 32 nested containers |
| `StrictToken.AcceptedTokensCarryStrictDocuments` | oidc/jws.go:75-104 | an accepted token serializes two such documents and a signature, and its signing input is the encoding of exactly those documents |
| `NumericId.IsCanonicalDecimal` | oidc/github.go:130-140 | accepts exactly the decimal spellings of positive integers |
| `NumericId.OneSpellingPerId` | oidc/github.go:108-128 | the claim reads as n if and only if 1 <= n < 2^63 and it is the decimal spelling of n, as string or number |
| `NumericId.RefusalsAreTold` | oidc/github.go:108-128 | an absent claim is missing, and any other that is no such spelling is malformed |
| `Lockout.NewPolicy` | domain/lockout.go:27-32 | a policy needs a positive threshold and a positive window, and holds the two it was given |
| `Lockout.LoginAttemptRepo.RecordFailureAtomically` | adapters/memory/memory.go:420-442 | the mutexed transition: new row, flag, other keys untouched |
| `Lockout.LockoutService.IsLockedNow` | domain/lockout.go:123-139 | the answer is whether the stored lock is still running |
| `Lockout.LockoutService.GuardNow` | domain/lockout.go:143-152 | refuses exactly while the lock runs, and on an invalid key |
| `Lockout.LockoutService.RecordFailureNow` | domain/lockout.go:171-212 | both paths of recording a failure: answer and whole new store |
| `Lockout.LockoutService.ClearNow` | domain/lockout.go:215-221 | removes the key's row and no other |
| `Lockout.InvalidKeyIff` | domain/lockout.go:238-243 | a call is refused for its key exactly when the key is blank or longer than 255 bytes, and then changes nothing |
| `Lockout.ClearForgets` | domain/lockout.go:215-221 | after Clear, on either path and after any calls, the key has no row and neither IsLocked nor Guard finds a lock at any reading |
| `Lockout.OthersAnswerAsBefore` | domain/lockout.go:123-221 | a call about one key changes no answer about another |
| `Lockout.FewFailuresLockNothing` | domain/lockout.go:171-212 | from no row on, fewer failures than the threshold are counted and lock nothing |
| `Lockout.LocksAtTheThreshold` | domain/lockout.go:48-53 | the failure that reaches the threshold, and no earlier one, engages the lock and answers true |
| `Lockout.ExpiredLockStartsAfresh` | domain/lockout.go:189-206 | a failure after a lock has run out starts the count again at one |
| `Lockout.FallbackFreezes` | domain/lockout.go:189-194 | on the Get-then-Save path a failure during a lock changes nothing |
| `Lockout.PathsAnswerAlike` | domain/lockout.go:123-212 | over every call sequence with arbitrary readings the atomic and the Get-then-Save path give the same answers, although their counts differ during a lock, if no failure is recorded one window before the zero time |
| `Lockout.PathsDifferAtTheZeroTime` | domain/lockout.go:196-206 | for every policy a call sequence at that reading on which they differ |
| `Lockout.InterchangeableIff` | domain/lockout.go:123-212 | for a clock with a second reading, the paths answer alike on all call sequences over it if and only if it never shows that one |
| `Lockout.LockEndsOneWindowLater` | domain/lockout.go:48-53 | on either path and among any other calls, a lock that a failure engages answers every later IsLocked, Guard and RecordFailure as ending exactly one window after it, however many failures arrive meanwhile |
| `Lockout.RowsInRange` | domain/lockout.go:171-212 | a locked key's count has reached the threshold, and an unlocked one's has not unless a failure was recorded one window before the zero time |
| `Lockout.BelowThresholdIff` | domain/lockout.go:48-53 | unlocked keys stay below the threshold in all runs over a clock if and only if it never shows that reading |
| `Lockout.TrueMeansEngaged` | domain/lockout.go:154-157 | RecordFailure answers true only if this call engaged the lock, and then always, unless the atomic path recorded a failure one window before the zero time |
| `Lockout.EngagedUnreported` | domain/lockout.go:154-157 | after such failures the atomic path engages a lock at any later reading and answers false |
| `Lockout.ReportedIff` | domain/lockout.go:154-157 | for a clock with a second reading, the answer is true exactly when the call engaged the lock, in all runs over it, if and only if the path is Get-then-Save or the clock never shows the reading one window before the zero time |
| `Lockout.GuessesAreBounded` | domain/lockout.go:78-84 | with each call one step, on either path and among any calls about other keys, with a clock that never goes back for this key and at most n attempts between their Guard and their failure, at most (maxFailures + n - 1) * (T / window + 1) failures are admitted over a span T, if none is recorded one window before the zero time; n = 1 is one attempt after the other |
| `Lockout.BudgetIsReached` | domain/lockout.go:78-84 | for every n a run of overlapping attempts on either path reaches that bound over a span of 0 |
| `Lockout.GuessesUnboundedAtTheZeroTime` | domain/lockout.go:48-53 | at that reading any number of guarded failures, one after the other, is admitted over a span of 0, on both paths |
| `Lockout.GuessBoundHoldsIff` | domain/lockout.go:143-212 | for every n the bound holds for all runs over a clock if and only if the clock never shows that reading |
| `LockoutSql.MatchesIff` | adapters/sqlite/sqlite.go:507-540 | for any order on the column, row with a positive count, reading and policy, the statement computes the in-memory row and flag if and only if the order places the reading against the stored lock as the in-memory store does |
| `LockoutSql.RunsMatchIff` | adapters/sqlite/sqlite.go:507-540 | every run of failures over a clock leaves the in-memory row if and only if that holds between any lock and any reading of the clock |
| `LockoutSql.PostgresMatchesMemoryIff` | adapters/pgstore/pgstore.go:515-543 | for every row with a positive count, reading and policy the statement computes the in-memory row and flag, except on a stored lock at the zero time, where it does if and only if the clock is before that time and the count engages no later lock |
| `LockoutSql.PostgresRunsMatchIff` | adapters/pgstore/pgstore.go:515-543 | for a clock with a second reading, every run of failures in Postgres leaves the in-memory row if and only if the clock never shows the one a window before the zero time |
| `LockoutSql.PostgresResolutionIff` | adapters/pgstore/pgstore.go:515-543 | with timestamps stored coarser than the clock by any monotone conversion that keeps the zero time, a row whose lock has reached the threshold, and the flag, still follow memory if and only if the reading is not below a lock stored as the same timestamp and no lock engaged now is stored as the zero time |
| `LockoutSql.PostgresResolutionRunsIff` | adapters/pgstore/pgstore.go:515-543 | over whole runs, deciding on timestamps stored by any monotone conversion follows memory if and only if no reading below a lock is stored as the lock's own timestamp and the clock never shows the reading one window before the zero time |
| `LockoutSql.SqliteMatchesMemoryIff` | adapters/sqlite/sqlite.go:507-540 | for every row with a positive count, reading and policy the SQLite statement computes the in-memory row and flag if and only if stored lock and reading are comparable as strings, with a lock at the zero time met as in Postgres |
| `LockoutSql.SqliteRunsMatchIff` | adapters/sqlite/sqlite.go:502-507 | for a clock with a reading whose lock does not end at the zero time, every run of failures in SQLite leaves the in-memory row if and only if every lock and every reading are comparable as strings and no lock ends at the zero time |
| `LockoutSql.SqliteLockCanEndEarly` | adapters/sqlite/sqlite.go:507-540 | every lock ending inside a second is dropped by a failure on that whole second, while still active |
| `Timestamp.ZeroTimeIsYearOne` | adapters/sqlite/db.go:77-79 | the calendar's first day of year 1 is the zero time |
| `Timestamp.YearsAreGregorian` | adapters/sqlite/db.go:77-79 | the years of the model are the Gregorian ones, in closed form |
| `Timestamp.MonthsOfTheYear` | adapters/sqlite/db.go:77-79 | where the months begin, in leap and common years |
| `Timestamp.UnixEpoch` | adapters/sqlite/db.go:77-79 | the Unix epoch is 62135596800 seconds after the zero time |
| `Timestamp.EncodedLayout` | adapters/sqlite/db.go:33-33 | the encoding is the layout of section 5.6 of RFC 3339: zero-padded columns that denote the fields, around fixed separators |
| `Timestamp.TailLayout` | adapters/sqlite/db.go:33-33 | a whole second ends in the zone alone; otherwise the digits after the point, filled up to nine, are the nanoseconds, without a trailing zero |
| `Timestamp.FieldsOrderSeconds` | adapters/sqlite/db.go:33-33 | calendar fields compare as the seconds they denote, leap years included |
| `Timestamp.EncodeOrder` | adapters/sqlite/db.go:77-79 | encoded timestamps order by whole second first, then by the text of the fraction |
| `Timestamp.TailOrder` | adapters/sqlite/db.go:33-33 | within one second the text order is right if and only if the earlier fraction's digits do not begin the later's, and reversed otherwise |
| `Timestamp.EncodedOrderIff` | adapters/sqlite/db.go:77-79 | for years 0000 to 9999 string order is time order if and only if the pair is comparable |
| `Timestamp.EncodeLosesNothing` | adapters/sqlite/db.go:77-79 | two timestamps share a string only if they are the same instant |
| `MagicLinks.MagicLinkRepo.MarkConsumed` | adapters/memory/memory.go:177-191 | flips a link once, and says whether this call did |
| `MagicLinks.MagicLinkRepo.InvalidateOutstanding` | adapters/memory/memory.go:194-211 | spends the links of one address and tenant and leaves every other link as it is |
| `MagicLinks.MagicLinkRepo.IssueAtomically` | adapters/memory/memory.go:215-225 | in one step stores the link and spends the others of its address and tenant, and no other |
| `MagicLinks.MagicLinkService.Issue` | domain/services.go:180-208 | refuses an empty tenant, otherwise stores a live link under the token's hash |
| `MagicLinks.MagicLinkService.Peek` | domain/services.go:234-246 | unknown, consumed, expired or the link, each if and only if the store says so, and nothing changes |
| `MagicLinks.MagicLinkService.Consume` | domain/services.go:250-272 | alone, succeeds exactly when Peek would, and spends exactly that link |
| `MagicLinks.Reachable` | adapters/memory/memory.go:177-225 | in every interleaving links sit under their own hash, at most one per address and tenant is outstanding, and a consumer's held link is the stored one |
| `MagicLinks.ConsumedForever` | adapters/memory/memory.go:177-225 | a stored link keeps its contents, and a consumed one stays consumed |
| `MagicLinks.OneOutstandingLink` | adapters/memory/memory.go:204-225 | at most one link per address and tenant is redeemable |
| `MagicLinks.RedeemedAtMostOnce` | domain/services.go:250-272 | however Consume calls interleave, each link is redeemed at most once |
| `MagicLinks.SupersededIsDead` | domain/services.go:180-272 | a link superseded by a later Issue is never redeemed afterwards, even by a Consume that had read it before |
| `MagicLinks.StoredLinksWereIssued` | domain/services.go:180-208 | every stored link comes from an Issue with that address, tenant and lifetime |
| `MagicLinks.RedeemedWasLive` | domain/services.go:250-272 | a redeemed link was issued, and was unexpired when the redeeming call read it |
| `MagicLinks.StepLeavesOthers` | adapters/memory/memory.go:204-225 | an event that neither issues for a link's own address and tenant nor flips it leaves the link as it is |
| `MagicLinks.ConsumedIffSpent` | domain/services.go:180-272 | in every run a link is consumed if and only if it was redeemed, or superseded by an Issue for its address and tenant |
| `MagicLinks.ReadAnswers` | domain/services.go:250-261 | the read of a Consume answers from the history alone: never issued, spent, past its lifetime, or the link as issued |
| `MagicLinks.FlipAnswers` | domain/services.go:262-271 | a flip redeems its link if and only if the link has not been spent since the read |
| `Sessions.SessionRepo.DeleteByUser` | adapters/memory/memory.go:108-120 | removes exactly one user's sessions and leaves the others' as they are |
| `Sessions.SessionRepo.RotateAtomically` | adapters/memory/memory.go:124-137 | swaps fully or changes nothing |
| `Sessions.SessionService.Issue` | domain/services.go:39-72 | stores a session of full lifetime under the key of the fresh token, or refuses an empty user or tenant |
| `Sessions.SessionService.Validate` | domain/services.go:86-99 | succeeds with the stored session if and only if the token is not empty, known and before its expiry, and names which of the three failed; an expired session is purged, nothing else changes |
| `Sessions.SessionService.Rotate` | domain/services.go:116-129 | fails and issues nothing, or replaces the old token by one for the same user and tenant |
| `Sessions.SessionService.Revoke` | domain/services.go:148-153 | deletes that session only |
| `Sessions.SessionService.RevokeAll` | domain/services.go:156-158 | deletes that user's sessions only |
| `Sessions.HashedStoreRefinesRaw` | domain/services.go:74-158 | with a hash injective on the tokens in play, an event sequence is a run of the hash-keyed store if and only if it is one of a store keyed by raw tokens, with the same answers and corresponding contents |
| `Sessions.Reachable` | domain/services.go:39-158 | every session sits under the key of a drawn token, and a rotation under way holds what is stored, if anything is |
| `Sessions.EndedTokensNeverValidate` | domain/services.go:86-153 | a token rotated away, revoked or purged is never found again in any continuation |
| `Sessions.AtMostOneSuccessor` | domain/services.go:116-129 | racing rotations of one token yield at most one successor |
| `Sessions.SuccessorKeepsOwner` | domain/services.go:116-129 | a successor has the user and tenant of the session it replaced, and a full lifetime |
| `Sessions.SessionsTraceToIssue` | domain/services.go:39-129 | every live session goes back to an Issue for its user and tenant |
| `Sessions.RevokeAllIsFinal` | domain/services.go:156-158 | after RevokeAll and without a later Issue for the user, no interleaved rotation leaves that user a session |
| `Sessions.AliveIsStored` | domain/services.go:39-144 | a session that was issued or rotated in and not ended since is stored as it was made, whatever else runs |
| `Sessions.FoundUntilItExpires` | domain/services.go:86-99 | every read of such a session made at t finds it before t + ttl, and none from then on |
| `Sessions.UnknownTokensAreNotFound` | domain/services.go:86-93 | a token that was never made is not found |
| `Sessions.CallsAnswerWhatHappened` | domain/services.go:94-127 | a rotation answers with the new session if and only if it took the old one's place, and otherwise changes nothing |
| `WorkloadKeys.WorkloadKeyRepo.CreateKey` | adapters/memory/memory.go:464-480 | inserts if and only if neither the identifier nor the hash is in use, and otherwise changes nothing |
| `WorkloadKeys.WorkloadKeyRepo.GetKeyByHash` | adapters/memory/memory.go:483-494 | the indexed lookup finds exactly what a scan over all keys would |
| `WorkloadKeys.WorkloadKeyRepo.ListKeysByWorker` | adapters/memory/memory.go:511-524 | lists exactly the worker's keys, each once |
| `WorkloadKeys.WorkloadKeyRepo.DeleteKey` | adapters/memory/memory.go:527-540 | removes from both maps or reports that there is no such key |
| `WorkloadKeys.WorkloadKeyRepo.RotateAtomically` | adapters/memory/memory.go:544-566 | swaps fully or changes nothing, and keeps the index exact |
| `WorkloadKeys.WorkloadKeyService.IssueKey` | domain/services.go:323-366 | the checks in order, then the key with the requested worker, scope and expiry |
| `WorkloadKeys.WorkloadKeyService.ValidateKey` | domain/services.go:374-393 | a token validates if and only if some stored key carries its hash and has not expired |
| `WorkloadKeys.WorkloadKeyService.RevokeAllKeys` | domain/services.go:426-437 | leaves exactly the other workers' keys |
| `WorkloadKeys.WorkloadKeyService.RotateKey` | domain/services.go:460-485 | same worker, scope and expiry under a new identity with the old key gone, or the exact error with nothing changed |
| `WorkloadKeys.Reachable` | adapters/memory/memory.go:464-566 | in every interleaving the hash index is the exact inverse of the key map |
| `WorkloadKeys.AtMostOneSuccessor` | domain/services.go:460-485 | racing RotateKey calls on one key yield at most one successor |
| `WorkloadKeys.LineageNeverForks` | domain/services.go:460-485 | of all keys descending from one issued key at most one is live |
| `WorkloadKeys.RotationKeepsGrant` | domain/services.go:460-485 | through any chain of rotations a key keeps the worker, scope and expiry of the Issue it descends from |
| `WorkloadKeys.AliveIsStored` | domain/services.go:323-366 | a key that was issued and not ended since is stored as it was issued, whatever else runs |
| `WorkloadKeys.EndedKeysStayDead` | domain/services.go:415-499 | a key revoked, swept or rotated away is never stored again |
| `WorkloadKeys.SwapAnswers` | domain/services.go:466-485 | a rotation swaps if and only if the key it read is still there and has not expired, and otherwise changes nothing |
| `WorkloadKeys.SurvivorsAreLater` | domain/services.go:426-437 | in every interleaving, a key that outlives RevokeAllKeys was issued or rotated in after the call listed the worker's keys |
| `WorkloadKeys.KillSwitchHolds` | domain/services.go:426-437 | the worker is left without keys when no key of that worker was made since the listing |
| `WorkloadKeys.RotationOutlivesKillSwitch` | domain/services.go:426-437 | a rotation that swaps between the listing and the deletion leaves the worker a live key |
| `Totp.Truncate` | domain/totp.go:203-223 | the truncated value is below 2^31 |
| `Totp.TruncateIsLow31Bits` | domain/totp.go:203-223 | the four bytes never reach past the 20-byte digest, and the value is their low 31 bits (section 5.3 of RFC 4226) |
| `Totp.CounterBytesRoundTrip` | domain/totp.go:203-223 | the counter is recovered from the bytes that are authenticated, so distinct steps are distinct messages |
| `Totp.ModulusVanishes` | domain/totp.go:203-223 | the 32-bit power of ten is zero if and only if there are at least 32 digits |
| `Totp.Hotp` | domain/totp.go:203-223 | the loop with the 32-bit power computes the code of the step |
| `Totp.CodeIsTruncatedMac` | domain/totp.go:203-223 | for every secret, MAC and digit count the digits of the code are the number truncated from the MAC of the step's eight big-endian bytes, reduced by the 32-bit power of ten (section 5.3 of RFC 4226) |
| `Totp.ReductionUpToNine` | domain/totp.go:216-222 | up to nine digits that power is the power of ten itself |
| `Totp.CounterIsWholePeriods` | domain/totp.go:172-190 | the counter of every 64-bit time is the number of whole periods up to it, a negative time read as unsigned |
| `Totp.CodeHasItsDigits` | domain/totp.go:203-223 | a decodable secret yields a code if and only if there are at most 31 digits, and the code has exactly that many decimal characters |
| `Totp.SearchWindow` | domain/totp.go:188-201 | the loop over the skew window reports its first match, or the first error |
| `Totp.ValidateStep` | domain/totp.go:188-201 | the reported step, over 64-bit counters |
| `Totp.ReportsFirstMatch` | domain/totp.go:188-201 | for every secret, digit count, clock reading and skew, a step is reported if and only if it is the first of the window, counted in 64 bits with wrap-around, whose code matches |
| `Totp.ReportsLowestMatch` | domain/totp.go:188-201 | where the window does not wrap around, a step is reported if and only if it is the lowest of the window whose code matches |
| `Totp.GeneratedCodesValidate` | domain/totp.go:172-201 | a code generated at any offset of the validating window, wrap-around included, is accepted, and the first match at that offset or before is reported |
| `Totp.RefusalsAreTold` | domain/totp.go:188-201 | an undecodable secret and too many digits are told apart from a window without a match, each if and only if |
| `Totp.TotpRepo.DeleteSecret` | adapters/memory/memory.go:266-278 | disenrolment forgets secret and recorded step |
| `Totp.TotpRepo.Consume` | adapters/memory/memory.go:282-293 | a step is consumed, and recorded, if and only if it is above the recorded one or none is |
| `Totp.Verify` | domain/totp.go:113-130 | alone: unknown user, no match, reused or accepted, and what is recorded |
| `Totp.RecordedStepOnlyGrows` | adapters/memory/memory.go:282-293 | an accepted step stays at or below the recorded one until disenrolment |
| `Totp.AcceptedStepsIncrease` | domain/totp.go:113-130 | between disenrolments the accepted steps strictly increase under every interleaving (section 5.2 of RFC 6238) |
| `Totp.AcceptedIffLater` | domain/totp.go:113-130 | a matched step is accepted if and only if it is later than the one accepted last since the latest disenrolment |
| `Totp.MatchedStepIsInWindow` | domain/totp.go:113-130 | every step a call goes on to consume matched the presented code under the secret then enrolled, within the skew of that call's own reading |
| `Totp.AcceptedCodeIsCurrentIff` | domain/totp.go:113-130 | an accepted code belongs to the secret enrolled at acceptance if and only if the enrolments since the call read it left the user's where it was |
| `Totp.StaleCodeIsAccepted` | domain/totp.go:113-130 | a call that matched before a disenrolment is accepted after it and writes its step back |
| `Scope.NewScope` | domain/workload.go:75-93 | fails exactly on an empty list or a malformed entry; otherwise the canonical spellings of the entries, sorted, each once |
| `Scope.SortedIsUnique` | domain/workload.go:75-93 | that result is determined by the set of its entries |
| `Scope.Allows` | domain/workload.go:108-119 | holds if and only if some stored entry has, around its first colon, the wildcard or the resource and the wildcard or the action |
| `Scope.AllowsWhatWasGranted` | domain/workload.go:75-177 | holds if and only if some input entry spells, in any letter case and with any space around it, a well-formed resource and action of which each is the wildcard or the one asked for |
| `Scope.HalvesIff` | domain/workload.go:138-177 | an entry is well-formed if and only if it spells two halves of the permitted characters, or wildcards, around one colon |
| `Scope.NormalIsIdempotent` | domain/workload.go:138-152 | a canonical spelling is its own canonical spelling |
| `Scope.NewScopeIsIdempotent` | domain/workload.go:75-93 | building a scope from a scope's entries gives it back |
| `Scope.SqliteRoundTrip` | adapters/sqlite/sqlite.go:731-745 | the newline-joined column gives every scope back |
| `Scope.PgScan` | adapters/pgstore/pgstore.go:695-723 | the scanning loop reads the array literal entry by entry |
| `Scope.PostgresRoundTrip` | adapters/pgstore/pgstore.go:695-733 | the array literal gives every scope back |
| `Scope.ScanReadsShownEntries` | adapters/pgstore/pgstore.go:708-723 | the scan reads every scope back from any literal of its entries, bare or quoted, with any space around them and around the braces |
| `Scope.EmptyColumnsAreEmpty` | adapters/pgstore/pgstore.go:711-714 | an empty column, and empty braces, are no entries |
| `Password.DecodeUndoesPrint` | domain/password.go:113-136 | cost, salt and key are recovered from everything the encoder prints |
| `Password.PhcLayout` | domain/password.go:68-72 | the stored string, literally |
| `Password.DecodesIffFits` | domain/password.go:120-123 | a printed cost decodes if and only if it fits the fields it is read into |
| `Password.OtherFormatsAreRefused` | domain/password.go:114-117 | a text without six fields, or of another algorithm, is refused |
| `Password.OtherVersionsAreRefused` | domain/password.go:118-121 | every other version number is refused |
| `Password.OtherBytesAreRefused` | domain/password.go:126-134 | so is a salt or key that is no base64 |
| `Password.BlanksBeforeNumbers` | domain/password.go:118-123 | a cost is read behind blanks and refused behind a newline |
| `Password.HashRefusals` | domain/password.go:55-64 | hashing refuses an empty or over-long password and a parameter that is zero, and nothing else |
| `Password.VerifyRefusals` | domain/password.go:91-98 | verification refuses such a password first, then a text that does not decode |
| `Password.VerifyAcceptsExactly` | domain/password.go:55-104 | a hash accepts its own password, and another one if and only if it is admissible and argon2id maps it to the stored key |
| `Password.PanicsExactlyOnEmptyCost` | domain/password.go:91-136 | every cost that fits its fields decodes, and checking an admissible password panics if and only if the stored cost has no passes or no lanes or the stored key is empty |

## Left out

- HTTP, URLs, discovery and the JWKS document parser (`keySource`, `urlPolicy`, `parseJWKS`): a fetch is a success with keys and directives, or a failure.
- Algorithm agreement (`toKey`, `usableWith`, `allowList`, `verifySignature`) and claim validation (`validate`, `numericDate`): lists of independent checks.
- Cryptographic primitives and the AEAD wrapper: parameters or absent.
- JSON lexing: the walker is modelled from lexemes up; text that is no lexeme is one lexeme that is refused. Header fields (`parseHeader`) are a parameter that accepts only documents the walker accepts.
- The lookup loop as one running method: its iterations, waits and wake-ups are events of a run; each locked iteration is a method. The order of a channel's closing and a caller's cancellation is any order.
- Context checks at the entry of memory methods, and error wrapping texts.
- The non-atomic fallbacks of session rotation, key rotation and magic-link issue: the source documents their overlap window and promises none of these properties for them.
- Concurrent calls on the Get-then-Save lockout path, which the source documents as losing updates; the two paths are compared over call sequences.
- SQL engines, transactions and the remaining repository operations of the SQL adapters; how a driver brings a timestamp to the resolution of Postgres (`LockoutSql.PostgresResolutionIff` takes any monotone way).
- Case folding and trimming beyond ASCII.
- TOTP configurations with a negative digit count, and skews of 2^63 - 1 or more; the width limit of the formatting verb.
- JsonWalk.CheckJsonObject: does not define UTF-8 validity or the lexemes of a text, which encoding/json and unicode/utf8 decide; they are its parameters.
- Users, passkeys, the WebAuthn wrapper, OAuth, middleware, provisioning URIs and plain getters: single-branch facts.
