# Verification model of cross-host-ops

cross-host-ops lets a command line tool reach servers through a daemon, through chains of daemons, and through
a bastion host that offers nothing but an interactive terminal. This project models the parts where a mistake
would go unnoticed: bytes cut out of a terminal stream, shared connections, transfers that are interrupted and
continued, names passed from hop to hop, tokens, and secrets moved between files.

| file | what it models |
|---|---|
| `Arithmetic.dfy`, `Bytes.dfy` | quotients; bytes, options, chunked streams |
| `Sentinel.dfy`, `Scanner.dfy` | the exit-code sentinel and the streaming scanner that looks for it |
| `Base64.dfy` | the streaming encoder and decoder |
| `Transport.dfy` | a raw-mode command: begin marker, payload, end sentinel |
| `SessionCache.dfy` | the cache of navigated shells |
| `Pool.dfy`, `PoolLaw.dfy`, `ManagedPools.dfy` | the keyed connection pool: its lock regions as steps, its laws over runs, the object |
| `Singleton.dfy` | the shared transport and its generations |
| `Calendar.dfy` | dates from day numbers |
| `Tokens.dfy` | bootstrap tokens |
| `Quoting.dfy` | shell quoting, against a tokenizer for sections 2.2 and 2.3 of the POSIX Shell Command Language |
| `Routing.dfy` | names across a chain of daemons |
| `Resume.dfy`, `Upload.dfy` | resumable downloads and uploads |
| `Secrets.dfy`, `Vaults.dfy`, `Encrypt.dfy` | secret references, the vault, `secret encrypt` |

`dafny verify dfyconfig.toml` checks the whole project.

## How to read it

Objects that the program changes in place are classes; each method states its result and its new state outright
and is tied to a function on values, and the results over whole runs are about that function. Randomness, clocks, the network and digests are parameters, so
a result holds for every value of them. Hypotheses on them are written where they are used: a collision-free
digest (`Injective`), and a cipher whose opening undoes its sealing (`Lawful`).

Some promises hold only under a condition. The model keeps the code as it is and states the condition:

- Cutting a stream can make the scanner miss a sentinel, exactly when an earlier marker overlaps it
  (`Scanner.ChunkingIsIrrelevantIff`); every generated marker can do that (`Scanner.DoubledMarkerIsLost`).
- The pool can exceed its capacity for a key, exactly when a caller counts its permit in a state that replaced
  the one it came from (`PoolLaw.KeyLawIff`, `PoolLaw.RaceExceedsCapacity`).
- The cache's eviction loop does not end with a maximum of zero (`SessionCache.EvictionEndsIff`).
- A resumable download that stops without an error is published even if it is unfinished, also when the user
  declines the confirmation (`Resume.UnfinishedPublishIff`, `Resume.UnbegunPublishIff`,
  `Resume.DecliningPublishesPartial`).
- A plain download that stalls and is retried keeps only what came after the stall (`Resume.PlainRetryIff`), and
  a resumable one is refused unless it stalled where it had begun (`Resume.RetryAcceptedIff`).
- `secret encrypt` loses a secret when two gateways share a name, changes the meaning of any reference to an entry
  it overwrites, also in fields it does not visit (`Encrypt.TokenReferenceClashes`), and without a key source or remote access some readers look for another key (`Encrypt.EncryptKeepsMeaning`,
  `Encrypt.MeaningKeptIff`, `Encrypt.ReadersFindTheKeyIff`).
- Wrapping a command in a shell whose basename is not a bare command word does not keep its words
  (`Quoting.WrapSplitsIff`, `Quoting.BlankInShellName`).
- A generation can return only once the counter is at the largest u64 (`Singleton.ReturnsOnlyWhenSaturated`).

Where comments and code of the program disagree, the model follows the code. The comment on token invalidation
promises removal by full hash (`src/daemon/token_store.rs:107`); the code takes the digest of whatever it is
given, so a real digest never removes its token unless it is its own digest (`Tokens.RealDigestIff`,
`Tokens.DigestLeavesTokenAccepted`).

## Model

| member | source | states |
|---|---|---|
| Sentinel.FindSubslice | src/daemon/jumpserver_engine.rs:888-895 | the least position where the needle occurs, none for an empty or absent needle |
| Sentinel.PartialSuffixMatch | src/daemon/jumpserver_engine.rs:902-911 | the longest proper prefix of the pattern that the buffer ends with; no longer one fits |
| Sentinel.LookaheadMeaning | src/daemon/jumpserver_engine.rs:1037-1082 | confirmed iff some prefix is a complete `:digits` LF/CRLF tail, incomplete iff some tail properly extends the buffer, so a mismatch means neither |
| Sentinel.LookaheadOfPrefix | src/daemon/jumpserver_engine.rs:1037-1082 | cutting a buffer never turns one confirmed tail into another: before its end it reads as incomplete, after it as the same code and length |
| Sentinel.LookaheadSentinel | src/daemon/jumpserver_engine.rs:1037-1082 | the digit-counting loop decides exactly that lookahead |
| Sentinel.SentinelMeaning | src/daemon/jumpserver_engine.rs:1004-1028 | text of the form before, marker, tail, rest is recognised at that place, with that end and the decimal code (0 when it does not fit an i32) |
| Sentinel.FindSentinelFacts | src/daemon/jumpserver_engine.rs:1004-1028 | a hit is a genuine sentinel with its own end and code; a partial is a marker with an incomplete tail |
| Sentinel.SearchStopsBy | src/daemon/jumpserver_engine.rs:1004-1028 | the search cannot jump past a marker that no earlier occurrence overlaps and whose tail is not a mismatch |
| Sentinel.FindSentinel | src/daemon/jumpserver_engine.rs:1004-1028 | the searching loop, with its jump of a whole marker length, against that reference search |
| Sentinel.DecimalConcat | src/daemon/jumpserver_engine.rs:1037-1082 | the code is read as a decimal number: digits in front weigh a power of ten more per digit behind |
| Sentinel.ParseI32Range | src/daemon/jumpserver_engine.rs:1037-1082 | a code up to 2147483647 reads as itself, a larger one as 0 |
| Scanner.SentinelScanner.constructor | src/daemon/jumpserver_engine.rs:927-947 | a new scanner holds nothing and is not done |
| Scanner.SentinelScanner.Feed | src/daemon/jumpserver_engine.rs:949-979 | one chunk: new hold, leftover, done flag and code, and the bytes forwarded; once done, nothing is forwarded and nothing changes |
| Scanner.SentinelScanner.TakeLeftover | src/daemon/jumpserver_engine.rs:987-990 | hands the leftover out once and changes nothing else |
| Scanner.FeedConserves | src/daemon/jumpserver_engine.rs:949-979 | with no hypothesis on the stream, taken in = forwarded ++ held, or forwarded ++ sentinel text ++ leftover at the match |
| Scanner.HoldIsMinimal | src/daemon/jumpserver_engine.rs:949-979 | held bytes are always a proper prefix of some sentinel text, so nothing else is delayed |
| Scanner.StreamingFindsFirst | src/daemon/jumpserver_engine.rs:949-1028 | for every chunking: forwards exactly what precedes the first sentinel, reads its code, keeps every byte after it, when no marker overlaps that sentinel from the left |
| Scanner.RunIsSound | src/daemon/jumpserver_engine.rs:949-1028 | for every chunking and any stream: a scanner that stops has read a genuine sentinel in full; one that does not has forwarded everything but its hold |
| Scanner.NoSentinelNeverStops | src/daemon/jumpserver_engine.rs:949-1028 | a stream without a sentinel never makes it done, under any chunking |
| Scanner.MadeMarkersArePlain | src/daemon/jumpserver_engine.rs:857-859 | every generated marker starts with `__XHO_E_` and so has the shape the exactness result needs |
| Scanner.CutLosesSentinel | src/daemon/jumpserver_engine.rs:1004-1028 | the failing family: with an overlapping earlier marker, this two-chunk cut makes the scanner miss the first sentinel |
| Scanner.DoubledMarkerIsLost | src/daemon/jumpserver_engine.rs:1004-1028 | a concrete stream for every generated marker: two copies that share their underscores, cut before the last byte of the first, and the sentinel is missed |
| Scanner.ChunkingIsIrrelevantIff | src/daemon/jumpserver_engine.rs:949-1082 | for every generated marker and every stream with a first sentinel: all chunkings find it if and only if no earlier marker overlaps it |
| Base64.QuadRoundTrip | src/daemon/session/b64.rs:133-230 | decoding a quad inverts encoding one, two or three bytes, for every byte value |
| Base64.AlphabetIsStandard | src/daemon/session/b64.rs:133-142 | `A` to `Z`, `a` to `z`, `0` to `9`, `+`, `/` in this order, so the alphabet of section 4 of RFC 4648 |
| Base64.StandardVectors | src/daemon/session/b64.rs:226-230 | the vectors for `f`, `fo` and `foo` of section 10 of RFC 4648 |
| Base64.AlphabetRun | src/daemon/session/b64.rs:77-100 | any text of alphabet characters: three bytes per complete quad, too long exactly when they pass the expected number, the rest waits in the quad |
| Base64.PaddingIsExact | src/daemon/session/b64.rs:101-122 | the first padding after any such text: refused with fewer than two characters waiting, else one or two more bytes, a stop, or too long |
| Base64.NeverTooMuch | src/daemon/session/b64.rs:77-130 | whatever comes in, no more than the expected number of bytes is counted without an error |
| Base64.DecodeConcat | src/daemon/session/b64.rs:77-130 | decoding is a fold over bytes: cutting the wire anywhere changes neither output, state nor error |
| Base64.WireDecodes | src/daemon/session/b64.rs:77-169 | base64 text of any payload, with CR and LF scattered anywhere, decodes to the payload |
| Base64.WireThenTextDecodes | src/daemon/session/b64.rs:77-130 | the same when the wire is followed by any text that starts outside the alphabet, such as a marker |
| Base64.TruncatedWireIsSafe | src/daemon/session/b64.rs:63-169 | any prefix of a wire followed by such text yields a prefix of the payload and no error, and the length check passes iff nothing is missing |
| Base64.B64Decoder.constructor | src/daemon/session/b64.rs:46-56 | starts with an empty quad, nothing decoded, not stopped |
| Base64.B64Decoder.Feed | src/daemon/session/b64.rs:77-130 | a chunk is decoded byte by byte in place; output, state and error are those of the reference fold |
| Base64.B64Decoder.Finish | src/daemon/session/b64.rs:63-72 | accepts exactly when the expected number of bytes came out |
| Base64.WireLength | src/daemon/session/b64.rs:22-26 | the length formula is the length of the 76-column text, for every payload |
| Base64.B64Encoder.constructor | src/daemon/session/b64.rs:187-194 | nothing pending, nothing counted |
| Base64.B64Encoder.Encode | src/daemon/session/b64.rs:199-213 | emits the complete 57-byte lines of pending ++ data, keeps the rest, counts what it emits |
| Base64.B64Encoder.Finish | src/daemon/session/b64.rs:214-224 | emits the last line and leaves nothing pending |
| Base64.EncoderChunkIndependent | src/daemon/session/b64.rs:199-224 | every split into encode calls followed by finish emits the same bytes |
| Base64.EncodeChunks | src/daemon/session/b64.rs:187-224 | through the encoder object: emitted length = counted total = the length formula |
| Base64.WireIsWire | src/daemon/session/b64.rs:199-230 | what the encoder emits is base64 text of its input, so the decoder gives it back |
| Base64.OnlcrKeepsWire | src/daemon/session/b64.rs:77-130 | translating LF to CRLF on the way changes nothing for the decoder |
| Base64.WireChars | src/daemon/session/b64.rs:199-230 | no byte outside the alphabet, padding and line ends is ever emitted, so no `_` |
| Base64.WireIsMime | src/daemon/session/b64.rs:199-224 | lines of at most 76 characters, all full but the last, each ended by LF (section 6.8 of RFC 2045) |
| Transport.TrimmedSearch | src/daemon/jumpserver_engine.rs:425-444 | discarding all but the last two marker lengths never loses an occurrence nor moves the bytes after it |
| Transport.WaitForMarker | src/daemon/jumpserver_engine.rs:425-444 | the trimming loop equals searching everything read so far, for every chunking; with limit 4 it is the ready-marker loop of lines 570-584 |
| Transport.WaitKeepsTheRest | src/daemon/jumpserver_engine.rs:425-444 | the wait ends at the first occurrence in the whole stream and keeps exactly the bytes after it |
| Transport.RunPlain | src/daemon/jumpserver_engine.rs:446-515 | plain payload: success only at a genuine sentinel, with its code, exactly the bytes before it and the bytes after it kept; without a sentinel the channel's closing is reported; a first sentinel that nothing overlaps is always found. Lines 274-288 turn a closed channel into that error |
| Transport.RunEncoded | src/daemon/jumpserver_engine.rs:446-515 | base64 payload: success only at a genuine sentinel, with the expected number of bytes, decoded from the chunks taken; without a sentinel the decoding error, or the channel's closing, is reported |
| Transport.RunCommandRaw | src/daemon/jumpserver_engine.rs:425-515 | success only after the begin marker and at a genuine sentinel in the bytes after it; without a begin marker the channel's closing is reported, without a sentinel there is never a success |
| Transport.DigitsRead | src/daemon/jumpserver_engine.rs:418-420 | the decimal text of an exit status reads back as that number |
| Transport.EncodedTransfer | src/daemon/jumpserver_engine.rs:446-515 | for every payload, code, trailing bytes and chunking, and any truncation of the wire: either a length mismatch, or exactly the payload, the code and the trailing bytes |
| Transport.PlainCommandIsExact | src/daemon/jumpserver_engine.rs:425-515 | end to end in plain mode: noise, begin marker and any body whose first sentinel is not overlapped give exactly the bytes before it, its code and the bytes after it, under every chunking |
| Transport.EncodedCommandIsExact | src/daemon/jumpserver_engine.rs:425-515 | end to end with noise before the begin marker and LF or CRLF line ends: exactly the payload, the code and the trailing bytes, under every chunking |
| SessionCache.PruneIsExact | src/daemon/gateway/jumpserver.rs:139-156 | on a time-ordered list, what is dropped is exactly the set of expired items, and it is a prefix |
| SessionCache.RunStaysBounded | src/daemon/gateway/jumpserver.rs:115-137 | over every run of operations the size never exceeds a non-zero maximum |
| SessionCache.RunAccounts | src/daemon/gateway/jumpserver.rs:98-161 | over every run and for every shell: times handed out plus times still cached is at most times cached before plus times put in |
| SessionCache.HandedOutOnce | src/daemon/gateway/jumpserver.rs:98-110 | over every run: a shell put in once is handed out at most once |
| SessionCache.EvictionEndsIff | src/daemon/gateway/jumpserver.rs:116-120 | the eviction loop reaches its exit if and only if the maximum is not zero |
| SessionCache.FirstKey | src/daemon/gateway/jumpserver.rs:139-147 | the least key in the order by time and id |
| SessionCache.SessionCache.constructor | src/daemon/gateway/jumpserver.rs:82-90 | an empty list |
| SessionCache.SessionCache.Checkout | src/daemon/gateway/jumpserver.rs:98-110 | returns the newest live item for the ip iff there is one, whatever stale keys the index holds; that item leaves the cache and all others stay in order |
| SessionCache.SessionCache.Insert | src/daemon/gateway/jumpserver.rs:115-134 | the newest items, as many as fit below the maximum, stay in order, and the new one follows them; nothing more is evicted |
| SessionCache.SessionCache.Prune | src/daemon/gateway/jumpserver.rs:139-155 | drops exactly the items expired at the last clock reading, a prefix of the list, and rebuilds the index to match |
| SessionCache.SessionCache.Clear | src/daemon/gateway/jumpserver.rs:158-161 | the empty list |
| Pool.LocalConserves | src/daemon/connection_manager.rs:234-453 | a step that touches one key and one holder conserves permits if the balance there is kept |
| Pool.StepConserves | src/daemon/connection_manager.rs:234-519 | every lock region keeps, for every semaphore: available + idle + held = capacity |
| PoolLaw.RunConserves | src/daemon/connection_manager.rs:234-519 | that balance at every point of every interleaving, also for semaphores whose state was dropped and recreated |
| PoolLaw.CleanObeysLaw | src/daemon/connection_manager.rs:197-203 | per key: active + idle + available = capacity, corrected for holders between two lock regions |
| PoolLaw.StepClean | src/daemon/connection_manager.rs:234-519 | every step keeps counters and permits in agreement, except counting a permit in a state it did not come from |
| PoolLaw.UnmatchedBreaksLaw | src/daemon/connection_manager.rs:431-437 | that exception breaks the per-key law at once |
| PoolLaw.KeyLawIff | src/daemon/connection_manager.rs:234-519 | for every interleaving: the per-key law holds throughout if and only if each marking meets the state its permit came from |
| PoolLaw.OneAtATimeKeepsLaw | src/daemon/connection_manager.rs:244-290 | when a checkout takes handles, acquires and marks with nothing in between, the per-key law holds throughout |
| PoolLaw.RemovedOnlyWhenHome | src/daemon/connection_manager.rs:350-364 | while markings match, a key's state goes away only with all its permits home, but for those not yet counted |
| PoolLaw.RaceExceedsCapacity | src/daemon/connection_manager.rs:244-252 | a concrete interleaving with capacity 1 in which two callers create for one key at once |
| ManagedPools.ManagedPool.constructor | src/daemon/connection_manager.rs:225-232 | an empty pool with capacity at least one |
| ManagedPools.ManagedPool.CheckoutIdle | src/daemon/connection_manager.rs:408-421 | takes exactly the last idle entry and counts it, or changes nothing when there is none |
| ManagedPools.ManagedPool.PoolHandles | src/daemon/connection_manager.rs:423-429 | the key's semaphore, with a new full one for a key without state |
| ManagedPools.ManagedPool.TryAcquire | src/daemon/connection_manager.rs:249-252 | one permit fewer, or refused because none is left |
| ManagedPools.ManagedPool.MarkActive | src/daemon/connection_manager.rs:431-437 | counts in whatever state the key has now |
| ManagedPools.ManagedPool.AllocateGeneration | src/daemon/connection_manager.rs:455-460 | the next generation, saturating |
| ManagedPools.ManagedPool.RecordGeneration | src/daemon/connection_manager.rs:447-453 | the newest generation seen by the key's state |
| ManagedPools.ManagedPool.UnmarkActive | src/daemon/connection_manager.rs:439-445 | uncounts, saturating at zero |
| ManagedPools.ManagedPool.DropPermit | src/daemon/connection_manager.rs:268-272 | a failed create gives its permit back |
| ManagedPools.ManagedPool.ReturnHealthy | src/daemon/connection_manager.rs:292-315 | the lease becomes the newest idle entry, with its resource, generation and permit; other keys stay as they are |
| ManagedPools.ManagedPool.ReleasePermit | src/daemon/connection_manager.rs:350-352 | resource and permit go before the lock is taken |
| ManagedPools.ManagedPool.FinishRelease | src/daemon/connection_manager.rs:353-363 | uncounts and drops a state that is neither active nor idle; the same as lines 507-517 |
| ManagedPools.ManagedPool.CreateWith | src/daemon/connection_manager.rs:251-273 | a permit in hand ends as a lease or back in its semaphore |
| ManagedPools.ManagedPool.CheckoutOrCreateWith | src/daemon/connection_manager.rs:234-290 | one turn of the loop: the last idle entry if there is one, else a new lease, a failed create that leaves nothing held, or a wait with no permit left |
| ManagedPools.ManagedPool.InvalidateGeneration | src/daemon/connection_manager.rs:317-329 | the key's idle entries of other generations stay in order and all of that generation go; says whether there were any |
| ManagedPools.ManagedPool.Sweep | src/daemon/connection_manager.rs:331-348 | for every key, exactly the idle entries that are not due stay, in order; their permits return, a key stays iff it is active or still has idle entries, and the count is the number of entries that went; also lines 366-381 |
| ManagedPools.AnyKeyFirst | src/daemon/connection_manager.rs:337-345 | the order in which a sweep visits the keys does not matter |
| Singleton.ManagedSingleton.constructor | src/daemon/connection_manager.rs:67-73 | no entry, first generation 1 |
| Singleton.ManagedSingleton.AllocateGeneration | src/daemon/connection_manager.rs:172-177 | hands out the counter and advances it, saturating at the largest u64 |
| Singleton.ManagedSingleton.CheckoutOrInsertWith | src/daemon/connection_manager.rs:75-105 | lends the present entry, or installs a new one under a new generation |
| Singleton.ManagedSingleton.Invalidate | src/daemon/connection_manager.rs:107-117 | clears the slot only if it holds that generation |
| Singleton.ManagedSingleton.CheckoutByGeneration | src/daemon/connection_manager.rs:124-135 | lends only that generation |
| Singleton.ManagedSingleton.Prune | src/daemon/connection_manager.rs:137-149 | clears the slot only if nothing else refers to it and it idled too long |
| Singleton.ManagedSingleton.CloneOfLease | src/daemon/connection_manager.rs:58-65 | one more lease on the same resource and generation |
| Singleton.ManagedSingleton.Resource | src/daemon/connection_manager.rs:180-183 | a reference of its own, which may outlive the lease |
| Singleton.RunKeeps | src/daemon/connection_manager.rs:58-183 | over every run: reference counts are one per lease, one per reference taken from a lease, and one for the slot; the present generation was allocated before |
| Singleton.PruneSparesLeased | src/daemon/connection_manager.rs:137-149 | after every run, pruning clears the entry iff no lease on it and no reference taken from one is outstanding, and it idled too long |
| Singleton.GoneForever | src/daemon/connection_manager.rs:107-135 | once a generation below the maximum is gone, no run brings it back, and invalidating it late changes nothing |
| Singleton.ReturnsOnlyWhenSaturated | src/daemon/connection_manager.rs:172-177 | an invalidated generation stays gone under every run if and only if it is below the largest u64 |
| Singleton.GenerationsIncrease | src/daemon/connection_manager.rs:92-105 | installed generations strictly increase until they saturate |
| Calendar.YearStep | src/daemon/token_store.rs:190-192 | the closed count of days before a year grows by 365 or 366 as the leap rule of appendix C of RFC 3339 says |
| Calendar.CivilIsCorrect | src/daemon/token_store.rs:186-198 | every day number gives a real Gregorian date, and that date has this day number |
| Calendar.DatesAreUnique | src/daemon/token_store.rs:186-198 | no two dates share a day number |
| Calendar.CivilInvertsDayNumber | src/daemon/token_store.rs:186-198 | the algorithm inverts the calendar's own day count on every date |
| Calendar.NextDayIsTomorrow | src/daemon/token_store.rs:186-198 | successive day numbers are successive dates, across month and year ends |
| Calendar.EpochIsDayZero | src/daemon/token_store.rs:186-198 | day zero is 1970-01-01 |
| Tokens.TrimKeepsCore | src/daemon/token_store.rs:111-111 | trimming blanks, a core without blanks at its ends, and blanks gives exactly the core |
| Tokens.TokenStore.constructor | src/daemon/token_store.rs:58-60 | an empty store |
| Tokens.TokenStore.Generate | src/daemon/token_store.rs:64-82 | stores only digest, first eight characters, expiry and flags under the digest, nothing else changes, and returns the token |
| Tokens.TokenStore.Validate | src/daemon/token_store.rs:87-105 | accepts a known, unexpired and not yet consumed token; sweeps it when expired, marks it when one-time |
| Tokens.TokenStore.Invalidate | src/daemon/token_store.rs:109-133 | removes by the digest of the trimmed text, else every entry with that prefix; true iff anything changed |
| Tokens.TokenStore.List | src/daemon/token_store.rs:136-154 | sweeps the expired entries and lists exactly the others, each once, soonest expiry first |
| Tokens.StoreIsHistory | src/daemon/token_store.rs:64-154 | after every run the store holds exactly the tokens that the history says are in force, with the right consumed flags |
| Tokens.AcceptedIff | src/daemon/token_store.rs:87-105 | after every run under any clock: accepted iff some call issued that digest, nothing retired it since, it is not past expiry, and a one-time token was not presented since |
| Tokens.OneTimeTokenWinsOnce | src/daemon/token_store.rs:98-103 | of two presentations of a one-time token the second is always refused |
| Tokens.InvalidateByDigestIff | src/daemon/token_store.rs:107-133 | giving a stored token's digest removes the token iff that text is its own digest, or is no known digest and equals the token's prefix |
| Tokens.RealDigestIff | src/daemon/token_store.rs:107-133 | after any run, with digests of 64 characters: iff the digest is its own digest, so invalidation by full hash does not work |
| Tokens.DigestLeavesTokenAccepted | src/daemon/token_store.rs:107-133 | a concrete run: one token, invalidated by the digest it is listed under, is still accepted |
| Tokens.AcceptedWasIssued | src/daemon/token_store.rs:87-105 | with a collision-free digest, only texts that were issued are accepted |
| Quoting.QuotedIsOneWord | src/filepath.rs:537-543 | a quoted argument is read as exactly that one word, whatever it contains |
| Quoting.BuildRemoteCommand | src/daemon/shell.rs:16-25 | splits back to argv, for every argv |
| Quoting.BuildInteractiveShellCommand | src/daemon/shell.rs:29-42 | splits back to argv; the first word stays bare exactly when it is a safe word |
| Quoting.BasenameIs | src/filepath.rs:546-551 | what follows the last slash or backslash, the whole name when there is none or nothing follows it |
| Quoting.InteractiveFlags | src/filepath.rs:555-561 | `bash`, `BASH.EXE`, and `zsh` or `zsh.exe` in any directory are run with `-ic` |
| Quoting.WrapSplits | src/daemon/shell.rs:66-71 | reads as basename, flags and the inner command when the basename is a bare command word |
| Quoting.WrapSplitsIff | src/daemon/shell.rs:66-79 | every inner command survives wrapping if and only if the shell's basename is a bare command word: no blank, quote, backslash, operator, expansion or pattern in it, no `#` or `~` in front, not an assignment |
| Quoting.BlankInShellName | src/daemon/shell.rs:66-79 | a concrete loss: for the shell `/opt/my sh` every command comes out as the words `my`, `sh`, `-c` and the command |
| Quoting.BuildFinalCommand | src/daemon/shell.rs:83-96 | without a shell splits to argv; with one, to basename, flags and a text that splits to argv |
| Routing.SameNameSameRoute | src/daemon/resolver.rs:432-437 | rows with the same display name have the same route, so skipping repeats loses nothing |
| Routing.ResolveBareFromMergedView | src/daemon/resolver.rs:253-297 | the deduplicating loop: the first listed row decides; a row without a gateway name is an error |
| Routing.RowRoute | src/daemon/resolver.rs:449-476 | a row built by prefixing each hop routes to the first gateway with the rest of the way as its target |
| Routing.PeelOne | src/daemon/resolver.rs:479-503 | each daemon splits off exactly its own gateway, or nothing when only an alias that cannot be named is left |
| Routing.HopTakesGateway | src/daemon/mod.rs:195-244 | a daemon that knows the first gateway forwards the rest to it |
| Routing.GatewayByName | src/daemon/mod.rs:195-216 | a bare gateway name goes to that gateway's own host; `_self` is refused where no gateway has that name |
| Routing.ExplicitTargets | src/daemon/resolver.rs:194-246 | `gateway:alias` as it arrives at a daemon: for `local` its own server or an error, else routed iff the gateway is known |
| Routing.NotExplicit | src/daemon/resolver.rs:479-503 | a port, an IPv6 address, an empty half or no colon is not taken apart |
| Routing.ListedIsNotRefused | src/daemon/resolver.rs:223-245 | a listed target is never refused; an unlisted one is where its gateway reported a list, and is not where no source did |
| Routing.NearestSourceDecides | src/daemon/resolver.rs:402-413 | for a nested target the status of the innermost listed source decides, whatever the gateway reported |
| Routing.DeliveredIff | src/daemon/resolver.rs:112-191 | for every chain length: delivered through exactly these gateways as this alias iff there is nothing to peel or the alias is nameable |
| Routing.ListedRowIsReachable | src/daemon/resolver.rs:449-503 | a listed row's route reaches the row's own alias at the daemon that listed it, under the same exact condition |
| Routing.AliasMeansLocalServer | src/daemon/resolver.rs:112-191 | a bare alias means the daemon's own server iff it is no gateway name and not `_self`, the first row that carries it is an own one, and every such row has a route |
| Routing.RowReachesItsServer | src/daemon/resolver.rs:112-191 | from the list to the server, for every chain length: routed to the first gateway, carried by the daemons in between and resolved by the last one to its own server, iff the alias survives the way and names that server there |
| Resume.ReadSidecar | src/cli/copy.rs:54-70 | usable iff it names this target and remote path, is not at zero, and is exactly as long as the partial file; its contents are then used as they are |
| Resume.CopyDownloadWriter.constructor | src/cli/copy.rs:648-670 | nothing open, nothing applied |
| Resume.CopyDownloadWriter.Apply | src/cli/copy.rs:728-851 | each frame's effect on the files and the writer, and which frames are refused |
| Resume.CopyDownloadWriter.HandleFailure | src/cli/copy.rs:675-699 | with resume, keeps the partial file and writes a sidecar for exactly its length if anything was received; without, removes the unfinished file and only that |
| Resume.CopyDownloadWriter.Publish | src/cli/copy.rs:703-717 | the partial file becomes the destination and the sidecar goes; fails with nothing changed if there is none |
| Resume.BeginIsAccepted | src/cli/copy.rs:737-759 | in every reachable state the offset check accepts the first announcement of an honest daemon |
| Resume.RetryAcceptedIff | src/cli/copy.rs:742-759 | an announcement repeated after a stall, at the byte reached, is accepted iff that byte is zero or the one this transfer resumed from; accepted or not, the partial file is untouched |
| Resume.PlainRetryIff | src/cli/copy.rs:760-771 | a plain download announced a second time (src/daemon/gateway/jumpserver.rs:612-646), before or after the end of the file, is accepted to its end with only the bytes sent after that; it is the source iff nothing had arrived before |
| Resume.StepKeeps | src/cli/copy.rs:675-805 | every step of the protocol, with kills, retries, failed writes, lost tails and torn sidecars, keeps: a sidecar naming the current version vouches for the partial file |
| Resume.UsableSidecarIsRight | src/cli/copy.rs:54-70 | after any history: a usable sidecar for the current version describes exactly that prefix of it |
| Resume.ForeignSidecarStartsFresh | src/cli/copy.rs:54-70 | in every reachable state without a sidecar of this transfer, also with another transfer's: the download starts at byte zero with an empty partial file |
| Resume.OwnSidecarIsUsed | src/cli/copy.rs:54-70 | one of this transfer for the current version, as long as the partial file, is continued at its offset with the partial file untouched |
| Resume.CompletePublishesSource | src/cli/copy.rs:359-362 | after any history: a transfer that ends on Complete publishes exactly the current source |
| Resume.OnlyRenameTouchesDestination | src/cli/copy.rs:703-717 | nothing but publishing changes the destination in resume mode |
| Resume.FailureThenResume | src/cli/copy.rs:675-699 | a reported failure loses nothing: the next start of the same version continues at the same byte with the same partial file |
| Resume.PlainFailureLeavesNoPart | src/cli/copy.rs:675-699 | without resume: a failure between announcement and end of file leaves no destination, one before leaves the files alone, one after keeps the whole file |
| Resume.UnfinishedPublishIff | src/cli/copy.rs:343-362 | a transfer that stops without Complete still publishes; the result is the source if and only if all of it had arrived |
| Resume.UnbegunPublishIff | src/cli/copy.rs:343-362 | one that stops before its first frame publishes the leftover partial file, sidecar or not; after any history that is the source iff it has the source's length and the version it was copied from begins with the source (for the same version: iff the length is right) |
| Resume.SidecarPublishIff | src/cli/copy.rs:343-362 | over a usable sidecar for the current version: iff the recorded offset is the full size |
| Resume.EndingEarlyPublishesNothing | src/cli/copy.rs:343-362 | a concrete history for it: a stream that ends after its announcement replaces the destination by an empty file |
| Resume.DecliningPublishesPartial | src/cli/copy.rs:343-362 | a concrete history without any sidecar, covered by `UnbegunPublishIff`: declining the confirmation replaces the destination by one byte of a two-byte source |
| Resume.MethodsAreSteps | src/cli/copy.rs:675-717 | the writer's methods have the effect of the protocol's small steps taken together |
| Upload.PrefixHash | src/cli/copy.rs:93-113 | the digest of exactly the first bytes, none when the file is shorter, for every length |
| Upload.ProbeUploadResume | src/daemon/session/sftp_copy.rs:292-356 | reports size and digest of the whole partial file iff it is non-empty, not longer than the source, and can be opened and read to its end |
| Upload.ChooseSkip | src/cli/copy.rs:300-320 | the first entry for the name decides, entries for other names never do; a skip only on an equal digest of the local prefix, never past the file |
| Upload.SendFileFrom | src/cli/copy.rs:442-502 | a header with the full size and the offset, data frames that fit the buffer and carry exactly the rest, a trailer; refused past the end. With offset 0 it is lines 588-623 |
| Upload.SkipIff | src/cli/copy.rs:294-330 | under a collision-free digest: the client skips iff the partial file is readable and a non-empty prefix of its file, and then exactly that |
| Upload.UploadRebuildsFile | src/cli/copy.rs:294-330 | whatever the file, the partial file, the acknowledgement's other entries and the read sizes: the remote side ends up with the local file |
| Upload.ResumeUpload | src/cli/copy.rs:294-330 | probe, decision and stream carried out together |
| Secrets.FromReference | src/config/secret.rs:66-76 | rendering the classified value gives the text back |
| Secrets.ReferenceRoundTripIff | src/config/secret.rs:66-111 | classifying the rendered value gives the secret back, unless it is a literal that looks like a reference |
| Secrets.ResolvesWhere | src/config/secret.rs:116-137 | `env:`, `file:` and `vault:` values are looked up in their own place, anything else is itself |
| Secrets.TrimsLineEnds | src/config/secret.rs:128-134 | a secret file loses the line ends at its end and nothing else |
| Secrets.EntryNamesAreInjective | src/cli/secret.rs:234-306 | two places with the same vault entry name are the same place |
| Secrets.CollectServerSecrets | src/cli/secret.rs:227-242 | the plaintext fields of server.toml, in order, after what was found before; every password that is no `env:`, `file:` or `vault:` reference is among them under its own entry |
| Secrets.CollectConfigSecrets | src/cli/secret.rs:263-310 | the same for config.toml: API key, every header value, every gateway's password and non-empty one-time-code secret |
| Secrets.RewriteServerSecrets | src/cli/secret.rs:244-261 | each plaintext password becomes its reference |
| Secrets.RewriteConfigSecrets | src/cli/secret.rs:312-365 | each plaintext field becomes its reference |
| Secrets.RewritingMoves | src/cli/secret.rs:244-365 | field by field: a server password, API key, header value, gateway password or non-empty one-time-code secret that was no reference is now its own `vault:` reference, and every other one is as it was |
| Secrets.NothingToRewrite | src/cli/secret.rs:165-168 | when nothing is found, rewriting changes nothing |
| Secrets.SlotsFollow | src/cli/secret.rs:227-365 | collecting and rewriting see the same fields: a field is rewritten exactly when it is collected |
| Secrets.NothingElseChanges | src/cli/secret.rs:244-365 | with the secret texts blanked, a document and its rewriting are equal |
| Vaults.Vault.Get | src/secret/vault.rs:128-156 | the decrypted text, none for an unknown entry or another identity |
| Vaults.Vault.Set | src/secret/vault.rs:160-176 | stores a text that opens to itself, leaves other entries alone, refuses another identity |
| Vaults.Vault.Rekey | src/secret/vault.rs:181-198 | succeeds iff every entry opens and the new identity loads; then every entry opens to the same text under the new one |
| Encrypt.ReadersFindTheKeyIff | src/config.rs:180-195 | every reader derives the key that encrypting used, whatever fallback it passes, iff a key source is set or remote access is enabled |
| Encrypt.StoreFound | src/cli/secret.rs:182-184 | the vault then reads as before with each found text stored in order |
| Encrypt.EncryptSecrets | src/cli/secret.rs:143-206 | the whole command, with any of its three file replacements failing: nothing changes on a dry pass or without findings; the vault is saved before either document, and only success replaces both; success is characterised exactly; after a success that is not dry every plaintext field is its own `vault:` reference, and after a save under unique names the vault holds every one of them |
| Encrypt.SavedHoldsAll | src/cli/secret.rs:182-184 | with unique names, storing what was found leaves every plaintext field of both documents in the vault under its own entry |
| Encrypt.MeaningKeptIff | src/cli/secret.rs:182-195 | every rewritten field resolves to its old plaintext iff no two different plaintexts share an entry |
| Encrypt.UniqueNamesAgree | src/cli/secret.rs:287-309 | unique aliases, headers and gateway names are enough for that |
| Encrypt.SameGatewayNameDisagrees | src/cli/secret.rs:290-290 | a concrete loss: two gateways without a name share an entry |
| Encrypt.OldReferenceKeptIff | src/cli/secret.rs:182-184 | a reference that was there before reads the same iff its entry was not overwritten with another text |
| Encrypt.CrossedReferenceClashes | src/cli/secret.rs:182-184 | a concrete clash: a reference to the entry that another gateway's plaintext overwrites |
| Encrypt.TokenReferenceClashes | src/daemon/ssh_server.rs:325-328 | a concrete clash outside the visited fields: a bootstrap token that refers to the entry the API key overwrites |
| Encrypt.EncryptKeepsMeaning | src/cli/secret.rs:143-206 | the promise as a whole: unique names, and a key source or remote access; then whatever the command leaves on disk, every value that is read as a secret means to every reader what it meant before, also references, the bootstrap token and inline tables that the command passes over, iff none names an entry overwritten with another text |
| Encrypt.SecondRunFindsNothing | src/cli/secret.rs:165-168 | after rewriting, collecting finds nothing; field by field this is `RewritingMoves` |

## Left out

- Terminal, SSH, gRPC and socket handling, progress output, logging, audit, review and policy: input, output or single branches.
- Plain-mode completion by prompt guessing, asset navigation and table parsing: they depend on what the bastion prints.
- Pool.StepConserves: safety only. Waiting, wake-ups, fairness and cancelled callers are not modelled.
- ManagedPools.ManagedPool.CheckoutOrCreateWith: one turn of the loop with no other caller in between; interleavings are in `PoolLaw`. Entries to prune are named by a set, since liveness and age are the environment's.
- SessionCache.SessionCache.Insert: requires a maximum other than zero, because the loop does not end otherwise (`EvictionEndsIff`). Identifiers and clock readings are unbounded.
- Base64.B64Decoder.Finish: checks the count only, as the code does; characters left in an unfinished quad are not looked at. Shifts and ors are written as arithmetic.
- Calendar.CivilIsCorrect: over all integers; overflow of 64-bit day numbers is not modelled, nor is the text format around it.
- Sentinel.FindSentinel: exit codes beyond 32 bits read as 0, as in the code; negative codes are not part of the grammar.
- Routing.ResolveBareFromMergedView: the route only. The warning that lists the other candidates is not modelled.
- Routing.HopTakesGateway: lookups by host, by derived address and through `ssh.fallback` appear as one outcome, `Legacy`.
- Quoting.BuildFinalCommand: the choice of shell, and what other shells than a POSIX one do with the text, are not modelled.
- Quoting.BuildInteractiveShellCommand: words only. A bare first word may still be an alias, as intended, or a reserved word (section 2.4 of the POSIX Shell Command Language); neither is modelled.
- Quoting.WrapSplitsIff: words only, as above: `!`, `{` and `if` are words here, though in first place section 2.4 takes them as reserved. A word with `*`, `?` or a closed bracket counts as changed, since the files present decide whether it is; `$` counts as changed wherever it stands.
- Tokens.TokenStore.Generate: the token is a parameter; the length and randomness of tokens are not modelled. Overflow of the expiry time is not modelled.
- Resume.CopyDownloadWriter.Apply: single-file transfers. Directories, symbolic links, permissions and path resolution are not modelled; a directory frame is refused as in a non-recursive copy.
- Resume.StepKeeps: no other transfer writes to the destination's files meanwhile, though one may have left a sidecar and a partial file there; and a source that is only replaced between runs by a version with a size and modification time never seen before.
- Resume.RetryAcceptedIff: allows a second announcement at any time after the first. In the program the daemon's relay stops at the end-of-stream frame, so one that comes later does not reach the client.
- Resume.CompletePublishesSource: the daemon is taken to send Complete only after it sent the whole source; over SFTP it sends what it reads, without comparing the length.
- Upload.UploadRebuildsFile: the local file does not change during the exchange. The local resume sidecar of an upload is written and removed but never decides anything, so it is not modelled.
- Vaults.Vault.Set: salts and nonces are arbitrary texts; their base64 form, the file format and its version are not modelled.
- Encrypt.EncryptSecrets: documents are their secret fields plus text; comments and layout, backups and tilde expansion are not modelled. Each file is replaced whole or not at all. A configuration that does not load is replaced by the default one for finding the vault and its key (src/cli/secret.rs:35-37) while its file is still rewritten; that is not modelled, and it is how gateways with one name, which loading rejects, reach the command.
- Recursive copies, path normalisation, remote path parsing, configuration validation: they would add many easy members.
