# Rustango: a verified model of its hardest parts

This project models seven components of the rustango web framework in Dafny and proves what
they promise, for all inputs and all runs.

1. **Per-account lockout** (`Lockout*.dfy`). Each call is a program whose steps are single cache
   operations (`get`, `add`, `incr`, `decr`, `set`, `delete`, `exists`); any number of calls
   interleave, and keys may expire or be evicted at any point. `LockoutMachine` is the protocol,
   `LockoutBounds` the invariant of every run, `LockoutRuns` the runs without expiry or clear,
   `LockoutReports` the count of failure reports along a run, `LockoutCalls` whole calls taken one at
   a time (derived from the same steps), `LockoutKeys` what each leaves key by key, `LockoutClock`
   the tracker as a class on a cache with expiries, for both TTL behaviours of `incr`.
2. **Whole-page cache** (`Page*.dfy`, `QueryKeys.dfy`, `NonceSwap.dfy`, `NoncePolicy.dfy`). Key text, query modes,
   frame codec, nonce swapping, the `Vary` rule of section 4.1 of RFC 9111, and the layer as a
   state machine: requests of several processes sharing one cache, handlers that answer whenever
   they like, late stores, invalidations and evictions, in any order.
3. **Audited bulk writes** (`Audit*.dfy`). Keyset and pinned pages, update and delete inside one
   transaction, and the two-pass upsert, on a table keyed by its primary key.
4. **Edit distance** (`EditDistance.dfy`): the one-row loop against edit scripts.
5. **Printed command** (`Shell*.dfy`, `New*.dfy`): wizard, printer, shell quoting as section 2.2
   of the Shell Command Language in POSIX.1-2017 has it, and the flag parser.
6. **Query redaction** (`RedactQuery.dfy`): the two-phase pass against split, map and join.
7. **Capped body** (`CappedBody.dfy`): the stream reader that loses no byte.

`Pieces.dfy` and `Options.dfy` hold bytes, splitting and joining, and the option type. Code that
changes things step by step is a class or a method with loops, proved against functions; those
functions carry the lemmas. `dafny verify dfyconfig.toml` checks everything.

## What turned out otherwise than documented

- **One failure can lock an account.** `record_failure` turns a negative counter into the largest
  `u32`. With an attempts counter evicted and two releases undoing at once, a single failure locks
  at any limit (`LockoutRuns.OneFailureLocks`); that takes at least two pending undo steps, and
  with fewer it locks exactly on the count (`LockoutRuns.RecordLocksOnCount`).
- **A lock does not always restart its id.** The clear drops the counters of the window that is open
  at that time. The id whose reports reached the limit restarts exactly when it is that window
  (`LockoutReports.ReportRestartsIff`); `LockoutReports.OneReportLocksAgain` is a run, for every limit,
  in which it is not, and a single leftover report locks again.
- **A refused `reserve_sole` can count.** It is said to count nothing; on a counter that reads below 0,
  as one can while releases undo, its own undo step leaves it one higher (`LockoutKeys.SoleKeys`).
- **A paged update is not always the one-statement update.** `is_row_local` looks at the WHERE only,
  but a SET value may be a subquery, and a second page then reads what the first one wrote. For a
  fixed table and set of rows, all SET lists agree with the one statement exactly when the rows fit
  one page (`AuditChunks.AnySetIffOnePage`, with the SET that differs in
  `AuditChunks.TwoPagesDiffer`, a `MAX` subquery over a column whose NULLs count as 0); a SET over the
  row's own columns always agrees.
- **The wizard prints before it validates.** A name or feature given with `-i` goes into the printed
  command as it is. A name with a space is read back as two words (`NewWizard.SpacedNameIsRefused`), a
  feature with a `;` ends the command (`NewWizard.SpecialFeatureIsPrinted`). The printed command gives
  the wizard's choice back exactly when a shell takes the name as it is, which it also does with names
  like `café` (`NewWizard.UnusualName`), and the template has the features
  (`NewWizard.WizardPrintsBackIff`).
- **A `Host` that cannot be read shares a key with no `Host`** (`PageLayer.UnreadableHostShares`), so
  the page cache agrees with handlers that read the effective host; with one readable `Host` in each
  request the raw header agrees too (`PageLayer.KeyCoversHost`).
- **A foreign nonce can be stored.** The check for one comes after the visitor's nonce is swapped out.
  When that nonce reaches into the word `nonce-` of the other source, the word is gone by then
  (`NoncePolicy.OverlappingNonceIsStored`); `NoncePolicy.ForeignNonceIff` is the exact condition.
- The page cache's module text calls vary values case-insensitive; the code compares them as sent,
  and so does the model. A missing header and one empty value share a key, as the text says
  (`PageLayer.SameVaryValueIff`).
- **A handler that itself sends `x-rustango-cached-nonce`** has it taken for the layer's mark and
  dropped: a hit agrees with its miss exactly when the page carried none (`PageRuns.HitIsMiss`,
  `PageNonce.PlainThroughStore`).

## Model

| member | source | states |
|---|---|---|
| `LockoutBounds.SlotsBounded` | crates/rustango/src/account_lockout.rs:228-379 | In every interleaving of single cache operations by any calls, with clears, expiries and evictions, slots of one window not given back never exceed `max_attempts`, from its opening until its counter goes away with no lock standing since. |
| `LockoutRuns.QuietRunsBounded` | crates/rustango/src/account_lockout.rs:228-302 | Without expiry, explicit clear or success report, the slots out over all windows together never exceed `max_attempts`, through the lock and the clear racing it. |
| `LockoutBounds.CountersNotNegative` | crates/rustango/src/account_lockout.rs:316-332 | On every interleaving, counter plus pending undo steps is at least 0, so no attempts counter is negative once no call is in progress. |
| `LockoutBounds.LockNeedsReports` | crates/rustango/src/account_lockout.rs:279-302 | On every interleaving, a report sets the lock only after `max_attempts` failure reports carried one window id. |
| `LockoutBounds.EventInv` | crates/rustango/src/account_lockout.rs:228-379 | Every event of any session, and every eviction, keeps the invariant the bounds rest on. |
| `LockoutRuns.RecordLocksOnCount` | crates/rustango/src/account_lockout.rs:173-220 | In every run `record_failure` asks for the lock exactly when its count reaches the limit or the counter is below -1, which takes two pending undo steps. |
| `LockoutRuns.OneFailureLocks` | crates/rustango/src/account_lockout.rs:173-220 | A run, for every limit of two or more, in which a single recorded failure locks. |
| `LockoutCalls.FinishReserve` | crates/rustango/src/account_lockout.rs:228-258 | The operations of `reserve` run alone count the attempt and grant a slot, or leave the count as it was and grant none when full; nothing when locked. |
| `LockoutCalls.FinishFail` | crates/rustango/src/account_lockout.rs:279-302 | The operations of `reserved_failed` run alone, for a slot with a window id or without one (then counted in the open window, opened if need be), count the failure and, at the limit, lock and drop the open window with its counters. |
| `LockoutCalls.FinishRecord` | crates/rustango/src/account_lockout.rs:173-220 | The operations of `record_failure` run alone: the keys they leave and the count returned, converted to `u32` as in the source; while locked nothing changes and the limit is returned. |
| `LockoutCalls.FinishSucceed` | crates/rustango/src/account_lockout.rs:306-341 | The operations of `reserved_succeeded` run alone clear the window if it has failures and otherwise give the slot back, never below 0. |
| `LockoutCalls.MaxFailuresLock` | crates/rustango/src/account_lockout.rs:228-302 | One at a time, fewer than `max_attempts` failed attempts leave the account open with all counted, the `max_attempts`-th locks and drops the counters, and later ones leave no trace. |
| `LockoutKeys.SoleKeys` | crates/rustango/src/account_lockout.rs:259-275 | The operations of `reserve_sole` run alone, key by key: a slot exactly when the account is not locked and the window's counter reads 0, left at 1; otherwise no slot and the counter as it was, or one higher if it read below 0. |
| `LockoutKeys.SoleCountsAlone` | crates/rustango/src/account_lockout.rs:259-275 | In every run a sole attempt goes on to its slot exactly when the counter read 0; in a window whose counter never went away, exactly when nobody else is counted in it. |
| `LockoutKeys.ReserveKeys` | crates/rustango/src/account_lockout.rs:228-258 | `reserve` alone, key by key: one more and a slot below the limit, the count as it was and none at the limit, nothing at all while locked. |
| `LockoutKeys.FailedKeys` | crates/rustango/src/account_lockout.rs:279-302 | `reserved_failed` alone, key by key: one more failure under the slot's id or the open window's; at the limit the lock, and the open window gone with both its counters. |
| `LockoutKeys.RecordKeys` | crates/rustango/src/account_lockout.rs:173-220 | `record_failure` alone, key by key, and the count returned. |
| `LockoutKeys.SucceededKeys` | crates/rustango/src/account_lockout.rs:306-341 | `reserved_succeeded` alone, key by key: a window with a failure is gone with both its counters; otherwise only the slot's own counter goes down by one, if it is above 0. |
| `LockoutKeys.ReleasedKeys` | crates/rustango/src/account_lockout.rs:316-332 | `release` alone: only the slot's own counter, down by one if it is above 0. |
| `LockoutKeys.ClearKeys` | crates/rustango/src/account_lockout.rs:367-388 | `clear` alone: the window, both its counters and the lock are gone, and nothing else. |
| `LockoutKeys.LostRaceJoins` | crates/rustango/src/account_lockout.rs:452-472 | A call that finds the window opened by another in the meantime goes on in that window. |
| `LockoutKeys.NoWindowTwice` | crates/rustango/src/account_lockout.rs:228-240 | A call that loses that race and finds the window gone twice over is without one: only `reserve` goes on, with an uncounted slot. |
| `LockoutReports.ReportLocksIff` | crates/rustango/src/account_lockout.rs:279-302 | On every interleaving, a report goes on to set the lock exactly when the reports of its id since the id's failures counter last went away, this one included, reach `max_attempts`. |
| `LockoutReports.CounterIsReports` | crates/rustango/src/account_lockout.rs:279-302 | In every run the failures counter of an id is the number of its reports since the counter was last cleared, evicted or expired. |
| `LockoutReports.EvictionRestarts` | crates/rustango/src/account_lockout.rs:279-302 | An expiry or eviction of an id's failures counter restarts the count of its reports, and of no other's. |
| `LockoutReports.ReportRestartsIff` | crates/rustango/src/account_lockout.rs:279-379 | After any run, a report whose call meets no interference locks exactly at that number, leaves no window open, and restarts the count of its id from zero exactly when that id was the open window's; otherwise the count goes on. |
| `LockoutReports.OneReportLocksAgain` | crates/rustango/src/account_lockout.rs:279-379 | For every limit, a run that ends locked with all reports of a window still counted, in which one more report of that window locks again once the lock ends. |
| `LockoutReports.NewWindowStartsFromZero` | crates/rustango/src/account_lockout.rs:452-472 | In every run, a window opened at a new time starts with both counters at zero. |
| `LockoutClock.Lockout.RecordFailure` | crates/rustango/src/account_lockout.rs:173-220 | On a clock with expiries, the call does to the live keys what the untimed call does; it locks only if `max_attempts` counted attempts fell inside one interval of length `counter_ttl`, for exactly the lock duration. `Valid()` keeps every counter's expiry within its window, or 1 ms past its last write. |
| `LockoutClock.Lockout.Reserve` | crates/rustango/src/account_lockout.rs:228-258 | The live keys and the slot are those of the untimed `reserve`, for both TTL behaviours of `incr`; the lock is as it was. |
| `LockoutClock.Lockout.ReservedFailed` | crates/rustango/src/account_lockout.rs:279-302 | The live keys are those of the untimed report, for a slot with or without a window id; a lock it sets lasts exactly the lock duration. |
| `LockoutClock.Lockout.ReservedSucceeded` | crates/rustango/src/account_lockout.rs:306-341 | The live keys are those of the untimed report; a lock is never lifted. |
| `LockoutClock.Lockout.Clear` | crates/rustango/src/account_lockout.rs:367-388 | The window, its counters and the lock are gone, and nothing else. |
| `LockoutClock.Lockout.WindowLeft` | crates/rustango/src/account_lockout.rs:475-484 | A counter's TTL ends with its window, neither before nor after, or is one millisecond. |
| `LockoutClock.Lockout.RecordAll` | crates/rustango/src/account_lockout.rs:173-220 | Failures at any times within one window's length of the first add up: fewer than `max_attempts` leave the account open with all counted, the `max_attempts`-th locks it for the lock duration from then on. |
| `LockoutClock.Lockout.TimeKeeps` | crates/rustango/src/account_lockout.rs:452-484 | Time passing inside a window drops neither it nor its counters. |
| `LockoutClock.BumpTtl` | crates/rustango/src/account_lockout.rs:434-443 | The two TTL behaviours of `incr`: every call sets it anew, or only the one that makes the key. |
| `LockoutClock.Lockout.Decrement` | crates/rustango/src/account_lockout.rs:325-332 | One off the counter, never below 0. |
| `LockoutClock.TimeDrops` | crates/rustango/src/account_lockout.rs:452-484 | Time passing only drops keys, as the evictions of the interleavings do. |
| `LockoutClock.LessenedLive` | crates/rustango/src/account_lockout.rs:325-332 | `decr` and the undoing `incr` together take one off a live counter and never leave it below 0, whichever way `incr` treats a TTL. |
| `PageKeys.SameKeyIffSameParts` | crates/rustango/src/cache_page.rs:911-945 | Two requests to one layer get the same key text exactly when method, path, keyed query, host, namespace, every vary value, body digest and generation agree, whatever separators the values hold. |
| `PageKeys.KeyIsNotCounter` | crates/rustango/src/cache_page.rs:880-891 | No page key text is a generation counter's. |
| `PageKeys.SameCounterIffSamePage` | crates/rustango/src/cache_page.rs:880-891 | Two counters are one exactly when path, host and tenant agree. |
| `PageKeys.SpaceKeysInjective` | crates/rustango/src/cache/keyspace.rs:56-88 | No two key spaces meet, and within one no two names do. |
| `PageKeys.BuildKey` | crates/rustango/src/cache_page.rs:911-945 | Writing part after part gives the key text of all parts. |
| `PageKeys.WriteLp` | crates/rustango/src/cache_page.rs:1004-1007 | Appends one more length-prefixed part to the list written so far. |
| `QueryKeys.SameQueryKeyIff` | crates/rustango/src/cache_page.rs:166-191 | Under `query_keys` two queries give the same text exactly when, for every listed name, their raw pairs of that decoded name are the same in the same order. |
| `QueryKeys.SameQueryIff` | crates/rustango/src/cache_page.rs:157-191 | In every query mode: two queries share a key text exactly when they are equal (raw, the default), when their pairs of each listed name are (`query_keys`), or always (ignored). |
| `QueryKeys.PairsOfTwo` | crates/rustango/src/cache_page.rs:171-178 | `&` separates pairs wherever it stands. |
| `QueryKeys.PairOfValue` | crates/rustango/src/cache_page.rs:171-178 | `k=v` is a pair of the decoded name `k`, whatever the value holds. |
| `QueryKeys.PairOfName` | crates/rustango/src/cache_page.rs:171-178 | A pair without `=` is all name, and an empty one is none. |
| `PageFrame.DecodeOfEncode` | crates/rustango/src/cache_page.rs:1038-1096 | Decoding an encoded page gives back its status, its headers in order without `x-cache-status`, and its body. |
| `PageFrame.CutIsTruncated` | crates/rustango/src/cache_page.rs:1056-1096 | Every cut inside the header block of a valid frame is refused as truncated. |
| `PageFrame.DecodedIsValid` | crates/rustango/src/cache_page.rs:1056-1096 | Whatever byte string is decoded, the result is a valid page, and encoding and decoding it again gives the same page without `x-cache-status`. |
| `PageFrame.EncodeFrame` | crates/rustango/src/cache_page.rs:1038-1053 | The loop writes the frame, or gives up when a length overflows `u32`. |
| `PageFrame.DecodeFrame` | crates/rustango/src/cache_page.rs:1056-1096 | The loop reads what the frame holds, every part bounds-checked, or the first error. |
| `NonceSwap.ReplaceBytes` | crates/rustango/src/cache_page.rs:747-768 | The scan replaces every leftmost non-overlapping occurrence; `None` exactly when there is none. |
| `NonceSwap.SwapBack` | crates/rustango/src/cache_page.rs:747-768 | Replacing and replacing back is replacing directly when the token can be told from the text around it. |
| `NonceSwap.ThroughToken` | crates/rustango/src/cache_page.rs:731-768 | Through the stored token and back equals replacing the first nonce by the second, whenever the token's hex part is not in the text. |
| `PageNonce.NonceThroughStore` | crates/rustango/src/cache_page.rs:1099-1164 | A page stored for one visitor and opened for another has the same status, and the first nonce replaced by the second in the body and every value of every header but content-length; without a nonce it is not opened. |
| `PageNonce.PlainThroughStore` | crates/rustango/src/cache_page.rs:1128-1164 | A page its visitor's nonce is not in is stored as it is, and opened as it is for any visitor exactly when it carried no mark header of its own. |
| `NoncePolicy.ForeignNonceIff` | crates/rustango/src/cache_page.rs:1119-1155 | For every page and every minted nonce, the page is kept out of the cache exactly when it holds the layer's token or a space-separated token of one of its policies names, in any case, a nonce that is neither the placeholder nor the visitor's own, and the visitor's nonce does not reach into the word `nonce-` there. |
| `NoncePolicy.ForeignNonceNotStored` | crates/rustango/src/cache_page.rs:1133-1155 | So a quoted source naming another nonce, into whose `nonce-` the visitor's does not reach, keeps its page out, whatever else page and policy hold, the visitor's nonce included. |
| `NoncePolicy.OverlappingNonceIsStored` | crates/rustango/src/cache_page.rs:1119-1155 | The page whose policy is `'nonce-x'` is stored for a visitor whose nonce is `-x`. |
| `NoncePolicy.TokensForeign` | crates/rustango/src/cache_page.rs:1133-1155 | A policy names a foreign nonce exactly when one of its space-separated tokens does. |
| `NoncePolicy.PiecesReplaced` | crates/rustango/src/cache_page.rs:747-768 | Replacing a text that holds no separator by another such text is replacing it in each piece between the separators. |
| `PageNonce.SwapPage` | crates/rustango/src/cache_page.rs:1107-1124 | The loop swaps the body and every value that stays a header value, drops the length of a changed body, and reports whether anything changed. |
| `PageNonce.StoredMarked` | crates/rustango/src/cache_page.rs:1128-1155 | A page holding its visitor's nonce is stored with that text replaced and exactly one mark, the token's, whatever marks it had, and stays a valid page. |
| `PageNonce.OpenedHasNoMark` | crates/rustango/src/cache_page.rs:1159-1164 | No page is opened with a mark on it. |
| `PageLayer.SameKeyIff` | crates/rustango/src/cache_page.rs:834-859 | Two cached requests share a key exactly when they agree on verb, path, the part of the query the mode keys on (all of it, the pairs of each listed name, or nothing), effective host, tenant, every vary header and the QUERY body, and read the same generation. |
| `PageLayer.SameVaryValueIff` | crates/rustango/src/cache_page.rs:864-873 | Joined values are equal exactly when the value lists are, a missing header counting as one empty value. |
| `PageLayer.JoinValues` | crates/rustango/src/cache_page.rs:864-873 | The loop joins every value with newlines, or refuses when one cannot be read. |
| `PageLayer.KeyCoversVary` | crates/rustango/src/cache_page.rs:969-988 | Requests that share a key agree on every header but `Host` that a storable page's `Vary` names, credentials included; on `Host` they agree as the key reads it. |
| `PageLayer.KeyCoversHost` | crates/rustango/src/cache_page.rs:815-830 | Requests with one readable `Host` each that share a key agree on the raw header too. |
| `PageLayer.UnreadableHostShares` | crates/rustango/src/cache_page.rs:815-830 | A `Host` that cannot be read and no `Host` at all share a key. |
| `PageLayer.HostPart` | crates/rustango/src/cache_page.rs:815-830 | The host part is the first `Host` header if it can be read, else the authority, else empty. |
| `PageLayer.AuthoritiesApart` | crates/rustango/src/cache_page.rs:815-830 | Requests without a `Host` header that share a key name one authority. |
| `PageLayer.VaryTokensIff` | crates/rustango/src/cache_page.rs:969-988 | A name is among a page's `Vary` tokens exactly when it stands between commas, blanks aside, in one of its raw `Vary` values; a value that is not text names `*`. |
| `PageLists.ElementsIff` | crates/rustango/src/cache_page.rs:969-988 | The elements of a list header are the stretches between commas of every value, without the blanks around and without empty ones. |
| `PageLayer.LabelsKeepAlike` | crates/rustango/src/cache_page.rs:1011-1031 | The labels of a hit and of a miss keep two pages alike in every name but `x-cache-status`. |
| `PageLayer.LabelsSay` | crates/rustango/src/cache_page.rs:1011-1031 | Every labelled reply names its origin once whatever the handler sent, lists in `Vary` what the handler did and then every header the cache keys on, and for a QUERY has one `Cache-Control` that starts with `private`. |
| `PageLayer.VaryTextReads` | crates/rustango/src/cache_page.rs:1011-1031 | The `Vary` value a reply is given reads as `host` and every header the layer varies on, in order. |
| `PageLayer.PrivateReads` | crates/rustango/src/vary.rs:51-69 | The `Cache-Control` of a QUERY's answer reads as `private` and then what the handler said besides `public` and `private`. |
| `PageRuns.HitIsMiss` | crates/rustango/src/cache_page.rs:526-718 | In every run, if answers are determined by the keyed parts and the headers their own `Vary` names, every hit has the status, body and headers of the miss the handler would give that request, but for `x-cache-status` (and content-length when the page shows a nonce), exactly when the page it came from carried no `x-rustango-cached-nonce` of its own. |
| `PageRuns.NeverShared` | crates/rustango/src/cache_page.rs:543-648 | In every run a request with a credential header is neither answered from the cache nor the source of an entry, and neither is a page that sets a cookie, opts out of shared caching or is not a 200. |
| `PageRuns.RunKeeps` | crates/rustango/src/cache_page.rs:526-718 | In every run each entry and each hit is a page its writer's handler returned, stored under the reader's own key; a miss is sent with the status, body and headers of the handler's page, labels aside, and any other page is passed on as it is, or marked `BYPASS`. |
| `PageSent.EveryReply` | crates/rustango/src/cache_page.rs:526-718 | In every run: only GET and an opted-in QUERY without credentials are answered from the cache or stored in it. A session's page is the one its handler answered with in the run; it is kept exactly when it is a 200 that sets no cookie and does not opt out, names in `Vary` only what is keyed, is no larger than a mebibyte and shows no other nonce. A miss sends that page: same status, body and values of every header but `x-cache-status`, which is one `MISS`, `vary` and, for a QUERY, `cache-control`; a page passed on is that page, with `BYPASS` exactly when the layer would have kept it but could not. |
| `PageSent.EveryStart` | crates/rustango/src/cache_page.rs:531-625 | A request the cache may answer looks its page up and is a hit or runs to be kept; any other goes to the handler and nothing more. |
| `PageInvalidation.InvalidationHolds` | crates/rustango/src/cache_page.rs:376-408 | A request that reads its generation after an invalidation of its path is never answered from an entry whose own request had read its generation before, for every query, header value and verb, however late the entry was stored. |
| `PageInvalidation.StoredIsServed` | crates/rustango/src/cache_page.rs:526-718 | Once a page is stored, the next request with its key at the same generation is a hit from it when it can be given the page (it has a nonce if the page shows one, and a readable mark if the handler sent one), and goes to the handler otherwise. |
| `PageInvalidation.ApplyRises` | crates/rustango/src/cache_page.rs:376-408 | No event lowers a generation counter. |
| `PageVisits.GenerationIsBumps` | crates/rustango/src/cache_page.rs:893-900 | In every run, the generation a request reads is the number of invalidations of its path for its host and tenant so far, 0 when it was never invalidated; nothing stored, evicted or asked for changes it. |
| `PageVisits.Answered` | crates/rustango/src/cache_page.rs:526-718 | In every state of every run, a request in the layer comes to its reply by at most four events of its own, whatever its handler answers. |
| `PageVisits.SecondVisit` | crates/rustango/src/cache_page.rs:526-718 | A whole run: a first visit misses and its page is stored; the next request with its key is a hit from it when it can be given the page and goes to the handler otherwise. |
| `PageVisits.DroppedMisses` | crates/rustango/src/cache_page.rs:402-406 | A stored entry may go at any time, and the next request for it then misses. |
| `AuditWhere.RowLocalAlone` | crates/rustango/src/audit.rs:1575-1584 | If the syntax test passes, whether a row matches cannot depend on any other row. |
| `AuditWhere.RowLocalIff` | crates/rustango/src/audit.rs:1575-1584 | The syntax test passes exactly when no leaf anywhere in the tree is a column comparison or a query. |
| `AuditWhere.AndSelects` | crates/rustango/src/core/query.rs:244-263 | AND selects a row exactly when every part does, and rules one out when some part does. |
| `AuditWhere.OrSelects` | crates/rustango/src/core/query.rs:244-263 | OR selects a row exactly when some part does, and rules one out when every part does. |
| `AuditWhere.XorSelects` | crates/rustango/src/core/query.rs:257-263 | XOR of two selects a row exactly one of them selects. |
| `AuditPages.PageRest` | crates/rustango/src/audit.rs:1628-1667 | After a page's rows are written in any way, the keys past its last one are exactly the rest of the keys that matched. |
| `AuditPages.Pages.Next` | crates/rustango/src/audit.rs:1611-1667 | A page is the first keys still to come, and whatever is then written to those rows the others are still to come, for keyset and pinned sets alike. |
| `AuditWrites.UpdateMany` | crates/rustango/src/audit.rs:1745-1797 | Exactly the rows that matched before the call are written, each once, with exactly one entry each showing the row afterwards. If the SET reads only the row or one page holds all rows, every column of those rows holds what its last assignment gives on the table before the call, a column none names is as it was, and so is every other row. Refused without a key or when it sets the key. |
| `AuditChunks.ChunkedIsAtOnce` | crates/rustango/src/audit.rs:1745-1797 | Page by page equals at once for every SET over the row's own columns. |
| `AuditChunks.AnySetIffOnePage` | crates/rustango/src/audit.rs:1745-1797 | Page by page equals at once for all SET lists exactly when the rows fit one page. |
| `AuditChunks.TwoPagesDiffer` | crates/rustango/src/audit.rs:1745-1797 | With more rows than a page, `SET n = (SELECT MAX(COALESCE(n, 0)) …) + 1` gives the second page a greater number than at once. |
| `AuditWrites.DeleteEach` | crates/rustango/src/audit.rs:1700-1737 | The queries delete what they would as single statements one after another; every row gone is recorded exactly once, as it was; without a key it fails exactly when a query is row-local or finds a row, and then nothing changes. |
| `AuditColumns.DeletedIff` | crates/rustango/src/audit.rs:1700-1737 | Row-local queries delete exactly the rows one of them selects, and leave the others as they were. |
| `AuditColumns.DeletedInTurn` | crates/rustango/src/audit.rs:1700-1737 | Of any queries, each finds what the earlier ones left. |
| `AuditPages.Tx.Emit` | crates/rustango/src/audit.rs:1516-1526 | The entries are written in order, batch after batch. |
| `AuditUpsert.PassesAreOneByOne` | crates/rustango/src/audit.rs:2308-2332 | Inserting what does not conflict and then rewriting the skipped rows in order leaves the table of upserting row after row, generated keys included. |
| `AuditColumns.UpsertedColumns` | crates/rustango/src/audit.rs:2276-2348 | Column by column, a row of the table is left with the update columns of the batch's last row for its key and its own otherwise, and as it was if the batch has none. |
| `AuditColumns.NewRowColumns` | crates/rustango/src/audit.rs:2276-2348 | The batch's first row for a key the table does not have becomes a new row, with the update columns of the last one for that key and its own otherwise; itself if it is the only one. |
| `AuditUpsert.KeepLastRewrites` | crates/rustango/src/core/query.rs:1447-1493 | Keeping only the last row of each conflict key does what all of them in order would. |
| `AuditUpsert.SkippedIff` | crates/rustango/src/audit.rs:2308-2323 | A key goes to the second pass exactly when the batch has it once and the table has it already, or twice. |
| `AuditBulkInsert.KeepRows` | crates/rustango/src/core/query.rs:1474-1493 | The backward scan keeps exactly the last row of each key. |
| `AuditBulkInsert.FirstPass` | crates/rustango/src/audit.rs:2308-2323 | The keys created are exactly those newly in the table; the rows skipped are those that conflicted. |
| `AuditBulkInsert.SecondPass` | crates/rustango/src/audit.rs:2324-2332 | Rewrites as all skipped rows in order would; the keys returned are exactly the rows holding a skipped row's key, each once. |
| `AuditBulkInsert.BulkInsert` | crates/rustango/src/audit.rs:2276-2348 | The table of upserting row after row; one Create entry for exactly the rows newly present and one Update entry for exactly the rows the second pass rewrote, all as they are at the end; refused without RETURNING or a key. |
| `EditDistance.Distance` | crates/rustango/src/cli_verbs.rs:140-157 | The one-row loop returns the length of a shortest script of single-character insertions, deletions and substitutions. |
| `EditDistance.LastRow` | crates/rustango/src/cli_verbs.rs:140-157 | The in-place rows with the equal-character shortcut compute the recursive distance. |
| `EditDistance.NoShorterScript` | crates/rustango/src/cli_verbs.rs:140-157 | No script is shorter than the distance. |
| `EditDistance.ShortestScript` | crates/rustango/src/cli_verbs.rs:140-157 | Some script has exactly that length. |
| `EditDistance.Symmetric` | crates/rustango/src/cli_verbs.rs:140-157 | The distance is symmetric. |
| `EditDistance.Triangle` | crates/rustango/src/cli_verbs.rs:140-157 | The distance obeys the triangle inequality. |
| `EditDistance.ZeroMeansEqual` | crates/rustango/src/cli_verbs.rs:140-157 | The distance is zero exactly for equal strings. |
| `ShellWords.QuotedReads` | crates/cargo-rustango/src/wizard.rs:140-149 | However it is quoted, a word is read back by the shell as itself, whatever follows. |
| `ShellWords.QuotedInjective` | crates/cargo-rustango/src/wizard.rs:140-149 | Two words are quoted alike only if they are the same. |
| `ShellWords.LineReads` | crates/cargo-rustango/src/wizard.rs:120-149 | A line of quoted words splits into exactly those words. |
| `ShellSizes.BeforeQuoted` | crates/cargo-rustango/src/wizard.rs:120-149 | In front of a quoted word no line yields more text in words than it has, quotes left open included, and all of it only if it holds literal words with one blank between. |
| `NewPrinted.EquivalentCommand` | crates/cargo-rustango/src/wizard.rs:120-137 | For every choice, a shell reads the printed text as the words of the command exactly when it takes the name and the joined features as they are. |
| `NewPrinted.PrintedParsesBack` | crates/cargo-rustango/src/main.rs:600-726 | For every choice the flags can express, the printed line is read as the command's words and parses back to the choice exactly when a shell takes the name as it is, the template has the features, and none repeats. |
| `NewPrinted.PrintedReadsIff` | crates/cargo-rustango/src/wizard.rs:120-149 | The shell's words are the command's exactly when name and features are literal: not empty, no blank, quote, backslash or special character in them, no `#` or `~` in front; the path may be anything. |
| `NewPrinted.AcceptedPrintsBack` | crates/cargo-rustango/src/main.rs:600-726 | Whatever command line is accepted for a well-formed name, the command printed for it gives the same choice back. |
| `NewCommand.ReparsedIs` | crates/cargo-rustango/src/main.rs:600-726 | The words of a choice parse back to it with each feature named once, or are refused, exactly as its template has the features or not. |
| `NewWizard.AskFeatures` | crates/cargo-rustango/src/wizard.rs:200-258 | The feature menu adds picks to the features given, asks again after a bad line, and gives up when the input ends. |
| `NewWizard.LineAdds` | crates/cargo-rustango/src/wizard.rs:228-258 | A line of numbers adds their entries after the features given, each once; one with anything else on it is asked for again; an empty one adds nothing. |
| `NewWizard.PickedByNumber` | crates/cargo-rustango/src/wizard.rs:236-247 | A number picks the entry the menu shows it at, and nothing if it shows none. |
| `NewWizard.MenuIff` | crates/cargo-rustango/src/wizard.rs:200-215 | The menu shows exactly the optional features the template offers and does not have anyway. |
| `NewWizard.FlagsStand` | crates/cargo-rustango/src/wizard.rs:63-103 | What a flag answered is not asked again; what none did is the answer typed. |
| `NewWizard.WizardChoice` | crates/cargo-rustango/src/wizard.rs:63-103 | Every choice the wizard can make names each feature once and can be said with flags. |
| `NewWizard.WizardPrintsBackIff` | crates/cargo-rustango/src/wizard.rs:63-137 | The command the wizard prints gives its choice back exactly when a shell takes the name as it is and the template has the features. |
| `NewWizard.LiteralNameComesBack` | crates/cargo-rustango/src/main.rs:523-542 | A name a shell takes as it is, given with `-i`, comes back from the printed command, whether it will pass validation or not. |
| `NewWizard.SpacedNameIsRefused` | crates/cargo-rustango/src/main.rs:523-542 | A name with a space, given with `-i`, is printed as two words and the printed command is refused. |
| `NewWizard.SpecialFeatureIsPrinted` | crates/cargo-rustango/src/main.rs:523-542 | A feature with a `;`, given with `-i` and no template, is printed unquoted, and the line is not one command. |
| `NewCommand.ParsedIsAllowed` | crates/cargo-rustango/src/main.rs:702-718 | An accepted command line names each feature once, only features its template has, and the tenant template if it names tenancy. |
| `NewCommand.SpellingsAgree` | crates/cargo-rustango/src/main.rs:608-675 | A value may follow its flag or be joined by `=`, under any of the flag's names, with the same result. |
| `NewCommand.FeaturesReadBack` | crates/cargo-rustango/src/main.rs:731-737 | Features joined by commas are split into themselves, whatever characters they hold besides separators. |
| `NewCommand.ParseNewFlags` | crates/cargo-rustango/src/main.rs:600-726 | The argument loop, the first-mention filter and the defaults compute the recursive parse, every error included. |
| `NewGiven.AcceptedLine` | crates/cargo-rustango/src/main.rs:600-726 | What an accepted line means: the one name; each feature where it is first mentioned in all the values given to `--features`, one after the other; of every other flag the value given last, or its default; the tenant template if tenancy is named and no template is. |
| `NewGiven.AcceptedIff` | crates/cargo-rustango/src/main.rs:600-726 | A line is accepted exactly when every flag is known and has a value it takes, one project is named (or none, for the wizard), and the template it asks for, or the default one, has its features. |
| `NewGiven.ParseSays` | crates/cargo-rustango/src/main.rs:600-675 | From any flags already read, the loop accepts exactly the complete and takeable arguments with one name at most, and adds features up while other flags replace. |
| `NewGiven.GivenSet` | crates/cargo-rustango/src/main.rs:608-660 | A flag gives its value under any of its names and in either spelling. |
| `NewGiven.FeaturesAddUp` | crates/cargo-rustango/src/main.rs:626-639 | Two values given to `--features` add up in order. |
| `NewGiven.TenancyAsksForTenant` | crates/cargo-rustango/src/main.rs:709-712 | A line naming tenancy and no template is accepted with the tenant template, if that has its other features. |
| `NewGiven.OtherWords` | crates/cargo-rustango/src/main.rs:661-668 | `-i` gives nothing; `-h` is answered with the help. |
| `NewGiven.SplitAtSeparator` | crates/cargo-rustango/src/main.rs:731-737 | Commas and spaces separate features wherever they stand. |
| `NewGiven.SplitOne` | crates/cargo-rustango/src/main.rs:731-737 | Without one there is one feature, without the white space around it, or none. |
| `NewGiven.BackendNames` | crates/cargo-rustango/src/main.rs:225-240 | Every name a backend goes by. |
| `NewGiven.Defaults` | crates/cargo-rustango/src/main.rs:511-521 | Absent flags: the fullstack template and Postgres. |
| `NewCommand.RetainFirst` | crates/cargo-rustango/src/main.rs:702-708 | Each feature is kept where it is first named. |
| `NewCommand.MentionsIff` | crates/cargo-rustango/src/main.rs:702-708 | The filter changes nothing exactly when no feature repeats. |
| `NewGiven.MentionsInOrder` | crates/cargo-rustango/src/main.rs:702-708 | First mentions come in the order of their first mentioning. |
| `RedactQuery.Redact` | crates/rustango/src/access_log.rs:468-510 | The two-phase pass equals split, hide and join, and copies nothing exactly when no pair is hidden. |
| `RedactQuery.RedactedPair` | crates/rustango/src/access_log.rs:468-510 | `k=v` comes out as `k=[redacted]` exactly when `k` is secret, or decoded is when it holds a `%` or a `+`; as it is otherwise. |
| `RedactQuery.RedactedBare` | crates/rustango/src/access_log.rs:468-510 | A pair without `=` comes out as it is. |
| `RedactQuery.RedactedSides` | crates/rustango/src/access_log.rs:468-510 | Each side of an `&` is redacted by itself, so the three say what becomes of every query. |
| `RedactQuery.SameRedactedIff` | crates/rustango/src/access_log.rs:468-510 | Two queries have the same output exactly when they differ only in the values of hidden pairs. |
| `RedactQuery.RedactedTwice` | crates/rustango/src/access_log.rs:468-510 | Redacting is idempotent. |
| `RedactQuery.OthersKept` | crates/rustango/src/access_log.rs:468-510 | Every pair that is not hidden is kept byte for byte in its place, and a hidden one keeps its name. |
| `CappedBody.CollectCapped` | crates/rustango/src/body_limit.rs:216-242 | All data bytes exactly when the body ends within the cap; past it a body whose data bytes are the original ones in order, every frame from the crossing one on untouched; an error exactly when the stream breaks before the cap is crossed. |
| `CappedBody.PollTakesOne` | crates/rustango/src/body_limit.rs:246-266 | Reading a prefixed body gives its head once and then the rest, frame by frame. |
| `CappedBody.Drain` | crates/rustango/src/body_limit.rs:246-266 | Draining a body frame by frame gives exactly its data. |

## Left out

- Lockout: cache errors, and the uncounted slot admitted when no window could be opened, which carries no window id and stays outside the bounds; the account key builders.
- Lockout: windows of one account are taken to open at distinct times, and a missing counter counts as 0.
- LockoutClock.Lockout.RecordFailure: each call happens at one instant of the clock; calls that interleave are in the untimed machine, where time passing is an eviction.
- Page cache: tenant resolution and the tenant registry (a request comes with its tenant; a slug holds no `:`), several layers with different prefixes on one backend, the 0.63 counter, backend errors.
- Page cache: SHA-256 is taken to be injective and its base64 never starts with `#`; URL decoding is any function.
- Page cache: the key named in `invalidate` is deleted by the general event that drops entries; generation counters are not dropped.
- Page cache: bodies are whole byte strings; a QUERY or response stream that breaks is in `CappedBody` only.
- PageFrame.DecodeFrame: the size ceiling of a header map is not modelled, nor the order in which removing one name leaves the others; the page theorems speak of each name's values.
- PageNonce.NonceThroughStore: header values are bytes, so the lossy UTF-8 reading of a policy before it is searched for a foreign nonce is a search of its bytes.
- Audit: SQL text, drivers, joins loaded with a row, locking, foreign-key cascades and triggers; an empty OR or XOR matches nothing instead of being refused by the SQL writer.
- Audit: the single-row paths, the bulk update by values and truncation, which would only add easy members.
- AuditBulkInsert.BulkInsert: one conflict key of one column, which is the only unique one besides a generated primary key; update columns do not include a generated primary key; no other transaction deletes a row between the passes.
- AuditWrites.UpdateMany: for a SET that reads other rows over several pages the columns are those of the page-by-page function; the affected count is the number of rows written; a backend that counts only changed rows is not modelled.
- CappedBody: a body is a value, so taking the head out of `Prefixed` in place is a new body without it.
- NewCommand: reserved project names and the alias clash, which the round trip does not need; the name prompt and the one-of-N menus, whose answers are parameters. Error texts are error kinds, and `--help` is one of them.
- NewPrinted.PrintedReadsIff: reading back means reading the words of the command themselves; whether a name and a path could be made up so that other words parse to the same choice is not asked.
- NoncePolicy.ForeignNonceIff: for a policy token with more than two quotes in it, which no policy grammar has, the condition is what the replacements leave of the token.
- ShellWords: the reader refuses double quotes, operators, expansions, `*`, `?` and `[` outside single quotes instead of reading on: what a shell makes of them is not the word itself, or depends on the files around. Blanks are space and tab, as in the POSIX locale.
- `squash`, `did_you_mean`, `effective_cap`, cryptography, templates and the other leaf modules.
