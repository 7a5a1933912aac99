# DNS-over-HTTPS: upstream selection, record lifetimes, fall-back

A Dafny model of the parts of this DNS-over-HTTPS client and server whose guarantees
span many calls or both ends of the connection.

- **Upstream selection** (client). Both weighted round-robin selectors as classes that
  update their upstreams in place, tied to step functions on values, and theorems about
  whole histories of calls, reports and probes. `Sums`, `Int32`, `Health`, `Upstreams`
  are shared; `SmoothWrr` and `NginxSelector` are the nginx-style selector, `Gcds`,
  `LevelSchedule`, `LvsHistory` and `LvsSelector` the LVS-style one. `Interleaving` is the
  nginx-style selector with any number of threads, one atomic operation at a time.
- **Record lifetimes and response codes** (both ends). `Lifetimes`, `Records`,
  `Marshalling` and `Ageing` (with `Options`) follow a message to JSON, back, and through HTTP caches.
- **Passthrough names** (client). `Passthrough`.
- **Retries and UDP-to-TCP fall-back** (server). `ServerConfig` and `ServerQuery`.

## How to read it

- Results for the 32-bit selector assume `SmoothWrr.Fits`: n times the total weight, and
  every weight plus 5, are at most 2^31 - 1. Documented weights are at most 100.
- The 32-bit clamp under concurrency (`Interleaving.ClampHolds`) assumes
  `Interleaving.Roomy`: ten times the number of threads, and every weight plus five times
  that number, are at most 2^31 - 1. Conservation of credits assumes neither.
- 32-bit histories of the LVS-style selector assume `LvsHistory.RewardsFit`: every weight
  plus 5 is at most 2^31 - 1.
- 32-bit arithmetic is a parameter: the same step functions are read with `Exact`
  integers or with Go's `Wrapping` ones (`Int32.Norm`). The classes use `Wrapping`.
- A history is a sequence of events: a call (`Get`), or one report or probe of one
  upstream with one of the amounts in `Health.DELTAS`.
- Configured weights are at least 1 (`Sums.Weights`), as `doh-client/doh-client.conf:19`
  asks; only the LVS-style `Add` enforces it. `doh-client/config/config.go:82-84` ensures
  at least one upstream.
- Clocks, randomness, the network, the record-text parser and the IDNA conversion are
  parameters: instants, a `pick` function, a `Network`, a `Codec`, an `Idna`.
- `hide` statements only keep definitions out of a proof that does not need them.

## Findings

- The LVS-style selector adds the maximum to its threshold where the classic algorithm
  assigns it. With two or more upstreams the first call of all therefore panics exactly
  when every effective weight is equal at that moment (`LevelSchedule.PanicExactly`,
  `LvsHistory.CrashExactly`; `LvsHistory.EqualWeightsCrash` at weights 50 and 50). Once a call has succeeded nothing can bring the panic about.
- A configured weight above 2^31 - 6 can be driven negative by a good probe
  (`Health.SettleKeepsBounds`, `Health.HugeWeightGoesNegative`).
- A record whose printed expiry is a whole second or more in the past comes back from JSON
  with its full original TTL (`Lifetimes.OutlivesExactly`, `Lifetimes.StaleRecordRevives`).
- An IXFR query over UDP whose exchange yields no reply is a nil dereference and not a
  failed round (`ServerQuery.DoDnsQuery`, `ServerQuery.DeadNetwork`). A caller can rule it
  out beforehand by `ServerQuery.CanCrash`.
- A passthrough entry of dots alone matches the root only, not every name
  (`Passthrough.RootEntry`).

## Model

| member | source | states |
|---|---|---|
| `Health.ReportDelta` | doh-client/selector/nginxWRRSelector.go:135-152 | the exact amount of every report: 1 for OK, -5 for Timeout, and for Error -3 here and -2 in the LVS-style selector |
| `Health.ProbeDelta` | doh-client/selector/nginxWRRSelector.go:87-203 | the exact amount of every probe by selector, kind and outcome; a reward exactly for status 200 and, for Google upstreams, a decoded zero Status |
| `Health.Reported` | doh-client/client.go:503-558 | a request files at most one report: Timeout exactly for a timed-out request, Error exactly for 5xx, OK exactly for 2xx |
| `Health.SettleKeepsBounds` | doh-client/selector/nginxWRRSelector.go:135-203 | in 32 bits every report keeps [1, weight] if and only if weight + 5 does not overflow |
| `Health.SettleIsNearest` | doh-client/selector/nginxWRRSelector.go:135-203 | a report or probe moves the effective weight to the point of [1, weight] nearest to the sum |
| `Health.HugeWeightGoesNegative` | doh-client/selector/nginxWRRSelector.go:200-202 | the concrete overflow at the largest weight |
| `Upstreams.Upstream.Adjust` | doh-client/selector/nginxWRRSelector.go:138-150 | add then store the bound, on the shared record, is the settled amount |
| `Sums.FirstMax` | doh-client/selector/nginxWRRSelector.go:125-127 | the pick is the largest and, among equals, the first |
| `SmoothWrr.PickIsPositive` | doh-client/selector/nginxWRRSelector.go:120-130 | with credits summing to zero the pick holds a positive credit and the sum stays zero |
| `SmoothWrr.StepKeepsHealthy` | doh-client/selector/nginxWRRSelector.go:114-203 | one event keeps: credits sum to zero, each above minus the total weight, effective weights in [1, weight] |
| `SmoothWrr.RunKeepsHealthy` | doh-client/selector/nginxWRRSelector.go:114-203 | the same over every history |
| `SmoothWrr.CreditCeiling` | doh-client/selector/nginxWRRSelector.go:120-130 | no credit exceeds (n - 1)(W - 1) |
| `SmoothWrr.Ledger` | doh-client/selector/nginxWRRSelector.go:120-130 | after k calls a credit is its start plus k weights less the total per pick |
| `SmoothWrr.GetsIgnoreWeights` | doh-client/selector/nginxWRRSelector.go:114-133 | a run of calls depends on effective weights and credits alone, not on configured weights |
| `SmoothWrr.CycleIsExact` | doh-client/selector/nginxWRRSelector.go:114-133 | from any pool with zero credits and effective weights w of at least 1 summing to W: after W calls every credit is zero again and upstream i was picked w_i times |
| `SmoothWrr.Periodic` | doh-client/selector/nginxWRRSelector.go:114-133 | from such a pool the state repeats every W calls |
| `SmoothWrr.EveryWindowIsExact` | doh-client/selector/nginxWRRSelector.go:114-133 | from such a pool every window of W consecutive calls picks upstream i exactly w_i times |
| `SmoothWrr.LagWithin` | doh-client/selector/nginxWRRSelector.go:120-132 | from any pool whose credits sum to zero, however they came about, the lag over any k calls is at most n times the deepest debt, or n times one charge if that is more |
| `SmoothWrr.BoundedLag` | doh-client/selector/nginxWRRSelector.go:120-132 | from any healthy state, over any k calls, the distance from the proportional share times W is below n times the total weight |
| `SmoothWrr.NoStarvation` | doh-client/selector/nginxWRRSelector.go:114-203 | however reports move the weights, more than n(W - 1) picks include every upstream |
| `SmoothWrr.HealthyFits` | doh-client/selector/nginxWRRSelector.go:116-130 | with n times the total weight and every weight plus 5 within 32 bits, no intermediate value of a call leaves 32 bits, running totals included |
| `SmoothWrr.RunDoesNotWrap` | doh-client/selector/nginxWRRSelector.go:114-203 | over whole histories the wrapping selector makes the same picks and states as the unbounded one |
| `SmoothWrr.SelectorIsFair` | doh-client/selector/nginxWRRSelector.go:114-203 | exact windows for the 32-bit selector after any history that leaves the credits zero, at the effective weights it left |
| `SmoothWrr.ReportsLeaveCredits` | doh-client/selector/nginxWRRSelector.go:135-203 | reports and probes alone leave every credit as it is, so a selector that has only been reported on qualifies |
| `SmoothWrr.SelectorLagIsBounded` | doh-client/selector/nginxWRRSelector.go:114-203 | the lag bound for the 32-bit selector after any history |
| `SmoothWrr.SelectorNeverStarves` | doh-client/selector/nginxWRRSelector.go:114-203 | no starvation for the 32-bit selector after any history |
| `NginxSelector.NginxWrrSelector.constructor` | doh-client/selector/nginxWRRSelector.go:18-22 | a new selector has no upstreams |
| `NginxSelector.NginxWrrSelector.Add` | doh-client/selector/nginxWRRSelector.go:24-49 | appends one upstream with the given kind and URL, full effective weight and zero credit, whatever the weight |
| `NginxSelector.NginxWrrSelector.Scan` | doh-client/selector/nginxWRRSelector.go:115-128 | the loop leaves the raised credits and returns the wrapped total and the first largest |
| `NginxSelector.NginxWrrSelector.Get` | doh-client/selector/nginxWRRSelector.go:114-133 | the loop over the shared upstreams is the smooth round-robin step, and returns its pick |
| `NginxSelector.NginxWrrSelector.ReportUpstreamStatus` | doh-client/selector/nginxWRRSelector.go:135-152 | a report is the settled adjustment of that upstream and touches nothing else |
| `NginxSelector.NginxWrrSelector.Evaluate` | doh-client/selector/nginxWRRSelector.go:87-102 | a probe is the settled adjustment of that upstream and touches nothing else |
| `NginxSelector.NginxWrrSelector.HandleRequest` | doh-client/client.go:484-558 | a request is one pick followed by at most one report on the picked upstream: -5 when it timed out, -3 for 5xx, 1 for 2xx, none otherwise |
| `NginxSelector.AddAll` | doh-client/client.go:219-229 | all upstreams of one kind are appended in order as new records, each with its kind and URL, full effective weight and no credit |
| `NginxSelector.FromConfig` | doh-client/client.go:213-231 | start-up gives the fresh pool of the configured weights on new records, the Google URLs first and then the IETF ones |
| `Interleaving.NextBalances` | doh-client/selector/nginxWRRSelector.go:120-130 | one atomic operation of any thread keeps credits equal to what calls in flight owe |
| `Interleaving.NextClamps` | doh-client/selector/nginxWRRSelector.go:90-92 | one atomic operation keeps every effective weight within what pending stores will repair |
| `Interleaving.ScheduleKeepsInvariant` | doh-client/selector/nginxWRRSelector.go:87-203 | both invariants over every interleaving of every length |
| `Interleaving.ScheduleBalances` | doh-client/selector/nginxWRRSelector.go:120-130 | the credit balance alone survives every interleaving, with no bound on weights or threads |
| `Interleaving.CreditsConserved` | doh-client/selector/nginxWRRSelector.go:120-130 | from start-up with any weights and any number of threads, after any interleaving, credits sum to the totals not yet charged, and to zero with no call in flight; exactly, or modulo 2^32 when wrapping |
| `Interleaving.ClampHolds` | doh-client/selector/nginxWRRSelector.go:135-203 | with p and q pending stores the effective weight is in [1 - 10p, weight + 5q], outside [1, weight] some thread holds the repairing store, and 32 bits suffice |
| `Interleaving.LagAfterInterleaving` | doh-client/selector/nginxWRRSelector.go:87-203 | after any interleaving that leaves no call and no store pending, weights are in [1, weight] and sequential calls stay within n times the deepest debt left behind |
| `Interleaving.SoloGet` | doh-client/selector/nginxWRRSelector.go:114-133 | a call that is not interrupted is the sequential call, in either arithmetic |
| `Interleaving.SoloReport` | doh-client/selector/nginxWRRSelector.go:135-152 | a report that is not interrupted is the sequential report |
| `Gcds.Gcd` | doh-client/selector/lvsWRRSelector.go:167-180 | on positive inputs the loop ends with a common divisor that every common divisor divides |
| `Gcds.Euclid` | doh-client/selector/lvsWRRSelector.go:167-180 | Euclid's rule yields a common divisor that every common divisor divides |
| `Gcds.GcdOfUnique` | doh-client/selector/lvsWRRSelector.go:146-154 | the divisor properties determine the result |
| `LvsSelector.LvsWrrSelector.GcdWeight` | doh-client/selector/lvsWRRSelector.go:146-154 | divides every effective weight, and every common divisor divides it |
| `LvsSelector.LvsWrrSelector.MaxWeight` | doh-client/selector/lvsWRRSelector.go:156-165 | the largest effective weight |
| `LevelSchedule.MaxOf` | doh-client/selector/lvsWRRSelector.go:156-165 | the maximum is attained and is at least the gcd |
| `LevelSchedule.MeasureDrops` | doh-client/selector/lvsWRRSelector.go:125-143 | an iteration without a pick lowers the threshold excess, or keeps it and comes nearer to the heaviest upstream |
| `LevelSchedule.ChooseStarted` | doh-client/selector/lvsWRRSelector.go:125-143 | after any weight changes a started selector picks, its threshold ends positive and at most the current maximum, within n iterations if it was within reach |
| `LevelSchedule.AllEqualIffGcdIsMax` | doh-client/selector/lvsWRRSelector.go:128-137 | gcd equals maximum exactly when all weights are equal |
| `LevelSchedule.PanicExactly` | doh-client/selector/lvsWRRSelector.go:120-144 | a call panics if and only if there are two or more upstreams, the selector is fresh and all effective weights are equal |
| `LevelSchedule.LoopPanicsExactly` | doh-client/selector/lvsWRRSelector.go:125-143 | the loop itself panics exactly from a fresh selector with equal weights, and otherwise leaves a threshold within reach |
| `LevelSchedule.AdvanceFollows` | doh-client/selector/lvsWRRSelector.go:126-142 | one loop iteration consumes the level schedule entry by entry |
| `LevelSchedule.ChooseFollows` | doh-client/selector/lvsWRRSelector.go:120-144 | a call returns exactly the schedule's next entry |
| `LevelSchedule.ServedIsSchedule` | doh-client/selector/lvsWRRSelector.go:120-144 | the sequence of picks is the cyclic schedule "level by level from the top, every upstream that reaches it", from wherever the cursor stands |
| `LevelSchedule.FreshServesFromSecondStep` | doh-client/selector/lvsWRRSelector.go:120-144 | a fresh selector with unequal weights enters that cycle one level below the maximum |
| `LevelSchedule.EntersSchedule` | doh-client/selector/lvsWRRSelector.go:120-144 | every call that does not panic is one that a known cursor on the schedule would make: the same cursor if it is on the schedule, the last upstream at the maximum for a fresh selector, the end of a cycle for a threshold above the maximum |
| `LevelSchedule.LandsAtEnd` | doh-client/selector/lvsWRRSelector.go:126-142 | a call that finds the threshold above the maximum falls to the end of a cycle and goes on from there |
| `LevelSchedule.ServesFromTop` | doh-client/selector/lvsWRRSelector.go:120-144 | from a threshold above the maximum, as reports can leave it, any number of calls serve whole cycles from the top |
| `LevelSchedule.KeepsResidue` | doh-client/selector/lvsWRRSelector.go:126-142 | a call moves the threshold by a multiple of the gcd |
| `LevelSchedule.CycleShares` | doh-client/selector/lvsWRRSelector.go:120-165 | a cycle has W/g entries and serves upstream i w_i/g times |
| `LevelSchedule.EveryWindowIsExact` | doh-client/selector/lvsWRRSelector.go:120-165 | with settled weights any W/g consecutive picks, from a fresh selector with unequal weights or from any cursor with a positive threshold, serve upstream i exactly w_i/g times |
| `LvsHistory.Run` | doh-client/selector/lvsWRRSelector.go:120-250 | every history keeps effective weights within [1, weight] and the threshold untouched or between 1 and the largest configured weight |
| `LvsHistory.StartedNeverCrashes` | doh-client/selector/lvsWRRSelector.go:120-199 | after a successful pick no sequence of calls, reports and probes reaches the panic |
| `LvsHistory.CrashExactly` | doh-client/selector/lvsWRRSelector.go:120-199 | over whole histories the panic happens if and only if the first call finds all effective weights equal |
| `LvsHistory.EqualCrash` | doh-client/selector/lvsWRRSelector.go:128-137 | two or more upstreams of any equal weight: the first call panics |
| `LvsHistory.EqualWeightsCrash` | doh-client/selector/lvsWRRSelector.go:128-137 | two upstreams of weight 50: the first call panics |
| `LvsHistory.GetsAreCalls` | doh-client/selector/lvsWRRSelector.go:120-144 | with two or more upstreams a run of calls in a history is the loop run repeatedly |
| `LvsHistory.FairAfterAnyHistory` | doh-client/selector/lvsWRRSelector.go:120-250 | after any history that leaves the selector running and not fresh with equal weights, every W/g further calls serve upstream i exactly its share of the effective weights left behind |
| `LvsSelector.LvsWrrSelector.constructor` | doh-client/selector/lvsWRRSelector.go:20-25 | a new selector is fresh |
| `LvsSelector.LvsWrrSelector.Add` | doh-client/selector/lvsWRRSelector.go:27-56 | rejects weights below 1 and otherwise appends an upstream with the given kind and URL and that configured and effective weight; the cursor stays |
| `LvsSelector.LvsWrrSelector.LowerThreshold` | doh-client/selector/lvsWRRSelector.go:129-137 | a new round lowers the threshold by the gcd, raises a used-up one by the maximum, and meets zero exactly when those cancel |
| `LvsSelector.LvsWrrSelector.Tick` | doh-client/selector/lvsWRRSelector.go:126-138 | the head of the loop moves cursor and threshold as the schedule does, and reports the zero threshold exactly |
| `LvsSelector.LvsWrrSelector.Get` | doh-client/selector/lvsWRRSelector.go:120-144 | the loop ends, with the panic or with the schedule's choice, and steps the history |
| `LvsSelector.LvsWrrSelector.ReportUpstreamStatus` | doh-client/selector/lvsWRRSelector.go:182-199 | a report is the settled adjustment and steps the history |
| `LvsSelector.LvsWrrSelector.Evaluate` | doh-client/selector/lvsWRRSelector.go:94-109 | a probe is the settled adjustment and steps the history |
| `LvsSelector.AddAll` | doh-client/client.go:239-249 | all upstreams of one kind are appended in order as new records, each with its kind and URL, and it fails exactly when some weight is below 1 |
| `LvsSelector.FromConfig` | doh-client/client.go:233-251 | start-up succeeds exactly when every weight is at least 1, and then stands, on new records with the Google URLs before the IETF ones, at the start of the histories with the configured weights |
| `Lifetimes.ExpiryRoundTrip` | json-dns/unmarshal.go:153-162 | up to the printed expiry the TTL read back is at most the original and loses less than two seconds of absolute lifetime |
| `Lifetimes.ReadBackExactly` | json-dns/unmarshal.go:153-162 | for all instants: the whole seconds left, zero within a second after the expiry, the unchanged TTL beyond that |
| `Lifetimes.OutlivesExactly` | json-dns/unmarshal.go:153-162 | for all instants a record read back stays within what is left of it if and only if less than a second has passed since the printed expiry, or its TTL is zero |
| `Lifetimes.StaleRecordRevives` | json-dns/unmarshal.go:158-161 | the concrete record that comes back in full |
| `Lifetimes.AgedExactly` | doh-client/ietf.go:253-263 | ageing subtracts the started seconds and stops at zero |
| `Lifetimes.AgedByHeaders` | doh-client/ietf.go:189-263 | for all headers and clocks: untouched unless Last-Modified precedes now, the end of life kept to less than a second while the TTL lasts, and zero afterwards |
| `Lifetimes.AgedTwice` | doh-client/ietf.go:253-263 | ageing in two legs never gains and loses at most one second more |
| `Marshalling.LeastWith` | json-dns/marshal.go:58-62 | taking in one more record keeps the least TTL the minimum, with its expiry |
| `Marshalling.MarshalSection` | json-dns/marshal.go:55-75 | a section is marshalled in order and the least TTL extends over it |
| `Marshalling.MarshalAdditional` | json-dns/marshal.go:77-104 | OPT records set the status and are neither shown nor counted |
| `Marshalling.NoOptChangesNothing` | json-dns/marshal.go:77-104 | without an OPT record the additional section is shown whole and the status stands |
| `Marshalling.LastOpt` | json-dns/marshal.go:77-104 | the last OPT record joins the status reached before it and is left out where it stands |
| `Marshalling.JoinedBits` | json-dns/marshal.go:78-83 | low nibble from the header, high nibble from the OPT byte, the middle one from either |
| `Marshalling.Marshal` | json-dns/marshal.go:35-107 | sections in order, flags, joined status, and LeastTTL and EarliestExpires as the minimum over all three sections without additional OPT |
| `Marshalling.Unmarshal` | json-dns/unmarshal.go:52-147 | flags, split status, surviving records in order, one OPT at the head |
| `Marshalling.ReplyKeepsRequest` | json-dns/unmarshal.go:55-147 | the reply keeps question and recursion flags of the request, and its OPT record carries nothing below the top byte |
| `Marshalling.RefusedExactly` | json-dns/unmarshal.go:149-173 | a record is refused exactly for a forbidden character in its name, a garbled expiry, an unknown type or a line break in its data, and otherwise parsed with the lifetime left |
| `Marshalling.SurvivorsInOrder` | json-dns/unmarshal.go:149-173 | the survivors are exactly the records that are not refused and parse, each from its own place, in order |
| `Marshalling.CodeRoundTrip` | json-dns/unmarshal.go:143-145 | JSON to DNS to JSON keeps the status modulo 4096, low four bits in the header and upper eight in the OPT TTL's top byte |
| `Marshalling.UnpackedCodeShown` | json-dns/marshal.go:78-83 | a 12-bit code that the OPT byte repeats is shown unchanged, although the two overlap |
| `Marshalling.SectionRoundTrip` | json-dns/unmarshal.go:149-173 | records that the text form can carry come back in order with the lifetime left |
| `Marshalling.UnstampedRoundTrip` | json-dns/unmarshal.go:149-173 | records without a printed expiry come back unchanged, TTL included, however late they are read |
| `Marshalling.MessageRoundTrip` | json-dns/unmarshal.go:52-147 | a whole message keeps names, types and data of all sections in order, its OPT records are replaced by one at the head, and header and OPT byte carry the code that was shown |
| `Marshalling.MessageCodeRoundTrip` | json-dns/unmarshal.go:143-145 | a 12-bit code repeated by its OPT byte comes back as the same low bits and the same byte |
| `Ageing.AgeSection` | doh-client/ietf.go:222-227 | the section is aged in place, every record |
| `Ageing.AgeAdditional` | doh-client/ietf.go:228-233 | the additional section is aged in place except OPT |
| `Ageing.AgeingKeepsCode` | doh-client/ietf.go:228-233 | passing over OPT keeps the response code of the message for every age |
| `Ageing.AgeReply` | doh-client/ietf.go:189-233 | all three sections are aged by the time between Last-Modified and Date, with the clock for a missing Date |
| `Ageing.UncachedIsUntouched` | doh-client/ietf.go:189-210 | without a usable Last-Modified, or with one not before Date, no lifetime changes |
| `Ageing.AgedLeast` | doh-client/ietf.go:207-233 | ageing commutes with the minimum |
| `Ageing.CacheLifetime` | doh-server/ietf.go:186-193 | for any age up to the least TTL that the server allows caches, client ageing takes exactly the started seconds off every counted record, none below zero, and the least lifetime ages with it |
| `Ageing.CacheLifetimeByHeaders` | doh-client/ietf.go:189-233 | the same by the headers: no counted record outlives the end that its modification date gives, or ends a second or more before it |
| `Passthrough.TestMeansLabelSuffix` | doh-client/client.go:450-461 | for all strings the suffix test succeeds if and only if the entry's case-folded labels end the question's |
| `Passthrough.SuffixMeans` | doh-client/client.go:456 | the suffix test succeeds exactly when the string is some beginning followed by the suffix |
| `Passthrough.LowerExactly` | doh-client/client.go:190 | two characters fold alike exactly when they are equal or the two cases of one ASCII letter |
| `Passthrough.CaseDoesNotMatter` | doh-client/client.go:455 | names that differ only in letter case have the same labels and the same normal form, so the same verdict with every entry |
| `Passthrough.LabelsOfName` | doh-client/client.go:187-190 | a name that is its labels joined by dots, up to leading and trailing dots and letter case, has exactly those labels folded |
| `Passthrough.RootEntry` | doh-client/client.go:455-458 | for all questions an entry of dots alone matches if and only if the question is dots alone |
| `Passthrough.Client.constructor` | doh-client/client.go:184-192 | every entry is normalised, and none takes effect without a bootstrap server |
| `Passthrough.Client.ShouldPassthrough` | doh-client/client.go:450-461 | passes through exactly when some effective entry's case-folded labels end the question's |
| `ServerConfig.TypeRun` | doh-server/config.go:100-109 | the longest run of type characters |
| `ServerConfig.SplitExactly` | doh-server/config.go:100-109 | an upstream splits into address and type if and only if it is that type, a colon and that address, with type characters only |
| `ServerConfig.UsableExactly` | doh-server/config.go:82-95 | an upstream is usable if and only if it is udp, tcp or tcp-tls, a colon and an address that is not empty |
| `ServerConfig.LoadConfig` | doh-server/config.go:51-98 | accepts exactly clean files with usable upstreams and paired cert and key; an accepted configuration is complete and usable |
| `ServerQuery.IndexQuestionType` | doh-server/server.go:333-340 | the first question of the type, or -1 when there is none |
| `ServerQuery.RulesGiveProtocol` | doh-server/server.go:349-361 | tcp-tls is one exchange over TLS, tcp or a zone transfer one over TCP, and udp otherwise starts over UDP |
| `ServerQuery.RetriesExactly` | doh-server/server.go:361-372 | over UDP there is a second exchange exactly for a truncated reply or a lone SOA to IXFR, a third exactly for both in turn, and the test meets no reply exactly for IXFR when the exchange before it brought none |
| `ServerQuery.UdpRound` | doh-server/server.go:361-372 | a truncated reply and a lone SOA for IXFR are asked again over TCP and nothing else is; a missing reply is met exactly when IXFR was asked and the examined exchange has none |
| `ServerQuery.Round` | doh-server/server.go:349-374 | one round of one to three exchanges with the upstream's address by its protocol, question types and replies |
| `ServerQuery.DoDnsQuery` | doh-server/server.go:342-382 | for every network: at most Tries rounds with the upstreams chosen, each by its own protocol, all but the last failed, the response is the last exchange's; an error means all Tries rounds failed; the crash is exactly the missing reply to IXFR; a usable configuration is never reported bad, and crashes only if IXFR is asked, AXFR is not, and some upstream is UDP |
| `ServerQuery.NoPartialAnswer` | doh-server/server.go:361-372 | no round ends on a truncated UDP reply or on a lone SOA over UDP for IXFR |
| `ServerQuery.DeadNetwork` | doh-server/server.go:361-380 | with every exchange failing a usable configuration fails after exactly Tries rounds, except that IXFR without AXFR crashes if and only if some try falls on a UDP upstream |
| `ServerQuery.CrashReached` | doh-server/server.go:367-370 | the caller's condition is exact: a usable configuration that meets it has choices of upstream that crash on a dead network |

## Left out

- HTTP, TLS, sockets, dialers, cookies, interface binding, PID files, logging: I/O plumbing.
- The DNS library's packing, truncation and record text, and JSON and base64: foreign code; the record-text parser is the `Codec` parameter and the data field of a printed record is taken as given.
- EDNS client subnet in Marshal and Unmarshal: address text only, no effect on codes, sections or lifetimes.
- IDNA and letter case beyond ASCII: the conversion is a parameter, and case folding is ASCII.
- Concurrent LVS-style calls: cursor and threshold are separate atomics, so one call at a time with settled weights is modelled.
- The unknown upstream type error of both Add operations: upstreams are Google or IETF by construction.
- The random selector, the address table behind IsGlobalIP, content negotiation and the DNSCrypt workaround: settled by reading one branch.
- Interleaving: reports and probes are taken from any idle thread on any upstream with any of the known amounts, which covers more runs than the client can produce.
- Record classes: every record is taken to be of class IN, the only one that the JSON form writes back.
- Lifetimes: dates print and parse as whole seconds; calendar text is not modelled.
- ServerQuery.DoDnsQuery: the wait between tries and context cancellation are part of the network parameter.
