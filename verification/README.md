# cursedns: a verified model of the resolver

This project models the resolution core of cursedns and proves what it guarantees for every sequence of
server replies, every cache content the program can reach, and every interleaving of requests.

It covers the iterative resolver with its shared lookup budget and its mutual recursion, the bailiwick filter,
the CNAME chaser, the TTL cache shared by all requests, and the LRU store of trace records. Verify it with
`dafny verify dfyconfig.toml`.

## How it is laid out

| modules | part of the program |
|---|---|
| `Sequences`, `Names`, `Spelling`, `Records` | order-preserving selection; domain names; records, replies and errors |
| `Bailiwick`, `BailiwickProofs`, `Respelling` | `filterInBailiwick` and what it guarantees |
| `Chase`, `ChainPaths`, `Agreement`, `Reach` | `unresolvedCNAMETarget`; how it relates to the filter; connected answers |
| `Writes`, `CacheLog`, `CacheReads`, `Cache` | what a reply makes a lookup write; the cache as a function of its history; the cache itself |
| `Network`, `Helper`, `Replay` | `requestHelper.Lookup`; a second lookup of the same question |
| `Walk`, `WalkProofs`, `Addresses`, `Steps`, `Descent`, `HopLimit`, `Run`, `Recursive` | the record of a resolution, what holds of it at every depth, and `RecursiveHandler` |
| `Histories`, `ReplayInstance`, `DelegationInstance` | histories of the cache that can happen, for instances of what the other modules allow |
| `Lru`, `TraceStore` | least-recently-used eviction over whole runs; the list and its index |

## What stands for what

- A **name** is a sequence of labels with their spelling, or `Empty` for the empty string, which the code uses as
  "no name". Zones and chains compare names up to ASCII case; cache keys compare the spelling, as in the code.
- A **server** may send any reply at all, or none, and the context may be cancelled from any point on: which it is, is
  the `World` of a request, about which nothing is assumed.
- **Time** is an integer count of nanoseconds that never goes back. `Set` reads it before it takes the lock, so
  operations of other requests may come between the reading and the store, and time may pass; the other operations
  read it inside. Each event of the history has the clock while it held the mutex, and a write also the reading its
  expiry is counted from.
- **Other requests** may perform any operations on the cache before each of a request's own, including writes that
  result from arbitrary replies to them (`Cache.Cache.Others`). The ghost log of the cache is the order in which the
  operations held its mutex, each with the request that performed it.
- Every method that contacts servers returns a ghost **record** of what it did: a `Call` for a lookup, a `Walk` for
  an iterative resolution with all resolutions nested in it, a sequence of walks for a whole request. `ValidWalk` and
  `ValidRun` say which records the code can leave, and the methods are proved to leave no others. The theorems about
  runs are lemmas about valid records.
- The three constants of the handler that bound its work, the depth, hop and budget limits, are the program's own.

## Where the obvious statement is not what the code does

- The filter follows an owner's *first* CNAME, the chaser its *last*. If some owner has CNAMEs
  with different targets they may disagree (`Agreement.WalkersDisagree`), and the order of the answer section then
  shows (`Agreement.OrderMatters`). Otherwise they disagree exactly when the filter's chain was cut short although a
  name on it also owns a record of the queried type (`Agreement.AgreementExact`, `Agreement.MixedOwnerDisagrees`).
- The comment on `unresolvedCNAMETarget` speaks of a target without a matching record of the queried type. The code
  restarts only for a target that owns no record at all, and the model follows the code.
- The NS entry written for a referral includes the SOA records that came along. An answer served from such an entry
  is connected to the question only if those SOAs belong to the delegated zone (`Writes.NsPutConnected`,
  `Run.NsResponseConnected`, `DelegationInstance.NsAnswerDisconnected`). If only SOAs survive the filter, the entry
  goes under the empty name, where no lookup finds it (`Writes.OnlySOAsUnreachable`).
- An NXDOMAIN that comes with CNAMEs is recorded against the alias, and its records are gone when it is served again
  (`Replay.SecondAnswerSame`).
- A negative reply that lists NS records as well is taken for a referral (`Walk.IsReferral`); `Replay.Remembered`
  says exactly which replies are remembered at all.
- The hop limit is described as a guard against referral loops. Referrals cannot loop; the limit can only stop the
  resolution of names of twenty labels or more, and for each of those it can (`HopLimit.HopLimitExact`).
- Putting a trace record under an id that is already stored breaks the bijection between list and index, always
  (`TraceStore.PutIndexed`). The LRU theorems therefore ask for fresh ids, which the server's random ids are meant to be.

## Model

| member | source | states |
|---|---|---|
| Names.SubDomainTransitive | resolver/helper.go:237-248 | "At or below" is transitive, so what is below a delegated zone is below the zone that delegated it |
| Spelling.EqualFoldExact | resolver/helper.go:264 | Names are equal but for case if and only if their labels agree one by one in length and in every character, up to ASCII letters whose codes are 32 apart |
| Spelling.SubDomainExact | resolver/helper.go:293-297 | A name is at or below another if and only if the other, up to case, is what is left of it without some first labels |
| Respelling.FilterIgnoresCase | resolver/helper.go:258-325 | Spelling the zone, the name and the names in a reply in other case leaves which records survive in each section, and in which order, unchanged |
| ChainPaths.FilteredAnswerByPath | resolver/helper.go:259-287 | A record survives in the answer if and only if its owner is reached from the queried name along first CNAMEs without leaving the zone |
| Bailiwick.FilterInBailiwick | resolver/helper.go:258-325 | All four outputs of the filter, for every reply: the answer laid out along the unique complete chain, the delegated zone, the authority records of that zone plus in-zone SOAs, and the glue below it |
| Bailiwick.FollowChain | resolver/helper.go:259-287 | The loop over the remaining records terminates, also on CNAME cycles, and yields all records of each name on the chain, in chain order |
| Bailiwick.FilterAuthority | resolver/helper.go:289-312 | The first acceptable NS record fixes the delegated zone; exactly the NS records of that zone and the in-zone SOAs are kept, in order |
| Bailiwick.DistinctOwners | resolver/helper.go:261-287 | Pigeonhole: a chain of distinct names that all own records is no longer than the answer section |
| Bailiwick.ChainUnique | resolver/helper.go:259-287 | There is one and only one chain from a name that stays in the zone, follows first CNAMEs, repeats no name and cannot go on |
| Bailiwick.DelegatedZoneSound | resolver/helper.go:291-304 | The delegated zone lies in the trusted zone and encloses the queried name; there is none if and only if no NS record qualifies |
| BailiwickProofs.FilterAuthorityExact | resolver/helper.go:289-312 | The delegated zone is the owner of the first NS record, of whatever host, whose owner is in the zone and encloses the name; exactly the qualifying NS records of that owner and the in-zone SOAs survive |
| BailiwickProofs.NoDelegationExact | resolver/helper.go:289-322 | Without such a record nothing is delegated, no glue survives, and of the authority section exactly the in-zone SOAs do |
| BailiwickProofs.FilterGlueExact | resolver/helper.go:315-321 | Of the additional section exactly the records at or below the delegated zone survive |
| BailiwickProofs.FilteredAnswerExact | resolver/helper.go:259-287 | A record survives in the answer if and only if it was in the answer and a chain name owns it |
| BailiwickProofs.FilteredAnswerOnce | resolver/helper.go:259-287 | Each answer record is used exactly as often as it was sent, and the chain is no longer than the answer |
| BailiwickProofs.FilterStaysInZone | resolver/helper.go:233-248 | No record owned outside the trusted zone survives in any of the three sections |
| BailiwickProofs.FilterIdempotent | resolver/helper.go:258-325 | Filtering the filtered sections again, for the same zone and name, changes none of the four outputs |
| BailiwickProofs.NarrowerZoneGivesPrefix | resolver/helper.go:233-240 | Trusting a narrower zone keeps a prefix of the answer, cut where the chain first leaves the narrower zone |
| BailiwickProofs.FilterIgnoresOrder | resolver/helper.go:253-257 | With one CNAME target per owner, permuting the answer section changes neither the chain nor which records survive, nor how often |
| Chase.UnresolvedCNAMETarget | handlers/recursive.go:245-275 | A restart is asked for if and only if one or more CNAMEs lead to a name without records, past names without an answer, and the target is that name; the ghost verdict says exactly when each other exit is taken, in particular that running out of iterations means a real cycle |
| Chase.Scan | handlers/recursive.go:252-265 | One scan finds whether the name owns records, whether one answers the question, and the target of its last CNAME |
| Chase.LongChainLoops | handlers/recursive.go:251 | Pigeonhole: a chain still going after one hop more than there are records has come back to a name |
| Chase.ChainEnded | handlers/recursive.go:258-271 | Where a chain ends decides everything: it does not loop, and it is missing or answered exactly as its last name is |
| Chase.DanglesUnique | handlers/recursive.go:266-268 | At most one name can be the target of a restart |
| ChainPaths.RestartByPath | handlers/recursive.go:245-275 | A restart at a name is asked for if and only if the question is not for a CNAME, last CNAMEs lead to that name in one or more steps past names without a record of the queried type, and it owns no record |
| Agreement.ChaserIgnoresOrder | handlers/recursive.go:250-274 | With one CNAME target per owner, permuting the answer changes neither whether nor where resolution restarts |
| Agreement.RestartIgnoresOrder | resolver/helper.go:253-257 | With one CNAME target per owner, permuting a raw reply changes neither whether nor where its filtered answer makes resolution restart |
| Agreement.WalkersExact | handlers/recursive.go:245-275 | With one CNAME target per owner and a nonempty filtered answer, a restart is asked for if and only if the filter stopped because the next name left the zone or owned nothing in the raw answer and no name of its chain answers the question; the restart goes to that next name |
| Agreement.AgreementExact | handlers/recursive.go:236-244 | Chaser and filter agree on every target except exactly when the chain was cut short although a name on it answers the question |
| Agreement.WalkersAgree | resolver/helper.go:259-287 | Without an owner of both a CNAME and a record of the queried type they always agree |
| Agreement.MixedOwnerDisagrees | handlers/recursive.go:259-261 | With such an owner the chain may be cut short and yet no restart be asked for |
| Agreement.WalkersDisagree | handlers/recursive.go:262-264 | With two CNAMEs at one owner a restart may be asked for although nothing was cut short |
| Agreement.OrderMatters | resolver/helper.go:276-282 | With two CNAMEs at one owner the order of the answer section decides which records survive |
| Reach.FilteredAnswerConnected | resolver/helper.go:237-240 | Every record of a filtered answer is owned by a name that its own CNAMEs lead to from the queried name |
| Reach.DanglesReachable | handlers/recursive.go:63-69 | A restart goes to a nonempty name that the answer's CNAMEs lead to |
| Reach.ConnectedAppend | handlers/recursive.go:53 | Appending an answer connected to a name already reached keeps the whole connected |
| Writes.NegativeTTL | resolver/helper.go:202-215 | The method computes the negative TTL that the next three rows characterise |
| Writes.NegativeTtlExact | resolver/helper.go:195-213 | The smaller of TTL and MINIMUM of the first SOA record from inside the zone, in seconds |
| Writes.NegativeTtlDefault | resolver/helper.go:214 | Sixty seconds without an in-zone SOA |
| Writes.NegativeTtlAgrees | resolver/helper.go:305-312 | Deriving the TTL from the raw authority section or from the filtered one is the same |
| Writes.GroupByNameType | resolver/helper.go:224-231 | The groups have exactly the spelled owners and types that occur as keys, and each holds all its records in order |
| Writes.GroupExact | resolver/helper.go:224-231 | A group holds exactly the records with its owner, in this spelling, and its type |
| Writes.GroupsPartition | resolver/helper.go:224-231 | In whatever order the groups come up, together they hold every record exactly as often as it was sent |
| Writes.ReplyWritesLegit | resolver/helper.go:148-170 | Everything a reply makes a lookup write is one of the writes the invariant of the cache allows |
| Writes.ReplyWritesExact | resolver/helper.go:148-171 | What a reply makes a lookup write, condition by condition: the answer, the delegation, each glue group, and the denial of the name or of the question; and nothing else |
| Writes.LegitPutInZone | resolver/helper.go:143-156 | Every record of every positive entry is owned at or below the zone its server was trusted for |
| Writes.LegitPutConnected | resolver/helper.go:148-156 | A positive entry of any type but NS is connected to its own key |
| Writes.NsPutConnected | resolver/helper.go:151-153 | A delegation entry is connected to its key if and only if every SOA in it has the key as its owner |
| Writes.OnlySOAsUnreachable | resolver/helper.go:151-153 | If only SOAs survive, the entry goes under a name that no lookup asks for |
| CacheLog.MinTtlIsLeast | resolver/cache.go:76-81 | The TTL of an entry is attained by one of its records and exceeded by none of the others' |
| CacheReads.GetExact | resolver/cache.go:52-92 | A read returns what was last stored under exactly this spelling, type and class, until the TTL of any of the records has passed since the clock reading of that store |
| CacheReads.GetNothing | resolver/cache.go:58-61 | Where nothing was stored nothing is returned |
| CacheReads.GetNegativeExact | resolver/cache.go:94-122 | NXDOMAIN while the last denial of the name lasts, else success while the last denial of the type does, else nothing |
| CacheReads.GetDropsExpired | resolver/cache.go:62-65 | A read deletes the entry it reads if that has expired, and nothing else |
| CacheReads.GetNegativeDropsExpired | resolver/cache.go:107-120 | A read of denials deletes the expired one of the name and, unless the name is still denied, of the type |
| CacheLog.ReadsFollowLog | resolver/cache.go:52-121 | A read no earlier than the reads before it returns what the latest writes dictate, NXDOMAIN for any type before NODATA for its own; lazy deletion cannot be observed |
| CacheLog.EveryReadFollowsLog | resolver/cache.go:52-121 | The same for every read of a whole run with nondecreasing read times and arbitrary write times |
| CacheLog.ExecRefines | resolver/cache.go:52-139 | What the maps hold was last written, and what they have lost had expired before some read |
| CacheLog.HitsAreInZoneAndFresh | resolver/cache.go:52-92 | In every interleaving a hit is the latest write under its key, in the zone that write's server was trusted for, and it is never served later than the TTL of any of its records after the clock at its store |
| CacheLog.NegativeHitsAreFresh | resolver/cache.go:94-139 | A negative hit comes from a reply that said NXDOMAIN to a question for that very name, or NODATA to that very question, and it is never served later than that reply's negative TTL after the clock at its store |
| CacheLog.GlueOrderIrrelevant | resolver/helper.go:154-156 | Caching the glue groups at one instant leaves the same cache in whatever order the map yields them |
| Cache.Cache.constructor | resolver/cache.go:43-49 | A new cache is empty, with an empty history |
| Cache.Cache.Get | resolver/cache.go:52-67 | Returns what the history dictates at the time of the read, and keeps the maps equal to a replay of the history |
| Cache.Cache.GetNegative | resolver/cache.go:100-122 | The same for negative entries |
| Cache.Cache.DropExpiredNegative | resolver/cache.go:107-121 | What is answered and what is deleted, map by map |
| Cache.Cache.Set | resolver/cache.go:71-92 | Adds one write to the history, expiring after the smallest TTL counted from a clock reading made during the call, before the store; operations of other requests may come in between; nothing for no records |
| Cache.Cache.SetNXDomain | resolver/cache.go:125-130 | Adds one write for the name at any type, counted from the clock at the store, which lies between the beginning and the end of the call |
| Cache.Cache.SetNoData | resolver/cache.go:134-139 | Adds one write for the name and type, counted from the clock at the store, which lies between the beginning and the end of the call |
| Cache.Cache.Others | resolver/cache.go:12-17 | Any number of operations of other requests keep the cache valid and its writes legitimate |
| Helper.RequestHelper.Lookup | resolver/helper.go:103-181 | Every outcome is a hit, a negative hit, a filtered reply of one of the servers, or one of the errors; a hit is what a write of an actual reply left under the question; the outcome is what the reads of the cache saw; the request's own cache operations, made between the beginning and the end of the call, are the two reads and then exactly the writes of the reply, in order; the servers are asked as `Helper.MissDecided` says, and not at all on a hit; all calls of the request so far occurred, one after another, in the history of the cache |
| Helper.MissDecided | resolver/helper.go:116-181 | After a miss the call succeeds if and only if some server is the first to reply before the context is found cancelled, with that reply filtered; it is cancelled, or fails for want of a reply, if and only if the context or the servers make it so; under a context that stays live it succeeds if and only if any server would reply, and else all were asked |
| Network.SomeStop | resolver/helper.go:127-138 | Going through the servers, either one is the first to reply, or the context is found cancelled before that, or all are asked in vain |
| Network.OneStop | resolver/helper.go:127-138 | And never two of these |
| Network.LiveContext | resolver/helper.go:128-130 | Under a live context some server is the first to reply if and only if any of them would |
| Helper.RequestHelper.ConsultCache | resolver/helper.go:107-114 | Positive entries before negative ones, with empty authority and additional sections |
| Helper.RequestHelper.ConsultNegative | resolver/helper.go:111-114 | A negative entry answers with its RCode and no records, and it was denied by a reply to that question |
| Helper.RequestHelper.LookupMissed | resolver/helper.go:116-181 | After a miss the call is completed by what the context and the servers bring |
| Helper.RequestHelper.LookupOnce | resolver/helper.go:103-181 | One call, from the cache or from one of the servers |
| Helper.RequestHelper.Contact | resolver/helper.go:116-181 | The first reply is filtered for the zone and remembered; without servers, without a reply or with a cancelled context, the error says so |
| Helper.RequestHelper.QueryServers | resolver/helper.go:127-138 | The context is read before each server is asked; the servers are asked in order, each once, until the first reply, until the context is found cancelled, or all |
| Helper.RequestHelper.Digest | resolver/helper.go:143-178 | The result is the filtered reply, and all writes it entitles to are made |
| Helper.RequestHelper.StoreReply | resolver/helper.go:148-171 | The writes in order: answer, delegation, glue groups, negative entry |
| Helper.RequestHelper.StoreGlue | resolver/helper.go:154-156 | Each group is written once, in some order |
| Replay.SecondLookup | resolver/helper.go:107-171 | Whatever other requests read, and write under other questions, after a miss and the writes of its reply the cache holds an outcome for the question exactly while a remembered reply lasts: its filtered answer, or its denial |
| Replay.SecondAnswerSame | resolver/helper.go:159-161 | Served in time, the second call has the first one's RCode, and its answer if and only if the reply was not an NXDOMAIN with records |
| Replay.HitDecided | resolver/helper.go:107-114 | Among any operations of other requests, a lookup is a hit, with that outcome, exactly if its reads find something where they stand in the history |
| Replay.CallReplayed | resolver/helper.go:103-181 | Two calls for one question, by any requests, among any other operations that are no writes under the question: the second is served without asking a server exactly while the first one's reply is remembered and lasts |
| Replay.LookupReplayed | resolver/helper.go:103-181 | The same in terms of what Lookup promises about the history before and after each of the two calls, the reply lasting its TTL counted from a time between the miss and the last write of the first |
| Replay.UntilInTime | resolver/cache.go:84-91 | A reply lasts for its TTL counted from a time between the miss of its lookup and the last of its writes |
| ReplayInstance.NoSuchNameReplayed | resolver/helper.go:159-162 | After a bare NXDOMAIN, the same question within a minute is answered with NXDOMAIN from the cache, whatever other requests do elsewhere |
| ReplayInstance.AskedTwice | resolver/helper.go:159-162 | A history, with a read by a third request in between, that meets everything the replay theorem asks for |
| Walk.WentOn | handlers/recursive.go:118-120 | After a referral is followed, zone and servers are those of the referral and the record stays valid |
| Walk.Settled | handlers/recursive.go:90-116 | A resolution that ends at a lookup leaves a valid record, whose lookups are those before it and its own |
| Steps.QuestionAsked | handlers/recursive.go:81-90 | Every lookup of a resolution is for its question; the first one asks the servers of the root |
| Steps.FailureEnds | handlers/recursive.go:91-93 | A lookup that fails ends the resolution with its error |
| Steps.FinalEnds | handlers/recursive.go:95-103 | A lookup that succeeds ends the resolution with its outcome if and only if its RCode is not 0, or it has an answer, or no NS record |
| Steps.ReferralLeads | handlers/recursive.go:105-124 | Otherwise the owner of the first NS record decides: no progress if it is the zone asked; a failure if no servers are found for it; else the next lookup is there with these servers, unless twenty lookups were made or the budget is spent to the last |
| Steps.NoLookup | handlers/recursive.go:85-87 | A resolution makes no lookup only if it has no budget |
| Steps.DelegationOwnerExact | handlers/recursive.go:206-213 | The owner of the first NS record |
| Steps.GlueServes | handlers/recursive.go:134-155 | With usable glue for a host of the referral nothing is resolved, and the servers are exactly what the glue gives |
| Steps.HostsServe | handlers/recursive.go:157-184 | Without it the hosts are resolved in turn, unless the resolution is itself four deep: servers are found if and only if some of these resolutions holds a usable A record, the first such ending the search; otherwise the error names all hosts and the last failure |
| Steps.HostsAsked | handlers/recursive.go:163-164 | Each host is resolved for its A records, one level deeper |
| Steps.LastErrorExact | handlers/recursive.go:162-168 | The failure reported is the last one |
| Addresses.AllGlueExact | handlers/recursive.go:134-152 | The glue gives a server if and only if an A or AAAA record of 4 or 16 bytes, owned by one of the hosts, says so |
| Addresses.AnswerAddrsExact | handlers/recursive.go:169-175 | An answer gives a server if and only if an A record of 4 or 16 bytes says so |
| Addresses.AddressesInOrder | handlers/recursive.go:136-175 | Addresses come in the order of the records |
| Addresses.GlueInOrder | handlers/recursive.go:135-152 | And glue addresses host by host |
| WalkProofs.WalkWithinBudget | handlers/recursive.go:85-88 | A resolution and all those nested in it make no more lookups than the budget they started with |
| WalkProofs.InsideValid | handlers/recursive.go:157-164 | Resolutions nest at most four deep, those inside ask for addresses, and each is as valid as the outermost |
| WalkProofs.ReferralSound | handlers/recursive.go:105-108 | A referral from a lookup delegates one zone: a reply's NS record names it, every NS record in it has that owner, it lies in the zone asked and encloses the name, and all glue is at or below it |
| WalkProofs.ZonesEnclose | handlers/recursive.go:81-121 | The zone of every lookup encloses the name; the first is the root, and each later one is the owner of the referral before it, inside its zone and with more labels |
| WalkProofs.ZonesNarrow | handlers/recursive.go:84-121 | Of any two lookups of a resolution the later one's zone is inside the earlier one's and has strictly more labels |
| WalkProofs.HopsBoundedByLabels | handlers/recursive.go:84-124 | Whatever servers send, a resolution makes at most one lookup of its own for each label of the name and one for the root |
| WalkProofs.HopLimitNeedsLabels | handlers/recursive.go:123 | The hop limit does not stop the resolution of a name with fewer than twenty labels |
| WalkProofs.UniqueNSNamesExact | handlers/recursive.go:218-234 | Exactly the hosts named by the NS records, each once up to case |
| WalkProofs.UniqueNSNamesFirstSeen | handlers/recursive.go:215-234 | They come in the order of their first appearance, in the spelling found there |
| WalkProofs.ServersJustified | handlers/recursive.go:131-185 | Every later list of servers is nonempty, and each server in it is a host of the last referral with an address from glue inside the delegated zone or from a resolution of exactly that host |
| Descent.WalkGrounded | handlers/recursive.go:80-185 | At every depth, each lookup's zone encloses its name and is the root or was delegated to a lookup of the same question in a strictly enclosing zone |
| Descent.RunGrounded | handlers/recursive.go:43-73 | The same for all lookups of a request, across restarts |
| Descent.EveryResolution | handlers/recursive.go:131-185 | Every resolution of a request, however deeply nested, is at a depth of at most four, is no longer than its name has labels, and asks justified servers |
| HopLimit.HopLimitReached | handlers/recursive.go:84-123 | For every name of twenty labels or more there are replies that exhaust the hops, and a history from an empty cache in which all twenty lookups miss |
| HopLimit.HopLimitExact | handlers/recursive.go:15-18 | The hop limit can stop a resolution, in a history that can happen, if and only if the name has at least twenty labels |
| Run.RunWithinBudget | handlers/recursive.go:30-36 | No request makes more than a hundred lookups, however its resolutions nest, fail and restart |
| Run.BudgetSpent | handlers/recursive.go:85-88 | A request runs out of budget only after exactly a hundred lookups |
| Run.AllButLastRestart | handlers/recursive.go:46-69 | The first resolution is for the queried name with a budget of a hundred; each further one is for the name at which the answer of the one before dangles, that one having succeeded with RCode 0 |
| Run.ResponseExact | handlers/recursive.go:53-66 | A response has the RCode of the last lookup, its authority section if the RCode is not 0 or there is no answer and else none, and the answers of the last lookups of all resolutions one after another |
| Run.FailureExact | handlers/recursive.go:49-72 | A request fails with the error of its last resolution, or after eight resolutions whose last answer still leads elsewhere, and in no other case |
| Run.RestartReached | handlers/recursive.go:63-69 | The name of every restart is reached by the answers joined so far |
| Run.ResponseConnected | handlers/recursive.go:43-73 | For every type but NS, each record of a response is owned by a name that the response's own CNAMEs lead to from the queried name, across restarts, cache hits, cached glue and negative endings |
| Run.NsLookupConnected | resolver/helper.go:107-110 | For type NS the same holds except from a cached delegation, and from that one if and only if its SOAs belong to the delegated zone |
| Run.NsResponseConnected | handlers/recursive.go:43-73 | For type NS a whole response is connected too, unless its last lookup was answered by a cached delegation, and then if and only if the owners of the SOAs in that delegation are reached as well |
| DelegationInstance.NsAnswerDisconnected | resolver/helper.go:151-153 | A history in which a referral is cached and a later request for NS records, run to its end, is answered from it with an unrelated SOA |
| Recursive.ResolveIterative | handlers/recursive.go:80-124 | The resolution leaves a valid record; the request's lookups grow by exactly those of the record, and the budget shrinks by as many |
| Recursive.FollowReferral | handlers/recursive.go:108-116 | A referral to the same zone is no progress; otherwise servers are found or the failure says for which zone |
| Recursive.ResolveNameservers | handlers/recursive.go:131-185 | Glue if there is any; otherwise one nested resolution after another, on the shared budget, up to the first that yields an address |
| Recursive.ResolveHosts | handlers/recursive.go:162-184 | The hosts are resolved one after another on the shared budget, up to the first that yields an address |
| Recursive.UniqueNames | handlers/recursive.go:218-234 | Computes the hosts that `WalkProofs.UniqueNSNamesExact` characterises |
| Recursive.CollectGlue | handlers/recursive.go:134-152 | All usable addresses the glue gives, name by name |
| Recursive.CollectAddrs | handlers/recursive.go:169-175 | All usable A records of an answer |
| Recursive.ResolveOnce | handlers/recursive.go:48-70 | One resolution from the root decides the request, or leads to the name at which its answer dangles |
| Recursive.ResolveRestarting | handlers/recursive.go:46-72 | The loop over restarts leaves a valid run that ends in its outcome, and makes exactly the lookups of that run |
| Recursive.Handle | handlers/recursive.go:43-73 | A request leaves a valid run that ends in its outcome, makes exactly the lookups of that run and at most a hundred, each in a zone it was led to; its response is what `Run.ResponseExact` says, and connected for every type but NS, and for NS exactly as `Run.NsResponseConnected` says |
| Lru.StoredExactly | resolver/trace.go:75-110 | After any run with fresh ids, an id is stored if and only if it was put and fewer than the capacity of distinct other ids were used since |
| Lru.LargerContainsSmaller | resolver/trace.go:75-110 | Fed the same operations, a larger store always holds the records of a smaller one, in the same order of recency |
| Lru.RunDistinct | resolver/trace.go:79-96 | With fresh ids no id is listed twice and the size never exceeds the capacity |
| Lru.RunLength | resolver/trace.go:89-95 | The store is as full as its capacity and the number of puts allow; nothing is evicted early |
| Lru.StoredRecord | resolver/trace.go:79-87 | What is stored under an id is a record that was put under it |
| TraceStore.TraceStore.constructor | resolver/trace.go:67-73 | A new store is empty |
| TraceStore.TraceStore.Put | resolver/trace.go:79-96 | The list becomes that of the LRU specification; list and index stay in bijection if and only if the id is fresh |
| TraceStore.TraceStore.Get | resolver/trace.go:100-110 | Returns the indexed record, one that was put under the id, and moves it to the front; with fresh ids there is a hit if and only if the id was put and fewer than the capacity of others were used since |
| TraceStore.PutIndexed | resolver/trace.go:86-93 | A put keeps list and index in bijection exactly if its id was not stored |

## Left out

- Sockets, message packing, truncation, retries over TCP and the timeout around a handler (`resolver/server.go`): a server that does not answer in time is one that sends no reply.
- `ExchangeContext` and the context are an arbitrary world: each exchange brings any reply or none, and the context may be found cancelled from any reading on. The last network error that the failure of all servers wraps is not modelled.
- Names that are neither empty nor absolute, escapes inside labels, and case folding outside ASCII: names off the wire are absolute.
- A record's type field that contradicts its RDATA, and the record's class, which the code never looks at.
- Arbitrary RDATA beyond addresses, NS hosts, CNAME targets and SOA minimums: the resolver passes it through.
- The backing arrays of Go slices: cached records are values, so sharing them between the cache and a response is not modelled.
- `container/list` is a sequence of element objects; its pointers are not part of this model. Nor are data races: each cache and store operation is one step, as under its mutex, and `Set` is two.
- The range of the clock: times are unbounded integers.
- Replay.CallReplayed: asks that no delegation or glue of the reply is cached under the question itself, as such a write replaces or adds to what is remembered. So do Replay.LookupReplayed and Replay.SecondLookup.
- Trace lines, logging, id generation and the HTTP endpoint of the trace store.
- `handlers/gemini.go`, `handlers/interactive.go`, `handlers/static.go`, `resolver/roothints.go` and `main.go`: a remote API, a terminal, constants and wiring. Root hints are an arbitrary list of servers.
