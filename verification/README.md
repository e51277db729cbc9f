# Verified model of the APISIX Go plugin runner

The plugin runner is a sidecar. APISIX sends it calls over a Unix socket, each a frame of one type
byte, a 3-byte length and data. A `PrepareConf` call caches a plugin configuration and returns a
token; an `HTTPReqCall` or `HTTPRespCall` runs the configured plugins over one request or response
and returns a diff of what they changed. While a call runs, a plugin may ask APISIX back for a
variable or a body over the same socket.

This project models that machinery in Dafny and proves what it guarantees over all inputs, all runs
and all interleavings. `dafny verify dfyconfig.toml` checks everything.

| file | models |
|---|---|
| `Frames.dfy`, `Session.dfy`, `Conn.dfy` | frames, the connection as a function of the incoming bytes, and the connection loop over a socket that splits reads and writes and may fail |
| `HttpHeader.dfy`, `Header.dfy` | canonical header names, the header overlay and its diff |
| `Args.dfy`, `ArgsClone.dfy` | the argument diff, and the argument clone at the level of slices and arrays |
| `RequestModel.dfy`, `RequestProofs.dfy`, `Request.dfy` | the request overlay as a function of plugin calls, the theorems about it, and the object |
| `ReqResponse.dfy`, `Response.dfy` | the stop reply and the response overlay |
| `Plugin.dfy` | the registry, both plugin chains, both calls end to end |
| `ConfCache.dfy` | the configuration cache as a step system with clock, expiry and faults, and the object |
| `Builders.dfy` | the builder pool shared by all concurrent connections |

## Reading the results

A reply is a diff, so its meaning is what APISIX makes of it. `Header.Receive`, `Args.ReceiveArgs`,
`RequestModel.Apply` and `Response.ApplyResp` define that receiver: an entry with a value replaces
(further entries of the same argument extend), an entry without a value removes, an absent part
stays. A map iteration is any enumeration of the keys, so every statement about a diff holds for
every iteration order. "Intended" is always computed from the plugin's calls alone (the last edit
of a name wins), never from the overlay.

Where the plain claim is false of the code, the theorem states exactly when it holds:

- A header deletion is lost exactly when the name's original value is not empty, its last edit is
  a `Del`, and after its first `Del` came a `Set` in the very same spelling
  (`Header.DiffExact`, at an input `Header.LostDeleteWitness`).
- `Get` does not show a header set to the empty string exactly when the original value is not empty
  and the name was never deleted (`Header.DiffExact`, `Header.HiddenEmptyWitness`).
- `Set` is documented to replace all values of a header and `Del` to delete them. The receiver keeps
  further values when a multi-valued header is set to its own first value, and keeps a header whose
  first value is empty when it is deleted (`Header.WholeFieldExact`, `Header.RestKeptWitness`,
  `Header.EmptyKeptWitness`).
- An argument left with an empty list is not reported; the receiver ends with the plugin's arguments
  exactly when there is none (`Args.ArgsDiffExact`).
- A body set to the empty one is undone exactly when the body is then read back and was not empty
  (`RequestProofs.RewriteExact`, `RequestProofs.BodyUndoneWitness`). Not read back it arrives, but
  `Body` would answer the original (`RequestProofs.BodyUnseenWitness`).
- The length field counts to 2^24 - 1, but the size check compares with 2^25 - 1. The replies it lets
  through and the peer misreads are exactly those from 2^24 to 2^25 - 2 bytes
  (`Session.OversizeReplyAdmitted`).
- A status survives exactly when it fits sixteen bits (`ReqResponse.StopExact`,
  `Response.RespStatusExact`).
- Using the response headers ends the response chain even if they are only read
  (`Response.RespChangeExact`).
- A rewritten response body that is empty does not replace a nonempty original
  (`Response.RespBodyExact`, `Response.EmptyBodyWitness`).
- Tokens are unique exactly up to 2^32 issues (`ConfCache.GetExact`).
- The comment on the cache time says that the cached configuration outlives the token in APISIX. It
  does strictly exactly for times of 5 seconds or more; below, both last equally long
  (`ConfCache.TtlExact`).
- A hit of a key renews the key and not its token. The token under a key is sure to resolve exactly
  while less than the cache time has passed since the token itself was issued or found by `Get`
  (`ConfCache.KeyResolvesExactly`, at an input `ConfCache.KeyOutlivesToken`). The key itself is sure to
  return the same token exactly while less than that time has passed since its own last use
  (`ConfCache.KeyReturnsExactly`).

## Model

| member | source | states |
|---|---|---|
| Frames.HeaderRoundTrip | internal/server/server.go:125-143 | a written header gives back the type, and the size modulo 2^24; the size itself if and only if it is below 2^24 |
| Frames.HeaderBytes | internal/server/server.go:140-143 | a header is the type byte and the size in three bytes, the highest first, in numbers |
| Frames.ParseExact | internal/server/server.go:120-137 | what is read as a frame of any byte string, in numbers: four bytes and as many more as the last three of these count |
| Frames.StreamRoundTrip | internal/server/server.go:119-155 | frames written one after another, with any incomplete tail behind, are read back if and only if each is below 2^24 bytes |
| Frames.OversizeMisread | internal/server/server.go:140-151 | a larger frame is always read as a different one |
| Session.ExactlyTheCompleteFrames | internal/server/server.go:119-139 | for every service, that is one handler for each call so that handlers may remember earlier calls, the frames dispatched and the answers consumed are in order exactly the complete frames of the stream; a truncated tail is never used |
| Session.ServeConsumes | internal/http/request.go:354-385 | each nested exchange takes exactly one complete peer frame, and all that is left if there is none |
| Session.KeepsProtocol | internal/server/server.go:112-159 | every run of every such service keeps to the protocol automaton: one reply of the call's own or the error type before the next call is read, each answer after its own request, nothing read from a peer that is gone |
| Session.PeerReadsBack | internal/server/server.go:139-155 | for every such service the peer reads back exactly the frames sent if and only if in every call each request of the handler, and its result or the report sent instead, is below 2^24 bytes |
| Session.OversizeReplyAdmitted | internal/server/server.go:98-110 | the handler results that pass the size check and are misread are exactly those of 16777216 to 33554430 bytes |
| Session.EachCallServed | internal/server/server.go:47-110 | in every trace there is one call record for each frame dispatched, in order, and all that is sent is their requests and replies; in the numbers of the protocol, a call of type 1, 2 or 4 has the requests and answers of its own handler and is answered under its type, with that handler's bytes, if and only if the handler finished with fewer than 33554431; every other outcome is a reply of type 0 with the report of one determined code, and a call of another type asks nothing |
| Session.StatefulServiceCovered | internal/plugin/conf.go:116-117 | two equal frames on one connection can get two different replies, as a token counter gives them |
| Conn.ReadBytes | internal/util/msg.go:70-80 | for every split of the reads, without error at least n bytes (exactly n into a buffer of n) are moved in order; on error the count is exactly the prefix moved |
| Conn.WriteBytes | internal/util/msg.go:82-92 | the same for writing |
| Conn.ReadFrame | internal/server/server.go:120-137 | a frame is returned exactly when the stream holds a complete one, independent of read sizes and of the reused buffer's contents |
| Conn.WriteFrame | internal/server/server.go:140-155 | the whole frame is delivered, or a prefix of it on a broken socket |
| Conn.AskExtraInfo | internal/http/request.go:334-386 | one frame out, one frame in; a failure is reported as a closed connection |
| Conn.RunHandler | internal/http/request.go:148-154 | a handler's exchanges over the socket are those the stream determines, a prefix of them if the socket breaks |
| Conn.ServeCall | internal/server/server.go:139-157 | dispatch and reply of one call, against the same specification |
| Conn.HandleConn | internal/server/server.go:112-159 | for every service, also with memory of earlier calls, and every split of reads and writes the run is exactly the trace the incoming bytes determine; on a socket that breaks, frames dispatched and bytes written are a prefix of it |
| HttpHeader.CanonIdempotent | internal/http/header.go:57-77 | the canonical form of a canonical name is itself |
| HttpHeader.CanonCaseInsensitive | pkg/http/http.go:133-144 | two tokens name the same header if and only if they agree up to case |
| HttpHeader.CanonExact | pkg/http/http.go:133-144 | the canonical name letter by letter: capital at the start and after a hyphen, small elsewhere; a name that is no token is left alone |
| HttpHeader.ParseExact | internal/http/header.go:39-55 | each header field of a message has the values of its entries in order, and there is no other field |
| Header.RunRepresents | internal/http/header.go:57-69 | after any run of edits the three maps of the overlay are what the history of each name says |
| Header.DiffExact | internal/http/header.go:57-111 | for every run, iteration order and spelling: the receiver has what the edits ask for unless a deletion was lost, Get answers it unless an empty value was hidden, both agree unless one of these happened |
| Header.WholeFieldExact | internal/http/header.go:57-111 | the same for all values of a field, against the documentation of Set and Del |
| Header.LostDeleteWitness | internal/http/header.go:57-69 | deleting, setting and deleting a header again sends nothing |
| Header.HiddenEmptyWitness | internal/http/header.go:71-77 | a header set to the empty string still shows its original value |
| Header.RestKeptWitness | internal/http/header.go:97-108 | a field of two values set to the first of them keeps both at the receiver |
| Header.EmptyKeptWitness | internal/http/header.go:62-69 | a field whose first value is empty is not deleted at the receiver |
| Header.Received | internal/http/header.go:85-111 | what the receiver has after the diff, name by name, for every iteration order |
| Header.NoEditsNoDiff | internal/http/header.go:85-111 | without edits the diff is empty |
| Header.Header.constructor | internal/http/header.go:39-55 | the overlay starts with the fields of the message and no edit |
| Header.Header.Set | internal/http/header.go:57-60 | adds one Set to the history and keeps the object what its history says |
| Header.Header.Del | internal/http/header.go:62-69 | adds one Del to the history and keeps the object what its history says |
| Header.Header.Get | internal/http/header.go:71-77 | answers what the edits ask for if and only if no empty value is hidden |
| Header.EmitDeleted | internal/http/header.go:88-95 | one entry without value per delete mark, in any order |
| Header.EmitChanged | internal/http/header.go:97-108 | one entry per name whose first value differs from the original's, in any order |
| Header.HeaderBuild | internal/http/header.go:85-111 | a diff in which every name reaches the receiver as asked if and only if its deletion was not lost |
| Args.ParseArgsExact | internal/http/request.go:121-135 | each argument name has the values of its entries in order, and there is no other name |
| Args.ArgsDiffExact | internal/http/request.go:252-288 | for all old and new arguments and all iteration orders the receiver ends with the new ones if and only if they have no empty list |
| Args.EmptyListKept | internal/http/request.go:267-279 | a name emptied instead of deleted keeps its old values at the receiver |
| Args.OnlyChangesMentioned | internal/http/request.go:257-280 | unchanged names are never mentioned and equal arguments give the empty diff |
| Args.EmitRemoved | internal/http/request.go:257-266 | one entry without value per removed name |
| Args.EmitUpdated | internal/http/request.go:267-280 | for each new or changed name all its values in order |
| Args.ArgsDiff | internal/http/request.go:252-288 | the emitted entries, applied to the old arguments, give the new ones if and only if these have no empty list |
| ArgsClone.CountValues | internal/http/request.go:107-110 | the slab is as long as all lists together, summed in any order |
| ArgsClone.CutOne | internal/http/request.go:113-117 | a copy is not cut short, and the piece has no capacity to grow into the next |
| ArgsClone.CloneUrlValues | internal/http/request.go:106-119 | one fresh slab, cut into disjoint slices full to capacity that use it up exactly; the clone equals the source |
| ArgsClone.CloneThenEdit | internal/http/request.go:121-135 | after any run of appends, assigned lists, lists shared between names, deletions, in-place writes and slicings the clone still holds the original; without sharing, and without slicing beyond a list's length, the plugin's arguments follow the edits |
| RequestProofs.RunTracks | internal/http/request.go:91-135 | after any run of calls the lazily made header overlay and argument clone are those of this request and these edits |
| RequestProofs.RewriteExact | internal/http/request.go:201-316 | the rewrite reply applied to the original gives the path last set and seen; the arguments last made and seen if and only if none has an empty list; the response headers given along and not removed again; the body asked for unless an empty one was read back, and the body seen next unless an empty one was not |
| RequestProofs.BodyUndoneWitness | internal/http/request.go:165-184 | a body emptied and then read back arrives unchanged |
| RequestProofs.BodyUnseenWitness | internal/http/request.go:165-184 | a body emptied and not read back arrives empty, while Body would answer the original |
| RequestProofs.RewriteHeadersExact | internal/http/request.go:216-228 | and every header name the value asked for unless its deletion was lost, the value last seen unless also an empty value was hidden |
| RequestProofs.RewriteGiven | internal/http/request.go:201-204 | there is a rewrite reply if and only if the calls leave a path set or a body set or read, or used headers, arguments or response headers at all |
| RequestProofs.ListingExact | internal/http/request.go:230-250 | a listing read back gives every name its values in order, names without values left out, and is as long as all values together |
| RequestProofs.ObservesExact | internal/http/request.go:80-180 | after any run Path and Args answer what was last asked for, RespHeader what was given along, Header.Get what was asked for or, if an empty value is hidden, the original, Body the nonempty one set or else the first nonempty one read since, otherwise the peer's answer |
| RequestProofs.ObservationsAt | internal/http/request.go:80-184 | the observations of a run are those of its calls in order, each after the calls before it |
| RequestProofs.ReadsChangeNothing | internal/http/request.go:80-180 | calls that only read may cause a rewrite reply, but applied it leaves the request exactly as it arrived |
| RequestProofs.ReuseUnobservable | internal/http/request.go:186-199 | on a pooled object of any past every run shows the plugins the same and allows the same replies as on a new one, although the argument clone is kept |
| RequestProofs.VariableCache | internal/http/request.go:137-163 | over any run a variable costs one successful exchange if any succeeded, none otherwise; what Var answers next is the answer of that exchange, and without one what the peer answers now |
| Request.BuildVector | internal/http/request.go:220-227 | a vector built from the last entry to the first holds the entries in order |
| Request.ListHeader | internal/http/request.go:231-242 | every value of every name, in any iteration order of the names |
| Request.Request.Var | internal/http/request.go:137-163 | asks the peer if and only if the name is not cached, and keeps successful answers only |
| Request.Request.Body | internal/http/request.go:165-180 | asks the peer if and only if no nonempty body is cached, and answers what `ObservesExact` determines |
| Request.Request.OpenHeader | internal/http/request.go:91-97 | makes the overlay once |
| Request.Request.OpenArgs | internal/http/request.go:121-135 | parses the arguments, as `ParseArgsExact` determines them, and clones them once |
| Request.Request.Perform | internal/http/request.go:80-184 | every plugin call does and returns what the model says; what it returns is determined by `ObservesExact` and `VariableCache` |
| Request.Request.PerformAll | internal/http/request.go:80-184 | so does every run of calls, with everything the plugin observes on the way |
| Request.Request.FetchChanges | internal/http/request.go:201-316 | nothing if nothing was touched, else the diff of each touched part |
| Request.Request.Reset | internal/http/request.go:186-199 | clears all but the message and the argument clone |
| Request.Request.Renew | internal/http/request.go:394-403 | a pooled object takes on a new message |
| ReqResponse.StopExact | internal/http/req-response.go:43-131 | there is a stop reply if and only if something was written or a nonzero status given; it has all writes in order, a listing of exactly the headers the calls leave, and the first status modulo 65536, 200 without one, exact if and only if it fits sixteen bits |
| ReqResponse.EarlierHeadersSurvive | internal/http/req-response.go:77-99 | a header given by earlier calls is in the stop reply unless a later call writes over it or removes it |
| ReqResponse.ReqResponse.Write | internal/http/req-response.go:43-51 | appends to the body |
| ReqResponse.ReqResponse.WriteHeader | internal/http/req-response.go:53-60 | the first nonzero status stands |
| ReqResponse.ReqResponse.Reset | internal/http/req-response.go:62-66 | nothing of the earlier life is left |
| ReqResponse.ReqResponse.FetchChanges | internal/http/req-response.go:72-131 | the stop reply of the accumulated response |
| Response.RespStatusExact | internal/http/response.go:181-228 | the status APISIX has after the reply sent is the first one given modulo 65536, the original if that is 0, and it is the one StatusCode reports if and only if that fits sixteen bits; the reply has the id of the call |
| Response.RespBodyExact | internal/http/response.go:217-234 | the body at APISIX is all writes in order, or the original without any, unless the writes are empty and the original is not |
| Response.EmptyBodyWitness | internal/http/response.go:217-234 | an empty body written over a nonempty one is not sent |
| Response.RespHeadersExact | internal/http/response.go:203-215 | every header name has the value asked for unless its deletion was lost, and the value last seen unless also an empty value was hidden |
| Response.RespChangeExact | internal/http/response.go:194-196 | a run counts as a change if and only if it wrote, gave a nonzero status or used the headers at all |
| Response.RespObservesExact | internal/http/response.go:111-179 | after any run StatusCode answers the first status given or the original, Header.Get what was asked for or, if an empty value is hidden, the original, ReadBody the first nonempty body read, otherwise the peer's answer |
| Response.RespObservationsAt | internal/http/response.go:111-188 | the observations of a run are those of its calls in order, each after the calls before it |
| Response.RespVariableCache | internal/http/response.go:134-160 | over any run a variable costs one successful exchange if any succeeded, none otherwise; what Var answers next is the answer of that exchange, and without one what the peer answers now |
| Response.Response.Var | internal/http/response.go:134-160 | asks the peer if and only if the name is not cached, answers from the cache otherwise, and keeps successful answers only |
| Response.Response.ReadBody | internal/http/response.go:162-179 | asks the peer if and only if no nonempty body is cached, and answers from the cache otherwise |
| Response.Response.Perform | internal/http/response.go:111-188 | every plugin call does and returns what the model says |
| Response.Response.PerformAll | internal/http/response.go:111-188 | so does every run of calls, with everything the plugin observes on the way |
| Response.Response.FetchChanges | internal/http/response.go:198-240 | the diff of each touched part, nothing if nothing was touched |
| Response.Response.Reset | internal/http/response.go:246-253 | clears everything but the message |
| Response.Response.Renew | internal/http/response.go:261-266 | takes on a new message and clears nothing |
| Plugin.PluginRegistries.RegisterPlugin | internal/plugin/plugin.go:72-100 | succeeds if and only if everything is given and the name is free; otherwise nothing changes |
| Plugin.RequestFilter | internal/plugin/plugin.go:112-130 | runs exactly the resolvable plugins in configuration order up to and including the first that responds; equal entries may behave differently at different places |
| Plugin.ChainDetermined | internal/plugin/plugin.go:112-130 | that description leaves no choice |
| Plugin.ResolvableExact | internal/plugin/plugin.go:113-118 | the chain leaves out exactly the entries whose plugin is not registered and keeps the order |
| Plugin.ChainCalls | internal/plugin/plugin.go:112-130 | spelled out: each plugin that runs has its own RequestFilter called with its own configuration on what the ones before left, none of those had written or given a status, and either all ran or the last one did |
| Plugin.BuildReqReply | internal/plugin/plugin.go:132-148 | Stop if a plugin responded, else Rewrite if the request was touched, else neither |
| Plugin.HTTPReqCall | internal/plugin/plugin.go:150-172 | on pooled objects of any past the reply is one the chain, spelled out as in `ChainCalls`, gives on new objects, an unknown token gives an error, and the objects go back clean |
| Plugin.CallRewriteExact | internal/plugin/plugin.go:150-172 | end to end for every registry and configuration: the reply has the id of the request and is a rewrite if and only if the request was touched; path, arguments, response headers, body asked for and seen, and every header asked for and seen are at APISIX as the chain left them, with exactly the exceptions above |
| Plugin.CallStopExact | internal/plugin/plugin.go:112-148 | a stop reply has the id of the request and carries what all plugins run wrote together, a listing of exactly the headers they leave, and the first status any gave |
| Plugin.ChainHeadersSurvive | internal/plugin/plugin.go:112-148 | a header given by an earlier plugin is in the stop reply of a later one unless changed in between |
| Plugin.ReadOnlyCall | internal/plugin/plugin.go:112-148 | if the calls made in this run only read, whatever else is registered, nothing stops the chain and the request stays exactly as it arrived |
| Plugin.ChainReads | internal/plugin/plugin.go:112-130 | plugins of the chain that only read make a run of only reads |
| Plugin.ResponseFilter | internal/plugin/plugin.go:177-195 | the same for the response chain |
| Plugin.RespChainCalls | internal/plugin/plugin.go:177-195 | spelled out: each plugin that runs has its own ResponseFilter called on what the ones before left, none of those had changed anything, and either all ran or the last one did |
| Plugin.BuildRespReply | internal/plugin/plugin.go:197-209 | the diff, or an empty reply with the id |
| Plugin.HTTPRespCall | internal/plugin/plugin.go:211-229 | on a clean pooled object the reply is one the chain, spelled out as in `RespChainCalls`, gives on a new object, an unknown token gives an error, and the object goes back clean |
| Plugin.RespCallExact | internal/plugin/plugin.go:211-229 | end to end for every registry and configuration: status, body and headers that APISIX has after the reply sent are those the chain asked for, with exactly the exceptions above |
| ConfCache.DecimalInjective | internal/plugin/conf.go:118-132 | different tokens have different cache keys |
| ConfCache.GetExact | internal/plugin/conf.go:69-137 | over every interleaving of Set, Get, expiry and cache faults Get finds nothing or exactly what the last Set given that token built, and tokens are distinct if and only if at most 2^32 were issued |
| ConfCache.LatestIsTheIssuer | internal/plugin/conf.go:116-121 | with distinct tokens that Set is the one that issued the token |
| ConfCache.FreshTokens | internal/plugin/conf.go:116-117 | before the counter wraps the issues are numbered from 1 on, each larger than all earlier ones |
| ConfCache.FreshReturns | internal/plugin/conf.go:69-125 | over every run with expiry and faults, before the wrap, a token returned to a Set without a key or to the first Set of its key is larger than every token returned earlier |
| ConfCache.StaysUntilDeadline | internal/plugin/conf.go:53-67 | an entry is never evicted before its deadline, and deadlines only move forward |
| ConfCache.TouchedTokenResolves | internal/plugin/conf.go:53-137 | a token issued or found resolves to the same configuration until its idle time is over, for every interleaving with fewer than 2^32 further issues |
| ConfCache.ResolvesExactly | internal/plugin/conf.go:53-137 | over every run, a token resolves and cannot be evicted now if and only if less than the cache time has passed since its last store or hit |
| ConfCache.KeyResolvesExactly | internal/plugin/conf.go:69-137 | over every run with expiry and faults and at most 2^32 issues, a key leads to a token issued for that key, Get finds its configuration or nothing, and finds it for certain if and only if the token's own idle time is not over |
| ConfCache.ReturnedResolvesExactly | internal/plugin/conf.go:69-137 | the same for every token any Set ever returned |
| ConfCache.SetPrepares | internal/plugin/conf.go:87-125 | after any run and whatever follows, the token of a Set that builds its entries is prepared for exactly these while its idle time lasts |
| ConfCache.CallByToken | internal/plugin/plugin.go:150-172 | an HTTPReqCall with a prepared token runs exactly the entries that Set built, each plugin called with its parsed configuration, up to the first that responds, also after more plugins were registered; a token the cache does not have gives the error |
| ConfCache.RespCallByToken | internal/plugin/plugin.go:211-229 | the same for HTTPRespCall |
| ConfCache.SecondsExact | internal/server/server.go:161-175 | the product with 1.2 rounded to binary64 and truncated is six fifths of the time, rounded down |
| ConfCache.TtlExact | internal/server/server.go:161-175 | the cache time is at least the configured one, strictly longer if and only if that is 5 seconds or more, and exact if and only if it is at most 7686143364 seconds |
| ConfCache.ApisixWindow | internal/server/server.go:161-175 | so a token resolves for at least the configured number of seconds from its issue |
| ConfCache.IdempotentKeys | internal/plugin/conf.go:69-125 | without expiry or faults, in every lock order, Sets of one nonempty key return one token, Sets of different ones different tokens, and every key leads to a stored configuration |
| ConfCache.KeyReturnsExactly | internal/plugin/conf.go:69-85 | over every run with expiry and faults, the next Set of a nonempty key is sure to return the token last returned under it if and only if less than the cache time has passed since that key was last found or remembered; otherwise, once evicted, without a key or when the lookup fails, it builds anew |
| ConfCache.KeyOutlivesToken | internal/plugin/conf.go:73-85 | an input where a key in use returns a token that no longer resolves |
| ConfCache.ParsedResolvable | internal/plugin/conf.go:87-114 | every entry built has a registered plugin |
| ConfCache.ParsedExact | internal/plugin/conf.go:87-114 | what Set builds has, for exactly the entries whose plugin is registered and accepts its configuration and in their order, the name and the configuration that plugin parsed |
| ConfCache.ConfCache.BuildEntries | internal/plugin/conf.go:87-114 | the entries described by `ParsedExact`: positions, names and parsed configurations |
| ConfCache.ConfCache.Set | internal/plugin/conf.go:69-125 | one pass through the locked steps of the step system, with every error path; a token is recorded as returned if and only if it is the result |
| ConfCache.ConfCache.Create | internal/plugin/conf.go:116-124 | the steps after a miss; the counter counts up also when a cache refuses |
| ConfCache.ConfCache.Get | internal/plugin/conf.go:131-137 | answers what is stored and renews it |
| Builders.BuilderPool.GetBuilder | internal/util/pool.go:32-34 | a member, which leaves the pool, or a new empty builder: the step `Take` of the step system |
| Builders.BuilderPool.PutBuilder | internal/util/pool.go:36-39 | the builder is emptied and in the pool once more: the step `Put` of the step system |
| Builders.ExclusiveOwnership | internal/server/server.go:98-157 | over every interleaving no two connections hold one builder, none is held and pooled or pooled twice, and every pooled builder is empty |
| Builders.NoneLost | internal/util/pool.go:32-39 | over every interleaving every builder made is in exactly one of pool, one connection's hands, or dropped |
| Builders.PoolUnobservable | internal/util/pool.go:26-39 | over every interleaving and every split of writes, what a connection has in its builder and has written is what its own events alone give with a private buffer |
| Builders.WholeReplyWritten | internal/server/server.go:139-157 | what a connection last wrote is the part of its builder written so far, and all of it when the call ends |
| Builders.EndsExactly | internal/server/server.go:98-157 | over every run: a call whose reply is written whole, a rejected reply and the request of Var or ReadBody put their builder into the pool, Body and a broken connection drop theirs, and nothing else ends a call |
| Builders.WorksExactly | internal/util/msg.go:82-92 | over every run: a call starts work, GetBuilder gives an empty builder, filling adds the bytes, and a write of n bytes sends the next n or all that are left |

## Left out

- FlatBuffers encoding: messages and replies are datatypes; only the order of vectors and presence of fields are kept.
- The `ttlcache`, `sync.Pool` and `net.Conn` libraries: a map with deadlines renewed on a hit, a nondeterministic choice, and partial transfer with at least one byte or an error. A failed socket stays failed. An expired cache entry may still be found until it is evicted, which allows more runs than the library does.
- Conn.HandleConn: recovered panics end a connection like a failure and are not modelled separately.
- Session.Serve: handlers that keep asking a peer that is gone forever; every other handler, also one that remembers earlier calls, is covered.
- Request.Request.Var: the exchange's answer is a parameter; the bytes of the exchange are in `Conn.AskExtraInfo`.
- Request.Request.Body: that it never puts its builder back is modelled in `Builders`, as a drop.
- Builders.Step: the four header bytes before a message come from a buffer that is no builder and are not in `wire`; filling a builder is appending bytes, in place of FlatBuffers' order.
- Plugin.RequestFilter: a plugin's calls are an arbitrary function of its place in the chain, its configuration and what it can see; two goroutines of one plugin on one request are not modelled.
- Plugin.HTTPReqCall: the cache lookup is a parameter; `ConfCache.CallByToken` provides it.
- RequestModel.Req: the scratch header buffer and the context of a request; the buffer is shown irrelevant by `Conn.AskExtraInfo`, whose contract does not depend on its contents.
- ArgsClone.EditOne: an in-place write beyond the end of a list and slicing beyond its capacity panic in Go and are skipped here.
- ConfCache.SecondsExact: stated below 2^49 seconds, which is beyond every time whose nanoseconds fit int64; from 2^53 on Go also rounds the number itself, which `CacheSeconds` does not. Parsing the environment variable is not modelled.
- `Header.View` writes, deprecated and documented for reading only.
- `SetInTest`, `pkg/httptest` and the demo plugins.
- `Run`, signals, socket setup, logging and the command line.
