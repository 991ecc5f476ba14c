# MuxMaster in Dafny

MuxMaster is an HTTP router for Go. This project models the parts of it that
carry an invariant over many steps, and proves what they are for. A `char`
stands for one byte, a handler for a number, and a registration panic is a
failed result.

**The routing tree** (`tree.go`, `mux.go`).

- `Patterns` says what a registration pattern means, without any tree: which
  paths it describes, what it captures, when two patterns conflict, and which
  of two matching patterns is preferred; `PatternPieces` the same for patterns
  written piece by piece as documented, without scanning for tokens.
- `RouteTree` is the tree as a value and registration as a function on it;
  `RouteSet` the invariant of a tree and the routes it holds; `TreeInsert`,
  `SuffixFits`, `TreeWalk`, `Registration` and `OrderIndependence` what
  registration does to those routes, and `Priorities` to the order of children;
  `TreeLookup`, `CaseFolding` and `FoldedLookup` what a lookup returns, and
  `StaticHints` when it gives the trailing-slash hint.
- `Optional` and `Routes` cover `{/:name}` segments and sequences of
  registrations with them.
- `SuffixRight`, `RegexSuffix` and `SuffixWalks` say exactly which
  registrations go wrong behind a regular expression parameter, and
  `RegexExample` gives inputs.
- `PathScan`, `RouteNode`, `RouteInsert` and `RouteRegister` are the code that
  registers, on mutable nodes with arrays of children, copying every node it
  writes to; each method is proved equal to the function on values.
- `Backtracking` and `Walkers` are the three lookup walks on those nodes, with
  their parameter buffer and frame stack. `RouteMux` publishes trees and
  dispatches requests.

**Middleware.** `ThrottleSem` (the semaphore with a bounded wait queue) and
`ThrottleTable` with `ThrottleProgress` (per-key limits with recycled entries),
all over `Counting`;
`TokenCache` over `ExpiryHeap` (the OAuth2 cache) and `Singleflight`;
`LogDuration` (the duration printer); `Compress` (the gzip response writer);
`RealIp` (the X-Forwarded-For scan); `RawPath` (RawPath under mounts and
trailing-slash stripping); `RedirectCache` (the cached redirect chain).

Concurrent code is a step system: every load, compare-and-swap, channel
operation and critical section is one step, any number of goroutines
interleave, and theorems speak of every state of every run. Functions of
libraries the code calls are parameters: the regular expression compiler (a
compiled expression is the set of segments it accepts), the UTF-8 check, the
address parser, the list of media types that are compressed already.

## Model

| member | source | states |
|---|---|---|
| Patterns.MatchesIffInstance | tree.go:777-869 | A path matches a pattern exactly if some binding of the pattern's wildcards, to non-empty slash-free segments and an accepted one for a regular expression, spells the path out; the captures are the only such binding. |
| PatternPieces.ValidInPieces | mux.go:434-442 | Every valid pattern is written, byte for byte, as literal bytes, `:name`, `{name:expr}` and a final `/*name`, where a name in braces has no colon; its wildcard names are the names there, in order. |
| PatternPieces.ReadsBack | mux.go:434-442 | In one way only: reading the pieces a text was written in gives those pieces. |
| PatternPieces.BindsPieces | tree.go:777-869 | A binding of a pattern's wildcards is one of its pieces' parameters: the key is the name alone, the value is not empty and within a segment, one the expression accepts for a regular expression, one that begins with a slash for a catch-all; both spell the same path. |
| Patterns.ConflictSymmetric | tree.go:264-326 | Whether two patterns conflict does not depend on which is registered first. |
| Patterns.PreferenceDecides | tree.go:704-719 | Of two different patterns that do not conflict and match the same path, exactly one is preferred: the one with a literal byte where the other has a wildcard. |
| PathScan.FindWildcard | tree.go:1269-1339 | The scanning loops return the first token, its place and its validity as the recursive definition gives them. |
| PathScan.LongestCommonPrefix | tree.go:1257-1265 | The loop returns the length of the longest common prefix. |
| PathScan.CountPatternParams | tree.go:95-105 | The loop returns the number of wildcards of a pattern. |
| RouteTree.PatternShape | tree.go:172-340 | Every registration, of any pattern, keeps the shape the code relies on: no more indices than children, and a wildcard child counted last. |
| TreeWalk.WalkRegisters | tree.go:210-340 | On a well-formed tree, named, catch-all and regular expression parameters included, the walk fails exactly if the pattern is malformed or clashes with a route there; otherwise it leaves a well-formed tree with exactly the old routes and the new one. It does so unless it comes to a child its suffix does not fit. |
| SuffixFits.FitsRegisters | tree.go:286-304 | The same for a child that is taken over and that the suffix fits: it has the text the suffix has up to its next token, and no handler, wildcard child or children where the registration puts its own. |
| SuffixFits.StuckRegisters | tree.go:286-304 | The same at the regular expression token above it, which is left with a second child no walker enters. |
| Registration.AddPatternRegisters | tree.go:172-340 | The same from the root; the root's maxParams stays the largest number of wildcards of any registered pattern, up to 255. |
| Priorities.PatternTallied | tree.go:341-368 | A fitting registration adds one to the count of routes, keeps every node's priority the number of routes below it, and every node's indexed children in falling order of it. |
| Priorities.RegistrationsTallied | tree.go:341-368 | So it is after any successful sequence of fewer than 2^32 fitting registrations, and the root counts them all. |
| Registration.SecondMeans | tree.go:245-254 | The walk meets a second suffix only if some registered pattern shares a regular expression token with the new one and both go on behind it. |
| Registration.MaxParamsMeansNoWild | tree.go:188-200 | The root's count of wildcards is 0 exactly if the tree has no wildcard child. |
| SuffixRight.WalkRight | tree.go:210-340 | Exactly when a walk does what it should: it succeeds if and only if the pattern is valid and clashes with no route, and then a lookup can come to exactly the old routes and the new one. That holds if and only if the walk does not come to a child its suffix does not fit. |
| SuffixRight.PatternRight | tree.go:172-340 | The same for a whole registration, for every pattern and every tree that fitting registrations leave. |
| SuffixRight.FittingRight | tree.go:172-340 | In a sequence of registrations from the empty tree, each does what it should if and only if each suffix fits. |
| RegexSuffix.FoundIsReached | tree.go:683-1152 | Whatever a lookup finds, with or without folding, is in reach: children behind an index that comes first for its byte, the last child as wildcard child, the first child under a parameter. |
| RegexSuffix.ServingRoutes | tree.go:683-1152 | In a well-formed tree every route is in reach. |
| RegexSuffix.KeepsIff | tree.go:286-304 | A taken-over child keeps its routes in reach exactly if the registration repeats the one route there is, or repeats the text up to its next token and what it replaces behind that: the handler, the routes of a wildcard child, or with a catch-all everything. |
| RegexSuffix.StuckKeeps | tree.go:286-304 | The same at the token, with any subtree and for any further suffix. |
| RegexSuffix.WalkKeeps | tree.go:210-340 | For every well-formed tree and pattern, a registration that succeeds keeps all earlier routes in reach exactly if its walk does not take over, at such a token, a child whose routes it does not repeat in that sense. |
| RegexSuffix.PatternKeeps | tree.go:172-340 | The same for a whole registration on a tree that fitting registrations have left. |
| SuffixWalks.StuckStrands | tree.go:286-304 | At the token: the tree a successful registration leaves can be followed by the walkers exactly if it does not put a catch-all in the place of a child with a wildcard child. |
| SuffixWalks.PatternStrands | tree.go:172-340 | The same for a whole registration, for every pattern and every tree that fitting registrations leave. |
| RegexExample.FirstRouteLost | tree.go:286-304 | After `/{a:x}/b` the registration of `/{a:x}/c` succeeds, and no lookup returns `/{a:x}/b` any more, for any path, with or without folding. |
| RegexExample.FirstParamLost | tree.go:370-407 | After `/{a:x}/b/:c` the registration of `/{a:x}/b/:d` succeeds although the two conflict, and no lookup returns `/{a:x}/b/:c` any more. |
| RegexExample.TreeBroken | tree.go:471-476 | After `/{a:x}/b:c` the registration of `/{a:x}/z/*w` succeeds and leaves a tree the walkers cannot follow. |
| OrderIndependence.AddAllRegisters | tree.go:210-340 | A sequence of registrations whose suffixes fit succeeds exactly if all patterns are valid, no two conflict and none clashes with the tree; it then holds exactly those routes more. |
| OrderIndependence.OneSuffixFits | tree.go:245-254 | Suffixes fit if no two patterns share a regular expression parameter and both go on behind it. |
| OrderIndependence.CompatibleIsUnordered | tree.go:264-326 | Whether a sequence is free of conflicts depends on its multiset only. |
| OrderIndependence.FindsExactlyMatches | tree.go:683-1152 | In the tree any successful sequence of fitting registrations leaves, a lookup finds a handler exactly if some registered pattern describes the path, and returns a registered pair that does and is preferred to every other that does, with its captures; with case folding too, if no two patterns first differ in the case of a letter. |
| OrderIndependence.CapturesRoundTrip | tree.go:777-869 | Writing the captures of a successful lookup in the places of the parameters of the returned pattern, as written piece by piece, gives the path; each is keyed by the bare name in its piece, in order, and holds a value of its kind. |
| OrderIndependence.OrderIrrelevant | tree.go:264-326 | Two orders of the same registrations, both of which fit, both succeed or both fail, and then every lookup gives the same handler, pattern and captures; with case folding too, if that leaves no two patterns ambiguous. |
| TreeLookup.SearchAnswers | tree.go:683-1152 | On a well-formed tree, regular expression nodes included, the search below a static node returns the preferred route among those that describe the path, with its captures, or none if none does; with case folding too, if no byte leads to two children. |
| TreeLookup.WildAnswers | tree.go:775-891 | The same below a wildcard node. |
| FoldedLookup.FoundSpells | tree.go:683-1183 | With or without case folding, in any tree, what a lookup finds is a registered pair, and the captures are those of the parameters the pattern is written with and, in their places, give the path up to case. |
| CaseFolding.FoldMeans | tree.go:1156-1183 | Folded bytes are equal exactly if they are the same or the two cases of one letter of the alphabet. |
| CaseFolding.DescribesIff | tree.go:683-891 | A pattern describes a path, folded or not, exactly if its parameters may hold what stands in their places and writing that in, as it is, gives the path up to the case of literal bytes. |
| CaseFolding.UnclashingOneWay | tree.go:704-719 | If no two routes first differ in the case of a letter, no byte leads to two children. |
| FoldedLookup.ClashLosesOne | tree.go:704-719 | If two registered patterns first differ in the case of a letter, one of them is found by no folded lookup, for any path. |
| StaticHints.StaticHintMeans | tree.go:675-775 | After registrations without wildcards, a lookup that finds nothing sets the trailing-slash flag exactly if the registered paths call for it: the path with a slash more is registered; or the path ends in a slash, nothing goes on from it and the path without is registered; or something goes on from it, paths part before that slash, and not again behind it before a second one. |
| StaticHints.HintWrong | tree.go:753-764 | That is not always right: after `/foo/a`, `/foo/b` and `/foobar` the flag is set for `/foo/` though `/foo` is not registered. |
| Optional.CountOptionalSegments | tree.go:1344-1362 | The loop counts the optional segments of a pattern. |
| Optional.ExpandsAll | tree.go:1373-1417 | A pattern with well-formed, non-adjacent optional segments expands to all its variants, each segment left out or written in. |
| Optional.AllCount | tree.go:156-171 | There are 2^k of them for k segments. |
| Optional.OptionalMeansChoice | tree.go:156-171 | The expansions are exactly the choices of present segments, and a path matches one of them exactly if it matches the pattern with each segment independently present or absent. |
| Optional.TooManySegments | tree.go:160-164 | A pattern with more than 8 optional segments is refused. |
| Routes.AddRouteIsExpansions | tree.go:165-171 | Registering a pattern with optional segments is registering its expansions in order, on any tree. |
| Routes.RegistrationOrderIrrelevant | tree.go:156-340 | Order independence for whole registrations, optional segments and unambiguous case folding included. |
| Routes.RegistrationsDecideLookups | tree.go:156-340 | After fitting registrations with optional segments a lookup finds the preferred expansion that describes the path, with its captures, and nothing exactly if none does, with or without case folding as long as that leaves nothing ambiguous. |
| Routes.RegistrationsSpellLookups | tree.go:683-1183 | With case folding too, what it finds is one of the expansions, and the captures spell the path out up to case. |
| RouteNode.CopyNode | tree.go:126-133 | The copy stands for the same tree, with a node and an array of children of its own. |
| RouteNode.IncrementChildPrio | tree.go:348-368 | In place: the child is copied, counted and moved forward among those of lower priority, and the indices with it. |
| RouteInsert.InsertChildInPlace | tree.go:370-495 | The loop leaves the node as the recursive definition says, or fails where that fails; besides the node it writes to new memory only. |
| RouteRegister.WalkInPlace | tree.go:210-340 | The same for the insertion walk: it writes to the start node, its array and new memory only. |
| RouteRegister.AddPatternInPlace | tree.go:172-340 | The same for a registration without optional segments. |
| RouteMux.AddRouteInPlace | tree.go:156-340 | The same for any registration. |
| RouteMux.Mux.Handle | mux.go:447-489 | For every pattern: it fails on an unsupported method, a pattern without a leading slash, a nil handler or a failed registration, and then nothing is published; otherwise the method's tree is the old one with the route added. Either way every tree published before still stands for the same value, so a reader of it sees no change. |
| RouteMux.Mux.HandleFast | mux.go:545-593 | The same for fast handlers, which also fail when middleware is in use. |
| RouteMux.Mux.Publish | mux.go:467-488 | The copy-on-write step under both. |
| RouteMux.Mux.Match | mux.go:1384-1396 | Dispatch picks a walker by the root's count of wildcards; whatever it picks returns what the lookup in the method's tree returns. After fitting registrations that is the preferred match among all expansions of all that was registered, or nothing if none matches, also with case folding that leaves nothing ambiguous; in any case it is one of the expansions, with captures named as its parameters are that spell the path out, up to case if that is folded. |
| RouteMux.Mux.MayMatch | mux.go:1384-1396 | Fitting registrations always leave a tree that can be dispatched on. |
| RouteMux.StaysServable | mux.go:1384-1396 | One more registration leaves a tree that can be dispatched on if and only if it does not put a catch-all in the place of a child with a wildcard child. |
| Walkers.ParamsBuf.Add | tree.go:32-39 | The capture is appended, in the fixed buffer or the overflow. |
| Walkers.ParamsBuf.Rewind | tree.go:1144-1150 | What was captured since the recorded point is gone, what came before is unchanged. |
| Walkers.ParamsBuf.Params | tree.go:48-58 | All captures in order. |
| Walkers.Push | tree.go:546-553 | Two scalar frames and an overflow slice hold one more frame in order. |
| Walkers.Pop | tree.go:561-566 | ... and give back the last one. |
| Walkers.GetValueStatic | tree.go:1200-1244 | On a tree without wildcards it returns the lookup's handler, pattern and trailing-slash flag, with or without case folding. |
| Walkers.GetValueBacktrack | tree.go:933-1152 | It returns the lookup's handler, pattern and flag, and the captures on success; the loop's iterations are the visits of the whole run `Backtracking.WholeRun` describes. |
| Walkers.GetValue | tree.go:683-893 | The optimistic walk, falling back to the full one, returns the same. |
| Backtracking.RunVisitsOnce | tree.go:568-612 | Every run of the walk, a relation between visits (into a child, with or without a fork, or back to the last fork), is at pairwise different nodes, each later in preorder than the one before, and no longer than the number of nodes. A visit pushes at most one fork, for its own node, so a node is pushed at most once. |
| Backtracking.RunAnswers | tree.go:933-1152 | What a run ends with is what the lookup returns. |
| ThrottleSem.NoLostWakeUp | middleware/throttle.go:28-98 | In every state of every run: the counter equals the permits out and never exceeds the limit; no more than the limit run their handlers, no more than the backlog wait; and if a permit is free, someone is blocked and nobody is in the middle of a step, a wake-up is in the channel. |
| ThrottleSem.FreePermitMovesOn | middleware/throttle.go:62-98 | While a permit is free and someone waits, a waiter or a releaser has a step to take other than giving up. |
| ThrottleSem.RefusedOnlyThen | middleware/throttle.go:41-93 | In every run a request that gets its answer without having run its handler waited until its timer went off, or found every permit out and then the queue full. |
| ThrottleSem.QueuesAtLimit | middleware/throttle.go:41-51 | A request asks for a place in the queue only in a state in which all permits are out. |
| ThrottleSem.QueueTaken | middleware/throttle.go:62-67 | It gets the place if one is free and is refused exactly if all are taken. |
| ThrottleSem.FreePermitTaken | middleware/throttle.go:41-51 | A request nobody gets in the way of runs its handler three steps after it arrives if a permit is free. |
| ThrottleSem.NoPermitWaits | middleware/throttle.go:62-93 | With none free it is blocked in the queue after four, or refused after three with nothing changed if the queue is full. |
| ThrottleSem.WakeUpUsed | middleware/throttle.go:72-93 | One that takes a wake-up with a permit free runs its handler and has left the queue. |
| ThrottleSem.NeverStuck | middleware/throttle.go:28-98 | Every request always has a step to take, and exactly one unless it is blocked with a wake-up there for it. |
| ThrottleTable.TableHolds | middleware/throttle.go:164-303 | In every state of every run: tokens in an entry's channel and tokens held add up to the limit; pooled entries are full and in no map; no entry is under two keys; an entry's count is the number of requests that use it and is positive; there are no more keys than a positive maximum. |
| ThrottleTable.LimitPerKey | middleware/throttle.go:363-401 | Never more than the limit run their handlers under one key. |
| ThrottleTable.ReturnNeverBlocks | middleware/throttle.go:363-401 | A token that is returned finds room. |
| ThrottleProgress.RefusedOnlyThen | middleware/throttle.go:238-401 | In every run a request that gets its answer without having run its handler waited for a token until its timer went off, or found its key missing while the keys in the table and those counted in advance or not yet counted off came to a positive maximum. |
| ThrottleProgress.ReserveMeans | middleware/throttle.go:246-253 | A new key is let in exactly if those come to less. |
| ThrottleProgress.WaitsOnlyThen | middleware/throttle.go:363-370 | A request that asks its key's entry for a token waits if all of the limit are held, and runs if not. |
| ThrottleProgress.WaiterServed | middleware/throttle.go:366-372 | One that waits can take a token whenever not all are held. |
| ThrottleProgress.WelcomeRuns | middleware/throttle.go:238-401 | A request nobody gets in the way of runs its handler if its key has a token left or is new and there is room for it, on the entry its key has. |
| ThrottleProgress.NeverStuck | middleware/throttle.go:238-303 | No deadlock: a request has a step to take, or waits for a lock whose holder has one and is not about to take a lock. |
| ThrottleProgress.QuietIsEmpty | middleware/throttle.go:283-303 | When all requests have been answered the table is empty, no lock is held, the size is 0 and every token is in its channel. |
| TokenCache.Cache.Up | middleware/oauth2.go:104-119 | Sifting up restores the order of the heap and keeps every entry's index. |
| TokenCache.Cache.Down | middleware/oauth2.go:104-119 | Sifting down likewise, or it says that it moved nothing. |
| TokenCache.Cache.Fix | middleware/oauth2.go:216-242 | After one expiry has changed the heap is in order again. |
| TokenCache.Cache.Push | middleware/oauth2.go:121-125 | The entry is in, the order and the indices kept. |
| TokenCache.Cache.Pop | middleware/oauth2.go:127-135 | The first entry is out, the order and the indices kept. |
| TokenCache.Cache.Get | middleware/oauth2.go:195-209 | It returns the value for a key exactly while that is unexpired, and that is the last value set for the key. |
| TokenCache.Cache.Set | middleware/oauth2.go:216-242 | The key gets the value; nothing else changes unless the cache is full, when one entry of earliest expiry goes. Map, heap, indices, order and size bound are kept. |
| TokenCache.Cache.EvictOne | middleware/oauth2.go:244-265 | It removes an entry that expires first, so one that has expired if any has, or the cache is empty. |
| TokenCache.StoresMeans | middleware/oauth2.go:216-265 | With a positive bound the new value is always held and the bound kept; at most one other key is lost, only from a full cache, and it expires no later than all the others. |
| TokenCache.NothingLost | middleware/oauth2.go:216-242 | Over any sequence of calls of Set, as long as no more keys have been set than fit, every key is held with its last value. |
| Singleflight.OneCallPerKey | middleware/oauth2.go:142-186 | In every run at most one upstream call per key is under way. |
| Singleflight.ReturnsTheCallItJoined | middleware/oauth2.go:157-186 | A caller that does not cancel returns the answer of the one call it joined: set, and the one the call ends up with. |
| Singleflight.JoinsOnlyRunning | middleware/oauth2.go:157-186 | The call a new caller would join has a leader and has not been closed. |
| Singleflight.JoinsTheLeader | middleware/oauth2.go:157-169 | A caller that comes for a key while somebody leads a call for it joins that call and starts none. |
| Singleflight.OnlyWaitersCancel | middleware/oauth2.go:164-169 | Only a caller that waits for another's call returns its context's error. |
| Singleflight.NobodyWaitsInVain | middleware/oauth2.go:157-186 | A caller has a step to take other than giving up, or waits for a call whose owner has; what is returned then is an answer that is set. |
| Singleflight.LeaderAnswers | middleware/oauth2.go:170-186 | A caller that comes first makes one upstream call, returns its answer, and leaves no call running. |
| LogDuration.TextParses | middleware/logger.go:165-228 | The text for a duration parses back to exactly that duration, under a parser that reads numbers, fractions and units. |
| LogDuration.TextFits | middleware/logger.go:165-228 | The text is canonical: below a second one unit, the one that gives a number from 1 to 999; from there on hours, minutes below 60 and seconds below 60, left out in front while 0; no zeros in front of a number or behind a fraction; `0s` for nothing. |
| LogDuration.FormatLogDuration | middleware/logger.go:171-228 | For every 64-bit duration the backwards printing stays inside 32 bytes and leaves that text at their end. |
| LogDuration.FmtFrac | middleware/logger.go:230-247 | The loop prints the fraction without trailing zeros and returns the whole part. |
| LogDuration.FmtInt | middleware/logger.go:249-262 | The loop prints the decimal digits. |
| Compress.GzipResponseWriter.WriteHeader | middleware/compress.go:61-70 | The response as it stands changes as a bare first-wins writer's would; 1xx codes but 101 change nothing. |
| Compress.GzipResponseWriter.Write | middleware/compress.go:72-105 | Likewise: the bytes are appended. The decision is made exactly if it was before or the bytes no longer fit the buffer of 8192, which until then holds all of them; it is made on the header as it was, and stands. |
| Compress.GzipResponseWriter.Flush | middleware/compress.go:125-135 | Likewise: all that was written so far is with the client, and the decision is made on it. |
| Compress.GzipResponseWriter.Commit | middleware/compress.go:148-187 | It skips compression exactly for compressed media, a content encoding already set or fewer than 1024 bytes; the buffer is emptied and nothing of the response changes but an implicit 200; Vary is added, and Content-Encoding set and Content-Length dropped exactly if it compresses. |
| Compress.GzipResponseWriter.Close | middleware/compress.go:218-228 | What a client decodes has the status and all the bytes, and a gzip stream is complete. |
| Compress.Serve | middleware/compress.go:284-310 | For every sequence of handler operations the client gets, decoded, the concatenation of all writes, and the status of the first operation to fix one, or 200. The response is compressed exactly if at the deciding moment 1024 bytes have been written, the media type is not compressed and no content encoding is set; if not, the handler's encoding of that moment goes out. Vary is added once. |
| Compress.MomentMeans | middleware/compress.go:72-135 | The deciding moment is that of the first flush or of the first write that brings the total above 8192 bytes, or the handler's return. |
| Compress.PlainHandler | middleware/compress.go:148-187 | For a handler that never flushes and sets its header before it writes, the response is compressed exactly if that header allows it and 1024 bytes are written in all. |
| RealIp.SelectXffRightmost | middleware/real_ip.go:112-174 | The scan over bytes returns what the simple form does: split on commas, the last 30 entries, the rightmost untrusted address, else the leftmost address; without a trust list the leftmost one. That is: an address with no other untrusted one after it if there is a trust list and an untrusted address, else one with none before it, and nothing exactly if there is no address. |
| RealIp.SplitMeans | middleware/real_ip.go:112-143 | The entries hold no comma and, joined by commas, give the header back. |
| RealIp.RightmostMeans | middleware/real_ip.go:145-171 | The rightmost untrusted address, if any, has only trusted addresses after it; if there is none, every address is trusted. |
| RealIp.LeftmostMeans | middleware/real_ip.go:130-143 | The leftmost address, if any, has none before it. |
| RealIp.PrefixIgnored | middleware/real_ip.go:87-103 | Once an untrusted address is among the last entries, nothing put to the left of the header changes the result. |
| RawPath.RawPathRemainder | mux.go:948-980 | The loop over both paths returns the segment-wise remainder. |
| RawPath.RemainderSpells | mux.go:930-947 | A remainder begins where a part of the raw path ends that spells the matched prefix segment by segment. |
| RawPath.SpelledRemains | mux.go:930-947 | Conversely, wherever such a part ends at a slash or the end, the remainder is found there. |
| RawPath.MountRawPath | mux.go:817-847 | A mount passes on exactly what follows its mount point in the raw path, where that begins with a slash: behind the prefix itself, or with parameters behind segments that spell the matched path; and nothing exactly if nothing does. |
| RawPath.EscapesDecode | mux.go:948-980 | Escapes, in either case of their digits, decode to the bytes they stand for. |
| RawPath.MountKeepsPair | mux.go:817-847 | If the raw path decodes to the path, what a mount passes on decodes to the stripped suffix, or is empty; the prefix may hold a percent sign. |
| RawPath.StripTrailingPathSeparators | middleware/strip_slashes.go:66-83 | It removes trailing slash tokens, spelled out or escaped, as many as asked for, fewer only if no more are there or one byte is left; so exactly as many as the path has lost slashes. |
| RawPath.StripSlashes | middleware/strip_slashes.go:24-49 | The new raw path decodes to the new path if the old one did to the old; in any case it has lost slashes only. |
| RawPath.BareMeans | middleware/strip_slashes.go:8-9 | The new path ends in no slash unless it is one byte long, only slashes are removed, and doing it again changes nothing. |
| RedirectCache.WrapMiddleware | mux.go:2169-2175 | A request passes through the middleware in order on its way in, the first outermost. |
| RedirectCache.ChainMeans | mux.go:2169-2175 | That handler is the only one it passes through so. |
| RedirectCache.RunsItsSnapshot | mux.go:2010-2086 | In every interleaving a redirect passes through exactly the middleware after some call of Use, in order, that of the snapshot it read; a cached handler through that of its own generation. |
| RedirectCache.CachedGenGrows | mux.go:1991-2034 | Without a rebuild the cached generation never falls. |
| RedirectCache.LeavesCached | mux.go:2010-2034 | A redirect answered without a rebuild in between leaves its generation or a newer one cached. |
| RedirectCache.CacheUsed | mux.go:2010-2034 | A redirect that starts while the newest generation is cached builds nothing, up to the next call of Use or Rebuild. |
| RedirectCache.UndisturbedServes | mux.go:2010-2034 | One that is not disturbed has its handler after two steps if its generation is cached, and after five, its generation cached, if none or an older one is. |
| RedirectCache.NeverStuck | mux.go:2010-2086 | A redirect always has a step to take. |
| RedirectCache.SeesEarlierUse | mux.go:389-414 | A redirect that starts after a call of Use has returned runs the middleware of that call or of a later one. |

## Findings

Where the code does not do what it promises:

- **A second suffix behind a regular expression parameter takes over the child
  of the first.** The child for the text behind a token is stored without an
  index (`tree.go:445-450`). The reuse test at `tree.go:245` covers named
  parameters only, so for a regular expression token the next suffix is added
  as a new index (`tree.go:286-304`), which then stands for the old child, and
  that child is overwritten without a panic. `RegexExample.FirstRouteLost`
  loses `/{a:x}/b` to `/{a:x}/c`, and `RegexExample.FirstParamLost` loses
  `/{a:x}/b/:c` to `/{a:x}/b/:d`, which conflicts with it and is accepted. A
  registration does what it should, that is it succeeds exactly if the pattern
  is valid and conflicts with nothing and then leaves exactly the old routes
  and the new one in reach, **if and only if** it does not come to such a child
  or the suffix fits that child (`SuffixRight.PatternRight`). A valid suffix
  fits if the child's text is the suffix up to its next token, and the child
  has no handler (no further token), no wildcard child (a parameter) or no
  children (a catch-all, whose own slash does not count); but where the child's
  text ends in a slash a catch-all is refused in any case, which is right
  exactly if it conflicts. `SuffixRight.FittingRight` says the same of
  sequences from the empty tree. All theorems about insertion, lookup, order
  and dispatch hold as long as every suffix fits; it is enough that no two
  patterns share such a parameter and both go on behind it
  (`OrderIndependence.OneSuffixFits`). What survives a registration that does
  succeed without fitting is the subject of `RegexSuffix.PatternKeeps`.
- **A second suffix can leave a tree no walker can follow.** If the child that
  is taken over has a wildcard child of its own and the new suffix ends in a
  catch-all, the node still says that its last child is a wildcard child, but
  that is the static node above the catch-all (`tree.go:471-476`); a walker
  that goes on there panics (`tree.go:1119`). `RegexExample.TreeBroken` gives
  the input `/{a:x}/b:c`, `/{a:x}/z/*w`. A registration that succeeds leaves a
  tree that can be followed **if and only if** it does not come to such a child
  with such a suffix (`SuffixWalks.PatternStrands`, `RouteMux.StaysServable`).

- **With case folding one of two children may never be tried.** A lookup goes
  on in the first child whose byte matches up to case (`tree.go:704-719`). If
  two registered patterns first differ in the case of a letter, one of them is
  never found (`FoldedLookup.ClashLosesOne`); if none do, folded lookups are as
  complete as exact ones (`OrderIndependence.FindsExactlyMatches`).
- **The trailing-slash hint can be wrong.** `StaticHints.StaticHintMeans` says
  exactly when it is given while no pattern has a wildcard, `StaticHints.HintKept`
  exactly when it is right, and `StaticHints.HintWrong` gives an input.

The first two conditions are proved for every pattern in the sense of the next section
and for every tree that fitting registrations have left, that is up to and
including the first registration that does not fit. What registrations do to a
tree after that is not covered.

## Left out

- RouteMux.Mux.Match: asks for a tree that can be walked; fitting registrations always leave one (MayMatch), and exactly which registration leaves none is StaysServable.
- TreeWalk.WalkRegisters: for suffixes that fit, as the others go wrong (SuffixRight.WalkRight); and for patterns with no text after a closing brace within its segment, as such a pattern has no meaning segment by segment. The code's own behaviour on those patterns is covered by RouteTree.PatternShape and the in-place methods.
- OrderIndependence.OrderIrrelevant: for orders in which every suffix fits, as otherwise the order does matter.
- OrderIndependence.FindsExactlyMatches: with case folding, for patterns no two of which first differ in the case of a letter, as otherwise one is never found (FoldedLookup.ClashLosesOne). What is found is right in any case (FoldedLookup.FoundSpells).
- TreeLookup.SearchAnswers: says nothing of the trailing-slash flag; in trees with wildcards that is only proved to be the same for all walkers, as it is neither sound nor complete as a hint.
- SuffixRight.PatternRight: says nothing of trees on which a registration that does not fit has succeeded before.
- RouteNode.Append: always makes a new array; writing into spare capacity behind a slice is not modelled. Slices of children are arrays of their exact length.
- Compress.Serve: gzip itself, write errors, statuses without a body and status 0 are not modelled, nor are headers other than the ones the writer asks for or sets.
- RealIp.SelectXffRightmost: address parsing and trimming are one parameter.
- ThrottleTable.TableHolds: one table has one limit, as its only caller has it.
- Singleflight.ReturnsTheCallItJoined: a panic inside the upstream call is not modelled.
- LogDuration.TextParses: the parser is a definition of this project, not that of the Go library.
- Handler and fast handler of a node are one optional value.
- Panic messages; which panic it is where several would apply.
- Wrapping of handlers in middleware at registration; groups; the caches for NotFound, 405 and OPTIONS responses, which are stored without a generation.
- Redirect targets and their escaping, ServeFiles, request bundles and sync.Pool, HTTP dispatch beyond finding the handler.
- CORS, BasicAuth, API keys, JWT, timeouts, headers, response helpers: they would only add easy members.
