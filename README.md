# ljm-rpc core, modelled in Dafny

This project models the stateful core of the ljm-rpc Java RPC framework and
proves properties of it:

- **The consistent-hash load balancer (`ConsistencyHashBalance`).**
  - It hashes strings with a 32-bit FNV variant followed by an avalanche step.
  - It keeps a ring of 5 virtual nodes per real node (`shards`) and a list of real nodes (`realNodes`).
  - It answers a lookup with the first virtual node clockwise from the request's hash.
  - Nodes are added and deleted incrementally.
- **The client-side circuit breaker (`CircuitBreaker`).** It moves between CLOSED, OPEN and HALF_OPEN.
- **The breaker registry.** It creates a breaker per service name, lazily.
- **The server-side token-bucket rate limiter.** It comes with its registry.
- **The frame encoder (`MyEncoder`).** It writes `kind | serializer id | length | payload`.
- **The request and response messages.** These include the `sussess` and `fail` response factories.

Java semantics are written out where they matter:

- `int` and `long` wrap-around (`JavaInt.Wrap32`, `Wrap64`).
- The truncating `/` (`JavaInt.Div32`).
- The arithmetic `>>` (`Bits32.Sar`).
- `Math.abs(Integer.MIN_VALUE)` staying negative (`Bits32.JavaAbs`).
- `charAt` over UTF-16 code units (`FnvHash.Utf16`).
- `indexOf`/`substring` (`HashRing.RealNodeOf`).
- `LinkedList.remove(Object)` (`HashRing.RemoveFirst`).

How the parts are modelled:

- **Mutating objects.** An object whose fields the Java code updates is a Dafny `class` updating the same fields. This covers the balancer, the breaker, the bucket, both registries and the byte buffer. The encoder is a class too, holding its serializer as a constant.
- **Value-level functions.** Each such method is proved against a function on values, and the multi-call properties are lemmas about those functions.
- **The clock and the request identifier.** `System.currentTimeMillis()` and `UUID.randomUUID()` become parameters (`now`, `uuid`).
- **The ring functions.** These are generic in the string hash.
- **The balancer's hash.** The balancer holds its hash as the constant `hash`, which its constructor sets to `FnvHash.Hash`. `FnvHash.GetHash` is the source's `getHash` loop, proved to compute that function.

Behaviour of the code worth knowing, which the model keeps:

- A virtual label is `server + "&&VN" + i`.
- `init` appends to the ring without clearing it.
- `getServer` builds the ring only when it is empty. It never rebuilds it when membership changes (`ConsistencyHash.StaleRingScenario`).
- Leaving OPEN sets `requestCount` to 1.
- `recordSuccess` in OPEN clears the counters.

## Model

| member | source | states |
|---|---|---|
| JavaInt.Wrap32 | rpc-core/src/main/java/com/ljm/server/rateLimit/impl/TokenBucketRateLimitImpl.java:33-35 | the `(int)` cast and `int` arithmetic: the result is an `int` congruent to the exact value modulo 2^32, and equal to it when it fits |
| JavaInt.Wrap64 | rpc-core/src/main/java/com/ljm/server/rateLimit/impl/TokenBucketRateLimitImpl.java:33 | `long` arithmetic: the result is a `long` congruent to the exact value modulo 2^64, and equal to it when it fits |
| JavaInt.Div32 | rpc-core/src/main/java/com/ljm/server/rateLimit/impl/TokenBucketRateLimitImpl.java:33 | Java `int` division: the magnitude is the quotient of magnitudes, the sign is the sign of the operands, and MIN_VALUE / -1 wraps to MIN_VALUE |
| Bits32.ToSigned | rpc-core/src/main/java/com/ljm/client/servicecenter/balacne/impl/ConsistencyHashBalance.java:130 | the `int` a 32-bit pattern stands for is the two's-complement reading: congruent to the unsigned reading modulo 2^32, in the `int` range, and negative exactly when the sign bit is set |
| Bits32.Sar | rpc-core/src/main/java/com/ljm/client/servicecenter/balacne/impl/ConsistencyHashBalance.java:125-127 | `>>` keeps the sign bit, agrees with the logical shift on non-negative values, and on negative ones equals complementing, shifting logically and complementing back |
| Bits32.FillIsComplement | rpc-core/src/main/java/com/ljm/client/servicecenter/balacne/impl/ConsistencyHashBalance.java:125-127 | filling the vacated high bits of a negative pattern with ones is the complement-shift-complement form, and leaves the sign bit set |
| Bits32.JavaAbs | rpc-core/src/main/java/com/ljm/client/servicecenter/balacne/impl/ConsistencyHashBalance.java:130-131 | `Math.abs` leaves non-negative values alone, negates negative ones modulo 2^32, and gives a non-negative result for every input except MIN_VALUE |
| Bits32.Mix | rpc-core/src/main/java/com/ljm/client/servicecenter/balacne/impl/ConsistencyHashBalance.java:124-128 | definition: the five in-place steps `+= << 13`, `^= >> 7`, `+= << 3`, `^= >> 17`, `+= << 5` on 32-bit patterns, with `>>` as `Sar`; no contract of its own, `FnvHash.GetHash` is proved to apply it |
| FnvHash.CodeUnits | rpc-core/src/main/java/com/ljm/client/servicecenter/balacne/impl/ConsistencyHashBalance.java:122-123 | a character is one UTF-16 unit below U+10000 and above it the high/low surrogate pair that decodes back to that character |
| FnvHash.Utf16 | rpc-core/src/main/java/com/ljm/client/servicecenter/balacne/impl/ConsistencyHashBalance.java:122 | `length()` counts at least one unit per character |
| FnvHash.Utf16Bmp | rpc-core/src/main/java/com/ljm/client/servicecenter/balacne/impl/ConsistencyHashBalance.java:122-123 | without characters above U+FFFF, `length()` is the number of characters and `charAt(i)` is character i |
| FnvHash.FnvStep | rpc-core/src/main/java/com/ljm/client/servicecenter/balacne/impl/ConsistencyHashBalance.java:123 | definition: one round, xor the code unit into the hash and multiply by 16777619 modulo 2^32 |
| FnvHash.Fnv | rpc-core/src/main/java/com/ljm/client/servicecenter/balacne/impl/ConsistencyHashBalance.java:120-123 | definition: the rounds over the code units in order, starting from `(int) 2166136261L`; no contract of its own, `FnvHash.GetHash`'s loop invariant is stated with it |
| FnvHash.Hash | rpc-core/src/main/java/com/ljm/client/servicecenter/balacne/impl/ConsistencyHashBalance.java:119-133 | the hash is non-negative except when the mixed value is MIN_VALUE, where it is -2^31 |
| FnvHash.GetHash | rpc-core/src/main/java/com/ljm/client/servicecenter/balacne/impl/ConsistencyHashBalance.java:119-133 | the loop over code units followed by the in-place mixing and the conditional `Math.abs` computes `Hash` |
| TreeMaps.MinKey | rpc-core/src/main/java/com/ljm/client/servicecenter/balacne/impl/ConsistencyHashBalance.java:71-73 | the least element of a non-empty key set is a member and below every member |
| TreeMaps.FirstKey | rpc-core/src/main/java/com/ljm/client/servicecenter/balacne/impl/ConsistencyHashBalance.java:71 | `firstKey()` is a key of the map, and no key is smaller |
| TreeMaps.TailKeys | rpc-core/src/main/java/com/ljm/client/servicecenter/balacne/impl/ConsistencyHashBalance.java:69 | the keys of `tailMap(h)` are exactly the keys at or above h |
| TreeMaps.CeilingKey | rpc-core/src/main/java/com/ljm/client/servicecenter/balacne/impl/ConsistencyHashBalance.java:69-73 | the first key of `tailMap(h)` is the least key at or above h, and there is none exactly when every key is below h |
| TreeMaps.CeilingKeyMonotone | rpc-core/src/main/java/com/ljm/client/servicecenter/balacne/impl/ConsistencyHashBalance.java:69-73 | a lower starting hash never finds a later ceiling key |
| HashRing.Digit | rpc-core/src/main/java/com/ljm/client/servicecenter/balacne/impl/ConsistencyHashBalance.java:47 | string concatenation writes a number below 10 as its one decimal digit |
| HashRing.VirtualLabel | rpc-core/src/main/java/com/ljm/client/servicecenter/balacne/impl/ConsistencyHashBalance.java:47 | `server + "&&VN" + i` is a virtual label whose owner is `server` and whose number is i |
| HashRing.LabelRoundTrip | rpc-core/src/main/java/com/ljm/client/servicecenter/balacne/impl/ConsistencyHashBalance.java:47 | a virtual label is rebuilt exactly from its owner and number |
| HashRing.IndexOfAmpPair | rpc-core/src/main/java/com/ljm/client/servicecenter/balacne/impl/ConsistencyHashBalance.java:77 | `indexOf("&&", from)` finds the first "&&" at or after `from`, and -1 means there is none |
| HashRing.RealNodeOf | rpc-core/src/main/java/com/ljm/client/servicecenter/balacne/impl/ConsistencyHashBalance.java:77 | the strip returns the prefix before the first "&&", or throws `StringIndexOutOfBoundsException` when there is none |
| HashRing.StripVirtualLabel | rpc-core/src/main/java/com/ljm/client/servicecenter/balacne/impl/ConsistencyHashBalance.java:77 | every virtual label strips without throwing, and the label of a name without "&&" (nor a trailing '&') strips back to that name |
| HashRing.TrailingAmpersandIsLost | rpc-core/src/main/java/com/ljm/client/servicecenter/balacne/impl/ConsistencyHashBalance.java:76-77 | a server named "a&" is reported as "a" |
| HashRing.Successor | rpc-core/src/main/java/com/ljm/client/servicecenter/balacne/impl/ConsistencyHashBalance.java:66-74 | the key chosen is the smallest key at or above the hash, or the smallest key of all when none is (wrap-around) |
| HashRing.Select | rpc-core/src/main/java/com/ljm/client/servicecenter/balacne/impl/ConsistencyHashBalance.java:66-77 | the lookup throws `NoSuchElementException` exactly when the ring is empty; otherwise it strips the label at `Successor` |
| HashRing.SameArcSameServer | rpc-core/src/main/java/com/ljm/client/servicecenter/balacne/impl/ConsistencyHashBalance.java:66-77 | hashes with no ring key between them go to the same key and the same server |
| HashRing.WrappedArcSameServer | rpc-core/src/main/java/com/ljm/client/servicecenter/balacne/impl/ConsistencyHashBalance.java:69-74 | the arc that wraps: a hash at or below every key and a hash above every key both go to the smallest key and the same server |
| HashRing.WellFormedRingGrow | rpc-core/src/main/java/com/ljm/client/servicecenter/balacne/impl/ConsistencyHashBalance.java:42-53 | appending real nodes keeps every ring entry owned by a listed node |
| HashRing.SelectReturnsRealNode | rpc-core/src/main/java/com/ljm/client/servicecenter/balacne/impl/ConsistencyHashBalance.java:66-77 | on a non-empty well-formed ring a lookup never throws, and with plain names it returns a listed real node, the owner of the chosen label |
| HashRing.LabelKeyIn | rpc-core/src/main/java/com/ljm/client/servicecenter/balacne/impl/ConsistencyHashBalance.java:46-49 | the hash of virtual node i is among the keys of the first n virtual nodes when i < n |
| HashRing.LabelsOwned | rpc-core/src/main/java/com/ljm/client/servicecenter/balacne/impl/ConsistencyHashBalance.java:46-47 | every virtual label of a server is owned by that server |
| HashRing.PutVirtualNodes | rpc-core/src/main/java/com/ljm/client/servicecenter/balacne/impl/ConsistencyHashBalance.java:46-50 | definition: the puts of labels 0 .. n-1 of a server in order, each at its label's hash; its properties are the PutVirtualNodes lemmas below |
| HashRing.PutVirtualNodesKeys | rpc-core/src/main/java/com/ljm/client/servicecenter/balacne/impl/ConsistencyHashBalance.java:89-94 | the five puts remove no key and add exactly the hashes of the server's labels |
| HashRing.PutVirtualNodesNew | rpc-core/src/main/java/com/ljm/client/servicecenter/balacne/impl/ConsistencyHashBalance.java:89-94 | after the puts each key keeps its old label or holds one of the server's labels at that label's own hash, and every key a label of the server hashes to holds one of the server's labels, whatever was stored there before (a later `put` overwrites) |
| HashRing.PutServerSelectsAtLabelKey | rpc-core/src/main/java/com/ljm/client/servicecenter/balacne/impl/ConsistencyHashBalance.java:89-94 | once a plain-named server has put its virtual nodes, a lookup at the hash of any of its labels returns that server, even after a collision with another server's label |
| HashRing.PutVirtualNodesKeeps | rpc-core/src/main/java/com/ljm/client/servicecenter/balacne/impl/ConsistencyHashBalance.java:89-94 | every key that is not one of the new hashes keeps its label |
| HashRing.PutVirtualNodesWellFormed | rpc-core/src/main/java/com/ljm/client/servicecenter/balacne/impl/ConsistencyHashBalance.java:86-95 | putting a listed server's labels keeps every entry at its label's hash and owned by a listed node |
| HashRing.ServerKeysIn | rpc-core/src/main/java/com/ljm/client/servicecenter/balacne/impl/ConsistencyHashBalance.java:43-51 | the label keys of a listed server are among the keys `init` puts |
| HashRing.AddServers | rpc-core/src/main/java/com/ljm/client/servicecenter/balacne/impl/ConsistencyHashBalance.java:42-53 | definition: `PutVirtualNodes` of every listed server, in list order; its properties are the AddServers lemmas below |
| HashRing.AddServersKeys | rpc-core/src/main/java/com/ljm/client/servicecenter/balacne/impl/ConsistencyHashBalance.java:42-53 | `init` removes no key and adds exactly the hashes of every listed server's labels |
| HashRing.AddServersNew | rpc-core/src/main/java/com/ljm/client/servicecenter/balacne/impl/ConsistencyHashBalance.java:42-53 | after `init` each key keeps its old label or holds a label of a listed server at its own hash, and every label key of the last listed server holds a label owned by that server (its puts overwrite earlier servers' colliding labels) |
| HashRing.AddServersNonEmpty | rpc-core/src/main/java/com/ljm/client/servicecenter/balacne/impl/ConsistencyHashBalance.java:42-53 | `init` over a non-empty list leaves a non-empty ring |
| HashRing.AddServersWellFormed | rpc-core/src/main/java/com/ljm/client/servicecenter/balacne/impl/ConsistencyHashBalance.java:42-53 | `init` keeps the ring well formed over a node list containing the listed servers |
| HashRing.RemoveVirtualNodes | rpc-core/src/main/java/com/ljm/client/servicecenter/balacne/impl/ConsistencyHashBalance.java:107-112 | definition: the removes of the hash keys of labels 0 .. n-1 of a server; `RemoveVirtualNodesSpec` states the result |
| HashRing.RemoveVirtualNodesSpec | rpc-core/src/main/java/com/ljm/client/servicecenter/balacne/impl/ConsistencyHashBalance.java:107-112 | the five removes drop exactly the hash keys of the server's labels and nothing else |
| HashRing.RemovedServerHasNoLabels | rpc-core/src/main/java/com/ljm/client/servicecenter/balacne/impl/ConsistencyHashBalance.java:103-114 | on a well-formed ring, no label of the deleted server remains |
| HashRing.FirstIndex | rpc-core/src/main/java/com/ljm/client/servicecenter/balacne/impl/ConsistencyHashBalance.java:105 | the position of the first occurrence of a listed element |
| HashRing.RemoveFirst | rpc-core/src/main/java/com/ljm/client/servicecenter/balacne/impl/ConsistencyHashBalance.java:105 | `remove(Object)` drops one occurrence: the multiset loses exactly one copy, and the list is unchanged when the node is absent |
| HashRing.RemoveFirstIsSplice | rpc-core/src/main/java/com/ljm/client/servicecenter/balacne/impl/ConsistencyHashBalance.java:105 | `remove(Object)` cuts out exactly the first occurrence and keeps the rest in order |
| HashRing.RemoveServerWellFormed | rpc-core/src/main/java/com/ljm/client/servicecenter/balacne/impl/ConsistencyHashBalance.java:103-114 | deleting a node keeps the ring well formed over the shortened node list |
| HashRing.DeletedServerNeverSelected | rpc-core/src/main/java/com/ljm/client/servicecenter/balacne/impl/ConsistencyHashBalance.java:103-114 | after a deletion from a well-formed ring of plain names, lookups succeed and never return the deleted node |
| ConsistencyHash.ConsistencyHashBalance.constructor | rpc-core/src/main/java/com/ljm/client/servicecenter/balacne/impl/ConsistencyHashBalance.java:31-34 | a new balancer has an empty ring and node list, is well formed, and hashes with `FnvHash.Hash` |
| ConsistencyHash.ConsistencyHashBalance.AddVirtualNodes | rpc-core/src/main/java/com/ljm/client/servicecenter/balacne/impl/ConsistencyHashBalance.java:46-51 | the loop of five puts leaves the ring `PutVirtualNodes` describes |
| ConsistencyHash.ConsistencyHashBalance.Init | rpc-core/src/main/java/com/ljm/client/servicecenter/balacne/impl/ConsistencyHashBalance.java:42-53 | every listed server is appended to `realNodes` and its labels are put, nothing is cleared, and well-formedness is kept |
| ConsistencyHash.ConsistencyHashBalance.GetServer | rpc-core/src/main/java/com/ljm/client/servicecenter/balacne/impl/ConsistencyHashBalance.java:61-78 | the ring is built from the list only when empty, otherwise untouched; the result is the clockwise lookup of the node's hash |
| ConsistencyHash.ConsistencyHashBalance.AddNode | rpc-core/src/main/java/com/ljm/client/servicecenter/balacne/impl/ConsistencyHashBalance.java:85-96 | a listed node changes nothing; a new one is appended and its five labels put; well-formedness is kept |
| ConsistencyHash.ConsistencyHashBalance.DelNode | rpc-core/src/main/java/com/ljm/client/servicecenter/balacne/impl/ConsistencyHashBalance.java:103-114 | an unlisted node changes nothing; a listed one loses one occurrence and its five hash keys; well-formedness is kept |
| ConsistencyHash.ConsistencyHashBalance.Balance | rpc-core/src/main/java/com/ljm/client/servicecenter/balacne/impl/ConsistencyHashBalance.java:136-145 | a null or empty list throws `IllegalArgumentException` with no change; otherwise an empty ring is built from the list (nodes appended) and a built one is kept, and on a well-formed balancer the lookup succeeds and with plain names returns a real node |
| ConsistencyHash.StaleRingIgnoresAddressList | rpc-core/src/main/java/com/ljm/client/servicecenter/balacne/impl/ConsistencyHashBalance.java:61-64 | a ring built from ["a"] sends every request to "a", whatever list later calls pass |
| ConsistencyHash.StaleRingScenario | rpc-core/src/main/java/com/ljm/client/servicecenter/balacne/impl/ConsistencyHashBalance.java:136-145 | on a new balancer, `balance(["a"])` then `balance(["b"])` both answer "a" |
| CircuitBreakers.Reset | rpc-core/src/main/java/com/ljm/client/circuitbreaker/CircuitBreaker.java:90-94 | the three counters become 0; the state and the failure time stay |
| CircuitBreakers.Elapsed | rpc-core/src/main/java/com/ljm/client/circuitbreaker/CircuitBreaker.java:40 | `currentTime - lastFailureTime` as a `long`: the exact difference when it fits, otherwise congruent to it modulo 2^64 |
| CircuitBreakers.Recovered | rpc-core/src/main/java/com/ljm/client/circuitbreaker/CircuitBreaker.java:63-65 | definition: at least `minRequestThreshold` requests and a success count of at least `total * halfOpenThreshold` |
| CircuitBreakers.Allow | rpc-core/src/main/java/com/ljm/client/circuitbreaker/CircuitBreaker.java:35-58 | only OPEN within the retry period refuses, and a refusal changes nothing; CLOSED changes nothing; OPEN past the period goes HALF_OPEN with counts 0/0/1; HALF_OPEN counts the request |
| CircuitBreakers.OnSuccess | rpc-core/src/main/java/com/ljm/client/circuitbreaker/CircuitBreaker.java:60-76 | HALF_OPEN counts the success and closes with cleared counters exactly when requests reach the minimum and successes reach the ratio; CLOSED and OPEN clear the counters only |
| CircuitBreakers.OnFailure | rpc-core/src/main/java/com/ljm/client/circuitbreaker/CircuitBreaker.java:78-88 | the failure is counted and timed; HALF_OPEN reopens; otherwise the breaker opens exactly when the count reaches the threshold and keeps its state when it does not |
| CircuitBreakers.StepKeepsInv | rpc-core/src/main/java/com/ljm/client/circuitbreaker/CircuitBreaker.java:35-94 | every call keeps the invariant: CLOSED has no request or success counted and fewer failures than the threshold, HALF_OPEN no failure and at least one request |
| CircuitBreakers.RunKeepsInv | rpc-core/src/main/java/com/ljm/client/circuitbreaker/CircuitBreaker.java:35-94 | any sequence of calls keeps that invariant |
| CircuitBreakers.FailuresKeepOpen | rpc-core/src/main/java/com/ljm/client/circuitbreaker/CircuitBreaker.java:78-88 | failures never move an open breaker and each one is counted |
| CircuitBreakers.FailuresOpenClosed | rpc-core/src/main/java/com/ljm/client/circuitbreaker/CircuitBreaker.java:78-88 | from CLOSED, n failures open the breaker exactly when the count reaches the threshold |
| CircuitBreakers.LastFailureTime | rpc-core/src/main/java/com/ljm/client/circuitbreaker/CircuitBreaker.java:80 | after a run of failures the failure time is that of the last one |
| CircuitBreakers.SuccessClearsFailures | rpc-core/src/main/java/com/ljm/client/circuitbreaker/CircuitBreaker.java:72-75 | a success on a closed breaker zeroes its failure count (and the other counters) and keeps it closed |
| CircuitBreakers.RunAppend | rpc-core/src/main/java/com/ljm/client/circuitbreaker/CircuitBreaker.java:35-94 | running two call sequences one after the other is running their concatenation |
| CircuitBreakers.FailureStreakRestartsAfterSuccess | rpc-core/src/main/java/com/ljm/client/circuitbreaker/CircuitBreaker.java:60-88 | only consecutive failures trip a closed breaker: after fewer failures than the threshold and one success, m further failures open it exactly when m alone reaches the threshold |
| CircuitBreakers.SuccessesKeepClosed | rpc-core/src/main/java/com/ljm/client/circuitbreaker/CircuitBreaker.java:60-76 | successes keep a closed breaker closed, and any of them leaves every counter cleared |
| CircuitBreakers.HalfOpenSuccesses | rpc-core/src/main/java/com/ljm/client/circuitbreaker/CircuitBreaker.java:61-71 | in HALF_OPEN, n successes close the breaker, with every counter cleared, exactly when the recovery test holds for the final success count, and otherwise are all counted |
| CircuitBreakers.CircuitBreaker.constructor | rpc-core/src/main/java/com/ljm/client/circuitbreaker/CircuitBreaker.java:15-33 | a new breaker is CLOSED with zero counters and failure time 0, holding the given thresholds |
| CircuitBreakers.CircuitBreaker.ResetCounts | rpc-core/src/main/java/com/ljm/client/circuitbreaker/CircuitBreaker.java:90-94 | zeroes the counters and nothing else |
| CircuitBreakers.CircuitBreaker.AllowRequest | rpc-core/src/main/java/com/ljm/client/circuitbreaker/CircuitBreaker.java:35-58 | returns the verdict of `Allow` and leaves its new fields, on any breaker, and keeps the invariant of one that held it |
| CircuitBreakers.CircuitBreaker.RecordSuccess | rpc-core/src/main/java/com/ljm/client/circuitbreaker/CircuitBreaker.java:60-76 | leaves the fields `OnSuccess` gives, on any breaker, and keeps the invariant of one that held it |
| CircuitBreakers.CircuitBreaker.RecordFailure | rpc-core/src/main/java/com/ljm/client/circuitbreaker/CircuitBreaker.java:78-88 | leaves the fields `OnFailure` gives, on any breaker, and keeps the invariant of one that held it |
| CircuitBreakerRegistry.CircuitBreakerProvider.constructor | rpc-core/src/main/java/com/ljm/client/circuitbreaker/CircuitBreakerProvider.java:14 | a new registry is empty and satisfies the registry invariant (every stored breaker valid, with the default thresholds) |
| CircuitBreakerRegistry.CircuitBreakerProvider.GetCircuitBreaker | rpc-core/src/main/java/com/ljm/client/circuitbreaker/CircuitBreakerProvider.java:16-21 | a known name returns its stored breaker and changes nothing; an unknown one stores and returns a fresh breaker with (2, 0.5, 10, 10000); other entries are kept and none is removed; every stored breaker, the returned one included, keeps its invariant and the default thresholds |
| CircuitBreakerRegistry.DefaultRecovery | rpc-core/src/main/java/com/ljm/client/circuitbreaker/CircuitBreakerProvider.java:19 | with the registry's thresholds, a half-open breaker with 10 requests closes with every counter cleared on its 5th success, and stays half-open with 4 successes counted after its 4th |
| CircuitBreakerRegistry.DefaultTrip | rpc-core/src/main/java/com/ljm/client/circuitbreaker/CircuitBreakerProvider.java:19 | with the registry's thresholds, two consecutive failures open a new breaker and one does not |
| TokenBuckets.NewTokens | rpc-core/src/main/java/com/ljm/server/rateLimit/impl/TokenBucketRateLimitImpl.java:33 | with a positive rate and under 2^31 ms elapsed, the refill is the number of whole periods elapsed |
| TokenBuckets.Refill | rpc-core/src/main/java/com/ljm/server/rateLimit/impl/TokenBucketRateLimitImpl.java:33-35 | the refilled count never exceeds the capacity, and is `min(tokens + newTokens, capacity)` when the sum fits in an `int` |
| TokenBuckets.Acquire | rpc-core/src/main/java/com/ljm/server/rateLimit/impl/TokenBucketRateLimitImpl.java:29-44 | a zero rate throws; otherwise the timestamp becomes now, and the call is granted exactly when the refilled count is positive, taking one token |
| TokenBuckets.AcquireKeepsInv | rpc-core/src/main/java/com/ljm/server/rateLimit/impl/TokenBucketRateLimitImpl.java:33-42 | 0 <= tokens <= capacity is kept for a positive rate, a clock that does not go back, under 2^31 ms elapsed and a refill sum that fits in an `int` |
| TokenBuckets.BurstAtOneInstant | rpc-core/src/main/java/com/ljm/server/rateLimit/impl/TokenBucketRateLimitImpl.java:29-44 | with no time passing, n calls take min(n, tokens) tokens and are granted that many times |
| TokenBuckets.FreshBucketGrantsCapacity | rpc-core/src/main/java/com/ljm/server/rateLimit/impl/TokenBucketRateLimitImpl.java:22-44 | a new bucket grants exactly `capacity` calls at its creation instant and denies the next |
| TokenBuckets.LongIdleDrivesTokensNegative | rpc-core/src/main/java/com/ljm/server/rateLimit/impl/TokenBucketRateLimitImpl.java:33-35 | as written, 2^31 ms of idleness leaves a full default bucket at -21474826 tokens and denies the call |
| TokenBuckets.RefillSumWraps | rpc-core/src/main/java/com/ljm/server/rateLimit/impl/TokenBucketRateLimitImpl.java:35 | as written, with rate 1 the refill sum wraps to MIN_VALUE after 2^31 - 1 ms |
| TokenBuckets.SaturatingRefill | rpc-core/src/main/java/com/ljm/server/rateLimit/impl/TokenBucketRateLimitImpl.java:33-35 | the intended refill lies between the old count and the capacity, and reaches the capacity exactly when enough periods have elapsed |
| TokenBuckets.SaturatingAcquire | rpc-core/src/main/java/com/ljm/server/rateLimit/impl/TokenBucketRateLimitImpl.java:29-44 | with the intended refill, the timestamp becomes now, the call is granted exactly when the refilled count is positive, and a granted call takes one token from it |
| TokenBuckets.SaturatingAcquireKeepsInv | rpc-core/src/main/java/com/ljm/server/rateLimit/impl/TokenBucketRateLimitImpl.java:33-42 | with the intended refill the bounds hold for any idle time, and after `capacity` periods a call is granted |
| TokenBuckets.TokenBucketRateLimit.constructor | rpc-core/src/main/java/com/ljm/server/rateLimit/impl/TokenBucketRateLimitImpl.java:22-27 | a new bucket is full and timed at its creation instant |
| TokenBuckets.TokenBucketRateLimit.GetToken | rpc-core/src/main/java/com/ljm/server/rateLimit/impl/TokenBucketRateLimitImpl.java:29-44 | a zero rate throws and changes nothing; otherwise the verdict and the new fields are those of `Acquire` |
| RateLimitRegistry.RateLimitProvider.constructor | rpc-core/src/main/java/com/ljm/server/rateLimit/provider/RateLimitProvider.java:14 | a new registry is empty |
| RateLimitRegistry.RateLimitProvider.GetRateLimit | rpc-core/src/main/java/com/ljm/server/rateLimit/provider/RateLimitProvider.java:19-26 | a known name returns its stored bucket unchanged; an unknown one stores and returns a fresh full bucket with rate 100 and capacity 10; other entries are kept and none is removed |
| RateLimitRegistry.DefaultBucketBurst | rpc-core/src/main/java/com/ljm/server/rateLimit/provider/RateLimitProvider.java:17-21 | a bucket from the registry grants 10 calls at once, denies the 11th, and grants again 100 ms later |
| Messages.RequestTypeCode | rpc-common/src/main/java/com/ljm/message/RequestType.java:12-20 | NORMAL has code 0 and HEARTBEAT code 1 |
| Messages.HeartBeatRequest | rpc-common/src/main/java/com/ljm/message/RpcRequest.java:32-34 | a heartbeat request has type HEARTBEAT (code 1) and no other field set |
| Messages.Sussess | rpc-common/src/main/java/com/ljm/message/RpcResponse.java:26-28 | null data throws; otherwise code 200, the data, its runtime class, and no message |
| Messages.Fail | rpc-common/src/main/java/com/ljm/message/RpcResponse.java:30-32 | code 500 with the message and neither data nor data type |
| Messages.ResponsesReadBack | rpc-common/src/main/java/com/ljm/message/RpcResponse.java:26-32 | the code alone tells the two factories' responses apart, and each gives back what it was built with |
| FrameEncoder.BE16 | rpc-common/src/main/java/com/ljm/serializer/mycode/MyEncoder.java:29-37 | `writeShort` writes two bytes |
| FrameEncoder.BE32 | rpc-common/src/main/java/com/ljm/serializer/mycode/MyEncoder.java:44 | `writeInt` writes four bytes |
| FrameEncoder.U16RoundTrip | rpc-common/src/main/java/com/ljm/serializer/mycode/MyEncoder.java:29-37 | the two bytes `writeShort` writes read back as the low 16 bits of the value |
| FrameEncoder.U32RoundTrip | rpc-common/src/main/java/com/ljm/serializer/mycode/MyEncoder.java:44 | the four bytes `writeInt` writes read back as the low 32 bits of the value |
| FrameEncoder.TypeCode | rpc-common/src/main/java/com/ljm/serializer/myserializer/HessianSerializer.java:63 | Hessian's id is 3 and Protostuff's is 4 (ProtostuffSerializer.java line 83) |
| FrameEncoder.Frame | rpc-common/src/main/java/com/ljm/serializer/mycode/MyEncoder.java:25-47 | an unknown object writes nothing and throws; an absent or empty payload throws after the 4 kind and id bytes; otherwise 8 + n bytes: kind, id, the length n, then the payload unchanged |
| FrameEncoder.FrameRoundTrip | rpc-common/src/main/java/com/ljm/serializer/mycode/MyEncoder.java:29-46 | the header of a frame parses back to the kind code, the serializer id and the payload length, the rest is the payload, and distinct codes tell a request from a response |
| FrameEncoder.ByteBuf.WriteShort | rpc-common/src/main/java/com/ljm/serializer/mycode/MyEncoder.java:29 | appends the two bytes of `BE16` |
| FrameEncoder.ByteBuf.WriteInt | rpc-common/src/main/java/com/ljm/serializer/mycode/MyEncoder.java:44 | appends the four bytes of `BE32` |
| FrameEncoder.ByteBuf.WriteBytes | rpc-common/src/main/java/com/ljm/serializer/mycode/MyEncoder.java:46 | appends the array unchanged |
| FrameEncoder.MyEncoder.constructor | rpc-common/src/main/java/com/ljm/serializer/mycode/MyEncoder.java:20-22 | the encoder holds the given serializer |
| FrameEncoder.MyEncoder.Encode | rpc-common/src/main/java/com/ljm/serializer/mycode/MyEncoder.java:25-47 | the write sequence appends exactly `Frame`'s bytes to the buffer and ends with `Frame`'s exception |

## Findings

| source | as written | input that shows it | evidently intended | confidence | as-written member | corrected member |
|---|---|---|---|---|---|---|
| rpc-core/src/main/java/com/ljm/server/rateLimit/impl/TokenBucketRateLimitImpl.java:33 | the elapsed `long` is cast to `int` before the division | a full bucket with rate 100 and capacity 10, idle for 2^31 ms (about 24.8 days), is left at -21474826 tokens and refuses calls for about as long again | a long idle period refills the bucket to capacity | high (not executed) | TokenBuckets.LongIdleDrivesTokensNegative | TokenBuckets.SaturatingAcquireKeepsInv |
| rpc-core/src/main/java/com/ljm/server/rateLimit/impl/TokenBucketRateLimitImpl.java:35 | `currentTokens + newTokens` is an `int` sum that can wrap | rate 1, capacity 10, 1 token, 2^31 - 1 ms elapsed: the count becomes -2^31 | the sum saturates at capacity | high (not executed) | TokenBuckets.RefillSumWraps | TokenBuckets.SaturatingAcquireKeepsInv |

`TokenBuckets.TokenBucketRateLimit.GetToken` keeps the refill as written. The corrected refill is `TokenBuckets.SaturatingRefill`. Its bounds are proved for any idle time.

## Left out

- Concurrency is not modelled. Every component is sequential. The `synchronized` methods, `AtomicInteger` counters, `ConcurrentHashMap` registries and `volatile` fields behave as single-threaded fields and maps.
- Logging calls are not modelled.
- `System.currentTimeMillis()` and `UUID.randomUUID()` are not modelled. They are the parameters `now` and `uuid`.
- FnvHash.CodeUnits: a Dafny `char` is a Unicode scalar value, so a Java string holding an unpaired surrogate is not represented; `CodeUnits` and `Utf16` cover well-formed strings only.
- ConsistencyHash.ConsistencyHashBalance.GetServer: the list is a sequence. A `null` list, which `init` would dereference, is not represented.
- ConsistencyHash.ConsistencyHashBalance.AddNode: a `null` node name is not represented; names are strings.
- ConsistencyHash.ConsistencyHashBalance.DelNode: a `null` node name is not represented; names are strings.
- ConsistencyHash.ConsistencyHashBalance: `getShards`, `getRealNodes`, `getVirtualNum` and `toString` are field reads and a constant, so they are not modelled.
- The concurrent balancer at lines 163-351 of `ConsistencyHashBalance.java` is left out. It is commented out and never runs.
- CircuitBreakers.CircuitBreaker: the counters are unbounded naturals. An `AtomicInteger` would wrap after 2^31 - 1 increments without a reset.
- CircuitBreakers.CircuitBreaker: `halfOpenThreshold` is an exact `real`, not an IEEE `double`. The registry's 0.5 makes `total * 0.5` exact in both.
- CircuitBreakers.CircuitBreaker: `getState` is a field read, so it is not modelled.
- TokenBuckets.AcquireKeepsInv: stated only for a refill sum that fits in an `int`, because the code as written can break the bounds otherwise (see Findings).
- The Hessian and Protostuff serializers are not part of this model. They are wrappers over external libraries, so the serializer is an arbitrary function from message to byte array or `null`. An exception thrown inside `serialize` is not represented.
- `MessageType` is not part of this model. Its REQUEST and RESPONSE codes are therefore a parameter (`FrameEncoder.MessageCodes`).
- The decoder `MyDecoder` is not part of this model. `FrameEncoder.ParseHeader` reads only the header fields of a frame.
- Netty's `ByteBuf` capacity growth, reader and writer indices, and the channel context are not modelled. The buffer is the sequence of bytes written.
- The Java objects inside requests and responses are reduced to their runtime class and an opaque content string. The `Class<?>[]` parameter types are class names.
- The transport, heartbeat handlers, service registration, and configuration loading are outside the modelled core.
