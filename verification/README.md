# Lamport mutual exclusion service of cs271-pa1, modelled in Dafny

The repository is a three-peer banking exercise. Each peer runs a
`LamportMutexService` that implements the local half of Lamport's distributed
mutual exclusion algorithm (Lamport 1978, "Time, Clocks, and the Ordering of
Events in a Distributed System"). This project models that half together
with the pure pieces around it:

- `request.dfy` (module `Requests`): the `Request` record and its comparator,
  which orders requests by timestamp and breaks ties by process id. It is
  proved equal to an independent reference order (`Precedes`), and the
  reference order is proved to be a strict total order.
- `lamport_mutex.dfy` (module `LamportMutex`): the service state is a Lamport
  clock, the service's own process id and the queue of pending requests. The
  operations are `incrementClock`, `requestMutex`, `canEnterCriticalSection`
  and `releaseMutex`.
- `block.dfy` (module `Blocks`): a block's hash is the lower-case hexadecimal
  rendering of `SHA-256(operation.toString() + previousHash)`. The rendering
  loop is exact and proved to round-trip. The digest, the UTF-8 encoding and
  `toString` are uninterpreted function parameters.
- `client_config.dfy` (module `ClientConfig`): the `ClientPorts` table, the
  peer port list of `ClientPortService` and `Pa1Application.getClientIndex`.
- `java_lang.dfy` (module `JavaLang`): the Java types involved at their real
  widths (`long`, `int`, signed `byte`, UTF-16 `char`, `String` as a sequence
  of code units), plus `Long.compare` and `String.compareTo`.
- `wrappers.dfy` (module `Wrappers`): `Option` and `Result`. A thrown
  exception becomes a `Failure`.

Modelling choices:

- The clock is a Java `long`, so `++lamportClock` wraps from `Long.MAX_VALUE`
  to `Long.MIN_VALUE`, and the model says so. `ClockCountsIncrements` proves
  that from 0 the clock simply counts increments for the first `LONG_MAX`
  steps.
- The `PriorityBlockingQueue` is a `seq<Request>` whose order means nothing.
  Every contract is stated over the queue's multiset or its membership, and
  `CanEnterOrderIndependent` proves that the answer of
  `canEnterCriticalSection` does not depend on the order.
- `canEnterCriticalSection` picks the own request with `findFirst`, and the
  queue's iteration order is unspecified. With two own requests queued the
  answer depends on which one is picked (`TwoOwnRequestsAmbiguous`). The
  model therefore requires at most one own request, which is the protocol's
  discipline of request, enter, then release.
- The code queues only the service's own requests. Nothing in it adds a
  foreign request, and `RunKeepsOwnRequestsOnly` proves this for every
  sequence of calls. `ReachableCanAlwaysEnter` proves the consequence: in
  every reachable state with at most one own request queued, the check
  passes as soon as that request is queued.
- A Java `String` concatenated with a null `previousHash` appends the text
  "null". The model keeps that (`PreviousText`), and
  `NullPreviousHashIsTextNull` records that such a block hashes like one whose
  previous hash is the string "null".

Where the code departs from Lamport's algorithm as the 1978 paper states
it, the model follows the code:

- The paper's process acknowledges every request and may enter only after
  hearing from every other process. The code has no acknowledgement and no
  count of replies, so its check is the queue-order condition alone.
- The paper's clock rule moves the clock past every timestamp received. The
  code receives nothing, so its clock moves only on `incrementClock`.
- The paper's process puts other processes' requests into its queue and
  removes them on their release. The code has no handler for either, so its
  queue only ever holds its own requests.
- The paper's process has one outstanding request at a time. The code does
  not check this, so two own requests can be queued.

## Model

| member | source | states |
|---|---|---|
| JavaLang.LongCompare | src/main/java/com/cs271/pa1/dto/Request.java:12 | `Long.compare` is negative, zero or positive exactly when the first timestamp is smaller, equal or larger |
| JavaLang.StringCompare | src/main/java/com/cs271/pa1/dto/Request.java:15 | `String.compareTo` is negative exactly when the first string is lexicographically smaller over UTF-16 code units, with a proper prefix first, and 0 exactly for equal strings |
| JavaLang.StringCompareAntisymmetric | src/main/java/com/cs271/pa1/dto/Request.java:15 | swapping the operands of `String.compareTo` negates the result |
| JavaLang.StringCompareTransitive | src/main/java/com/cs271/pa1/dto/Request.java:15 | `String.compareTo` is transitive on "less than" |
| JavaLang.ToUnsigned | src/main/java/com/cs271/pa1/dto/Block.java:26 | `0xff & b` lies in 0..255 and agrees with the signed byte modulo 256 |
| Requests.Compare | src/main/java/com/cs271/pa1/dto/Request.java:11-16 | `compareTo` is negative exactly when the reference (timestamp, id) order puts the first request first, and 0 exactly when timestamp and process id both agree |
| Requests.CompareReflexive | src/main/java/com/cs271/pa1/dto/Request.java:11-16 | every request compares equal to itself |
| Requests.CompareAntisymmetric | src/main/java/com/cs271/pa1/dto/Request.java:12-15 | compare(a, b) is exactly -compare(b, a), so the signs are opposite |
| Requests.CompareTransitive | src/main/java/com/cs271/pa1/dto/Request.java:12-15 | compare(a, b) < 0 and compare(b, c) < 0 give compare(a, c) < 0 |
| Requests.CompareByTimestamp | src/main/java/com/cs271/pa1/dto/Request.java:12-14 | different timestamps alone decide the result, -1 for the smaller one first and 1 otherwise |
| Requests.CompareTieBreak | src/main/java/com/cs271/pa1/dto/Request.java:13-15 | on equal timestamps the result is `String.compareTo` of the ids, negative exactly for lexicographic order |
| Requests.PrecedesTrichotomy | src/main/java/com/cs271/pa1/dto/Request.java:11-16 | of two requests exactly one comes first or they are equal, and no request precedes itself |
| Requests.PrecedesTransitive | src/main/java/com/cs271/pa1/dto/Request.java:11-16 | the request order is transitive, so it is a strict total order |
| LamportMutex.NewService | src/main/java/com/cs271/pa1/service/LamportMutexService.java:12-15 | a new service has clock 0 and the given id, queues no request, and cannot enter before it requests |
| LamportMutex.IncrementClock | src/main/java/com/cs271/pa1/service/LamportMutexService.java:17-19 | returns the new clock value and leaves the clock equal to it: old + 1 below LONG_MAX, a wrap to LONG_MIN at it; queue and id untouched |
| LamportMutex.ClockCountsIncrements | src/main/java/com/cs271/pa1/service/LamportMutexService.java:12-19 | n increments raise the clock by exactly n while that stays within a long, leaving the queue alone |
| LamportMutex.RequestMutex | src/main/java/com/cs271/pa1/service/LamportMutexService.java:21-31 | the clock is incremented, and the queue gains exactly one request stamped with the new clock and the own id, keeping every earlier entry |
| LamportMutex.RequestMutexAddsOne | src/main/java/com/cs271/pa1/service/LamportMutexService.java:23-27 | a request raises the own-request count by one and removes nothing |
| LamportMutex.RequestMutexIsLatest | src/main/java/com/cs271/pa1/service/LamportMutexService.java:23-27 | while the clock is below LONG_MAX and every queued request is stamped at or below it, the new request comes after every queued request in the total order |
| LamportMutex.FindOwn | src/main/java/com/cs271/pa1/service/LamportMutexService.java:35-38 | `findFirst` yields a queued request with the own id, and yields nothing exactly when none is queued |
| LamportMutex.CountSmaller | src/main/java/com/cs271/pa1/service/LamportMutexService.java:40-42 | the count of requests ordered before `mine` is 0 exactly when no queued request compares below it |
| LamportMutex.CanEnterCriticalSection | src/main/java/com/cs271/pa1/service/LamportMutexService.java:33-43 | with at most one own request queued: fails with NoSuchElement exactly when none is queued, otherwise says whether no queued request compares below it |
| LamportMutex.CheckCanEnter | src/main/java/com/cs271/pa1/service/LamportMutexService.java:33-43 | the scan-then-count evaluation of the stream pipeline gives the same answer as the model |
| LamportMutex.CanEnterIffLeast | src/main/java/com/cs271/pa1/service/LamportMutexService.java:40-42 | with its one own request m queued, the service may enter exactly when m is the least queued request in the reference order |
| LamportMutex.CanEnterOrderIndependent | src/main/java/com/cs271/pa1/service/LamportMutexService.java:35-42 | any reordering of the queue keeps at most one own request and gives the same answer |
| LamportMutex.TwoOwnRequestsAmbiguous | src/main/java/com/cs271/pa1/service/LamportMutexService.java:35-38 | two requests without a release queue two own requests, and the earlier one passes the check while the later one fails it |
| LamportMutex.SelectMultiset | src/main/java/com/cs271/pa1/service/LamportMutexService.java:47 | filtering the queue keeps each matching request with its multiplicity and drops the rest |
| LamportMutex.ReleaseMutex | src/main/java/com/cs271/pa1/service/LamportMutexService.java:45-48 | every own-id request is removed and every other request keeps its multiplicity; clock and id untouched |
| LamportMutex.ReleaseIdempotent | src/main/java/com/cs271/pa1/service/LamportMutexService.java:47 | releasing twice gives the same state as releasing once |
| LamportMutex.ReleaseDisablesCanEnter | src/main/java/com/cs271/pa1/service/LamportMutexService.java:35-38 | after a release no own request is queued, and `canEnterCriticalSection` can only fail with NoSuchElement |
| LamportMutex.RunKeepsOwnRequestsOnly | src/main/java/com/cs271/pa1/service/LamportMutexService.java:17-48 | any sequence of the four calls, of any length, keeps every queued request the service's own |
| LamportMutex.RunKeepsStampedBeforeClock | src/main/java/com/cs271/pa1/service/LamportMutexService.java:17-48 | while the clock does not wrap, any sequence of the four calls keeps every queued request stamped between 1 and the current clock, and raises the clock by at most one per call |
| LamportMutex.SoleRequestCanEnter | src/main/java/com/cs271/pa1/service/LamportMutexService.java:40-42 | with only own requests queued and at most one of them, the check passes exactly when the request is queued |
| LamportMutex.ReachableCanAlwaysEnter | src/main/java/com/cs271/pa1/service/LamportMutexService.java:33-43 | in every state reachable from a new service with at most one own request queued, the check fails when the queue is empty and passes otherwise |
| Blocks.ToHexString | src/main/java/com/cs271/pa1/dto/Block.java:26 | `Integer.toHexString` gives lower-case digits without leading zeros that denote the value, one digit exactly below 16 and at most two below 256 |
| Blocks.ByteHex | src/main/java/com/cs271/pa1/dto/Block.java:25-29 | each byte becomes two hexadecimal digits with 16*hi + lo == (b & 0xff), zero-padded below 16 |
| Blocks.HexEncode | src/main/java/com/cs271/pa1/dto/Block.java:24-31 | the rendering has exactly two digits per digest byte, all lower-case hexadecimal |
| Blocks.HexEncodePairs | src/main/java/com/cs271/pa1/dto/Block.java:24-31 | characters 2i and 2i+1 of the rendering are byte i's pair |
| Blocks.HexEncodeLoop | src/main/java/com/cs271/pa1/dto/Block.java:24-31 | the `StringBuilder` loop produces the rendering |
| Blocks.HexRoundTrip | src/main/java/com/cs271/pa1/dto/Block.java:24-31 | decoding the rendering two digits at a time recovers the digest bytes |
| Blocks.HexEncodeInjective | src/main/java/com/cs271/pa1/dto/Block.java:24-31 | different digests never render to the same text |
| Blocks.CalculateHash | src/main/java/com/cs271/pa1/dto/Block.java:18-35 | the hash has 64 hexadecimal digits that decode to the SHA-256 digest of the UTF-8 bytes of operation text + previous hash |
| Blocks.NewBlock | src/main/java/com/cs271/pa1/dto/Block.java:12-16 | the constructor stores operation and previous hash unchanged, and its hash decodes to the digest of their concatenation |
| Blocks.PreviousText | src/main/java/com/cs271/pa1/dto/Block.java:21 | a non-null previous hash is appended as it is, and the text "null" is appended exactly for a null reference or the string "null" |
| Blocks.HashDependsOnContentOnly | src/main/java/com/cs271/pa1/dto/Block.java:21-22 | blocks whose operation text and previous hash concatenate to the same string get the same hash |
| Blocks.HashMatchesIffDigestsMatch | src/main/java/com/cs271/pa1/dto/Block.java:21-31 | two blocks' hashes are equal exactly when their SHA-256 digests are |
| Blocks.NullPreviousHashIsTextNull | src/main/java/com/cs271/pa1/dto/Block.java:21 | a null previous hash hashes the same as the string "null" |
| ClientConfig.ClientPort.Port | src/main/java/com/cs271/pa1/dto/ClientPorts.java:9-13 | each constant's port is the service list's entry at the constant's declaration position |
| ClientConfig.PortsDistinct | src/main/java/com/cs271/pa1/dto/ClientPorts.java:9-11 | A, B and C have pairwise distinct ports |
| ClientConfig.PortsConsecutive | src/main/java/com/cs271/pa1/dto/ClientPorts.java:9-11 | each constant's port is one more than the previous constant's |
| ClientConfig.DeclaredPortsAreClientPorts | src/main/java/com/cs271/pa1/dto/ClientPorts.java:9-11 | the enum's ports in declaration order are the service's list 8080, 8081, 8082 |
| ClientConfig.RemoveFirst | src/main/java/com/cs271/pa1/service/ClientPortService.java:19 | `List.remove(Object)` deletes exactly the first occurrence and keeps the rest in order, and is the identity when the element is absent |
| ClientConfig.GetClientPorts | src/main/java/com/cs271/pa1/service/ClientPortService.java:12-21 | a known server port leaves two ports, neither of them the server's; an unknown or null one leaves the full list; the result holds exactly the listed ports other than the server's |
| ClientConfig.GetClientPortsTable | src/main/java/com/cs271/pa1/service/ClientPortService.java:15-20 | the servers on 8080, 8081 and 8082 get [8081, 8082], [8080, 8082] and [8080, 8081] |
| ClientConfig.GetClientIndex | src/main/java/com/cs271/pa1/Pa1Application.java:25-32 | a successful index lies in 0..2 and names the input; any other name fails with InvalidClientName |
| ClientConfig.ClientIndexRoundTrip | src/main/java/com/cs271/pa1/Pa1Application.java:27-29 | "ClientA", "ClientB" and "ClientC" map to 0, 1 and 2 |
| ClientConfig.ClientIndexInjective | src/main/java/com/cs271/pa1/Pa1Application.java:27-29 | two names with the same successful index are the same name |

## Left out

- LamportMutex.CanEnterCriticalSection: requires at most one own request to be queued, which the Java method does not require. With more than one, the answer depends on the unspecified iteration order of `PriorityBlockingQueue` (see `TwoOwnRequestsAmbiguous`).
- RunKeepsStampedBeforeClock: holds only while the clock stays below LONG_MAX. After 2^63 - 1 increments the clock wraps to LONG_MIN, and queued stamps can exceed it.
- ReachableCanAlwaysEnter: covers only reachable states with at most one own request queued. With more, `canEnterCriticalSection` depends on the queue's iteration order (see `TwoOwnRequestsAmbiguous`).
- A null `operation` makes the `Block` constructor throw `NullPointerException` in `operation.toString()`. Operations here are non-null values.
- The `NoSuchAlgorithmException` branch of `calculateHash` is not modelled. Every Java platform must provide SHA-256, so that branch cannot run.
- Broadcasting the request to the other peers is a pair of comments in `requestMutex`. No code sends anything, so nothing is modelled.
- `receiveRequest`, `receiveReply` and `receiveRelease` are called by `LamportController` but not defined in `LamportMutexService`. Reply counting and foreign releases therefore have no source to model.
- `canEnterCriticalSection` leaves the state unchanged, and `getClientPorts` leaves its base list unchanged. The model shows both by construction: the functions return only their answer, and `CLIENT_PORTS` is a constant.
- SHA-256 (`MessageDigest`), the UTF-8 encoding and `Transaction.toString` are library or floating-point code. They are function parameters of `Hashing`.
- The random process id (`UUID.randomUUID`) is a parameter of `NewService`.
- The `synchronized` monitor and the queue's thread safety are out of scope. Operations are modelled one at a time.
- The heap layout of `PriorityBlockingQueue` is not modelled. The queue is a sequence in unspecified order.
- A request with a null process id makes `compareTo` throw. Process ids here are non-null strings, which is all the service itself ever queues.
- Network transport, HTTP controllers and proxies, the console interface, `Pa1Application.main`, and `BlockchainService` are left out. `BlockchainService` is a stub that returns `false` or `null`.
- Also left out: `TransactionDto.createTransaction` (wall clock and random ids) and the data-only DTOs.
