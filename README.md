# A Dafny model of a Paxos-replicated key/value store

The store is a cluster of five replicas. Each replica keeps a string-to-string map. Clients send PUT, GET and DEL requests over TCP, UDP or RMI. GET reads the local map directly. PUT and DEL go into the replica's proposal queue, and its proposer thread runs Paxos rounds, one after another, while its queue is non-empty. Each round uses a higher round number than the one before. A round without a majority, or whose suggestion is refused, is followed by a new round for the same head. A round that learns of an earlier accepted value proposes that value, so the head needs a later round. One round goes as follows:

1. It asks every registered replica for permission with a suggestion id. The id is a round number with the server id as tiebreaker.
2. With three grants, it suggests either the highest previously accepted value that came back or the head of its queue.
3. With three acceptances, it reports the consensus to every replica.

Every replica's learner then applies the value to its map, and drops it from its queue when it is the queue's head. A state id numbers the consensus slots (1, 2, ...). It lets an acceptor forget a value accepted for an earlier slot.

The model has one module per source class:

- `JavaLang`: the few Java library semantics the code relies on:
  - `String.compareTo`;
  - `String.split(" ")` with its trailing-empty-token rule;
  - thrown exceptions as an `Outcome`.
- `SuggestionIds`: `SuggestionId.compareTo` as a total preorder.
- `Values`: `Value` as a class. That class has an immutable command, key and value, a mutable executed flag, and identity-or-content equality.
- `ProposalQueues`: `ProposalQueue` as a class over a sequence of values plus the state id.
- `Acceptors`: `Acceptor` as a class whose two methods are proved against pure transition functions, plus lemmas over arbitrary sequences of calls. The most important lemma is the Paxos promise.
- `Tallies`: the folds over replica answers that `RMIKeyValueStore` performs, as functions with their meaning proved. It also proves what they give for a cluster of modelled acceptors.
- `KeyValueStores`: `RMIKeyValueStore`. It covers the tally loops, learner, map updates and registration check, as a class whose loops are proved against `Tallies`.
- `Proposers`: `Proposer`, with one iteration of its loop as a method that returns the broadcasts it made.
- `ResponseValidators`, `Servers`, `Clients`: the text layer (`ResponseValidator`, `AbstractServer` with the TCP server's per-line handling, `AbstractClient`). This part carries the round-trip lemmas from a client's request line, through the server's acknowledgement, to the client's validator.

Replicas are not stubs here. Their answers are sequences of abstract results given as parameters:

- a failed remote call is `Unreachable` or `None`;
- the registry lookup in `registerThisId` is a boolean parameter;
- the configuration file's contents are the `registrationData` parameter of the store's constructor.

The documentation of `GrantedMessage` says an acceptor answers STATE NACK when it ignores a request because of its state id. The code answers NACK in that case (Acceptor.java:54-55), and the model follows the code. `Tallies.StateNackBranchUnreachable` shows what follows: the STATE_NACK handling in `sendPermissionMessages` never runs against these acceptors. `Tallies.StaleProposerStaysStale` shows the other consequence: a proposer stuck behind the cluster's state id never catches up through that branch.

## Model

| member | source | states |
|---|---|---|
| JavaLang.CompareStringsMeaning | src/com/project4/server/kvStore/paxos/SuggestionId.java:26 | String.compareTo is 0 exactly on equal strings and negative exactly when the first precedes the second lexicographically (proper prefix or smaller character at the first difference) |
| JavaLang.CompareStringsAntisymmetric | src/com/project4/server/kvStore/paxos/SuggestionId.java:26 | swapping the strings negates String.compareTo |
| JavaLang.CompareStringsTransitive | src/com/project4/server/kvStore/paxos/SuggestionId.java:26 | String.compareTo's "at most" is transitive |
| JavaLang.Utf16Length | src/com/project4/server/AbstractServer.java:72 | String.length counts UTF-16 code units: between the number of characters and twice that, exactly the number of characters when all are in the Basic Multilingual Plane, twice it when none is |
| JavaLang.Split | src/com/project4/client/ResponseValidator.java:24 | split(" ") tokens contain no space; a string without a space is its own single token; the last token is non-empty when the string contains a space |
| JavaLang.SplitCharacterisation | src/com/project4/client/ResponseValidator.java:24 | two or more space-free tokens with a non-empty last one are the split of s exactly when s is those tokens joined by single spaces followed by any run of spaces |
| JavaLang.SplitOfBlankLine | src/com/project4/server/TCPServer.java:51 | a non-empty line of spaces splits into no tokens at all |
| SuggestionIds.CompareTo | src/com/project4/server/kvStore/paxos/SuggestionId.java:19-27 | a larger round compares 1 and a smaller round -1 whatever the server ids; with equal rounds the result is 0 exactly on equal server ids and negative exactly when the server id is lexicographically smaller |
| SuggestionIds.CompareReflexive | src/com/project4/server/kvStore/paxos/SuggestionId.java:19-27 | every id compares 0 with itself |
| SuggestionIds.CompareZeroIffEqual | src/com/project4/server/kvStore/paxos/SuggestionId.java:19-27 | the comparison is 0 exactly when the ids are equal |
| SuggestionIds.CompareAntisymmetric | src/com/project4/server/kvStore/paxos/SuggestionId.java:19-27 | compareTo(a,b) == -compareTo(b,a) |
| SuggestionIds.CompareTransitive | src/com/project4/server/kvStore/paxos/SuggestionId.java:19-27 | a <= b and b <= c give a <= c |
| SuggestionIds.CompareStrictTransitive | src/com/project4/server/kvStore/paxos/SuggestionId.java:19-27 | a chain of <= with one strict step is strict |
| SuggestionIds.CompareTotal | src/com/project4/server/kvStore/paxos/SuggestionId.java:19-27 | of two ids one is at least the other |
| Values.Value.constructor | src/com/project4/server/kvStore/paxos/Value.java:17-21 | a new value has the given command, key and value, and notExecuted() holds (Value.java:45-47) |
| Values.Value.NoOp | src/com/project4/server/kvStore/paxos/Value.java:23-27 | the no-argument value is NO_OP with null key and null value, and notExecuted() holds |
| Values.Value.SetExecuted | src/com/project4/server/kvStore/paxos/Value.java:41-43 | after the call the value is executed; no member clears the flag |
| Values.Value.Equals | src/com/project4/server/kvStore/paxos/Value.java:49-61 | a value equals itself; a value with a null key or null value equals no other object |
| Values.EqualsDistinct | src/com/project4/server/kvStore/paxos/Value.java:54-58 | two different objects are equal exactly when this key and value are non-null and both match and the commands match |
| Values.EqualsSymmetric | src/com/project4/server/kvStore/paxos/Value.java:49-61 | equality is symmetric |
| Values.EqualsTransitive | src/com/project4/server/kvStore/paxos/Value.java:49-61 | equality is transitive |
| Values.DeleteCopiesDoNotMatch | src/com/project4/server/kvStore/RMIKeyValueStore.java:163 | two DELETE values built for the same key are not equal, while two PUT values with the same key and value are |
| ProposalQueues.ProposalQueue.constructor | src/com/project4/server/kvStore/paxos/ProposalQueue.java:15-18 | a new queue is empty with state id 1 |
| ProposalQueues.ProposalQueue.AddTask | src/com/project4/server/kvStore/paxos/ProposalQueue.java:20-22 | the value is appended at the tail; earlier values and the state id are unchanged |
| ProposalQueues.ProposalQueue.SetStateId | src/com/project4/server/kvStore/paxos/ProposalQueue.java:28-30 | any id is stored, lower ones included; the values are unchanged |
| ProposalQueues.ProposalQueue.Peek | src/com/project4/server/kvStore/paxos/ProposalQueue.java:32-37 | null exactly on an empty queue, otherwise the head; reads only |
| ProposalQueues.ProposalQueue.IsEmpty | src/com/project4/server/kvStore/paxos/ProposalQueue.java:39-41 | true exactly when no value is queued |
| ProposalQueues.ProposalQueue.Dequeue | src/com/project4/server/kvStore/paxos/ProposalQueue.java:44-52 | empty queue: no change; head equal to the argument: head removed and marked executed; otherwise queue and head unchanged; state id never changes |
| Acceptors.RequestPermissionSpec | src/com/project4/server/kvStore/paxos/Acceptor.java:53-70 | a stale sender gets NACK and nothing changes; otherwise the queue's state id becomes the sender's (never lower); GRANTED exactly when the sender is current and the id is at least the last permitted one; a grant raises the promise to the id; a newer slot clears the accepted value even on NACK; a grant carries the accepted id and the post-clearing value; never STATE_NACK |
| Acceptors.SuggestValueSpec | src/com/project4/server/kvStore/paxos/Acceptor.java:72-83 | accepted exactly when the sender is current and the id is at least the last permitted one; a refusal changes nothing; an acceptance records id, value and slot and leaves the promise and queue alone |
| Acceptors.Acceptor.constructor | src/com/project4/server/kvStore/paxos/Acceptor.java:14-19 | both ids start at (0,""), the value at null, the slot at 0 |
| Acceptors.Acceptor.RequestPermission | src/com/project4/server/kvStore/paxos/Acceptor.java:53-70 | the new fields, queue state id and reply are those of RequestPermissionSpec; the queued values are unchanged |
| Acceptors.Acceptor.SuggestValue | src/com/project4/server/kvStore/paxos/Acceptor.java:72-83 | the new fields and the reply are those of SuggestValueSpec; the queue is not modified |
| Acceptors.PermittedIdNeverDecreases | src/com/project4/server/kvStore/paxos/Acceptor.java:64-65 | over any sequence of requests, suggestions and state-id changes, the last permitted id ends at least as high as it started |
| Acceptors.PromiseKept | src/com/project4/server/kvStore/paxos/Acceptor.java:64-69 | after granting p, whatever calls follow, every suggestion and every permission request ranked below p is refused |
| Acceptors.AcceptedValueReported | src/com/project4/server/kvStore/paxos/Acceptor.java:61-67 | right after accepting (id, v) for a slot, a grant for the same slot reports exactly (id, v) |
| Acceptors.NewSlotClearsValue | src/com/project4/server/kvStore/paxos/Acceptor.java:61-63 | a current request for a slot after the accepted one clears the accepted value, and a grant then carries null |
| Tallies.FirstStateNack | src/com/project4/server/kvStore/RMIKeyValueStore.java:192 | the position of the first STATE_NACK reply, or the number of replies if there is none |
| Tallies.HighestIsFirstMaximum | src/com/project4/server/kvStore/RMIKeyValueStore.java:176-190 | starting from (0,"") and null, the result is at least (0,"") and at least every granted id; it is either (0,"") with null or the id and value (null included) of the first granted reply with the greatest id, above (0,"") |
| Tallies.PermissionOutcomeOf | src/com/project4/server/kvStore/RMIKeyValueStore.java:173-207 | the result of sendPermissionMessages for the replies in list order; without a majority the value is null |
| Tallies.StateIdAfterPermission | src/com/project4/server/kvStore/RMIKeyValueStore.java:192-201 | the local state id after the permission phase: unchanged when no reply is STATE_NACK, and otherwise either unchanged or the state id some STATE_NACKing replica reported |
| Tallies.PermissionMajorityMeaning | src/com/project4/server/kvStore/RMIKeyValueStore.java:203-206 | majority exactly when no reply is STATE_NACK and at least three positions of the replica list granted (a replica registered twice has two positions) |
| Tallies.UnreachableIgnored | src/com/project4/server/kvStore/RMIKeyValueStore.java:180-184 | inserting an unreachable replica anywhere changes neither the outcome nor the state id |
| Tallies.StateNackBranchUnreachable | src/com/project4/server/kvStore/RMIKeyValueStore.java:192-201 | for replies produced by modelled acceptors there is no STATE_NACK, the state id is never changed, and majority means at least three grants |
| Tallies.StaleProposerStaysStale | src/com/project4/server/kvStore/RMIKeyValueStore.java:192-201 | a proposer behind every reachable acceptor gets no majority and its state id stays behind |
| Tallies.SuggestionAcceptedMeaning | src/com/project4/server/kvStore/RMIKeyValueStore.java:211-223 | the suggestion verdict holds exactly when at least three positions of the replica list answered true |
| Tallies.OutrankedSuggestionFails | src/com/project4/server/kvStore/RMIKeyValueStore.java:41 | when at most five entries of the replica list can be reached, three acceptors that promised a higher id make any suggestion fail |
| KeyValueStores.Execute | src/com/project4/server/kvStore/RMIKeyValueStore.java:266-272 | PUT maps the key to the value, DELETE removes the key, NO_OP changes nothing; every other entry is unchanged |
| KeyValueStores.LookupAfterExecute | src/com/project4/server/kvStore/RMIKeyValueStore.java:157-159 | get after a decided command sees the new value for PUT, null for DELETE, and the old value for NO_OP or another key |
| KeyValueStores.ExecuteIdempotent | src/com/project4/server/kvStore/RMIKeyValueStore.java:266-272 | applying a decided command twice equals applying it once |
| KeyValueStores.ExecuteCommutes | src/com/project4/server/kvStore/RMIKeyValueStore.java:266-272 | commands on different keys commute |
| KeyValueStores.KeyValueStore.constructor | src/com/project4/server/kvStore/RMIKeyValueStore.java:43-57 | an empty map, no replicas, a fresh empty queue at state id 1, a fresh acceptor in its initial state |
| KeyValueStores.KeyValueStore.RegisterThisId | src/com/project4/server/kvStore/RMIKeyValueStore.java:128-141 | true exactly when the id is listed and its registry lookup succeeds; an unlisted id is refused; only a success appends the replica |
| KeyValueStores.KeyValueStore.Put | src/com/project4/server/kvStore/RMIKeyValueStore.java:146-154 | a fresh PUT of (key, value) for which notExecuted() holds is appended to the queue |
| KeyValueStores.KeyValueStore.Get | src/com/project4/server/kvStore/RMIKeyValueStore.java:156-159 | the stored value, and null both for a missing key and for one stored with null; LookupAfterExecute says what it sees after each decided command |
| KeyValueStores.KeyValueStore.Delete | src/com/project4/server/kvStore/RMIKeyValueStore.java:161-169 | a fresh DELETE of key, with null value, for which notExecuted() holds, is appended to the queue |
| KeyValueStores.KeyValueStore.RequestPermission | src/com/project4/server/kvStore/RMIKeyValueStore.java:245-248 | the local acceptor's requestPermission on the local queue |
| KeyValueStores.KeyValueStore.SuggestValue | src/com/project4/server/kvStore/RMIKeyValueStore.java:250-253 | the local acceptor's suggestValue on the local queue |
| KeyValueStores.KeyValueStore.ExecuteValue | src/com/project4/server/kvStore/RMIKeyValueStore.java:266-272 | a null value throws NullPointerException and leaves the map; otherwise the map becomes Execute of the command |
| KeyValueStores.KeyValueStore.ReportConsensus | src/com/project4/server/kvStore/RMIKeyValueStore.java:257-264 | the queue's state id becomes stateId + 1 if stateId is not behind it and is otherwise unchanged, so it never decreases; the head is dropped exactly when it equals the value; the value is then executed, a null one throwing after the state id moved |
| KeyValueStores.KeyValueStore.SendPermissionMessages | src/com/project4/server/kvStore/RMIKeyValueStore.java:173-207 | with one reply per registered replica, the loop returns PermissionOutcomeOf(replies) and leaves the state id at StateIdAfterPermission: stop with no majority at the first STATE_NACK, taking that replica's state id if the follow-up call works; otherwise majority with at least three grants and the highest accepted value |
| KeyValueStores.KeyValueStore.SendSuggestionMessages | src/com/project4/server/kvStore/RMIKeyValueStore.java:209-224 | true exactly when at least three replies are true; failed calls count for nothing |
| KeyValueStores.KeyValueStore.SendConsensusMessages | src/com/project4/server/kvStore/RMIKeyValueStore.java:226-235 | each call made is reportConsensus(value, stateId) to a reachable replica, one per replica in list order; a non-null value is reported to every reachable replica and the broadcast returns; a null value throws NullPointerException exactly when some replica is reachable, after calling only the first of them, since the learner's exception is not a RemoteException |
| Proposers.Proposer.constructor | src/com/project4/server/kvStore/paxos/Proposer.java:23-28 | the round counter starts at 0 |
| Proposers.Proposer.ChooseSuggestion | src/com/project4/server/kvStore/paxos/Proposer.java:57-69 | the highest accepted value when it is non-null, otherwise queue.peek(); null exactly when both are absent; never a new NO_OP value |
| Proposers.Proposer.Step | src/com/project4/server/kvStore/paxos/Proposer.java:36-51 | the counter grows by exactly 1; all broadcasts carry (counter, servId) and the state id read at the start; without a majority only the permission phase runs; otherwise the chosen value is suggested; consensus with that same value is broadcast exactly when the suggestion is accepted; the iteration throws NullPointerException, ending the proposer thread, exactly when that value is null and some replica is reachable, which happens only on an empty queue with no accepted value reported |
| ResponseValidators.ValidatePutResponse | src/com/project4/client/ResponseValidator.java:23-29 | the PUT check can only pass for a space-free key and a non-empty space-free value |
| ResponseValidators.ValidateGetResponse | src/com/project4/client/ResponseValidator.java:41-48 | the GET check can only pass for a space-free key |
| ResponseValidators.ValidateDelResponse | src/com/project4/client/ResponseValidator.java:60-66 | the DEL check can only pass for a non-empty space-free key |
| ResponseValidators.PutResponseMeaning | src/com/project4/client/ResponseValidator.java:23-29 | the PUT check passes exactly for "PUT key value" plus trailing spaces, and only for a space-free key and a non-empty space-free value |
| ResponseValidators.GetResponseMeaning | src/com/project4/client/ResponseValidator.java:41-48 | the GET check passes exactly for "GET KEY: key VAL: x" plus trailing spaces, for a space-free key and any non-empty space-free x |
| ResponseValidators.DelResponseMeaning | src/com/project4/client/ResponseValidator.java:60-66 | the DEL check passes exactly for "DEL key" plus trailing spaces, and only for a non-empty space-free key |
| Servers.ValidateLength | src/com/project4/server/AbstractServer.java:70-79 | false exactly when some token is longer than 25 UTF-16 code units |
| Servers.HandlePutRequest | src/com/project4/server/AbstractServer.java:95-106 | a result exactly for three tokens |
| Servers.HandleGetRequest | src/com/project4/server/AbstractServer.java:108-119 | a result exactly for two tokens; the acknowledgement carries the key and the value stored under it, or the text [NULL] when get returns null |
| Servers.HandleDeleteRequest | src/com/project4/server/AbstractServer.java:121-132 | a result exactly for two tokens |
| Servers.Dispatch | src/com/project4/server/AbstractServer.java:83-92 | no result for an instruction other than PUT, GET or DEL; a result only for PUT with three tokens or GET/DEL with two |
| Servers.HandleIndividualRequest | src/com/project4/server/AbstractServer.java:82-93 | throws ArrayIndexOutOfBoundsException exactly on an empty token array, otherwise dispatches |
| Servers.HandleRequest | src/com/project4/server/AbstractServer.java:82-93 | as handleIndividualRequest, with no result instead of an exception for an empty token array |
| Servers.TcpReplyAsWritten | src/com/project4/server/TCPServer.java:51-71 | the reply to one line as written: it throws, with ArrayIndexOutOfBoundsException, exactly when the line splits into no tokens; an over-long token is answered ERROR |
| Servers.TcpReply | src/com/project4/server/TCPServer.java:51-71 | the corrected reply: ERROR for a line without tokens, with an over-long token, or with an instruction other than PUT, GET and DEL |
| Servers.BlankLineThrows | src/com/project4/server/TCPServer.java:51-62 | a TCP line of one or more spaces makes the service loop throw, where the corrected handling answers ERROR |
| Servers.TcpReplyCorrection | src/com/project4/server/TCPServer.java:51-71 | the code as written throws exactly on non-empty all-space lines and otherwise gives the corrected reply |
| Servers.GetOfMissingKey | src/com/project4/server/AbstractServer.java:112-117 | a GET of a missing key answers "GET KEY: key VAL: [NULL]" |
| Servers.PutAcknowledged | src/com/project4/server/AbstractServer.java:104 | every handled PUT line is acknowledged with a reply that passes the PUT check for its key and value |
| Servers.GetAcknowledged | src/com/project4/server/AbstractServer.java:117 | every handled GET line is acknowledged with a reply that passes the GET check, when the stored value is a protocol token |
| Servers.DelAcknowledged | src/com/project4/server/AbstractServer.java:130 | every handled DEL line is acknowledged with a reply that passes the DEL check for its key |
| Servers.ClientPutRoundTrip | src/com/project4/client/TCPClient.java:69-77 | the PUT line a client builds from a key and a non-empty value that pass isInvalid gets a reply passing its PUT check |
| Servers.ClientGetRoundTrip | src/com/project4/client/TCPClient.java:79-88 | the same for GET with a non-empty key, when the stored value is a protocol token |
| Servers.ClientGetReturnsStoredValue | src/com/project4/client/TCPClient.java:79-88 | the reply to the GET line the client builds has five tokens, and the fifth, which get returns, is the value stored under the key, or [NULL] when there is none |
| Servers.ClientDelRoundTrip | src/com/project4/client/TCPClient.java:90-98 | the same for DEL with a non-empty key |
| Servers.EmptyKeyRefused | src/com/project4/client/TCPClient.java:79-84 | the client accepts the empty key, but its GET and DEL lines are then answered ERROR |
| Servers.EmptyValueRefused | src/com/project4/client/TCPClient.java:69-77 | the client accepts the empty value, but the PUT line it then builds for any key it accepts is answered ERROR |
| Clients.IsInvalid | src/com/project4/client/AbstractClient.java:64-72 | a null token is invalid, and so is a token longer than 25 characters |
| Clients.IsInvalidMeaning | src/com/project4/client/AbstractClient.java:64-72 | on a token without line terminators: invalid exactly when longer than 25 UTF-16 code units or containing a whitespace character |
| Clients.WhitespaceRegexMeaning | src/com/project4/client/AbstractClient.java:14 | on a token without line terminators, the pattern .*\s+.* matches exactly when some character is whitespace |
| Clients.AstralTokenTooLong | src/com/project4/client/AbstractClient.java:68 | thirteen characters outside the Basic Multilingual Plane count 26 and are refused |
| Clients.ValidTokenBounds | src/com/project4/client/AbstractClient.java:68-71 | a valid token has at most 25 UTF-16 code units, hence at most 25 characters, and no whitespace when it has no line terminator |
| Clients.NewlinesPassTheCheck | src/com/project4/client/AbstractClient.java:71 | "a\nb\nc" passes the check although it contains whitespace, because the regex dot stops at line terminators |
| Clients.ValidatePort | src/com/project4/client/AbstractClient.java:56-61 | throws IllegalArgumentException exactly when the port is below 1024 or above 65535 (AbstractServer.java:49-54 checks its port the same way) |

## Left out

- Network and RMI: sockets, datagrams, `Naming` lookups and the TCP, UDP and RMI front ends are left out. Replica answers are parameters instead. The TCP server's reply to one line is modelled (`Servers.TcpReply`); its loop and I/O are not.
- Configuration: `run`, `readConfigFile`, `parseConfigLine`, `addReplica` and `bindReplica` do file I/O and registry lookups. The configuration's contents are a constructor parameter, and the lookup in `registerThisId` is a boolean.
- Self-delivery: the store is itself one of its replicas. Inside the send loops the model takes the local answer as input like any other, and does not run the local `requestPermission`/`reportConsensus` from inside the loop.
- Threads, `synchronized` and `CopyOnWriteArrayList`: every call is one atomic step.
- Busy waits and loops on success:
  - The busy waits in `put`, `delete` and `Proposer.run`, and the proposer's endless outer loop, are left out. `KeyValueStore.Put` and `Delete` return the pending value instead of waiting for it and returning true.
  - `Proposer.Step` is one iteration. It does not require a non-empty queue, and its contract states what an empty queue leads to.
  - The `while (!success)` retries around `put`/`delete` in the server handlers run once, since `put` and `delete` return true.
  - The handler functions model only the acknowledgement, not the store call.
- RemoteException: the model's sends never throw it. Failed replicas appear as unreachable answers, so the proposer's `catch (RemoteException)` is never reached.
- Logging, `currentTime`, console output and the SimpleDateFormat fields.
- Getters and setters are folded into the field accesses: `getStateId` of the queue and of the store, and the acceptor's synchronized accessors.
- RMI serialization: a value received from another replica is a serialized copy, so it is a different object. The model passes references and does not make that copy. `Values.DeleteCopiesDoNotMatch` states what a copy of a DELETE would mean for `dequeue`.
- Global agreement across slots: a proposer that catches up on the state id does not transfer data, so no cluster-wide safety theorem is stated. The per-acceptor promise (`Acceptors.PromiseKept`) and the majority-blocking lemma (`Tallies.OutrankedSuggestionFails`) are the safety facts proved.
- Java `int` overflow of the round counter and of the state id: integers are unbounded.
- Replica list and replies: the send methods require one reply per entry of `replicas`, but the model does not tie the i-th reply to the i-th registered id. Which replica answers what is free.
- Character order: `JavaLang.CompareStrings` compares Dafny characters, which are Unicode scalar values. Java compares UTF-16 code units, so strings with characters outside the Basic Multilingual Plane can be ordered differently.
- `JavaLang.Split` models `split(" ")` only. That is the only separator the code splits on.
- Argument parsing: the port-string constructors (`Integer.parseInt`, the null-host check) and `InetAddress` host resolution are not part of this model. Only the range check is.
- The `run` loops of the UDP and RMI front ends are left out. The UDP server trims its input first, so the blank-line exception below does not arise there.

## Findings

| source | as written | input that shows it | evidently intended | confidence | as-written member | corrected member |
|---|---|---|---|---|---|---|
| src/com/project4/server/AbstractServer.java:83 | `handleIndividualRequest` reads the instruction token without checking that the split produced one; the TCP server calls it on `received.split(" ")` and catches only RemoteException (TCPServer.java:60); the ArrayIndexOutOfBoundsException then escapes serviceClientRequests and run, which catch only IOException (TCPServer.java:32, 76), so the whole TCP front end stops serving every client and run's closing System.exit(0) is skipped | the TCP line " " (any non-empty line of spaces), which splits into zero tokens | such a line is an invalid instruction and is answered ERROR | not executed; follows from the split rule and the missing length check | Servers.HandleIndividualRequest, Servers.BlankLineThrows | Servers.HandleRequest, Servers.TcpReplyCorrection |
