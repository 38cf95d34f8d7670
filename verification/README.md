# Proxiflare daemon: verified models

Proxiflare routes the traffic of chosen applications through proxies. This
project models the parts of its daemon (and of the log client in its GUI) that
carry state across calls or interpret bytes from outside, and proves what they
promise for every input, every run and every interleaving.

- **Certificate cache** (`CertCache`): an open-addressing table with a 16-slot
  probe window and least-recently-used eviction. In every reachable state of
  every run, for every hash function, it is a map with exact reference counts,
  and a domain served again before 16 others have been served is always a hit
  on the same certificate.
- **Capture queue** (`CaptureFifo`, `CaptureQueue`, `CaptureProtocol`): the
  4096-slot ring with wrapping 32-bit indices is a bounded FIFO over its whole
  push history; with any number of producers, one worker and one controller
  stepping in any order no wake-up is lost, shutdown terminates, and every
  message meets exactly one fate.
- **Stream readers** (`LineFraming`, `ClientTable`, `Sockets`, `HeaderReader`,
  `Socks`, `ConnectRequest`, `Chain`): exactly when what is read does not depend on how the bytes
  were split; SOCKS negotiation reads exactly the proxy's reply; a chain of
  SOCKS and HTTP hops is asked for the right targets in the right order, each
  hop with its own credentials.
- **Caches and logs** (`DnsCache`, `QueryName`, `DohCache`, `LogRing`): each
  agrees with the history of events that filled it, and both DNS caches name a
  question alike.
- **Parsers and routing** (`Sni`, `HttpParser`, `Base64`, `Rules`, `Patterns`):
  extraction inverts an encoder, the chosen rule is the one a declarative
  definition names, and each kind of pattern matches exactly the domains or
  addresses it stands for.
- `Bytes` and `CNumbers` hold C strings and the numbers `strtol`, `atoi` and
  `atol` read from them.

Every component has a specification on values (functions and lemmas) and, where
the daemon mutates memory, a class or a method with loops proved equal to it.
`Socket` fixes the peer's bytes and the size of every partial transfer as
arbitrary constants, so what is proved of its callers holds for every peer and
every fragmentation. Clock readings, generated certificates, read results, the
hash function, `fnmatch` and `inet_pton` are parameters. `dafny verify
dfyconfig.toml` checks the whole project.

Seven statements turned out not to hold without a condition; each has a
concrete counterexample and the exact condition:

- a wake-up can be lost when a stopped worker is started again
  (`StopCanLeaveMessage`, `RestartCanLoseWakeup`); a start can never lead to a
  worker asleep on queued messages exactly when the queue is empty, the counter
  positive or a write due (`StartSafeIff`), which the first start always meets
  (`FirstStartSafe`);
- the answer taken from a DNS-over-HTTPS response can depend on how the response
  was split into reads, because `atoi` of a blank Content-Length value runs on
  behind the header (`BlankValueDependsOnReads`); it is determined by the
  response exactly when the first Content-Length value, if the answer needs one,
  has a byte other than white space before the header ends (`DeterminedIff`);
- the decision on an HTTP proxy's response can depend on the reads in the same
  way (`BlankStatusDependsOnReads`); over everything that may follow a header it
  is fixed exactly when the header settles the status, by a byte other than white
  space behind its first blank, or leaves fewer than three bytes of the buffer
  (four, if it holds no blank), where no status fits (`DecisionFixedIff`);
- an HTTP proxy can read other credentials than were meant, because a user name
  may hold a colon (`ColonInUserMisread`); target and credentials are read back
  exactly when the host holds no CR and no blank and starts with no tab, and the
  user name holds no colon (`ConnectReadIff`);
- the writes of that request can pass the end of its buffer, because the room
  left is an unsigned difference (`LongHostPassesBuffer`); they stay inside
  exactly when all but the last line fit 8192 bytes (`RequestInsideIff`), as they
  do for hosts of the configured size (`ConfiguredHostFits`);
- inserting a domain of more than 252 bytes directly into the DNS cache can
  leave two live entries for one stored domain (`LongDomainDuplicates`,
  `AddUniqueIff`); domains taken from packets are never that long (`ParseName`);
- the base64 buffer holds the terminated output exactly for up to 381 credential
  bytes (`EncodedFits`), while the code's own limit lets 382 through
  (`LongCredentialsDoNotFit`); the field sizes of a proxy record allow 255.

Where comments and code differ, the code is followed: `_` is an accepted domain
byte (daemon/src/mitm.c:65), `push` returns 0 when it drops a message and `drain`
never blocks (daemon/src/capture_queue.h:71-79), and the log ring has 2000
entries, not 500 (daemon/src/main.c:49-52).

## Model

| member | source | states |
|---|---|---|
| CertCache.PresentIsFound | daemon/src/mitm.c:487-502 | under the table invariant a probe for a cached domain reaches it before any free slot, within 16 steps |
| CertCache.MissMeansAbsent | daemon/src/mitm.c:487-502 | a probe that ends at a free slot or after 16 steps proves the domain is nowhere in the 256 slots |
| CertCache.StepKeepsInv | daemon/src/mitm.c:475-556 | every request and every dropped reference keeps: entries within 16 steps of their base with no free slot before them, distinct domains, distinct ticks at most the global tick, count equal to the used slots, and reference counts of one for the cache plus one per holder |
| CertCache.ReachableInv | daemon/src/mitm.c:475-556 | that invariant holds after every legal run of fewer than 2^64 calls from the empty cache, for every hash function |
| CertCache.ServedIff | daemon/src/mitm.c:55-70 | a request succeeds if and only if the domain is 1 to 253 letters, digits, dots, dashes and underscores, and it is cached or can be generated; a failed one changes nothing |
| CertCache.RequestRefinesMap | daemon/src/mitm.c:487-546 | a request is a map lookup or a map insertion; an insertion forgets at most one other domain, only from a full window, and then the least recently used one of the window |
| CertCache.EvictionNeedsSixteen | daemon/src/mitm.c:512-536 | a domain is evicted only if 16 other domains have been served since it was last used |
| CertCache.RecentDomainHits | daemon/src/mitm.c:487-546 | from any invariant state: if fewer than 16 other domains (ignoring case) are served between two requests for a domain, the second is a hit returning the same certificate |
| CertCache.RecencyOverRuns | daemon/src/mitm.c:487-546 | the same guarantee over whole runs from the empty cache |
| CertCache.RecencyApplies | daemon/src/mitm.c:475-556 | two requests in a row for one domain in different case on a new cache meet the guarantee's premises, and the second is a hit |
| CertCache.Mitm.Lookup | daemon/src/mitm.c:487-502 | the probe loop finds the step of the key before the first free slot, or reports a miss |
| CertCache.Mitm.ChooseSlot | daemon/src/mitm.c:512-532 | the insertion loop chooses the first free slot of the window, else the one with the smallest tick |
| CertCache.Mitm.GetCert | daemon/src/mitm.c:466-556 | the call changes slots, count, tick and reference counts exactly as one specified step and returns its outcome; unsafe domains and failed generation change nothing |
| CertCache.Mitm.Close | daemon/src/mitm.c:430-450 | closing leaves alive exactly the certificates callers still hold, with one count per holder |
| CaptureFifo.PushEffect | daemon/src/capture_queue.c:46-60 | a push appends its message, drops only the oldest and only when 4096 are queued, and never touches what was drained |
| CaptureFifo.WithLeave | daemon/src/capture_queue.c:82-90 | taking n messages from the front appends exactly those n, in order, to their fate's list |
| CaptureFifo.Conservation | daemon/src/capture_queue.c:46-60 | pushed = dropped + drained + freed at close + queued, for every history |
| CaptureFifo.RunDeliversInOrder | daemon/src/capture_queue.c:42-91 | over every run of pushes and drains nothing is freed, the consumer receives the pushed messages without the dropped ones, in push order; at most the 4096 youngest are queued and a message was dropped only with 4096 younger ones behind it |
| CaptureQueue.SlotOfWrapped | daemon/src/capture_queue.c:47-58 | an index that wrapped at 2^32 still addresses the slot of the unwrapped index |
| CaptureQueue.UsedOfWrapped | daemon/src/capture_queue.c:47-48 | the wrapped difference of head and tail is the number of queued messages |
| CaptureQueue.Queue.Push | daemon/src/capture_queue.c:42-68 | the ring with wrapping indices and counters performs the FIFO push; a missing message is refused without effect |
| CaptureQueue.Queue.Drain | daemon/src/capture_queue.c:70-91 | returns the oldest messages in order, as many as allowed or all there are, empties their slots, and is the FIFO drain on the history |
| CaptureQueue.Queue.DrainAll | daemon/src/capture_worker.c:37-46 | the batch loop delivers everything queued, in order, and leaves the queue empty |
| CaptureQueue.Queue.Close | daemon/src/capture_queue.c:28-36 | everything still queued is freed once and every slot is empty |
| CaptureProtocol.StepKeepsInv | daemon/src/capture_worker.c:20-79 | every step of every thread keeps flag, thread and control states consistent, and delivered ++ batch equal to the drained messages in push order |
| CaptureProtocol.StepKeepsWake | daemon/src/capture_worker.c:26-46 | every step except an unsound restart keeps: while the worker heads for the read, a non-empty queue has a positive counter or a producer about to write |
| CaptureProtocol.NoLostWakeup | daemon/src/capture_worker.c:26-46 | in every interleaving of any number of producers, provided restarts (not the first start) are sound: worker in the read, counter zero, queue non-empty implies some producer has unlocked and not yet written |
| CaptureProtocol.FirstStartSafe | daemon/src/capture_worker.c:52-67 | after any run without a start, the first start is safe: no continuation of it without another start ends with the worker in the read, the counter at zero, messages queued and no write due |
| CaptureProtocol.StartSafeIff | daemon/src/capture_worker.c:52-67 | from every invariant state in which a start is possible: no continuation of it without another start ends in that sleep, if and only if at the start the queue is empty, the counter is positive or a write is due |
| CaptureProtocol.StopCanLeaveMessage | daemon/src/capture_worker.c:35-46 | a concrete run in which stop consumes the wake-up of a message it leaves queued |
| CaptureProtocol.RestartCanLoseWakeup | daemon/src/capture_worker.c:52-79 | restarting there puts the new worker to sleep with the message queued, the counter at zero and no write due |
| CaptureProtocol.StoppedWorkerMoves | daemon/src/capture_worker.c:69-79 | once stop has cleared the flag and written, the worker always has an enabled step and is never stuck in the read |
| CaptureProtocol.RemainingShrinks | daemon/src/capture_worker.c:26-47 | with the flag down, each worker step decreases a measure no other step (but a push) increases |
| CaptureProtocol.ShutdownTerminates | daemon/src/capture_worker.c:26-47 | after the flag is cleared, any interleaving without pushes contains at most the measure's number of worker steps |
| CaptureProtocol.ClosedAccountsForAll | daemon/src/capture_queue.c:28-40 | after stop, join and close of any run every pushed message is exactly one of delivered, dropped or freed, and the delivered ones are in push order |
| LineFraming.SplitJoins | daemon/src/ipc.c:226-240 | the newline split loses nothing: lines with their newlines plus the rest are the stream, and no line holds a newline |
| LineFraming.SplitAppend | daemon/src/ipc.c:226-240 | splitting may stop after any read and resume from the rest |
| LineFraming.FramingIgnoresFragmentation | daemon/src/ipc.c:200-240 | for every sequence of reads, also one that ends with the client removed, the dispatched lines are the lines of the bytes received; while the client stays, its pending bytes are the rest behind them |
| LineFraming.PendingBounded | daemon/src/ipc.c:200-204 | pending bytes hold no newline and number at most 8191; a call removes the client for space exactly when there are 8191 |
| LineFraming.ReceivedIsDigestible | daemon/src/ipc.c:200-204 | a client that survives its input has sent lines of at most 8190 bytes and at most 8191 pending bytes |
| LineFraming.RoomForMore | daemon/src/ipc.c:200-204 | after every feasible run that leaves the client open, while bytes of a stream of such lines are outstanding the next read has room |
| LineFraming.DigestibleIsReceived | daemon/src/ipc.c:200-240 | in every fragmentation a stream of such lines is received in full and the client stays open with the unfinished line pending |
| LineFraming.Connection.DispatchLines | daemon/src/ipc.c:222-240 | the in-place scan dispatches exactly the complete lines of the buffer and leaves the rest |
| LineFraming.Connection.Compact | daemon/src/ipc.c:311-314 | the leftover bytes move to the front unchanged |
| LineFraming.Connection.Process | daemon/src/ipc.c:195-317 | one call on the real buffer equals the specified step; the client is removed exactly for 8191 pending bytes, an error or the end of file, and a read that would block changes nothing |
| ClientTable.Table.Accept | daemon/src/ipc.c:85-137 | refused exactly for a known user id from 1 to 999, a full table or a failed fcntl; otherwise the first free slot is taken, nothing else changes, and the count stays the number of taken slots |
| ClientTable.Table.Remove | daemon/src/ipc.c:183-191 | frees that slot only and keeps the count exact |
| ClientTable.TakenUpdate | daemon/src/ipc.c:183-191 | changing one slot changes the number of taken slots by that slot alone |
| Sockets.Socket.RecvAll | daemon/src/chain.c:98-114 | for every fragmentation success means exactly the next len bytes; a healthy connection succeeds whenever the peer sends that many |
| Sockets.Socket.SendAll | daemon/src/chain.c:80-93 | success means all bytes were written in order, failure that a prefix was |
| HeaderReader.ReadHeaders | daemon/src/dns_resolver.c:176-196 | the scan that resumes three bytes back finds the first CRLFCRLF of the stream, or has read 8192 bytes or the whole stream without one; a first read that takes in the header ends it |
| HeaderReader.ContentLength | daemon/src/dns_resolver.c:198-213 | the line search and `atoi` compute the number of the first Content-Length line, read on behind the header into whatever memory holds |
| HeaderReader.ValueAtMeaning | daemon/src/dns_resolver.c:198-213 | in every header the search finds the first line that starts with the name in any case, and nothing exactly when there is none; giving up 16 bytes before the end excludes nothing |
| HeaderReader.AnswerIff | daemon/src/dns_resolver.c:344-373 | bytes are taken as the answer if and only if they stand behind the first blank line, within the first 8192 bytes, of a response that starts with `HTTP/1.1 200` or `HTTP/1.0 200`, and are as many, from 1 to 4096, as the number behind its first Content-Length line says |
| HeaderReader.ResponseReadBack | daemon/src/dns_resolver.c:344-373 | a printed response with a Content-Length of n, between any other headers, settles its answer: the first n bytes behind the header |
| HeaderReader.HeaderFound | daemon/src/dns_resolver.c:350-365 | once the blank line is seen, status and position of the body are those of the whole stream, and the answer is the one that belongs to the amount read |
| HeaderReader.DeterminedIff | daemon/src/dns_resolver.c:198-213 | over all amounts read and all memory contents the answer is the same if and only if the stream settles it: no acceptable header, nothing behind it, no Content-Length line, or a first value with a byte other than white space before the header ends |
| HeaderReader.BlankValueDependsOnReads | daemon/src/dns_resolver.c:198-213 | a response with a blank Content-Length value is answered with `4abc` when read in one piece and not at all when the first read stops at the blank line |
| HeaderReader.FetchBody | daemon/src/dns_resolver.c:344-373 | every answer is one the stream gives for some amount read, and each amount a first read can take in gives its own; for a settled stream the answer is the Content-Length bytes after the first blank line for every fragmentation, and a healthy connection gets it whenever the stream holds it |
| Socks.Request5Parsed | daemon/src/chain.c:172-245 | a proxy that selects an offered method parses from the client's bytes the offered methods, the host and port that were meant, with method 2 the user name and the password, and nothing more |
| Socks.LoginRead | daemon/src/chain.c:209-216 | a reader of section 2 of RFC 1929 gets the user name first, then the password, and what follows |
| Socks.Request4Parsed | daemon/src/chain.c:314-331 | a SOCKS4a proxy parses the user id, the host and the port that were meant, and nothing more |
| Socks.ReplyConsumed | daemon/src/chain.c:187-281 | for every address type, domain length and following bytes the bytes counted are exactly the method reply, the optional login reply and the CONNECT reply |
| Socks.ConsumedIsReply | daemon/src/chain.c:187-281 | whatever is accepted is such a reply |
| Socks.Negotiate5 | daemon/src/chain.c:142-282 | success means exactly the reply was read (the next unread byte is the first tunnel byte) and exactly the request was written; on a healthy connection it succeeds if and only if the arguments and the reply are acceptable |
| Socks.DrainReply | daemon/src/chain.c:247-281 | the bound address is drained exactly, and address plus port always fit the 258-byte buffer |
| Socks.Negotiate4 | daemon/src/chain.c:289-342 | the same for SOCKS4a with its eight-byte reply |
| Chain.TunnelReachesTargets | daemon/src/chain.c:601-624 | the bytes written are read, hop by hop, as requests in which hop i names the host and port of hop i + 1, the last hop names the destination, and each hop sees its own credentials; later bytes come out at the far end |
| Chain.FindProxy | daemon/src/chain.c:120-125 | the first proxy with the id, or none if no proxy has it |
| Chain.Resolve | daemon/src/chain.c:568-577 | hop i of the chain is the first proxy whose id is the i-th id; there are no hops exactly when some id belongs to no proxy |
| Chain.NegotiateHop | daemon/src/chain.c:490-524 | dispatch by proxy type with the exact bytes written and an answer that grants; SSH and unknown types always fail |
| Chain.NegotiateHttp | daemon/src/chain.c:350-479 | success means exactly the CONNECT request was written, which a proxy reads as meant for plain hosts and user names without a colon, and the number behind the first blank of what was read is 200; a healthy connection succeeds whenever the header says 200, and for a header that settles the status only then |
| Chain.ReadResponse | daemon/src/chain.c:427-455 | reading stops exactly when the part read holds the header, NULs ending it, and a healthy connection reaches it within 4095 bytes |
| Chain.DecisionFixedIff | daemon/src/chain.c:427-479 | over all continuations of a header and all amounts read the decision is the header's own if and only if the header settles the status or leaves no room for one in the buffer |
| Chain.GrantedAlwaysIff | daemon/src/chain.c:427-479 | a response opens the tunnel for every amount read with the header if and only if the header itself says 200 |
| Chain.PrintedStatus | daemon/src/chain.c:457-479 | a printed status line, whatever follows it, opens the tunnel if and only if its status is 200 |
| Chain.BlankStatusDependsOnReads | daemon/src/chain.c:427-479 | a response without a status before its blank line is refused when read up to there and granted when `200` is read along |
| ConnectRequest.ConnectIsPrinted | daemon/src/chain.c:370-416 | the bytes written are the printed form of a CONNECT request for host:port with a Host header and, for a user name, a Proxy-Authorization header |
| ConnectRequest.ConnectReadIff | daemon/src/chain.c:370-416 | a proxy reads back exactly the target, the credentials and the bytes that follow, if and only if the host holds no CR and no blank and starts with no tab, and the user name holds no colon |
| ConnectRequest.ColonInUserMisread | daemon/src/chain.c:384-386 | the user `a:b` with the password `c` is read as the user `a` with the password `b:c` |
| ConnectRequest.RequestInsideIff | daemon/src/chain.c:370-421 | the three formatted writes, each limited by an unsigned difference, end inside the 8192-byte buffer if and only if what precedes the last one fits it |
| ConnectRequest.ConfiguredHostFits | daemon/src/chain.c:370-421 | hosts of up to 253 bytes with any stored credentials are written inside the buffer and never refused for length |
| ConnectRequest.LongHostPassesBuffer | daemon/src/chain.c:370-421 | a host of 5000 bytes passes the end of the buffer |
| Chain.NegotiateChain | daemon/src/chain.c:601-624 | for chains of SOCKS and HTTP hops, exactly the hop requests were written and the answers of the hops stand one behind the other in what was read; for SOCKS chains on a healthy connection success is equivalent to all hops being acceptable |
| Chain.Connect | daemon/src/chain.c:546-627 | success returns the unclosed socket; hop i is the first proxy with the i-th id, and through hops that understand what they are asked the bytes written are read as requests from hop i for hop i + 1 and from the last for the destination, with each hop's own credentials, while later bytes come out at the far end; any failure after dialling closes the socket exactly once; unknown ids, bad ports, bad lengths and a leading SSH hop fail before dialling; no chain with an SSH hop succeeds |
| Base64.DecodeEncode | daemon/src/chain.c:398-409 | decoding by the standard recovers every byte string |
| Base64.EncodedLength | daemon/src/chain.c:398-409 | the output has 4 * ceil(n / 3) letters |
| Base64.EncodedFits | daemon/src/chain.c:382-409 | the terminated output fits 512 bytes if and only if there are at most 381 input bytes; two 127-byte fields give at most 340 letters |
| Base64.LongCredentialsDoNotFit | daemon/src/chain.c:382-409 | 382 bytes pass the code's limit on credentials and their terminated encoding takes 513 |
| Base64.EncodeCredentials | daemon/src/chain.c:398-409 | the loop computes that encoding |
| DnsCache.WriteKeepsUnique | daemon/src/dns.c:74-93 | writing into the slot chosen for a domain keeps live domains unique, also when it revives an expired entry |
| DnsCache.HandleKeepsUnique | daemon/src/dns.c:180-287 | every query and every address record keeps at most one live entry per case-folded domain |
| DnsCache.SlotMeaning | daemon/src/dns.c:74-93 | the slot for a domain is its first unexpired entry, ignoring case, else the first slot free or expired, and none exactly when all slots hold unexpired entries of other domains |
| DnsCache.EffectMeaning | daemon/src/dns.c:180-287 | an event writes exactly when a slot can be had: a query its domain without an address for 300 s; a record the address of the entry found, which keeps its domain and route and expires after the TTL raised to 30 s and capped at 300 s, or after 300 s for IPv6; a record without an entry a fresh one for 300 s |
| DnsCache.RunKeepsUnique | daemon/src/dns.c:180-287 | over every run with a non-decreasing clock, domains stay unique and every entry expires 30 to 300 s after its last write |
| DnsCache.AddUniqueIff | daemon/src/dns.c:427-449 | a direct insertion keeps uniqueness if and only if the domain fits 252 bytes, no slot is available, or no live entry has the cut domain |
| DnsCache.LongDomainDuplicates | daemon/src/dns.c:427-449 | inserting one 253-byte domain twice leaves two live entries with the same stored domain |
| DnsCache.Cache.FindSlot | daemon/src/dns.c:74-93 | the live entry of the domain, else the first free or expired slot, else none |
| DnsCache.Cache.Process | daemon/src/dns.c:180-287 | the in-place update for a query or a record equals the specified one |
| DnsCache.Cache.CacheAdd | daemon/src/dns.c:427-449 | the in-place insertion equals the specified one |
| DnsCache.Cache.LookupIp | daemon/src/dns.c:406-421 | returns an unexpired entry with that address if and only if one exists and the address is not empty |
| QueryName.ParseName | daemon/src/dns.c:25-62 | the label loop computes the specified name and cursor, also for malformed packets; the name is shorter than its buffer and the cursor stays inside the packet |
| QueryName.ReadEncoded | daemon/src/dns.c:25-62 | from an encoded name exactly its labels joined by dots are read and the cursor left behind its zero byte, if and only if the text fits the buffer |
| QueryName.ReadCompressed | daemon/src/dns.c:25-62 | a compression pointer ends the name: the labels in front of it are read and the cursor is left behind its two bytes |
| QueryName.ObservedNameIsKey | daemon/src/dns.c:168-178 | the name observed in a question is, lowercased, the name under which the DNS-over-HTTPS cache keeps its answer |
| DohCache.ExtractKey | daemon/src/dns_resolver.c:75-97 | the label loop computes the specified key, with every rejection |
| DohCache.KeyOfQuestion | daemon/src/dns_resolver.c:75-97 | an encoded question has the key of its lowercased dotted name and type, and none if the dotted name reaches 256 bytes |
| DohCache.SameKeyIff | daemon/src/dns_resolver.c:75-97 | two cacheable questions with labels free of dots and NULs share a key if and only if names match ignoring case and types are equal |
| DohCache.Cache.Lookup | daemon/src/dns_resolver.c:102-122 | with room for the largest answer: a hit if and only if one of the last 512 accepted answers has the key, is under 60 s old and has bytes beyond the id; a hit returns such an answer with the id replaced |
| DohCache.Cache.Store | daemon/src/dns_resolver.c:127-140 | accepts exactly answers of 2 to 1026 bytes and overwrites the oldest |
| LogRing.Ring.Append | daemon/src/main.c:747-755 | a ring of any size holds the last entries with consecutive numbers |
| LogRing.Ring.Poll | daemon/src/main.c:1548-1563 | returns exactly the held entries above the given number, ascending |
| LogRing.Ring.List | daemon/src/main.c:1581-1629 | returns the newest held entries above the given number, at most the limit of them, ascending; a limit outside 1 to 1000 means 500 |
| LogRing.RecentMeaning | daemon/src/main.c:1548-1563 | what is held above a number is exactly the last entries, as many as the ring has slots, whose numbers exceed it, in ascending order |
| LogRing.LastAbove | daemon/src/main.c:1592-1620 | a walk from the newest entry that stops at the limit or the oldest entry leaves the last ones of the full reply |
| LogRing.SortMeaning | gui/src/hooks/useLog.ts:27-29 | the client's sort rearranges any reply by number |
| LogRing.SortKeepsAscending | gui/src/hooks/useLog.ts:27-29 | and leaves an ascending reply as it is |
| LogRing.StepKeepsConserved | gui/src/hooks/useLog.ts:20-41 | each append, poll or clear, while numbers fit a C int, keeps received + dropped = last number - base, genuine ascending entries, and the display equal to the last 10000 received |
| LogRing.ConservedFromStart | gui/src/hooks/useLog.ts:20-41 | that conservation holds after every interleaving with fewer than 2^31 entries, whatever the ring held when the client started |
| Rules.RulesMatch | daemon/src/rules.c:243-274 | the index of the first enabled rule whose every criterion (application, domain, address, port) is empty or matches |
| Rules.ScanAppRules | daemon/src/main.c:664-693 | one pass finds both the first specific and the first catch-all application rule that proxies |
| Rules.Select | daemon/src/main.c:655-697 | the selection computes the tiered decision |
| Rules.DecisionIff | daemon/src/main.c:655-697 | rule i decides if and only if it is the first general match and not direct; or the first general match is absent or direct and i is the first application rule that proxies and has a criterion, all of them matching; or there is neither and i is the first application rule that proxies without a criterion; none decides exactly when there is no such rule |
| Rules.DisabledRulesIrrelevant | daemon/src/main.c:655-697 | rulesets with the same enabled rules in order decide alike |
| Patterns.MatchSingle | daemon/src/rules.c:51-100 | the branches and the search loop compute the specified match of one domain pattern |
| Patterns.PlainMeaning | daemon/src/rules.c:85-87 | a pattern without wildcards matches its own domain only, ignoring case |
| Patterns.GlobMeaning | daemon/src/rules.c:89-99 | a pattern with a wildcard that is neither `*x*` nor `*.foo` is matched by `fnmatch`, pattern first |
| Patterns.SubdomainsMeaning | daemon/src/rules.c:71-84 | `*.foo` matches exactly foo and the names that end in a dot and foo behind at least one byte, ignoring case |
| Patterns.SubdomainsNest | daemon/src/rules.c:71-84 | if `*.bar` matches foo, it matches whatever `*.foo` matches |
| Patterns.ContainsMeaning | daemon/src/rules.c:53-69 | `*x*` matches exactly the domains that contain x, ignoring case, for x of up to 253 bytes, and nothing for a longer one |
| Patterns.PiecesOfJoin | daemon/src/rules.c:30-46 | the parts between commas are recovered from their list |
| Patterns.ListMatchesAny | daemon/src/rules.c:29-46 | a comma list within the buffer matches exactly what one of its trimmed, non-blank parts matches |
| Patterns.TrimPadded | daemon/src/rules.c:36-39 | blanks around a part are removed, no matter how many, and nothing else |
| Patterns.TrimBlank | daemon/src/rules.c:36-40 | nothing is left of a blank part, so it matches nothing |
| Patterns.OnePattern | daemon/src/rules.c:29-48 | a pattern without a comma is matched as it stands |
| Patterns.LongList | daemon/src/rules.c:29-31 | of a list longer than the buffer the first 1011 bytes count |
| Patterns.MatchList | daemon/src/rules.c:34-44 | the token loop, which skips runs of commas, computes that |
| Patterns.MatchDomain | daemon/src/rules.c:25-49 | the whole matcher, with the list cut at 1011 bytes |
| Patterns.DomainIgnoresCase | daemon/src/rules.c:25-100 | the case of neither pattern nor domain changes a match, in lists as in single patterns |
| Patterns.BlockIsInterval | daemon/src/rules.c:171-172 | the masked comparison holds exactly for an interval of 2^(32 - prefix) addresses that starts at a multiple of its size and holds the network address |
| Patterns.BlocksNest | daemon/src/rules.c:171-172 | a shorter prefix matches whatever a longer one matches |
| Patterns.CidrMeaning | daemon/src/rules.c:155-173 | `net/len` matches exactly the addresses of that interval; unreadable or overlong parts and lengths outside 0 to 32 match nothing |
| Patterns.RangeMeaning | daemon/src/rules.c:176-192 | `a-b` matches exactly the addresses from a to b, both included; an overlong a matches nothing, of an overlong b the first 47 bytes count |
| Patterns.AddressMeaning | daemon/src/rules.c:194-197 | any other pattern matches its own address only |
| Patterns.DecisionIgnoresCase | daemon/src/main.c:655-697 | with these matchers, which rule decides does not depend on the case of the domain name |
| Sni.ExtractEncoded | daemon/src/sni.c:39-166 | for any session id, ciphers, compression, extensions and trailing bytes the result is the host name in the first server_name extension |
| Sni.HostNameEncoded | daemon/src/sni.c:116-160 | the encoded first host name is recovered, and an empty one is refused |
| Sni.FoundIsHello | daemon/src/sni.c:39-166 | whatever yields a name is a complete handshake record with a ClientHello whose session id, ciphers and compression are followed by extensions, the first server_name among them naming that host |
| Sni.FoundNameStays | daemon/src/sni.c:39-166 | appending bytes never changes a name once found |
| Sni.LocateExtensions | daemon/src/sni.c:39-103 | the offset walk finds exactly the extension block the structure defines, without reading past the input |
| Sni.LocateName | daemon/src/sni.c:104-166 | the scan over the extensions finds the host name of the first server_name in place |
| Sni.Extract | daemon/src/sni.c:34-167 | writes the name cut to the buffer and terminated, or nothing, for every input |
| HttpParser.ParsePrinted | daemon/src/http_parser.c:73-129 | parsing a printed request recovers every field and the first 64 headers in order, each cut to its buffer, with the declared length, the header end at the body and the first 256 KB of the body; only requests under 10 bytes are refused |
| HttpParser.ParsedIff | daemon/src/http_parser.c:73-114 | exactly buffers of at least 10 bytes with a blank line and two blanks in front of the first CR are parsed |
| HttpParser.BlankOfPrinted | daemon/src/http_parser.c:12-20 | the first blank line of printed lines is the one that ends them |
| HttpParser.HeadersOfPrinted | daemon/src/http_parser.c:26-67 | printed headers are recovered in order as far as there is room |
| HttpParser.LineWithoutColon | daemon/src/http_parser.c:42-44 | a line without a colon is passed over |
| HttpParser.ParseHeaders | daemon/src/http_parser.c:26-67 | the cursor loop computes the specified headers, and for any block that ends at a blank line never passes its end |
| HttpParser.BlockOf | daemon/src/http_parser.c:113-114 | the block handed to the header loop is never empty and ends in a line feed |
| HttpParser.ParseRequest | daemon/src/http_parser.c:73-129 | the parser computes the specified meaning of any buffer, content length included |
| HttpParser.LengthReadBack | daemon/src/http_parser.c:116-118 | a Content-Length written in decimal, in any case of the name and behind any headers of other names, is read back |
| HttpParser.NoLength | daemon/src/http_parser.c:116-118 | without such a header the declared length is 0 |
| HttpParser.GetHeader | daemon/src/http_parser.c:192-200 | the lookup loop computes that lookup |
| HttpParser.FindIff | daemon/src/http_parser.c:192-200 | a lookup yields the value of the first header whose name, up to a NUL, equals the key ignoring case, and nothing exactly when no header has that name |
| CNumbers.NumberMeaning | daemon/src/dns_resolver.c:198-213 | white space in front does not count, one sign is taken, then the digits up to the first other byte; no digits mean zero |
| CNumbers.NumberLocal | daemon/src/dns_resolver.c:198-213 | text behind a number followed by white space does not change it |
| CNumbers.NumberOfDecimal | daemon/src/http_parser.c:116-118 | a number written in decimal is read back |

## Left out

- Sockets, TLS, X.509, libssh2, JSON, SQLite, netlink and the packet queue: foreign calls; they appear as byte streams, parameters or opaque values.
- `fnv1a64_lower`: the cache is proved for every hash function, so its arithmetic is not modelled.
- Certificate and private key are counted as one pair, because the code always counts them together.
- CertCache.ReachableInv: covers runs of fewer than 2^64 calls; after that the tick wraps and the least-recently-used order is lost.
- CertCache.Mitm.GetCert: checks for null pointers and a missing CA key are not modelled; the call is specified while the 64-bit tick has not wrapped.
- CaptureProtocol.NoLostWakeup: memory is sequentially consistent, each critical section is one step, start and stop are called from one thread, and nothing is pushed after close.
- LineFraming.Connection.Process: the handling of a line (JSON, subscriptions, replies) is not modelled; a line is the bytes before its newline, although the JSON parser sees it only up to a NUL byte.
- HeaderReader.FetchBody: `stale` stands for the memory behind the bytes read, and its end for a byte that ends the number; overflow of a value beyond a C int follows the usual `strtol` and conversion.
- Chain.NegotiateHttp: bytes of the tunnel that arrive together with the response header are discarded by the code, so no alignment is claimed behind an HTTP hop; a request of 8192 bytes or more is modelled as refused, which for requests outside `RequestInside` is not what the code does.
- QueryName.ParseName: the walk over compressed owner names of answer records is not modelled; records arrive as events.
- DohCache.Cache.Store: the 255-byte limit of the stored name is not modelled, because extracted names have at most 254 bytes.
- DohCache.Cache.Lookup: when several answers of the last 512 qualify, which of them is returned is not claimed to be the newest.
- LogRing.Ring.Poll: the sequence number is passed through a C int, so polls are modelled below 2^31; append and poll are atomic steps.
- LogRing.Ring.List: entries are opaque; the reduced copy of each listed entry is not modelled.
- Rules.Select: stated for arbitrary matchers; `Patterns` supplies those for domains and addresses, with `fnmatch` and `inet_pton` as parameters, while the application matcher stays arbitrary.
- Patterns.BlockIsInterval: addresses are numbers and the mask clears low bits; the code does the same on 32-bit words.
- HttpParser.ParseRequest: the response parser, which repeats the same steps, is not modelled; except for header lookup and length, fields are byte strings, read by callers up to a NUL byte.
- `pf_tproxy_relay`, the connection table, nftables and cgroup marks, configuration storage, statistics and the GUI pages: no comparable invariant holds, or only easy members would be added.
