# A verified model of go-via's stateful cores

go-via boots ESXi hosts over the network. It answers DHCP from a table of reservations, serves a
rewritten `boot.cfg`, hands out a kickstart file once, streams its log to browsers, and protects all
of this with a login. This project models the parts of it that keep state or do arithmetic, and proves
what they promise over all inputs, all runs and all interleavings.

`dafny verify dfyconfig.toml` verifies the whole project with Dafny 4.11.

| file | modules | of the repository |
|---|---|---|
| `Throttle.dfy` | `ThrottleSpec`, `ThrottleStore` | the failed-login throttle, `internal/auth/throttle.go` |
| `Login.dfy` | `LoginProtocol`, `LoginHandlers` | logging in, `internal/api/login.go`, `internal/api/middleware.go` |
| `Sessions.dfy` | `SessionSpec`, `SessionStore` | the session store, `internal/auth/session.go` |
| `LogServer.dfy`, `Fanout.dfy`, `Slices.dfy` | `LogWindow`, `LogStore`, `LogFanout`, `LogSlices` | the log server, `internal/websockets/main.go` |
| `BootConfig.dfy` | `BootText`, `BootConfig` | the `boot.cfg` rewrite, `internal/boot/bootcfg.go` |
| `Ipv4.dfy`, `Netutil.dfy` | `Octets`, `Digits`, `Ipv4`, `DottedQuad`, `IPText`, `Netutil` | IPv4 masks, addresses in text, `internal/netutil/netutil.go` |
| `Mac.dfy`, `Hosts.dfy`, `Reassignment.dfy`, `Handlers.dfy` | `MAC`, `HostTable`, `Reassignment`, `HostHandlers` | the hosts table and the handlers that write it, `internal/api/hosts.go`, `internal/api/ks.go` |
| `Options.dfy`, `Dhcp.dfy`, `DhcpServer.dfy` | `Options`, `ReplyOptions`, `DhcpServer`, `Admission` | the DHCP server, `internal/dhcp/dhcpd.go`, `internal/model/option.go`, and `CreateHost`'s network check |
| `Served.dfy` | `ServedHosts` | from the form of a host to what its client is sent |
| `Text.dfy`, `Wrappers.dfy` | `Text`, `Wrappers` | numerals, trimming, `Option` and `Result` |

## How it is modelled

A class of the source is a class here, with one method for each of its critical sections; what a
method does to the state is a function on values, which its `ensures` names, and the theorems are about
those functions over whole runs. The throttle's, the session store's and the log server's methods work
on the same maps, records and shared array as the originals. Protocols whose steps interleave (a login
between `Allowed` and `Fail`, a log subscriber between its snapshot and its registration, a handler
between reading a row and saving it, a `Fire` between writing an array and assigning its slice) are state
machines, and a run is any sequence of their steps. Lemmas tie the two forms together: the login handlers,
one after the other, are a run of the login protocol (`AttemptsArePlayed`), the host handlers one of the
hosts table (`PerformAllIsRun`), and the log's fan-out one on its shared arrays, for every way the slice can
grow (`FanoutRunsOnSlices`).

Clock readings, random tokens, the outcome of a password check, the capacity that a growing Go slice
gets, and what a database read returns are parameters. Time is an integer; the zero time of `blocked` is
`None`. Whenever a theorem needs the clock not to go back or tokens not to repeat, it says so.

Names in `ThrottleSpec.Record`, `LoginProtocol.Event`, `HostTable.Step` and `LogFanout.Step` say which
source step each constructor stands for.

## Where the code is weaker than one might expect

For each of these one lemma shows the input or the run (named first), and another says exactly when the
code does better.

- Asking `Allowed` at the very instant at which a block of two or more failures expires is not free: two
  failures at time 0 under a limit of 2 and a window of 10, asked about at time 10 (`ExpiryIsReached`,
  `AskingAtExpiryCounts`). At any other instant it is (`AskingIsFreeExactly`).
- Entries fired between a subscriber's snapshot and its registration are never sent to it: a run of five
  steps (`SeamCanLoseAnEntry`). There is no gap exactly if none is fired there (`SeamIsGaplessExactly`).
- Removing `cdromBoot` in one pass can leave one behind: `cdromcdromBootBoot` (`CdromIsLeftBehind`,
  `CdromSurvivesExactly`).
- A boot handler that read the row before a kickstart fetch and saves it afterwards flags the host again: a
  run of five steps for any host (`StaleSaveRearms`, `GateHoldsExactly`).
- A kickstart fetch can leave the flag of the host that makes it: if an unflagged row has the same address,
  such as any two rows inserted one after the other (`KickstartCanMiss`); and if the row holds
  `::ffff:10.0.0.5`, which DHCP reads as 10.0.0.5, from where the fetch then comes
  (`FetchMissesOtherSpelling`). It clears a row's flag exactly if that row and no other holds the text it
  comes from (`KickstartClearsExactly`; for a client that DHCP has served, `ServedClientIsClearedExactly`).
- The unique index compares texts, so two flagged rows may hold one address in two spellings, and then both
  clients are given it: `10.0.0.5` and, set by an update, `::ffff:10.0.0.5` (`TwoClientsShareAnAddress`, whose
  MACs are printed hardware addresses, `ShownMACs`; the same for every IPv4 address,
  `TwoSpellingsShareAnAddress`). In one state two MACs share an address exactly if their rows spell it
  differently (`SharedAddressExactly`), so not if both rows hold dotted quads (`NoDoubleAssignment`).
  `CreateHost` refuses the IPv6 spelling; `UpdateHost` does not check.
- The index covers the flag too, so over a run a cleared row does not keep its address: after a first host
  has fetched its kickstart file, a second one created with the same address is given it, while the first
  row still holds it (`AddressPassesOn`). Among rows that hold dotted quads an address goes to another MAC
  only after a fetch, a delete, or a save that the index allowed took the first row's flag, address or MAC
  (`LaterOwnerNeedsRelease`), and a new row gets it exactly if no flagged row holds the same text
  (`InsertGetsAddressExactly`).
- `UpdateHost` stores the MAC as the form spells it, unlike `CreateHost`: `52-54-00-00-00-01` hides the row
  from DHCP (`DashedMACIsNotFound`). An updated row is found exactly if the form gives its client's MAC with
  colons (`UpdatedHostIsFoundExactly`).
- The classless route option carries the gateway's own octets, not the network's as RFC 3442 writes them:
  192.168.17.1/20 is sent as 192.168.17 (`RouteCanNameItsGateway`). A client that masks them gets the network,
  always; they are the network exactly if the last octet sent has no host bits (`RouteRoundTrip`).
- The integer option encoders silently drop high bits: 65536, -1 and 2^31 (`HighBitsAreDropped`, `SignIsLost`).
  The contracts of `NewUint16Option`, `NewInt32Option` and `NewUint32Option` say which numbers survive.

A flagged row whose address cannot be read is still offered, without an address, while a REQUEST is an
error (`AnswersDiscover` and `AnswersRequest` in the contracts of `ProcessDiscover` and `ProcessRequest`).
`AddOptions` documents manually configured options and an option precedence; no option ever reaches that
code, and the model follows the code. The three timers it always sends read back as a
lease of an hour, half of it and seven eighths of it (`TimersAreFractionsOfTheLease`). `UpdateHost` does not
repeat `CreateHost`'s network check.

## Model

| member | source | states |
|---|---|---|
| ThrottleStore.Throttle.constructor | internal/auth/throttle.go:33-47 | an empty throttle; a non-positive limit or window is replaced by 10 or 15 minutes |
| ThrottleStore.Throttle.Allowed | internal/auth/throttle.go:50-77 | refuses exactly before a stored deadline; a key whose block or window is over is dropped, no other key changes |
| ThrottleStore.Throttle.Fail | internal/auth/throttle.go:80-98 | counts one more failure, or the first if the last is over a window old; at the limit the block ends one window from now |
| ThrottleStore.Throttle.Succeed | internal/auth/throttle.go:101-105 | forgets the key and nothing else |
| ThrottleStore.Attempts.Count | internal/auth/throttle.go:92-97 | the update of the shared record in place |
| ThrottleSpec.RecordsStayConsistent | internal/auth/throttle.go:50-105 | in every reachable table each count is at least 1, a record is blocked iff its count has reached the limit, and the deadline is last + window |
| ThrottleSpec.KeysAreIndependent | internal/auth/throttle.go:50-105 | answers for a key are those of a throttle that saw only the key's own calls |
| ThrottleSpec.RefusesExactlyWhileBlocked | internal/auth/throttle.go:50-105 | refuses iff the current streak of failures, defined on the calls alone, has reached the limit and is younger than a window |
| ThrottleSpec.StreakIsAChain | internal/auth/throttle.go:80-105 | a streak is made of failures of the key, at most a window apart, with no success after the first |
| ThrottleSpec.RefusalIsEarned | internal/auth/throttle.go:50-105 | behind every refusal there are at least max such failures, the newest less than a window old |
| ThrottleSpec.AlikeForever | internal/auth/throttle.go:61-76 | tables that differ only in spent records give the same answers ever after |
| ThrottleSpec.AskingIsFree | internal/auth/throttle.go:61-76 | an `Allowed` inserted anywhere in a run, except at a block's expiry instant, changes no later answer about any key |
| ThrottleSpec.AskingAtExpiryCounts | internal/auth/throttle.go:61-68 | at that instant it does: a run of calls whose answer it changes |
| ThrottleSpec.ExpiryIsReached | internal/auth/throttle.go:61-68 | a run of two failures that comes to such an instant |
| ThrottleSpec.AskingIsFreeExactly | internal/auth/throttle.go:61-76 | an inserted `Allowed` can change a later answer iff it falls at the expiry instant of a block of at least two failures |
| LoginProtocol.WithinInterval | internal/api/login.go:66-75 | the induction behind the rate bound: failures already recorded plus requests in flight stay within the limit plus k - 1 |
| LoginProtocol.RateBound | internal/auth/throttle.go:50-98 | in every interleaving with at most k requests in flight on a key and no success, an interval of one window holds at most max + k - 1 failures (max for k = 1) |
| LoginProtocol.RateBoundIsMet | internal/auth/throttle.go:50-98 | for every limit and every k some run has exactly max + k - 1, so no smaller bound holds |
| LoginHandlers.ThrottleKeysAreDistinct | internal/api/login.go:39-45 | account and address can be told from the key |
| LoginHandlers.GuessingElsewhereIsHarmless | internal/api/login.go:37-45 | failures of other accounts, or of this one from other addresses, never block this one from here |
| LoginHandlers.Auth.Verify | internal/api/login.go:138-160 | the account iff it is known and the password check matches its stored password with the given one; exactly one success or else failure is recorded on the key |
| LoginHandlers.AttemptsArePlayed | internal/api/login.go:66-75 | any number of attempts made one after the other, each with the effect that `Attempt` ensures, is a run of the interleaved protocol with at most one request in flight |
| LoginHandlers.AttemptsAreBounded | internal/api/login.go:66-75 | so a window without a success sees at most max of them fail on a key |
| LoginHandlers.Auth.Attempt | internal/api/login.go:66-75 | the throttle is asked first; a refusal changes nothing, an allowed attempt records a success iff account and password match, else a failure |
| LoginHandlers.Auth.Login | internal/api/login.go:58-98 | a session is started iff name and password are given, a token is drawn, the throttle permits the pair of account and address, and the password matches; each other case has its reply and leaves the sessions as they are |
| LoginHandlers.Auth.Logout | internal/api/login.go:106-113 | ends the cookie's session and no other |
| LoginHandlers.Auth.BasicAuth | internal/api/middleware.go:33-64 | without a live session: refused while blocked, passed iff account and password match, its outcome recorded like a login's |
| LoginHandlers.Auth.Authenticate | internal/api/middleware.go:21-64 | a live session passes without touching the throttle; otherwise basic auth passes iff it is permitted and the password matches, throttled like a login |
| SessionStore.Sessions.constructor | internal/auth/session.go:38-48 | an empty store; a non-positive ttl is replaced by 12 hours, so the ttl is positive |
| SessionStore.Sessions.Create | internal/auth/session.go:50-65 | adds the session and sweeps |
| SessionStore.Sessions.Lookup | internal/auth/session.go:68-90 | finds a session that has not expired and extends it, drops one that has |
| SessionStore.Sessions.Destroy | internal/auth/session.go:93-97 | ends one session and no other |
| SessionStore.Sessions.DestroyUser | internal/auth/session.go:101-110 | in whatever order the map is visited, ends exactly the user's sessions |
| SessionStore.Sessions.Len | internal/auth/session.go:113-119 | the number of sessions left after a sweep |
| SessionStore.Sessions.Sweep | internal/auth/session.go:121-128 | in whatever order the map is visited, drops exactly the expired sessions |
| SessionSpec.ReapingIsInvisible | internal/auth/session.go:76-128 | over any run every lookup answers as in a store that deletes only on Destroy and DestroyUser |
| SessionSpec.KeptSession | internal/auth/session.go:50-90 | a created session that nothing ended is kept, and its deadline tells whether every lookup since came in time |
| SessionSpec.Provenance | internal/auth/session.go:50-110 | what the store holds was created, for that user, and not ended since |
| SessionSpec.LookupRefinesHistory | internal/auth/session.go:50-110 | a lookup names user u iff the token was created for u, not ended since, and never idle for more than ttl |
| SessionSpec.LenCountsLiveTokens | internal/auth/session.go:113-119 | `Len` is the number of tokens live by the history definition |
| LogWindow.HistoryIsTheLastFifty | internal/websockets/main.go:60-66 | after n entries the history is exactly the last min(n, 50), the number written out, in firing order |
| LogStore.LogServer.Fire | internal/websockets/main.go:41-69 | every subscriber gets the entry or, its queue being full, is told to close; the history slides by one; every slice handed out still shows what it did |
| LogStore.LogServer.Push | internal/websockets/main.go:52-58 | in whatever order the map is visited, each subscriber is offered the entry once |
| LogStore.LogServer.Remember | internal/websockets/main.go:60-66 | the append keeps the window and the snapshots through growth, sliding and reallocation |
| LogStore.LogServer.DropOldest | internal/websockets/main.go:64 | reslicing moves the window within the same array |
| LogStore.LogServer.Append | internal/websockets/main.go:61-65 | Go's append: in place behind every earlier slice of the array, or into a new array |
| LogStore.LogServer.Snapshot | internal/websockets/main.go:134-136 | the slice handed out shows the history of that moment |
| LogStore.LogServer.Replay | internal/websockets/main.go:138-143 | whatever has been fired since, entry i of a snapshot is what it was when the snapshot was taken |
| LogStore.LogServer.AddSubscriber | internal/websockets/main.go:168-172 | adds the subscriber and nothing else |
| LogStore.LogServer.DeleteSubscriber | internal/websockets/main.go:174-178 | deletes the subscriber and nothing else |
| LogFanout.InvAlways | internal/websockets/main.go:41-178 | the invariant of all interleavings of fire, snapshot, replay, add, receive, send and delete |
| LogFanout.DeliveredInOrder | internal/websockets/main.go:124-159 | what a subscriber is sent is its snapshot and then what it was offered, less what its full queue refused; strictly increasing in firing order |
| LogFanout.NothingLostWhileKeepingUp | internal/websockets/main.go:52-58 | if its queue is never full, it gets its snapshot and every entry fired since it was added |
| LogFanout.MissedExactly | internal/websockets/main.go:134-146 | the entries that it is not sent: those older than the snapshot, those of the seam, and those refused |
| LogFanout.SeamIsGaplessExactly | internal/websockets/main.go:134-145 | there is no gap iff nothing was fired between its snapshot and its add |
| LogFanout.SeamCanLoseAnEntry | internal/websockets/main.go:134-145 | a run in which the first entry falls into that gap |
| LogFanout.SentOnlyGrows | internal/websockets/main.go:148-153 | nothing that was sent is ever taken back or changed |
| LogFanout.AddJoins | internal/websockets/main.go:168-172 | an add puts exactly that subscriber into the table, while no `Fire` ranges over it |
| LogFanout.DeleteLeaves | internal/websockets/main.go:174-178 | a delete takes exactly that subscriber out, again while no `Fire` ranges over the table |
| LogFanout.LeavingWaits | internal/websockets/main.go:145-157 | a registered subscriber can leave at any time; between `Fire`s it can be deleted at once |
| LogFanout.DeletedForGood | internal/websockets/main.go:174-178 | whatever happens later, a deleted subscriber is never in the table again |
| LogFanout.ReplayCompletes | internal/websockets/main.go:138-143 | left to itself, a replay has sent the whole snapshot |
| LogFanout.EverythingOfferedIsSent | internal/websockets/main.go:148-159 | left to itself, a registered subscriber has been sent all that was in its hand and its queue |
| LogFanout.FireIsNeverStuck | internal/websockets/main.go:41-69 | from every reachable state with a `Fire` under way one of its own steps is possible, whatever the subscribers do |
| LogFanout.FireTakesItsSteps | internal/websockets/main.go:41-69 | in every interleaving a `Fire` takes one push for each subscriber of its start, the append and its end, less what it has taken already |
| LogFanout.WaitingIsOver | internal/websockets/main.go:168-178 | the steps that a `Fire` has left lead to a state in which a subscriber that waits to be added or deleted can be |
| LogSlices.AppendKeepsSound | internal/websockets/main.go:60-65 | an append writes behind every slice taken so far, or into a new array |
| LogSlices.ReplayReadsTheSnapshot | internal/websockets/main.go:60-66 | in every interleaving, also between the write of an append and the assignment of its slice, a replay reads the entry its snapshot showed |
| LogSlices.FanoutRunsOnSlices | internal/websockets/main.go:60-66 | whatever capacity each append leaves, and so whether it writes in place or not, every run of the fan-out is a run on the shared arrays whose slices show, at every point, the history and the snapshots that the fan-out keeps as values |
| LogSlices.SharedArrayIsWritten | internal/websockets/main.go:60-65 | such a run in which an entry is written into the array that an earlier snapshot shows |
| LogSlices.NamesAreEntries | internal/websockets/main.go:60-66 | the positions in the fan-out's history are those of the entries that `LogStore` keeps |
| BootText.ReplaceAllLines | internal/boot/bootcfg.go:50-57 | replacing a literal works on each line for itself |
| BootText.FindIsFirst | internal/boot/bootcfg.go:88-92 | the match found is the rest of the first line with the marker |
| BootText.ReplaceLines | internal/boot/bootcfg.go:96 | replacing `marker.*` works on each line for itself |
| BootText.AppendLines | internal/boot/bootcfg.go:88-97 | every line with the marker gets the first one's text and the new text after it |
| BootText.AppendsFuse | internal/boot/bootcfg.go:68-76 | two appends in a row are one append of both texts |
| BootConfig.RenderLines | internal/boot/bootcfg.go:64-84 | every line of the result, for every file and newline-free parameters |
| BootConfig.UntargetedLineSurvives | internal/boot/bootcfg.go:64-97 | no line is added or lost, and a line with neither marker is exactly the source line without slashes and cdromBoot |
| BootConfig.KernelLineExtended | internal/boot/bootcfg.go:68-81 | the first kernelopt line is its stripped self followed by the ks, netdevice, ip, netmask, gateway, vlanid and legacy-CPU text, each spelled out with its parameter |
| BootConfig.PrefixLineFilled | internal/boot/bootcfg.go:78-81 | the empty prefix line gets the prefix |
| BootConfig.OptTextPrefixFree | internal/boot/bootcfg.go:68-81 | no appended text contains the prefix marker unless a parameter does, so the prefix step leaves it alone |
| BootText.LeftBehindExactly | internal/boot/bootcfg.go:54-66 | one pass leaves the word behind iff an occurrence had others nested in it |
| BootText.SplitOccurrenceStays | internal/boot/bootcfg.go:66 | an occurrence split anywhere by another survives |
| BootConfig.CdromSurvivesExactly | internal/boot/bootcfg.go:65-66 | the same for cdromBoot after the separators are gone |
| BootConfig.CdromIsLeftBehind | internal/boot/bootcfg.go:65-66 | the input cdromcdromBootBoot |
| Ipv4.MaskClearsAndFills | internal/netutil/netutil.go:38-39 | masking clears the host bits and the broadcast address sets them, over addresses of any length |
| Ipv4.NetworkNumbers | internal/netutil/netutil.go:116-120 | network and broadcast address as 32-bit numbers |
| Ipv4.PrefixIsInterval | internal/netutil/netutil.go:22-122 | masked octets agree iff the number lies between network and broadcast iff the prefix contains it; the interval has 2^(32-n) members, the gateway among them |
| Ipv4.NetworkIsIdempotent | internal/netutil/netutil.go:39 | masking twice is masking once, for any mask |
| Ipv4.MaskSizeExactly | internal/netutil/netutil.go:80-84 | a mask has size n iff it is the n-ones mask |
| DottedQuad.ParseOfFormat | internal/netutil/netutil.go:23 | a printed address parses to itself |
| DottedQuad.QuadIsItsText | internal/netutil/netutil.go:23 | an address has exactly one dotted-quad text |
| IPText.QuadIsRead | internal/netutil/netutil.go:23 | net.ParseIP and To4 read a dotted quad as its address |
| IPText.MappedIsRead | internal/netutil/netutil.go:23 | and the IPv6 spelling of every address as that address too |
| IPText.EightGroupsAreRead | internal/dhcp/dhcpd.go:61-63 | every IPv6 address written in eight groups is read as its 16 octets |
| IPText.ElidedZerosAreRead | internal/dhcp/dhcpd.go:61-63 | a double colon, wherever it stands, is read as the zeros that are missing |
| IPText.QuadEndsIPv6 | internal/dhcp/dhcpd.go:61-63 | without a double colon a dotted quad is read as the last two of eight groups, and in no other place |
| IPText.NoEmptyGap | internal/dhcp/dhcpd.go:61-63 | a double colon that leaves nothing out is refused |
| IPText.NoSecondGap | internal/dhcp/dhcpd.go:61-63 | and so is a second one, whatever follows it |
| Text.PaddingIsTrimmed | internal/netutil/netutil.go:22-23 | white space on either side of any text is trimmed away |
| Netutil.BroadcastAddress | internal/netutil/netutil.go:89-122 | the loop over the octets yields the gateway as it is read with all host bits of the mask set; an error iff gateway or netmask cannot be read |
| Netutil.FillHostBits | internal/netutil/netutil.go:117-120 | each octet is the network's or the mask's complement |
| Netutil.MaskFormsAgree | internal/netutil/netutil.go:33-104 | for all n in 0..32, "n", "/n" and the dotted mask are read as the same mask and length |
| Netutil.DottedMaskExactly | internal/netutil/netutil.go:71-84 | on dotted masks NetmaskToCIDR inverts the n-ones masks and fails on exactly the others |
| Netutil.CIDRIsTheMask | internal/netutil/netutil.go:59-85 | whatever NetmaskToCIDR accepts is at most 32 and names the mask that the other two functions apply |
| Netutil.AddressesAgree | internal/netutil/netutil.go:22-122 | whenever it accepts a netmask, network and broadcast are the same for that text, "n" and "/n" |
| Netutil.GatewayIsUsedAsWritten | internal/netutil/netutil.go:22-122 | for every gateway in dotted form, every dotted mask and every prefix length: the printed network and broadcast address of that very gateway |
| Netutil.PaddingIsIgnored | internal/netutil/netutil.go:22-122 | white space around gateway or netmask changes none of the three results |
| Netutil.UnreadableIsAnError | internal/netutil/netutil.go:22-104 | a gateway that is no IPv4 address, or a prefix length over 32, is an error |
| Netutil.NegativeIsAnError | internal/netutil/netutil.go:33-104 | and so is a negative prefix length |
| Text.AtoiPlain | internal/model/option.go:127-157 | a configured number is read as itself, as far as 64 bits go |
| Text.AtoiPlus | internal/model/option.go:127-157 | also with a plus sign |
| Text.AtoiMinus | internal/model/option.go:127-157 | and a negative number as itself, down to -2^63 |
| Text.NumbersAreDigits | internal/model/option.go:127-157 | and nothing but digits, after an optional sign, is a number |
| Netutil.NetworkAddressIdempotent | internal/netutil/netutil.go:22-55 | the network address of a network address is itself |
| HostTable.TableStaysUnique | internal/model/host.go:8-12 | the unique index holds in every state that interleaved creates, updates, deletes and stale saves reach |
| HostTable.SharedAddressExactly | internal/dhcp/dhcpd.go:619-637 | in every such state two clients that are given one address have different MACs iff their rows spell it differently |
| HostTable.NoDoubleAssignment | internal/dhcp/dhcpd.go:619-637 | in one such state no two MACs are given one address by rows that hold dotted quads |
| HostTable.TwoSpellingsShareAnAddress | internal/api/hosts.go:187-197 | for every address a run in which an update gives a second row its IPv6 spelling, and both clients the address |
| HostTable.TwoClientsShareAnAddress | internal/api/hosts.go:187-197 | the instance 10.0.0.5 and ::ffff:10.0.0.5, for the clients 52:54:00:00:00:01 and 52:54:00:00:00:02 |
| HostTable.GateHoldsExactly | internal/api/ks.go:96-109 | a row is flagged exactly while armed, at every point of a run, iff no save wrote back an outdated flag |
| HostTable.ArmedSince | internal/api/hosts.go:193-197 | armed means: some create or update set the flag, and no kickstart fetch, update or delete has taken it away since |
| HostTable.StaleSaveRearms | internal/server/uefi.go:94-96 | a boot handler's outdated record, saved after a kickstart fetch, flags the host again |
| HostTable.WholeHandlersAreFresh | internal/api/ks.go:91-222 | handlers that do not overlap never save an outdated flag |
| HostTable.AnswersFollowArming | internal/dhcp/dhcpd.go:632-636 | with such handlers every address given out goes to an armed row |
| HostTable.KickstartClearsExactly | internal/api/ks.go:94-109 | a kickstart fetch from any address text clears a flagged row's flag iff that row, and no other, holds the text |
| HostTable.ServedClientIsClearedExactly | internal/api/ks.go:94-109 | for a client that DHCP has given an IPv4 address, the fetch from it clears the client's row iff that row, and no other, holds the dotted quad |
| HostTable.FetchMissesOtherSpelling | internal/api/ks.go:94-109 | a row that holds the IPv6 spelling, alone: its client is served, fetches, and stays flagged |
| HostTable.KickstartCanMiss | internal/api/ks.go:94-109 | a reachable table in which another row has the address, and the flag stays |
| HostTable.SilentUntilRearmed | internal/api/ks.go:94-216 | after a kickstart fetch the server gives the host nothing until a create or update arms its row, its address and MAC being its own |
| Reassignment.LaterOwnerNeedsRelease | internal/dhcp/dhcpd.go:619-637 | over a run an address given to one MAC is given to another one later only if in between a fetch has cleared the first MAC's row, a delete removed it, or a save that the index allows changed its address, MAC or flag, both rows holding dotted quads |
| Reassignment.InsertGetsAddressExactly | internal/model/host.go:8-12 | a new flagged row of a new MAC gets its address for its client iff no flagged row holds the same text |
| Reassignment.AddressPassesOn | internal/api/ks.go:94-109 | for every address and any two MACs a run of four steps in which both are given it, one after the other |
| HostHandlers.PerformAllIsRun | internal/api/hosts.go:67-221 | the handlers below, one after the other, make the run of accesses that the theorems are about |
| HostHandlers.CreatedHostIsFound | internal/dhcp/dhcpd.go:619-637 | however the form spells the MAC, DHCP finds the new row by the hardware address of its client |
| ServedHosts.FoundSpellings | internal/dhcp/dhcpd.go:619-637 | a stored text is found by a hardware address iff it is that MAC in any case, spelled with colons |
| ServedHosts.UpdatedHostIsFoundExactly | internal/api/hosts.go:187-203 | an updated row is found by its client's hardware address iff the form gives that MAC with colons, no earlier row having it |
| ServedHosts.DashedMACIsNotFound | internal/api/hosts.go:187-203 | the input 52-54-00-00-00-01 is not found as stored, and is as CreateHost would store it |
| ServedHosts.AdmittedRowIsSentItsNetwork | internal/dhcp/dhcpd.go:48-139 | every OFFER and every ACK for a flagged row whose address is admitted to its group carries that address, on the network that the mask, router and broadcast options of that same reply describe |
| ServedHosts.CreatedHostIsSentItsNetwork | internal/api/hosts.go:83-118 | the same for a host that `CreateHost` admits and inserts, from its form to the reply, its row unchanged and the first of its MAC |
| MAC.NormalTellsMACsApart | internal/api/hosts.go:83-85 | two forms store the same MAC text iff they spell the same hardware address, or both none |
| MAC.SpellingsAreRead | internal/api/hosts.go:83-85 | a MAC of 6, 8 or 20 octets with colons, dashes or dots is read as it, and nothing of another length is read |
| MAC.OneFormThroughout | internal/api/hosts.go:83-85 | a text is read as a MAC only if it keeps to one of the three forms from end to end |
| MAC.ParseOfShow | internal/api/hosts.go:83-85 | a stored MAC is read back as itself |
| HostHandlers.Store.CreateHost | internal/api/hosts.go:67-148 | inserts the form's row under the next key, its MAC normalised, iff group, address and index allow it |
| HostHandlers.Store.UpdateHost | internal/api/hosts.go:162-209 | an empty address, MAC or group of the form leaves the row's own in place, flag and progress are always the form's; the whole row is saved if the index allows, and else nothing changes |
| HostHandlers.Store.DeleteHost | internal/api/hosts.go:221 | removes the row |
| HostHandlers.Store.BootProgress | internal/server/uefi.go:74-99 | saves the whole row with new progress |
| HostHandlers.Store.Ks | internal/api/ks.go:91-222 | clears the flag of the first row with the requester's address; renders, and saves the progress, only if the index let it |
| Options.PutUint16 | internal/model/option.go:172-173 | big-endian octets that read back as the value |
| Options.PutUint32 | internal/model/option.go:180-189 | the same for four octets |
| Options.NewUint16Option | internal/model/option.go:170-176 | a client reads v iff 0 <= v < 2^16 |
| Options.NewInt32Option | internal/model/option.go:178-184 | a client reads v iff -2^31 <= v < 2^31 |
| Options.NewUint32Option | internal/model/option.go:186-192 | a client reads v iff 0 <= v < 2^32 |
| Options.HighBitsAreDropped | internal/model/option.go:170-192 | 65536 is read as 0, and -1 as 2^32 - 1 |
| Options.SignIsLost | internal/model/option.go:178-184 | 2^31 is read as -2^31 |
| Options.ToDHCPOption | internal/model/option.go:68-168 | an option iff the text is of the code's kind; a client reads from it what was configured iff a number fits its field |
| Options.TextByCode | internal/model/option.go:71-87 | the fourteen text codes: the text's own octets |
| Options.AddressByCode | internal/model/option.go:88-120 | the seventeen address codes: the IPv4 address that the text is read as, to be merged but for 1, 28 and 32 |
| Options.Uint16ByCode | internal/model/option.go:121-142 | the five 16-bit codes: a fitting number's two octets, to be merged for 25 alone |
| Options.Uint32ByCode | internal/model/option.go:152-164 | the six 32-bit codes: four octets that are read as a fitting number |
| Options.Int32ByCode | internal/model/option.go:143-151 | code 2: four octets that are read as a fitting number with its sign |
| Options.OtherCodes | internal/model/option.go:166-167 | no other code has an option |
| Options.BigEndianOfRead | internal/model/option.go:170-192 | octets are determined by the number they stand for |
| ReplyOptions.RequestedCodes | internal/dhcp/dhcpd.go:214-235 | the codes of all parameter lists (55), however they repeat them, and 51, 54, 58, 59 and 67 |
| ReplyOptions.OptionData | internal/dhcp/dhcpd.go:270-365 | the switch yields each code's data, among it a broadcast address that went through text and back |
| ReplyOptions.OwnContents | internal/dhcp/dhcpd.go:270-365 | the boot file of each boot method, with its scheme and the server's address, as a client reads it; the server's address; the three times as octets |
| ReplyOptions.GroupContents | internal/dhcp/dhcpd.go:298-350 | for a gateway and prefix length in any of their spellings: router, mask and broadcast address are those of that gateway and length |
| ReplyOptions.NoOtherContents | internal/dhcp/dhcpd.go:263-365 | no other code is answered, and without its group a host is told neither its network nor what to boot |
| ReplyOptions.DefaultsAreSent | internal/dhcp/dhcpd.go:223-365 | every answer carries the server's address and the three times, and a boot file exactly for the three boot methods |
| ReplyOptions.AddOption | internal/dhcp/dhcpd.go:251-367 | appends the one option of a code, or nothing if the code is unsupported or the group's data is unusable |
| ReplyOptions.AnswerCodes | internal/dhcp/dhcpd.go:251-367 | whichever order the map yields, exactly one option for each code that has content |
| ReplyOptions.AddOptions | internal/dhcp/dhcpd.go:188-387 | appends the answer to the wanted codes behind what was there |
| ReplyOptions.AnswersAgree | internal/dhcp/dhcpd.go:251-367 | any two such answers are the same multiset of options |
| ReplyOptions.BroadcastTextParses | internal/dhcp/dhcpd.go:334-350 | the broadcast option survives its way through text |
| ReplyOptions.OptionsDescribeOneNetwork | internal/dhcp/dhcpd.go:298-350 | mask, router and broadcast option of a group describe one network, an interval of 2^(32-n) addresses around the router |
| ReplyOptions.RouteRoundTrip | internal/dhcp/dhcpd.go:304-322 | the route option is 5 + ceil(n/8) octets, the fewest that hold n bits, and decodes to one route through the gateway whose masked destination is the network; unmasked iff the gateway has no host bits in the last octet sent |
| ReplyOptions.RouteCanNameItsGateway | internal/dhcp/dhcpd.go:317-319 | for 192.168.17.1/20 the octets sent are not the network's |
| ReplyOptions.RouteOptionNamesTheNetwork | internal/dhcp/dhcpd.go:304-322 | that destination is what NetworkAddress prints for the group |
| DhcpServer.FindMsgType | internal/dhcp/dhcpd.go:553-562 | the first octet of the last option 53, or 0 if there is none |
| DhcpServer.LastDataAt | internal/dhcp/dhcpd.go:83-88 | the loop over the options finds the data of the last one of the code |
| DhcpServer.LastDataAbsent | internal/dhcp/dhcpd.go:83-88 | and the default if there is none |
| DhcpServer.FindRequestedIP | internal/dhcp/dhcpd.go:82-88 | the octets of the last option 50, or else the client's own address |
| DhcpServer.ProcessDiscover | internal/dhcp/dhcpd.go:48-78 | an OFFER of the row's address, IPv4 or IPv6, with the answer to the parameter lists iff the row is flagged |
| DhcpServer.ProcessRequest | internal/dhcp/dhcpd.go:80-139 | an ACK of the reservation if the octets of the last option 50, or else of ciaddr, spell it, else a NAK; an error iff the row is missing, unflagged or unreadable |
| DhcpServer.ProcessPacket | internal/dhcp/dhcpd.go:25-46 | only DISCOVER and REQUEST are ever answered |
| DhcpServer.OfferExactly | internal/dhcp/dhcpd.go:48-78 | the client of a row is sent an OFFER (2) of what the row's text is read as iff the row is flagged |
| DhcpServer.AnswersHaveNoType | internal/dhcp/dhcpd.go:71-135 | a reply has the type its handler gave it, whatever the client asks for |
| DhcpServer.Handshake | internal/dhcp/dhcpd.go:48-139 | a REQUEST whose octets spell the offered address is acknowledged with it and the same options (sections 4.3.1 and 4.3.2 of RFC 2131) |
| DhcpServer.FourOctetHandshake | internal/dhcp/dhcpd.go:80-139 | offered an IPv4 address, a client that puts its four octets into option 50 is acknowledged it |
| DhcpServer.AckExactly | internal/dhcp/dhcpd.go:111-131 | over all option lists: an ACK (5) of the reservation iff the last option 50, or else ciaddr, holds its 16 octets or, for an IPv4 address, its last four; else a NAK (6) without an address |
| DhcpServer.OctetsAcknowledgedExactly | internal/dhcp/dhcpd.go:111-131 | for a reserved IPv4 address: four octets are acknowledged iff they are its own, sixteen iff they are its IPv6 form, any other number never |
| DhcpServer.Grant | internal/dhcp/dhcpd.go:61-75 | the address, the type, and behind it the answer to the parameter lists |
| DhcpServer.RepliesShareAnAddressExactly | internal/dhcp/dhcpd.go:25-139 | in every reachable table two replies with one address go to two MACs iff the rows spell it differently, so never if both hold dotted quads |
| DhcpServer.RepliesFollowArming | internal/dhcp/dhcpd.go:25-139 | with handlers that do not overlap, a reply with an address goes to an armed row |
| Admission.PrefixParses | internal/api/hosts.go:107-112 | the prefix text that CreateHost builds always parses |
| Admission.AdmittedIsOnTheNetwork | internal/api/hosts.go:88-118 | a text is admitted iff it is blank or an address between the network address and the broadcast option that the same group's clients are sent |

## Left out

- Sockets, raw frames, packet encoding, TFTP, HTTP transfer, file lookup, ISO extraction and certificates: I/O and libraries.
- gorm, SQLite, mergo, bcrypt, AES-GCM and text/template themselves: a row store with an atomic uniqueness check, a field-wise merge and an abstract password predicate stand for them. Save updates by key and re-inserts a deleted row; keys are never reused.
- Associations (a host's group) that gorm writes along with a row, and columns other than address, MAC, flag, group and progress.
- Random token generation: tokens are parameters assumed to be non-empty and never to repeat.
- 64-bit time and duration overflow: time is an unbounded integer.
- The option-precedence code of `AddOptions` and `Option.Level`: the list it works on is never filled. Device classes are read there but not used.
- Unknown requesters in the boot handlers, whose zero host may be saved: known hosts only.
- The kickstart template's data, such as the NTP command line: string concatenation.
- Option 82, client id and host name, which the packet loop copies from request to reply, and the destination headers it builds.
- What an address that is not IPv4 becomes on the wire: packet encoding.
- Message fields that are copied from the request unchanged (transaction id, relay, hardware address, next server).
- DhcpServer.FindMsgType: requires a message-type option to hold an octet, as the original stops at one that does not.
- The user endpoints: that changing a password ends all sessions is not claimed, only what `DestroyUser` does to the store.
- Configuration, routing, CRUD handlers, the user interface and `internal/secrets`: plumbing without state of its own.
- BootConfig.KernelLineExtended: speaks of the first kernelopt line; any further one becomes a copy of it, which RenderLines says.
