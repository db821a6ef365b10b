# Seeder model

A Dafny model of a Bitcoin-style DNS seeder and proofs about it. The seeder crawls peers, scores
them, answers DNS queries with the good ones, and a companion program publishes the same peers in a
DNS zone. `dafny verify dfyconfig.toml` checks everything.

## What is modelled

- **The crawler's database** (`AddrDb.dfy`) is a class whose fields are the maps, sets and queue of
  the source and whose methods change them in place, each proved against a specification function on
  the value `Db`. `DbInvariants.dfy` says what every operation keeps. `LeaseProtocol.dfy` puts any
  number of crawlers on top, one step for each call under the lock, and `LeaseSafety.dfy` proves what
  holds after every run; `ReportEffects.dfy` says exactly what each operation writes, `HandOuts.dfy` is
  about ignore marks, and `Crawler.dfy` shows that the crawler task obeys that protocol.
- **The score** (`Score.dfy`, `ScoreHistory.dfy`, `ScoreLaws.dfy`): five exponentially decaying windows and the verdicts
  drawn from them, over reals, for every decay function with values in (0, 1] that falls with age and
  grows with the time constant. A rational one shows that the assumptions can be met.
- **The peer protocol** (`Serialize.dfy`, `Message.dfy`, `FrameDecoder.dfy`, `Handshake.dfy`,
  `HandshakeSafety.dfy`, `HandshakeEnds.dfy`, `WireFormat.dfy`): varints, strings, headers, addresses and
  version payloads with their round trips, and the streaming decoder that resynchronises on the
  network's magic, compared with a reference decoder of the whole stream. SHA-256d is an arbitrary
  function to 32 octets.
- **DNS** (`DnsName.dfy`, `DnsRecords.dfy`, `DnsServer.dfy`, `DnsReply.dfy`, `DnsAnswers.dfy`): names with compression
  pointers, records with patched lengths, and the handling of one datagram in two fixed buffers of 512
  octets (RFC 1035, sections 4.1.1 to 4.1.4).
- **Publication** (`Snapshot.dfy`, `SeedDump.dfy`, `DumpLaws.dfy`, `Reconcile.dfy`): the DNS snapshot of the good set,
  the dump written by the seeder and read by the publisher, and the reconciliation of the zone.
- `Bytes.dfy`, `Net.dfy` and `Collections.dfy` hold octets and byte orders, addresses, and facts about
  sets and bags.

`ReportEffects.dfy`, `ScoreLaws.dfy`, `HandshakeEnds.dfy`, `WireFormat.dfy`, `DnsAnswers.dfy` and
`DumpLaws.dfy` state in plain numbers and octets, without the specification's own words, what the
specification functions compute.

The clock, random numbers, the order of hash sets, the chunks a connection delivers and the answer of
the DNS callback are arguments, universally quantified in every theorem. A call that reads the clock
several times has a reading for each. "Crawler" in the protocol is an index; a batch is what that
crawler has leased and not yet reported.

## Where the code is not what its documentation or names suggest

- An ignore mark does not keep a peer from being handed out. `get_one` skips a peer whose mark is set
  and past (`crates/seeder-core/src/db.rs:376`); see `IgnoredYetServed` and, for exactly when,
  `MarkedPeersAreServedExactly`.
- `add_service` does not look at bans (`crates/seeder-core/src/db.rs:318-332`); see `SeedAgainstBan`.
- A snapshot loses the leases outstanding when it is written; those peers stay tracked and are never
  tested again (`crates/seeder-core/src/db.rs:256-265`); see `StrandedForever`,
  `LeasedAtRestartIsStranded` and, for exactly when nothing is lost, `NothingStrandedExactly`.
- The comment at `crates/seeder-core/src/p2p/message.rs:97-102` says that addresses in a version message
  never carry a time. They do when a time version is configured at or below the init version; see
  `OwnVersionUnderstoodExactly` and `VersionMisread`. Writer and reader of an address also disagree in one case;
  see `TimeFieldAgreement`.
- `verack` and `getaddr` go out without a checksum (`crates/seeder-core/src/p2p/handshake.rs:236-243`);
  see `UncheckedIsSkipped`.
- The empty owner name takes two octets on the wire (`crates/dns-server/src/server.rs:122-133`), so
  readers that follow RFC 1035 find every record one octet late; and `write_ns` patches the right field
  for no other owner; see `EmptyName` and `NsPatchesItsLength`.
- Replies to faulty queries do not carry the response bit; see `OnlyGoodQueriesGetMarkedReplies`.
- `parse_name` accepts pointers in any direction, so that some questions exhaust the stack. `EndlessIsACycle`
  and `NeverRepliedExactly` say exactly which, `SelfPointerIsNeverAnswered` is one; the model's `depth` is
  the number of calls the stack has room for.
- Without a good peer a snapshot publishes a peer that is not in the good set, past the network filter; see
  `SnapshotWithoutGoodPeers`.
- The own address is documented as always published (`crates/seeder-publish/src/reconcile.rs:19-21`).
  `OwnAddressPublished` gives the exact condition and `FullZoneLacksOwnAddress` a counterexample.
- A sub-version may hold line feeds, which the dump does not escape; see `LineFeedsAddAddresses`.

## Model

| member | source | states |
|---|---|---|
| LeaseSafety.LeaseExclusivity | bin/seeder/src/main.rs:321-376 | In every run of any number of crawlers leasing, learning, seeding and reporting, every tracked id is in exactly one of: the new ids, the queue (once), one slot of one crawler's batch, or the ids a restart stranded. No service is with two crawlers, every held service is tracked, and the two maps stay mutually inverse |
| LeaseSafety.EveryReportLands | crates/seeder-core/src/db.rs:399-469 | Whatever a crawler is able to report after any run, the database knows the service, it is neither new nor queued, and the update it causes sees an age of at least `MIN_RETRY` |
| LeaseSafety.HandOutsNeverMisfire | crates/seeder-core/src/db.rs:350-397 | After any run the `?` exits of `get_one` do not fire; whenever it returns nothing, nothing is newly leased and nothing queued may be retried yet; after the exit for too many skips nothing is new either, and after an empty hand-out everything is leased; and what is handed out has its ignore mark unset or still running |
| LeaseSafety.ActiveCount | bin/seeder/src/main.rs:213-220 | After any run available minus tracked minus new is the number of leased services, those stranded by a restart included |
| LeaseSafety.StatsAreExact | crates/seeder-core/src/db.rs:236-254 | What `get_stats` returns after any run: available minus tracked minus new is the number of services out with crawlers or stranded, and the age is the largest in the queue, zero without one |
| LeaseSafety.QueueStaysSorted | crates/seeder-core/src/db.rs:350-397 | After any run the queue is sorted by last try, so that its head is its oldest entry |
| LeaseSafety.RetriesAreSpaced | crates/seeder-core/src/db.rs:366-372 | Over a whole run two hand-outs of one id are at least `MIN_RETRY` seconds apart, and every peer's score is within bounds: reliability at most weight at most one, longer windows lighter and fuller, every count at most 1/(1-F) |
| LeaseSafety.GoodSetIsVouchedFor | crates/seeder-core/src/db.rs:409-465 | After any run every id of the good set is tracked, not new, on the wallet port, routable, and was good at its latest report |
| LeaseSafety.RunKeepsInv | crates/seeder-core/src/db.rs:276-469 | The invariant of the protocol (maps inverse, times and queue order, scores, leases held exactly once, good set servable and vouched for, hand-outs spaced) survives every legal run |
| LeaseSafety.FreshStart | crates/seeder-core/src/db.rs:220-234 | An empty database with idle crawlers meets the invariant |
| LeaseSafety.RestartKeepsInv | bin/seeder/src/main.rs:77-98 | A process restarted from a snapshot, with any limits and any wipes, meets the invariant if and only if the wallet port is the old one or the good set is empty; the ids leased at the time of the snapshot are leased to nobody |
| LeaseSafety.StrandedForever | crates/seeder-core/src/db.rs:256-265 | Ids stranded by a restart stay tracked outside queue and new ids in every run, and are never handed out again |
| LeaseSafety.NothingStrandedExactly | crates/seeder-core/src/db.rs:256-265 | A restart strands nothing if and only if the snapshot tracks as many peers as it has queued and new ones |
| LeaseSafety.LeasedAtRestartIsStranded | crates/seeder-core/src/db.rs:256-265 | A concrete run, one peer seeded and leased, after which a restart strands it |
| LeaseSafety.RestartKeepsBanSafe | bin/seeder/src/main.rs:92-94 | A restart keeps ban safety if and only if it does not wipe a ban that a report has set |
| LeaseSafety.StartUp | bin/seeder/src/main.rs:77-98 | A new database, the snapshot taken over, bans and marks wiped when asked for |
| LeaseSafety.WipedMarksSkipNothing | crates/seeder-core/src/db.rs:555-559 | After the ignore marks are wiped the database is as sound as before and skips nobody: the first draw settles every hand-out |
| LeaseSafety.IgnoredYetServed | crates/seeder-core/src/db.rs:366-376 | A new peer whose ignore mark is still running is handed out by every draw: the mark does not keep it back |
| HandOuts.MarkedPeersAreServedExactly | crates/seeder-core/src/db.rs:350-397 | Over any healthy database, some draws hand out a peer whose ignore mark is still running if and only if a new peer has such a mark, or a queued one has it, has rested, and everything ahead of it is skipped |
| HandOuts.QueuedIsServed | crates/seeder-core/src/db.rs:356-382 | Such a queued peer is reached by draws that put back, one by one, the skipped ones ahead of it |
| LeaseSafety.BansAreRespected | crates/seeder-core/src/db.rs:276-311 | Over runs in which no seed and no forced gossip names a banned service, bans and tracked services stay disjoint, and nothing is handed out at or before the expiry of its latest ban |
| LeaseSafety.FreshIsBanSafe | crates/seeder-core/src/db.rs:220-234 | An empty database is a start for ban safety |
| LeaseSafety.SeedAgainstBan | crates/seeder-core/src/db.rs:318-333 | Seeding a service keeps bans and tracked services disjoint if and only if it is not a banned one that is forced or routable |
| LeaseSafety.SeededWhileBanned | crates/seeder-core/src/db.rs:318-333 | A concrete banned service that seeding tracks again |
| LeaseSafety.BanIsTheLonger | crates/seeder-core/src/db.rs:435-465 | A bad report forgets and bans the peer if and only if the longer of the reported and the scored ban time is positive, for exactly that long from the report; otherwise no ban changes |
| ReportEffects.GoodReportEffect | crates/seeder-core/src/db.rs:409-433 | A good report on a tracked peer: the five windows decayed and charged with one success, what the peer said taken over; and it is in the good set afterwards if and only if it was before, or it is on the wallet port, claims the network service, is routable, not too old, in sync, and has the tries or one of the five windows to show for it |
| ReportEffects.FirstGoodReportIsPublished | crates/seeder-core/src/db.rs:99-134 | In every run the first report on a servable peer, if good, in sync, claiming the network service and with an acceptable version, puts it into the good set |
| ReportEffects.BadReportEffect | crates/seeder-core/src/db.rs:435-465 | A bad report on a tracked peer: out of the good set, the windows charged with one failure, nothing of what it said taken over; forgotten only into a ban, kept only without one |
| ReportEffects.EveryStepIsLogged | bin/seeder/src/main.rs:321-376 | The log the theorems about runs speak of misses nothing: each hand-out is in it with id, service and time, each report with id, verdict and time, and the ban it ends in exactly when it forgets the peer; nothing else adds to it |
| ReportEffects.GossipEffect | crates/seeder-core/src/db.rs:276-311 | Gossip makes a new untested record of exactly what was said, or moves the sighting of a known one forward and lifts its mark only by force; no other record changes |
| ReportEffects.SeedEffect | crates/seeder-core/src/db.rs:318-333 | A seed makes a new untested record that claims the network service, of unknown services only |
| ReportEffects.DrawDecides | crates/seeder-core/src/db.rs:356-372 | A draw takes a new id when its remainder falls below their number, and otherwise the head of the queue if it was tried 1000 seconds ago or more |
| ReportEffects.HandedOutAsRecorded | crates/seeder-core/src/db.rs:384-395 | What is handed out is the service, what it last offered and when it was last good, with nothing else filled in |
| ReportEffects.ShortBatchMeansNothingReady | crates/seeder-core/src/db.rs:339-348 | A batch is never too large, and if it is too small nothing left in the queue may be tried yet |
| LeaseProtocol.StepKeepsInv | crates/seeder-core/src/db.rs:276-469 | Each single step under the lock keeps the invariant |
| LeaseProtocol.LeaseKeepsInv | crates/seeder-core/src/db.rs:350-397 | Handing out one id keeps the invariant, and the log of hand-outs spaced |
| LeaseProtocol.LearnKeepsInv | crates/seeder-core/src/db.rs:276-311 | Learning an address keeps the invariant |
| LeaseProtocol.SeedKeepsInv | crates/seeder-core/src/db.rs:318-333 | Adding a seed keeps the invariant |
| LeaseProtocol.ReportKeepsInv | crates/seeder-core/src/db.rs:399-465 | Reporting on a held service keeps the invariant and ends its lease |
| DbInvariants.GetOneServes | crates/seeder-core/src/db.rs:350-397 | From any healthy database `get_one` hands out an id that was new or has rested, moving it from free to leased and nothing else, or leaves nothing newly leased and everything queued resting |
| DbInvariants.TakeKeeps | crates/seeder-core/src/db.rs:356-372 | One draw takes a new id or a rested queue head, or stops because the whole queue is resting |
| DbInvariants.RequeuedKeeps | crates/seeder-core/src/db.rs:376-382 | Putting a skipped id back with the current time keeps the queue sorted and everything else healthy |
| DbInvariants.AddRawKeeps | crates/seeder-core/src/db.rs:276-311 | Learning an address keeps maps, times and scores sound and leases nothing |
| DbInvariants.AddServiceKeeps | crates/seeder-core/src/db.rs:318-333 | Seeding keeps maps, times and scores sound and leases nothing |
| DbInvariants.AddRawGrows | crates/seeder-core/src/db.rs:276-311 | Exactly when gossip lifts a ban and exactly when it leaves a service tracked; everything else a crawler or the queue could notice stays |
| DbInvariants.AddServiceGrows | crates/seeder-core/src/db.rs:318-333 | A seed tracks exactly the services that are forced or routable and changes no ban |
| DbInvariants.ReportedKeeps | crates/seeder-core/src/db.rs:399-465 | A report on a leased id ends exactly that lease, in the queue's last place or in a ban, keeps everything sound, and keeps the good set servable |
| CrawlerDb.AddrDb.constructor | crates/seeder-core/src/db.rs:220-234 | A new database is empty |
| CrawlerDb.AddrDb.RestoreFrom | crates/seeder-core/src/db.rs:256-265 | Takes over the saved tracking state and keeps its own port and version limits |
| CrawlerDb.AddrDb.AddRaw | crates/seeder-core/src/db.rs:276-311 | Changes the object as the specification of learning says, ban lookup, expiry, age penalty and existing entries included |
| CrawlerDb.AddrDb.AddService | crates/seeder-core/src/db.rs:318-333 | Changes the object as the specification of seeding says |
| CrawlerDb.AddrDb.Take | crates/seeder-core/src/db.rs:356-372 | One draw from the new ids or from the queue |
| CrawlerDb.AddrDb.GetOne | crates/seeder-core/src/db.rs:350-397 | The loop of `get_one` ends in the state and with the result of its recursive specification |
| CrawlerDb.AddrDb.GetMany | crates/seeder-core/src/db.rs:339-348 | At most `max` calls of `get_one`, up to the first without a result, each with its own clock reading and draws |
| CrawlerDb.AddrDb.ResultMany | crates/seeder-core/src/db.rs:399-407 | The reports in order, each good or bad, each with its own clock reading |
| CrawlerDb.AddrDb.Good | crates/seeder-core/src/db.rs:409-433 | A good report: unbanned, queued last, fields and score updated, good set joined when the rule says so |
| CrawlerDb.AddrDb.Bad | crates/seeder-core/src/db.rs:435-465 | A bad report: score updated, out of the good set, banned and forgotten or queued last |
| CrawlerDb.AddrDb.Sample | crates/seeder-core/src/db.rs:506-510 | The ids shown by the shortest run of draws that shows the asked number of different ones, whatever order and repetitions they come in |
| CrawlerDb.SomeDrawsShowAll | crates/seeder-core/src/db.rs:506-510 | For every set of ids some draws show all of it, so no sample size the code asks for is out of reach |
| CrawlerDb.AddrDb.GetIps | crates/seeder-core/src/db.rs:471-526 | With a good set: the wanted addresses of exactly min(max(1, max), filtered/2) distinct matching ids; without one the fall-back |
| CrawlerDb.AddrDb.FallbackIps | crates/seeder-core/src/db.rs:478-491 | With no good peer at all: the address of the head of the queue, or of some new peer when the queue is empty, if it offers the services asked for |
| Score.RationalIsDecay | crates/seeder-core/src/db.rs:24-29 | The assumptions made of the decay factor have a model, tau/(tau+age) |
| Score.UpdateStat | crates/seeder-core/src/db.rs:24-29 | The assignments of one window's update, in order, compute its specification |
| Score.UpdateInfo | crates/seeder-core/src/db.rs:76-97 | The assignments of a peer's update, in order, compute its specification: first-try age, five windows, ignore mark |
| ScoreHistory.ScoreBounds | crates/seeder-core/src/db.rs:24-97 | After any history from a new record: 0 <= reliability <= weight <= 1 and count <= total in every window, longer windows lighter and fuller, total the number of tries and success that of good ones |
| ScoreHistory.WindowsAreIndependent | crates/seeder-core/src/db.rs:76-92 | Each window is a function of the history and its own time constant alone |
| ScoreHistory.WeightIsOneMinusFaded | crates/seeder-core/src/db.rs:24-29 | A window's weight is exactly one minus the product of the decay factors of its history |
| ScoreHistory.SpacedCounts | crates/seeder-core/src/db.rs:24-29 | Tries at least `MIN_RETRY` apart never let a window's count pass 1/(1-F), F the decay over `MIN_RETRY` |
| ScoreHistory.Patience | crates/seeder-core/src/db.rs:136-166 | No score ban before the ninth try and no ignore before the third, whatever the history |
| ScoreHistory.AllGoodIsTrusted | crates/seeder-core/src/db.rs:136-166 | A peer that never failed is never ignored, and banned only for its protocol version |
| ScoreHistory.BetterVerdict | crates/seeder-core/src/db.rs:99-166 | A record at least as reliable in every window, otherwise alike, has no longer ban or ignore time and does not lose goodness |
| ScoreHistory.BetterHistoryBetterVerdict | crates/seeder-core/src/db.rs:76-166 | Of two histories with the same times, one succeeding wherever the other does: weights and counts end equal, reliabilities, ban time, ignore time, accumulated ignore mark and goodness at least as good |
| ScoreHistory.UpdateKeepsSane | crates/seeder-core/src/db.rs:24-97 | An update keeps the bounds of every window |
| ScoreHistory.UpdateKeepsWindowsOrdered | crates/seeder-core/src/db.rs:76-92 | An update keeps longer windows lighter and fuller |
| ScoreHistory.UpdateKeepsCountsBounded | crates/seeder-core/src/db.rs:76-92 | An update at least `MIN_RETRY` after the last keeps every count at most 1/(1-F) |
| ScoreLaws.WindowInClosedForm | crates/seeder-core/src/db.rs:24-29 | After any history the count of a window is the sum over the tries of the product of the later decay factors, and its reliability the sum over the good ones of one minus the own factor times that product |
| ScoreLaws.ScoresInClosedForm | crates/seeder-core/src/db.rs:76-92 | The five windows of a peer are these sums for the time constants 2 and 8 hours, a day, a week and 30 days |
| ScoreLaws.TimesOfHistory | crates/seeder-core/src/db.rs:76-92 | After any history: the last try, the last good try, and how many there were of each |
| ScoreLaws.OneTry | crates/seeder-core/src/db.rs:76-97 | One attempt never moves the ignore mark back, and sets it as far ahead as the score asks for |
| ScoreLaws.GoodExactly | crates/seeder-core/src/db.rs:99-134 | A peer is good if and only if it is on the port, claims the network service, is routable, not too old, in sync, and has at most 3 tries with half of them good or one of five windows above its thresholds |
| ScoreLaws.BanTimeExactly | crates/seeder-core/src/db.rs:136-151 | The score bans for a week for an old version, otherwise 30, 7 or 1 days, exactly when a window of that length has little evidence for the peer and enough tries |
| ScoreLaws.IgnoreTimeExactly | crates/seeder-core/src/db.rs:153-166 | The score asks for 10 or 3 days or 8 or 2 hours, exactly when a window has little evidence for the peer and more than two tries |
| Snapshot.SnapshotIsExact | crates/seeder-core/src/db.rs:561-565 | After any run, whatever sample of good ids is drawn, the snapshot holds one address for each sampled peer with an A or AAAA record, merges no two, and the DNS callback answers every one |
| Snapshot.SnapshotWithoutGoodPeers | crates/seeder-core/src/db.rs:478-491 | Without a good peer a snapshot holds the address of the queue's head, or of some new peer, and is empty if and only if everything is leased; the address is answered if and only if it is neither Tor nor I2P |
| Snapshot.AnsweredUnfiltered | crates/seeder-core/src/db.rs:478-491 | The callback answers exactly the addresses that are neither Tor nor I2P, of which the filter the fall-back bypasses would have kept the routable ones |
| Snapshot.WantedNetworks | bin/seeder/src/main.rs:169-179 | A routable address passes the snapshot's network filter exactly when the callback can convert it |
| Snapshot.DistinctAddresses | crates/seeder-core/src/db.rs:409-433 | No two ids of the good set share an address |
| Snapshot.LoneGoodPeerIsNotPublished | crates/seeder-core/src/db.rs:506 | A good set of one publishes nothing, and of any larger one at least one and at most half |
| Snapshot.AskedForExactly | crates/seeder-core/src/db.rs:493-505 | Sampled from are exactly the tracked good peers that offer every service bit asked for; the fall-back peer is offered on the same condition |
| Snapshot.PublishedExactly | crates/seeder-core/src/db.rs:511-524 | Published are exactly the sampled addresses that are routable and of a network whose flag is set, in the order IPv4, IPv6, Tor, I2P, a missing flag counting as unset |
| Net.RoutableIpv4 | crates/seeder-core/src/net.rs:53-121 | An IPv4 address is routable if and only if it is in none of 0/8, 10/8, 127/8, 172.16/12, 192.168/16 and 240/4 and is not 169.254.0.0 |
| Net.RoutableOther | crates/seeder-core/src/net.rs:60-121 | Any other address is routable if and only if it is neither :: nor ::1, not in 2001:db8::/32, does not begin with the end of the IPv4 prefix and does not end in the octets of 169.254.0.0; Tor and I2P are told by their six octets |
| Net.NetworkDecidesTheRecord | crates/seeder-core/src/net.rs:98-136 | The network class of an address says which conversion succeeds, never both do, and the converted octets give the address back |
| Crawler.PassIsLegal | bin/seeder/src/main.rs:321-376 | A whole pass of the crawler task, with any foreign steps between leasing and reporting and any answers from its peers, is a legal run, keeps the invariant, and leaves the crawler holding nothing |
| Crawler.CrawlOnce | bin/seeder/src/main.rs:321-376 | One pass without interference: leases up to 16, shakes hands with each, passes on the gossip, reports in order what `VerdictsAreReports` says of each session; the new database is the specification's |
| Crawler.CrawlOnceIsARun | bin/seeder/src/main.rs:321-376 | What such a pass makes of the database is what the protocol's lease, learn and report steps make of it |
| Crawler.VerdictsAreReports | bin/seeder/src/main.rs:340-361 | What is reported on a peer: good if and only if its session met no invalid header and its last version message of four octets or more carries a positive version; ban, height, version, agent and services as learned; in sync by the window of five blocks or the bare height; a peer that delivers nothing is not good and not banned |
| Crawler.LastVersionCounts | crates/seeder-core/src/p2p/handshake.rs:209-215 | The version learned from any messages is that of the last version message of at least four octets, or zero |
| Crawler.LeasingIsLegal | crates/seeder-core/src/db.rs:339-348 | The calls `get_many` makes are a legal run that ends in its database and adds just its batch to the crawler |
| Crawler.ReportingIsLegal | crates/seeder-core/src/db.rs:399-407 | Reporting a whole batch in order is a legal run that ends in the database of `result_many` and empties the batch |
| Crawler.OthersLeaveTheBatch | bin/seeder/src/main.rs:321-376 | No step of another crawler, of gossip or of a seed touches a crawler's batch |
| Crawler.VerdictsKeepServices | bin/seeder/src/main.rs:343-353 | The verdicts name the leased services, in the order leased |
| Serialize.VarintRoundTrip | crates/seeder-core/src/serialize.rs:13-65 | For every 64-bit value and any octets around it, reading what was written returns it and stops behind it |
| Serialize.VarintIsShortest | crates/seeder-core/src/serialize.rs:13-65 | The written form is no longer than any the reader accepts for the value |
| Serialize.VarstrRoundTrip | crates/seeder-core/src/serialize.rs:68-83 | For every UTF-8 text and any octets around it, reading what was written returns it and stops behind it |
| Serialize.WriteVarint | crates/seeder-core/src/serialize.rs:13-27 | Appends the specified form |
| Serialize.ReadVarintAt | crates/seeder-core/src/serialize.rs:29-65 | Result and position are those of the specification, failures included |
| Serialize.WriteVarstr | crates/seeder-core/src/serialize.rs:68-71 | Appends the specified form |
| Serialize.ReadVarstrAt | crates/seeder-core/src/serialize.rs:74-83 | Result and position are those of the specification, the position kept behind the length on failure |
| WireFormat.VarintExactly | crates/seeder-core/src/serialize.rs:13-27 | The four written forms of an integer octet by octet, and which values take which |
| WireFormat.VarintReadExactly | crates/seeder-core/src/serialize.rs:29-65 | An integer reads if and only if its first octet and the 2, 4 or 8 it announces are there, and where the position is left |
| WireFormat.VarstrReadExactly | crates/seeder-core/src/serialize.rs:74-83 | A string reads if and only if all its octets are there and are text |
| WireFormat.TextExactly | crates/seeder-core/src/serialize.rs:74-83 | What passes for text is exactly what sequences of Unicode scalar values encode to in UTF-8 |
| WireFormat.HeaderLayout | crates/seeder-core/src/p2p/message.rs:17-66 | Where magic, command, size and checksum stand in a header |
| WireFormat.AddressLayout | crates/seeder-core/src/p2p/message.rs:103-118 | Where time, services, address and port stand in an address, and exactly when there is a time |
| WireFormat.VersionLayout | crates/seeder-core/src/p2p/message.rs:169-194 | Where the fields of a version message stand |
| Message.HeaderRoundTrip | crates/seeder-core/src/p2p/message.rs:56-86 | Every header reads back from its 24 octets, whatever follows |
| Message.CommandRoundTrip | crates/seeder-core/src/p2p/message.rs:17-42 | A command of at most twelve octets without a zero is read back whole |
| Message.TimeFieldAgreement | crates/seeder-core/src/p2p/message.rs:103-130 | Writer and reader agree on the time field for every version, if and only if it is not the init version with no time version configured |
| Message.AddressRoundTrip | crates/seeder-core/src/p2p/message.rs:103-165 | Where they agree an address reads back among any octets, with the default time if none was written, and reading stops behind it |
| Message.AddressReadsBackExactly | crates/seeder-core/src/p2p/message.rs:103-165 | A written address can be read at its own version if and only if they agree |
| Message.SerializeAddress | crates/seeder-core/src/p2p/message.rs:103-118 | Appends the fields of the specification |
| Message.DeserializeAddress | crates/seeder-core/src/p2p/message.rs:120-165 | Result and position are those of the specification, failing field by field |
| Message.SerializeVersionPayload | crates/seeder-core/src/p2p/message.rs:169-194 | Appends the fields of the specification |
| Message.UserAgentOffset | crates/seeder-core/src/p2p/message.rs:169-194 | The user agent starts at octet 80, where the reader looks, if and only if addresses at the init version carry no time |
| FrameDecoder.TailKeepsHeaders | crates/seeder-core/src/p2p/handshake.rs:148-167 | Keeping exactly the last 23 octets of a buffer without a header loses no header, whatever arrives next |
| FrameDecoder.HeaderStays | crates/seeder-core/src/p2p/handshake.rs:148-155 | A header found stays the first one however the buffer grows |
| FrameDecoder.DropBeforeHeader | crates/seeder-core/src/p2p/handshake.rs:169-171 | Octets in front of every header can be dropped without changing what is decoded |
| FrameDecoder.PullAgrees | crates/seeder-core/src/p2p/handshake.rs:147-203 | One round of the inner loop decodes what the reference decodes first, shrinks the buffer by at least a header when it goes on, and loses nothing |
| Handshake.FindMagic | crates/seeder-core/src/p2p/handshake.rs:148-156 | Finds the first place at which a whole header with the network's magic fits, or none |
| Handshake.NextFrame | crates/seeder-core/src/p2p/handshake.rs:147-203 | One round of the inner loop: starved, corrupt, skipped for its checksum, or a message with the buffer behind it |
| Handshake.HandleVersion | crates/seeder-core/src/p2p/handshake.rs:209-245 | The fields a version message sets, each only if the payload reaches it, and the replies sent |
| Handshake.HandleAddr | crates/seeder-core/src/p2p/handshake.rs:249-263 | The addresses taken over: at most a thousand, up to the first that does not read |
| Handshake.Dispatch | crates/seeder-core/src/p2p/handshake.rs:208-266 | What one message makes of the peer, and whether the inner loop pauses |
| Handshake.DrainFrames | crates/seeder-core/src/p2p/handshake.rs:147-267 | The inner loop ends, with the buffer, peer and messages of its specification |
| Handshake.TestNode | crates/seeder-core/src/p2p/handshake.rs:132-287 | The outer loop over any chunks, with its exits for end of stream, ban and completion |
| HandshakeSafety.ChunkingIndependence | crates/seeder-core/src/p2p/handshake.rs:132-278 | However a stream is cut into reads, the messages acted on followed by a reference decoding of the buffer are the reference decoding of all bytes received, with anything still to come; and the peer is what those messages make of it |
| HandshakeSafety.TwoChunkings | crates/seeder-core/src/p2p/handshake.rs:132-278 | Two ways of cutting one stream act on prefixes of the same messages, and on equally many learn the same of the peer |
| HandshakeSafety.SessionReadsStream | crates/seeder-core/src/p2p/handshake.rs:132-278 | A session acts on a prefix of what its stream decodes to, on all of it when it read the whole stream and ran dry |
| HandshakeSafety.MessageRoundTrip | crates/seeder-core/src/p2p/handshake.rs:147-203 | Any framed messages behind junk that shows no magic decode to themselves, and decoding goes on with what follows |
| HandshakeSafety.FramesReadBack | crates/seeder-core/src/p2p/message.rs:16-86 | Frames with checksums decode to their messages, one behind the other |
| HandshakeSafety.UncheckedIsSkipped | crates/seeder-core/src/p2p/handshake.rs:236-243 | A message sent without its checksum, as `verack` and `getaddr` are, is skipped by a reader of this protocol if and only if the checksum of nothing is not zero |
| HandshakeSafety.VersionReadBack | crates/seeder-core/src/p2p/message.rs:169-194 | A version payload is understood, protocol version, services, user agent and height, whenever addresses at the init version carry no time |
| HandshakeSafety.VersionMisread | crates/seeder-core/src/p2p/message.rs:96-118 | Otherwise, whatever user agent and height are sent, the reader meets this program's nonce where the user agent should be, takes over no user agent, and takes part of the nonce for the height |
| HandshakeSafety.OwnVersionUnderstoodExactly | crates/seeder-core/src/p2p/handshake.rs:95-111 | The version message this program sends is understood, with version, services, user agent and height, if and only if addresses at the init version carry no time |
| HandshakeSafety.AddrReadBack | crates/seeder-core/src/p2p/handshake.rs:249-263 | An address message of at most a thousand addresses is taken over whole, in order, unless the peer's version is the exceptional one |
| HandshakeSafety.NoBanFromMessages | crates/seeder-core/src/p2p/handshake.rs:208-266 | No message bans a peer: only an invalid header does |
| HandshakeEnds.HandshakeStopsExactly | crates/seeder-core/src/p2p/handshake.rs:132-278 | A handshake that leaves a read over has a banned peer, or one that has acknowledged and, if addresses were asked for, given some; and after no smaller number of reads was that so |
| HandshakeEnds.LoopBreaksOffExactly | crates/seeder-core/src/p2p/handshake.rs:207-266 | The inner loop breaks off behind the first address message or version message of less than four octets, and behind no other |
| HandshakeEnds.StarvedKeepsLittle | crates/seeder-core/src/p2p/handshake.rs:147-196 | A round that finds too little keeps the last 23 octets where there is no header, and less than one frame of 24 octets and 32 MiB where there is |
| HandshakeEnds.BufferIsBounded | crates/seeder-core/src/p2p/handshake.rs:147-267 | However much was read, an inner loop that runs dry leaves less than one frame in the buffer |
| HandshakeEnds.InvalidHeadersExactly | crates/seeder-core/src/p2p/handshake.rs:177-189 | A header bans exactly when an octet of its command is neither zero nor printable or it announces more than 32 MiB, and the ban is of 100000 seconds |
| HandshakeEnds.VersionByLength | crates/seeder-core/src/p2p/handshake.rs:209-245 | What a version message does by the length of its payload, and the replies it is given |
| HandshakeEnds.VersionFields | crates/seeder-core/src/p2p/handshake.rs:209-234 | Which octets the services, the user agent and the height are taken from |
| HandshakeEnds.OtherMessages | crates/seeder-core/src/p2p/handshake.rs:246-266 | An acknowledgement is noted, and an unknown message changes nothing |
| HandshakeEnds.AddressNeedsItsOctets | crates/seeder-core/src/p2p/message.rs:120-165 | An address reads if and only if its 30 octets with a time, or 26 without, are there; which fields come from which; and without a time it is dated 100000000 |
| HandshakeEnds.AddrMessageTakes | crates/seeder-core/src/p2p/handshake.rs:249-263 | An address message takes over as many addresses as it claims, up to 1000 and up to those it holds |
| DnsName.WriteName | crates/dns-server/src/server.rs:122-133 | Appends the labels behind their lengths and a zero, or refuses a name with a label over 63 octets |
| DnsName.WritableExactly | crates/dns-server/src/server.rs:122-133 | A name is accepted if and only if no 64 octets in a row of it are without a dot |
| DnsName.NoNameStarts | crates/dns-server/src/server.rs:82-118 | Where no name can start: at the end of the data, at an octet from 64 to 191, and at a label or pointer cut short |
| DnsName.WrittenSize | crates/dns-server/src/server.rs:122-133 | Every accepted name takes two octets more than its text, the empty one too |
| DnsName.ParseName | crates/dns-server/src/server.rs:79-120 | The loop and its recursion compute the specification, and the position ends where it says |
| DnsName.NameRoundTrip | crates/dns-server/src/server.rs:79-133 | A written name, at any offset of any buffer, reads back as itself and takes exactly the octets written, if and only if no label of it is empty |
| DnsName.EmptyName | crates/dns-server/src/server.rs:122-133 | The empty name is written as two zero octets, of which the reader takes one |
| DnsName.CompressionPreservesMeaning | crates/dns-server/src/server.rs:93-105 | Labels followed by a pointer read as the labels, a dot and whatever name is found at the target, written in full or itself compressed; the position ends behind the pointer; and where no label of it is empty or too long the uncompressed form reads as the same text |
| DnsName.PointerSplices | crates/dns-server/src/server.rs:93-105 | Labels and a pointer to anything: the text found there spliced on, or its failure |
| DnsName.PointerToEmptyName | crates/dns-server/src/server.rs:93-105 | A pointer to an empty name leaves a trailing dot, and no other pointer does |
| DnsName.PriorPointersEnd | crates/dns-server/src/server.rs:93-105 | When every pointer followed targets an offset before its own run, reading ends, within as many frames as the offset allows |
| DnsName.ReadingEnds | crates/dns-server/src/server.rs:79-120 | Any number of frames that is enough gives the same answer, and one frame more than the data has octets is enough whenever any number is |
| DnsName.EndlessIsACycle | crates/dns-server/src/server.rs:79-120 | No number of frames is enough if and only if the pointers followed lead back to a run they have started from |
| DnsName.SelfPointerNeverEnds | crates/dns-server/src/server.rs:93-105 | A pointer to itself, anywhere, never ends |
| DnsName.ParsedEndsInside | crates/dns-server/src/server.rs:79-120 | A name read ends inside the data, behind its start |
| DnsRecords.WriteRecordHeader | crates/dns-server/src/server.rs:135-148 | Appends owner name, type, class and time to live, or refuses the name |
| DnsRecords.WriteSoa | crates/dns-server/src/server.rs:150-176 | Appends a record whose length field counts its data, or refuses a name |
| DnsRecords.WriteA | crates/dns-server/src/server.rs:178-195 | Appends a record with the four octets, for family 4 alone |
| DnsRecords.WriteAaaa | crates/dns-server/src/server.rs:197-214 | Appends a record with the sixteen octets, for family 6 alone |
| DnsRecords.WriteNs | crates/dns-server/src/server.rs:216-232 | Appends the record with its length patched ten octets behind its start |
| DnsRecords.NsPatchesItsLength | crates/dns-server/src/server.rs:216-232 | The true length field of a name server record holds the length of its data if and only if the owner name is empty and the length fits sixteen bits |
| DnsRecords.RecordReadBack | crates/dns-server/src/server.rs:135-232 | A written record reads back field by field by its own length field |
| DnsRecords.ListingReadBack | crates/dns-server/src/server.rs:135-232 | Records written one behind the other tile the data and read back in order |
| DnsRecords.SoaReadBack | crates/dns-server/src/server.rs:150-176 | The data of a start of authority read back: the two names by the server's own reader and the five numbers behind them, ending where the data ends |
| DnsServer.HandleDatagram | crates/dns-server/src/server.rs:248-433 | Whatever earlier requests left in either buffer, what is sent for a datagram is a function of the datagram, the options, the time and the callback's answer: on every error path and on success |
| DnsServer.SetErrorHeader | crates/dns-server/src/server.rs:234-237 | Response code replaced, counts cleared, the rest untouched |
| DnsServer.AppendAddrs | crates/dns-server/src/server.rs:375-398 | The address loop appends the specified records and counts them without wrap-around |
| DnsServer.AppendOwnAnswers | crates/dns-server/src/server.rs:347-373 | The server's own answers, each only if it ends before the buffer does |
| DnsServer.AppendAuthority | crates/dns-server/src/server.rs:400-423 | One name server behind answers, one start of authority without |
| DnsServer.AcceptedInside | crates/dns-server/src/server.rs:292-315 | The question of an accepted query ends inside the datagram |
| DnsReply.ReplyFits | crates/dns-server/src/server.rs:248-433 | Nothing is sent below twelve octets; every reply has 12 to 512 octets and the query's id; only an accepted query gets more than a header |
| DnsReply.NoReplyExactly | crates/dns-server/src/server.rs:262-302 | A datagram exhausts a stack of any given depth if and only if its header is in order and its question has a chain of that many pointers |
| DnsReply.NeverRepliedExactly | crates/dns-server/src/server.rs:262-302 | A datagram exhausts every stack if and only if its header is in order and the pointers of its question come back to where they have been |
| DnsReply.SelfPointerIsNeverAnswered | crates/dns-server/src/server.rs:262-302 | A query for a pointer to itself is one such datagram |
| DnsReply.ReplyReadsBack | crates/dns-server/src/server.rs:315-433 | The reply to an accepted query: flags, one question echoed as it came, counts equal to the records behind it, which tile the datagram to its end by their own length fields and read back as answers and authority |
| DnsReply.OnlyGoodQueriesGetMarkedReplies | crates/dns-server/src/server.rs:264-334 | A reply carries the response bit if and only if the query was accepted or refused, or had the bit itself: a faulty query is answered unmarked |
| DnsReply.AnsweredIsAPrefix | crates/dns-server/src/server.rs:375-398 | The addresses answered are a prefix, in order, of the eligible ones, cut only where the next finds no room |
| DnsReply.AnswersWereAskedFor | crates/dns-server/src/server.rs:345-423 | Every answer has a type and class asked for; the authority is at most one record, of the right kind |
| DnsReply.OwnRecordsAreGiven | crates/dns-server/src/server.rs:347-373 | The name server record is answered if and only if it is asked for and finds room, and the start of authority likewise behind it, given a mailbox |
| DnsReply.StandardQueriesAreJudgedByHost | crates/dns-server/src/server.rs:262-334 | A standard query for a name without empty labels is read as that name, type and class, and accepted if and only if the name is the host or ends with a dot and the host |
| DnsReply.AnswersComeFromTheCache | bin/seeder/src/main.rs:169-179 | The reply to an accepted query, read back by its own counts, stands for the first of the cached peers of the families asked for, in order, and for none twice if the cache holds none twice |
| DnsReply.RecordMeansTheAddress | bin/seeder/src/main.rs:169-179 | The record made of a peer's address gives that address back |
| DnsAnswers.EligibleExactly | crates/dns-server/src/server.rs:375-386 | Of class 1 or 255 a query is eligible for the IPv4 addresses by type 1, the IPv6 ones by type 28 and both by type 255, in order, and by any other type or class for none |
| DnsAnswers.FirstCachedPeerIsAnswered | crates/dns-server/src/server.rs:375-398 | An accepted query of type 1 or 28 is answered, in the first record, with the first cached peer of that family, whenever it ends before octet 512 |
| DnsAnswers.AsAddrExactly | bin/seeder/src/main.rs:169-179 | Which cached addresses make a record, and of which family |
| DnsAnswers.RecordExactly | crates/dns-server/src/server.rs:178-214 | The record an address makes, in numbers |
| DnsAnswers.HostsExactly | crates/dns-server/src/server.rs:326-334 | The names answered for are the host and whatever ends in a dot and the host |
| DnsAnswers.NoDotNoMatch | crates/dns-server/src/server.rs:326-334 | A name that merely ends in the host, without the dot, is refused |
| DnsAnswers.RepliesExactly | crates/dns-server/src/server.rs:262-334 | For every datagram whether there is a reply, with which code and which flags: each header fault in its order, a question that does not read, one that is cut short, one for another host |
| DnsAnswers.OwnRecordsExactly | crates/dns-server/src/server.rs:347-373 | The server's own records in numbers, and exactly when each is asked for and fits |
| DnsAnswers.AuthorityExactly | crates/dns-server/src/server.rs:400-423 | Behind answers the name server, without any the start of authority, where it fits |
| Reconcile.Reconcile | crates/seeder-publish/src/reconcile.rs:23-73 | The insertions, filters, truncation and growing loop compute the plan of the specification |
| Reconcile.NothingLost | crates/seeder-publish/src/reconcile.rs:38-58 | Kept and deleted records together are the published ones, with multiplicity |
| Reconcile.AddedIsNew | crates/seeder-publish/src/reconcile.rs:60-69 | Nothing added is deleted or kept, and everything kept or added is a candidate |
| Reconcile.EachRecord | crates/seeder-publish/src/reconcile.rs:36-58 | A published record that is no candidate is deleted; of the others the first up to the cap are kept, in the order published, and the rest is deleted |
| Reconcile.EachCandidate | crates/seeder-publish/src/reconcile.rs:60-69 | A candidate that is not kept is added, in the order of the list, exactly as long as those kept and added before it stay below the cap |
| Reconcile.OwnAddressIsACandidate | crates/seeder-publish/src/reconcile.rs:29-35 | The own address counts as the first candidate unless it is empty or among them anyway |
| Reconcile.KeptIsNotDeleted | crates/seeder-publish/src/reconcile.rs:38-58 | No kept record is deleted if and only if none beyond the cap repeats one within it; so always, when nothing is published twice |
| Reconcile.TwicePublished | crates/seeder-publish/src/reconcile.rs:53-58 | A record published twice can be both kept and deleted |
| Reconcile.CapIsMet | crates/seeder-publish/src/reconcile.rs:53-69 | The cap is met exactly: min of cap and candidates when neither list repeats itself, and the general count when they do |
| Reconcile.Converges | crates/seeder-publish/src/reconcile.rs:23-73 | Carried out, in whatever order the records come back, the plan leaves nothing to delete and nothing to add |
| Reconcile.OwnAddressPublished | crates/seeder-publish/src/reconcile.rs:29-69 | The seeder's own address ends up published if and only if it is among the surviving records the cap allows, or is unpublished and the survivors with the new candidates listed before it stay below the cap |
| Reconcile.OwnAddressFirst | crates/seeder-publish/src/reconcile.rs:29-34 | An own address neither crawled nor published is published if and only if the survivors stay below the cap, and then added first |
| Reconcile.FullZoneLacksOwnAddress | crates/seeder-publish/src/reconcile.rs:60-69 | A full zone that keeps the own address out |
| SeedDump.DumpRoundTrip | bin/seeder/src/main.rs:246-267 | Reading a written dump returns, in order, exactly the address texts of the flagged reports on the port, or that there are none, if and only if no line feed has put anything astray that the reader does not skip |
| SeedDump.UnbrokenReportsReadBack | crates/seeder-publish/src/parser.rs:17-51 | Without line feeds in the reports the dump always reads back |
| SeedDump.LineFeedsAddAddresses | bin/seeder/src/main.rs:250-265 | A sub-version with a line feed and another peer's columns adds that peer's address to what is read |
| SeedDump.WriteDump | bin/seeder/src/main.rs:246-267 | The heading and one line for each report, in order |
| SeedDump.ReadSeedDump | crates/seeder-publish/src/parser.rs:17-51 | The loop over the lines ends as its specification, at the first malformed address or with all addresses |
| SeedDump.ReadOne | crates/seeder-publish/src/parser.rs:22-41 | What one line contributes: nothing, an address, or the end of the reading |
| SeedDump.IpTextReadBack | crates/seeder-core/src/net.rs:225-232 | Address text and port come back from their printed form, bracketed or not |
| SeedDump.PortRoundTrip | crates/seeder-publish/src/parser.rs:55-84 | Every port is read back from its decimal form |
| SeedDump.FlagPartDecides | crates/seeder-publish/src/parser.rs:22-41 | Behind the address and the flag nothing of a line matters |
| DumpLaws.ReportReadBackExactly | bin/seeder/src/main.rs:250 | A report's line gives its address if and only if it is good, has a height, a client version and a sub-version, and is on the port; else nothing |
| DumpLaws.WantedExactly | bin/seeder/src/main.rs:249-265 | What should be read back is put together report by report, in order |
| DumpLaws.LineLayout | bin/seeder/src/main.rs:251-265 | Where address, flag and the rest stand in a line |
| DumpLaws.LineEnds | crates/seeder-publish/src/parser.rs:22 | A line feed ends a line and takes one carriage return along |
| DumpLaws.EmptyLines | crates/seeder-publish/src/parser.rs:24-31 | A comment, a blank line and a line of one word contribute nothing |
| DumpLaws.LinesExactly | crates/seeder-publish/src/parser.rs:24-44 | What any line of two words or more contributes: nothing, the address of its first word, or the end of the reading |
| DumpLaws.BracketedExactly | crates/seeder-publish/src/parser.rs:56-69 | What an address with a closing bracket is read as, or why not |
| DumpLaws.PlainExactly | crates/seeder-publish/src/parser.rs:71-86 | What an address without one is read as, or why not |
| DumpLaws.PortsExactly | crates/seeder-publish/src/parser.rs:61-81 | The texts that are ports: decimal forms below 65536, zeros or a plus sign in front or not |
| DumpLaws.FirstBadLineDecides | crates/seeder-publish/src/parser.rs:17-51 | The first line that does not read ends the reading, whatever follows; without one all addresses are returned, or that there are none |

## Left out

- Sockets, timeouts, task spawning and locks: a block under the lock is one or more atomic steps, a read is an arbitrary chunk, a peer that cannot be reached delivers no chunks.
- Score.UpdateStat: the source's `AddrStat` and `AddrInfo` update their own fields; here they are values, since the database owns them by value inside its map, and the assignments are made to local variables in the same order.
- Floating point: scores are reals, rounding is not modelled, and the exponential is any decay function.
- Integer limits of `n_id`, `total`, `n_dirty`, of the heights compared with the chain tip, and of `*pos + len` in `read_varstr`: mathematical integers.
- CrawlerDb.AddrDb.Sample: that random draws will show enough different ids is assumed of the draws, not proved of a generator; the source's loop ends under the same condition.
- CrawlerDb.AddrDb.RestoreFrom: the serialisation of the snapshot file is not modelled, only what is taken over from it.
- DnsName.ParseName: the stack is a number of frames; exhausting it is the outcome `Overflow`, past which nothing of the process is modelled.
- SeedDump.WriteDump: the sorting of the reports and the formatting of the statistics columns; the columns are arbitrary text.
- SeedDump.ReadSeedDump: the file is text; undecodable bytes and read errors are not modelled.
- Crawler.CrawlOnce: peers that cannot be reached, connection errors and timeouts are the empty list of chunks; what others do between its calls is in `PassIsLegal`.
- Crawler.CrawlOnceIsARun: requires clock readings that never go back, as the protocol does; the source's clock could be set back.
- Handshake.TestNode: what is written to the peer is collected, not acknowledged; write errors of the replies are ignored as in the source.
- `force_ip`, `get_all`, the stats log line itself, configuration, the explorer, the zone's web interface and the command lines: plumbing without a hard property.
- `lookup_host`, the text form of IP addresses and base32: library behaviour; address text is opaque.
- Claims that replies suit every reader of RFC 1035: the two-octet owner name rules them out.
