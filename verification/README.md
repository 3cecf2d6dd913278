# Augur, modelled and verified in Dafny

Augur watches established `sshd` connections, terminates the process trees of sessions whose key it
does not recognize and, apart from that, keeps a short-lived inventory of the local networks. This
project models the parts of it that are easy to get wrong and proves what they promise.

| file | what it models |
|---|---|
| `Basics.dfy` | option and result types, powers of two, division into blocks |
| `Netip.dfy` | addresses as numbers of a family, prefixes as aligned blocks, unmapping, local space |
| `Text.dfy` | trimming, case folding and searching, as far as decisions rest on them |
| `BitGroups.dfy`, `Fingerprint.dfy` | strings of bits in groups; the fingerprint check over a lenient base64 decoder (sections 3.2, 3.5 and 4 of RFC 4648) |
| `Config.dfy` | the configuration, its validation, and the matching of networks and devices |
| `Probe.dfy` | expansion of prefixes into dial targets, the check against local subnets |
| `ScanTCP.dfy` | the concurrent TCP scan as a transition system |
| `Merge.dfy` | the merge of neighbour tables and scan results |
| `Prober.dfy` | one probe from end to end, OS detection included, and the meaning of its report |
| `Process.dfy`, `ProcessOrder.dfy` | the terminator's walk over a process graph, and its guarantees |
| `Session.dfy`, `Lsof.dfy` | session keys, and the stateful parser of the socket lister's output |
| `LsofBlocks.dfy`, `LsofComposition.dfy` | how that parser goes on from one block into the next, and exactly when parsing composes |
| `Identity.dfy` | the rate-limited identity cache over the authentication log |
| `Admission.dfy` | what it takes for a session to be recognized or attempted, from the log on |
| `Monitor.dfy`, `MonitorRuns.dfy` | the monitor's scans, and its guarantees over whole runs |

The outside world is scripted: process tables, dials, logs, listings and the clock are arbitrary
values or functions that the operations receive, so every theorem holds for whatever they answer.
The text parsers and printers of the Go library (addresses, prefixes, endpoints, numbers) are
arbitrary functions too; where a theorem needs more of them (that distinct endpoints print
differently, that the address parser takes no surrounding space) it says so in a `requires`.
Operations that the program performs by mutation are methods or classes proved equal to a function;
the promises are then proved about that function.

## What is proved, in brief

- **Scanner.** For every interleaving, worker count and moment of cancellation each target is in
  exactly one place; no deadlock, a falling measure, no send on a closed channel and no second
  close; a scan that returns a map returns the map of the sequential loop.
- **Terminator.** Over any finite, possibly cyclic and changing process graph the walk ends, asks
  for each process's children at most once, signals in post-order up to cycles, and when it completes has
  signalled exactly what the root reaches. The root is signalled last and only after fresh checks.
- **Targets stay local.** An accepted configuration yields only private or link-local targets and
  reports (section 3 of RFC 1918, section 3.1 of RFC 4193, section 2.1 of RFC 3927, section 2.5.6
  of RFC 4291), because its limit leaves at most 16 host bits; with 17 the base address would no
  longer decide, and a counterexample is given.
- **Enforcement.** A session is on the monitor's record exactly when it was terminated and every
  completed scan since has listed it; no inventory outcome influences any of this.
- **Fingerprints.** Exactly one string is accepted for each digest.
- **Recognition.** A discovered session is recognized exactly when the last reading of the log did not
  fail and the last accepted event of its own process and remote end, no older than the process,
  carries the key of a device that admits it; which sessions a whole run attempts follows from that.
- **Parser and cache.** The lister's parser equals a function of line groups on every input; the
  cache is the last-writer-wins map of everything read.

## Behaviour worth knowing

These are properties of the code as it stands; the member named states or proves each.

- A policy address with surrounding space passes validation and never matches at run time
  (internal/config/config.go:166, internal/monitor/monitor.go:143). README.md:6 of the repository
  says that listed addresses are always permitted. `MonitorRuns.PolicyMeansWhatWasValidatedIff`
  gives the exact condition.
- The identity cache files events under unmapped addresses and looks connections up as they are: a
  session with an event in the log is known exactly when its remote address is not reported mapped
  into IPv6, and mapped, an authenticated session counts as unrecognized
  (`Admission.KnownIffNotMapped`, `Admission.AuthenticatedRecognizedIffNotMapped`).
- One failed reading of the log makes every session unrecognized until a reading succeeds, cached
  events notwithstanding (`Admission.FailedReadingUnrecognizes`).
- An inventory snapshot shares its operating-system objects with the monitor: a write through one is
  seen by later readers (`Monitor.WriteThrough`, `Monitor.NextReaderSeesSystem`).
- Recognized networks written as IPv4 mapped into IPv6 never match anything, and probes over such
  networks report nothing (`Config.NetworkMatchesSomethingIff`, `Merge.MappedNetworksObserveNothing`).
- A lister record with process number zero is not reset and leaks into the next block
  (`LsofComposition.ZeroPidLeaks`); `LsofComposition.ParseComposesIff` says exactly when that does no harm.
- `prefixHostCount` is exact for every limit except the largest `int` (`Config.HostCountExact`).
- `max_hosts` bounds each prefix; the total is bounded by that times the number of prefixes
  (`Probe.ExpansionContents`).
- A scan without targets returns the empty map even when its context is cancelled
  (`ScanTCP.EmptyScanReturns`).
- When twice the probe interval exceeds a 64-bit duration, the inventory expires at once
  (`MonitorRuns.InventoryIsSeen`).
- The merge depends on the order in which a map is walked exactly when two keys unmap to one address
  in scope and carry different ports (`Merge.MergeIsOrderFreeIff`); for an accepted configuration
  that takes a network listed beside its mapped spelling and more than one port
  (`Prober.AcceptedReportsAreOrderFreeIff`).

## Model

| member | source | states |
|---|---|---|
| `Netip.ContainsIsRange` | internal/monitor/probe.go:618-625 | a prefix contains exactly the addresses of its family from its base on for its size |
| `Netip.BlocksNest` | internal/monitor/probe.go:445-464 | aligned blocks that share one address nest |
| `Netip.WithinIsBaseAndLength` | internal/monitor/probe.go:450-457 | one prefix's whole address set lies in another's exactly when family, length and base address say so |
| `Netip.SmallBlocksStayLocal` | internal/config/config.go:304-310 | with at most 16 host bits a private or link-local base address puts every address of the prefix in local space, mapped prefixes included |
| `Netip.SeventeenHostBitsLeak` | internal/config/config.go:305-307 | with 17 host bits the check of the base address alone lets a public address through |
| `Netip.ObservableIffUnmapped` | internal/monitor/probe.go:566-572 | a masked prefix contains some unmapped address exactly when its base is not an IPv4 address mapped into IPv6 |
| `Netip.UnmapInNumbers` | internal/monitor/probe.go:569 | unmapping takes ::ffff:0:0/96 to IPv4, number for number, and leaves every other address alone |
| `Netip.LessInNumbers` | internal/monitor/probe.go:600 | addresses order by family, IPv4 first, and then by number |
| `Netip.NextInNumbers` | internal/monitor/probe.go:388-395 | the successor of an address is the next number of its family, and the all-ones address has none |
| `Netip.PrivateInNumbers` | internal/config/config.go:305 | the private addresses are exactly 10/8, 172.16/12, 192.168/16 and fc00::/7 |
| `Netip.LinkLocalInNumbers` | internal/config/config.go:305 | the link-local addresses are exactly 169.254/16 and fe80::/10 |
| `Netip.MappedCountsAsIPv4` | internal/config/config.go:305 | a mapped address counts as the IPv4 address it stands for |
| `Text.TrimSpaceIdentity` | internal/config/config.go:431-433 | trimming leaves exactly the strings without white space at an end |
| `Text.TrimSpaceParts` | internal/config/config.go:350 | trimming removes white space at both ends, all of it, and nothing else |
| `Text.ContainsIff` | internal/monitor/lsof.go:170 | a text contains another exactly when that occurs at some place |
| `Text.CaseFolding` | internal/monitor/lsof.go:170 | changing case maps ASCII letters to the other case and touches no other ASCII character |
| `Fingerprint.DecodeEncode` | internal/config/config.go:438-439 | the lenient decoder inverts the encoder |
| `Fingerprint.AlphabetIsStandard` | internal/config/config.go:439 | the alphabet is capitals, small letters, figures, plus and slash, in that order |
| `Fingerprint.EncodeAppend` | internal/config/config.go:439 | the encoding is that of the groups of three bytes, one after the other |
| `Fingerprint.TripleDigits` | internal/config/config.go:439 | three bytes make four digits of six bits each |
| `Fingerprint.LastByteDigits` | internal/config/config.go:439 | a last byte makes two digits, filled up with zero bits |
| `Fingerprint.LastTwoBytesDigits` | internal/config/config.go:439 | two last bytes make three digits, filled up with zero bits |
| `Fingerprint.DigitsRoundTripCanonical` | internal/config/config.go:439 | re-encoding gives a digit string back exactly when its unread bits are the padding the encoder writes |
| `Fingerprint.AcceptedIsEncodedDigest` | internal/config/config.go:429-440 | a fingerprint is accepted exactly when it is the prefix and the unpadded encoding of a 32-byte digest |
| `Fingerprint.StringEqualityIsDigestEquality` | internal/config/config.go:420-427 | for accepted strings the comparison that matching uses is equality of digests |
| `Fingerprint.AcceptedShape` | internal/config/config.go:429-440 | the accepted strings by shape: 43 alphabet characters, the last with two zero bits |
| `Fingerprint.LineBreaksDecodeButAreRefused` | internal/config/config.go:438-439 | a line break anywhere decodes to the same digest and is refused only by the re-encoding |
| `Fingerprint.TrailingBitsDecodeButAreRefused` | internal/config/config.go:438-439 | non-zero trailing bits decode to the same digest and are refused only by the re-encoding |
| `Config.ParsedIsMasked` | internal/config/config.go:349-365 | a parsed prefix has its host bits clear, whether from a CIDR or a single address |
| `Config.ParsePrefixMeans` | internal/config/config.go:349-365 | a trimmed text stands for exactly the addresses of the CIDR it reads as, or else the one address it reads as; otherwise it is refused |
| `Config.HostCountExact` | internal/config/config.go:316-326 | the saturating count exceeds its limit when the true power of two does, for every limit but the largest `int` together with 63 or more host bits |
| `Config.NameMapIsFirstMatch` | internal/config/config.go:189-204 | on valid networks the name map has exactly the non-empty names, each with the prefix a search through the list finds |
| `Config.CheckPorts` | internal/config/config.go:178-187 | ports pass exactly when in range and distinct |
| `Config.CheckPolicy` | internal/config/config.go:163-176 | policy addresses pass exactly when all parse once trimmed and no two are equal once unmapped, across both lists |
| `Config.CollectNetworks` | internal/config/config.go:189-204 | networks pass exactly when all parse and no non-empty name repeats; the map filled on the way is the name map |
| `Config.CheckProbePrefix` | internal/config/config.go:304-310 | a probe prefix passes exactly when its base is local and its true size is within the limit |
| `Config.CheckProbePrefixes` | internal/config/config.go:297-311 | the last loop passes exactly when the names are distinct and every prefix passes |
| `Config.ValidateProbeConfig` | internal/config/config.go:236-314 | the probe section passes exactly when it meets its declarative description |
| `Config.CheckDevices` | internal/config/config.go:213-225 | devices pass exactly when each fingerprint is valid and each named network is defined and not blank |
| `Config.Validate` | internal/config/config.go:153-234 | validation accepts exactly the configurations that the order-free description admits |
| `Config.ProbePrefixList` | internal/config/config.go:328-347 | a result exists exactly when every name resolves, and then it has one prefix for each name, in order |
| `Config.AcceptedNamesResolve` | internal/config/config.go:297-304 | in an accepted configuration every probe name resolves at run time to the very prefix that validation looked up |
| `Config.AcceptedTargetsAreLocal` | internal/config/config.go:262-311 | accepted with probes on: expansion cannot fail, and every target, not only each base address, is private or link-local |
| `Config.FirstContainingIff` | internal/config/config.go:367-377 | a network matches exactly when some listed prefix contains the unmapped address, and then it is the first such |
| `Config.NetworkMatchesSomethingIff` | internal/config/config.go:367-377 | a recognized network can match at all exactly when it is not written as mapped IPv4 |
| `Config.RecognizedIff` | internal/config/config.go:379-395 | a connection is recognized exactly when some device admits its user, one of its fingerprints and its address; the first such device is named |
| `Config.AcceptedDeviceNetworks` | internal/config/config.go:397-418 | in an accepted configuration a device is bound to exactly the prefixes of the networks it names, or to all recognized networks when it names none |
| `Probe.GuardIsExact` | internal/monitor/probe.go:376-383 | on machine words the size guard compares the true power of two, without overflow |
| `Probe.HostMembership` | internal/monitor/probe.go:385-396 | an address is dialled for a prefix exactly when contained and not an end point of an IPv4 range larger than two |
| `Probe.AppendHosts` | internal/monitor/probe.go:385-396 | the cursor loop appends the hosts of one prefix that are not yet present, and its cursor never yields the invalid address |
| `Probe.ExpandProbePrefixes` | internal/monitor/probe.go:371-399 | success gives the first occurrences of the concatenated host lists; failure names the first prefix that is too large |
| `Probe.ExpansionContents` | internal/monitor/probe.go:371-399 | targets are exactly the hosts of the prefixes, distinct, valid, and at most the limit for each prefix |
| `Probe.FirstOccurrencesArePicked` | internal/monitor/probe.go:391-394 | targets keep the order of the host lists: exactly the places whose address did not come before |
| `Probe.TargetInPrefix` | internal/monitor/probe.go:371-399 | every target lies in one of the prefixes |
| `Probe.ValidateLocalProbePrefixes` | internal/monitor/probe.go:445-464 | passes exactly when every probe prefix's full address set lies inside one local prefix; otherwise names the first that does not |
| `Probe.TargetsAreOnLink` | internal/monitor/probe.go:85-99 | past both checks every dialled address is in a local interface subnet |
| `ScanTCP.EachTargetInOnePlace` | internal/monitor/probe.go:300-345 | in every run each fed target is held, buffered, collected or dropped, exactly once; drops only after cancellation; channels are closed once and never sent on after |
| `ScanTCP.FoldIsSequential` | internal/monitor/probe.go:335-340 | collecting complete results in any arrival order gives the sequential map |
| `ScanTCP.ScanRefinesLoop` | internal/monitor/probe.go:284-369 | a returned map has exactly the targets with an open dial, each with all its open ports in order, and is that of the sequential loop; every run that ends in failure has been cancelled |
| `ScanTCP.ProbeAddressIsOpenPorts` | internal/monitor/probe.go:352-368 | probing a target gives the job's ports read along exactly the places whose dial is open |
| `ScanTCP.DialsAreBounded` | internal/monitor/probe.go:288-294 | never more dials at once than workers, of which there are as many as configured, at least one and at most one a target |
| `ScanTCP.CancelledBeginsNoDial` | internal/monitor/probe.go:354-356 | once cancelled a scan finishes the dials under way and begins no other |
| `ScanTCP.FinishFailsIff` | internal/monitor/probe.go:341-344 | the collector, done, fails exactly when the context is cancelled by then |
| `ScanTCP.EmptyScanReturns` | internal/monitor/probe.go:285-287 | a scan without targets returns the empty map and nothing else |
| `ScanTCP.NoDeadlock` | internal/monitor/probe.go:303-340 | in every state reached before the end some step other than cancellation is enabled |
| `ScanTCP.MeasureFalls` | internal/monitor/probe.go:303-340 | every step but cancellation lowers a natural number, and cancellation leaves it |
| `ScanTCP.RunsAreBounded` | internal/monitor/probe.go:303-340 | no run has more steps than the initial measure, cancellation aside |
| `ScanTCP.EveryRunCompletes` | internal/monitor/probe.go:303-345 | from every reachable state all goroutines exit with both channels closed |
| `Merge.SortIntsSorts` | internal/monitor/probe.go:605-606 | the ports of an observation are a sorted permutation |
| `Merge.LastValues` | internal/monitor/probe.go:577-582 | the hardware address and interface kept for an address are those of its last entry that has one, in before followed by after |
| `Merge.MergedFields` | internal/monitor/probe.go:602-613 | each observation has the last hardware address and the last interface given for its address, no operating system, and the time of the merge |
| `Merge.NoteNeighbors` | internal/monitor/probe.go:567-584 | the table holds exactly the in-prefix neighbours, each with the last non-empty hardware address and interface |
| `Merge.AddOpenPorts` | internal/monitor/probe.go:585-594 | in-prefix keys of the scan join the table with the ports of the last key walked |
| `Merge.CombineObservations` | internal/monitor/probe.go:566-616 | addresses strictly ascend, are exactly the in-prefix neighbours and keys, and carry the last non-empty values and the sorted ports |
| `Merge.MergeUnique` | internal/monitor/probe.go:596-615 | that description has only one result for a given walk |
| `Merge.MergeIsOrderFreeIff` | internal/monitor/probe.go:585-594 | every walk over the map gives the same result exactly when keys that unmap to one address in scope carry the same ports up to order |
| `Merge.UnmappedProbesAreOrderFree` | internal/monitor/probe.go:566-616 | the result is independent of the walk for unmapped prefixes of at most 16 host bits |
| `Merge.MappedNetworksObserveNothing` | internal/monitor/probe.go:566-572 | probes over mapped networks only report nothing |
| `Prober.ProbeNetworks` | internal/monitor/probe.go:72-128 | a probe that has all it needs ends with the merge of the tables and the sequential scan of all targets, plus what OS detection adds; any other enabled probe fails, and a disabled one reports nothing |
| `Prober.EnrichOS` | internal/monitor/probe.go:130-202 | OS detection succeeds exactly when configured and either there is no host to ask or it reports; success adds the reported systems, failure changes nothing |
| `Prober.DetectionTargetsAnswered` | internal/monitor/probe.go:142-151 | only hosts with an open port are handed to OS detection |
| `Prober.DetectionTargetsAreFirst` | internal/monitor/probe.go:142-151 | exactly the first observed hosts with an open port, up to the limit, in order |
| `Prober.DetectionKeepsInventory` | internal/monitor/probe.go:117-126 | however OS detection goes, all other fields stay as merged; it fails a probe only when the context has ended |
| `Prober.DetectionFailsIff` | internal/monitor/probe.go:117-126 | OS detection makes a probe fail exactly when the context has ended and it is set up wrongly or does not report on a host it has |
| `Prober.DetectionAddsSystems` | internal/monitor/probe.go:194-200 | a detection that reports gives the reported systems to exactly the addresses it names |
| `Prober.ReportIsExact` | internal/monitor/probe.go:95-116 | a report holds exactly the in-prefix addresses that are neighbours or the unmapped form of a target that answered, each of the latter with all the open ports of one such target in order |
| `Prober.PlainReportIsExact` | internal/monitor/probe.go:95-116 | for unmapped prefixes a reported target carries exactly its own open ports in order, and any other address none |
| `Prober.ReportFollowsSettings` | internal/monitor/probe.go:95-116 | in terms of settings, tables and dials: which addresses a report has, where each hardware address and interface comes from, and its time |
| `Prober.ReportedPortsAreOpen` | internal/monitor/probe.go:353-366 | for unmapped prefixes a port is reported with an address exactly when it is configured, the address is a target and the dial between them is open |
| `Prober.AlwaysOrderFreeIff` | internal/monitor/probe.go:585-594 | a report is independent of the map order for every scan outcome exactly when one port is probed or no two targets share an unmapped form |
| `Prober.AcceptedReportsAreOrderFreeIff` | internal/monitor/probe.go:585-594 | the same for the probe networks of any accepted configuration |
| `Prober.AcceptedReportsAreLocal` | internal/config/config.go:297-311 | in an accepted configuration every reported address is private or link-local, whatever the neighbour tables say |
| `Process.Tree` | internal/monitor/process.go:101-134 | over any finite process universe the walk terminates with the unvisited processes as its measure; visited and the record only grow |
| `Process.SessionCommandIff` | internal/monitor/process.go:150-158 | a command is taken for a session exactly when its first run without white space has a colon and is a daemon's name in any directory, with an optional final colon and slashes |
| `Process.SessionIsTaken` | internal/monitor/process.go:150-158 | a daemon's name with a colon, as in "sshd: alice@ttys001", is taken whatever follows |
| `Process.ListenerIsRefused` | internal/monitor/process.go:150-158 | a program without a colon, as in "sshd -D" or "/usr/sbin/sshd", is refused whatever follows |
| `Process.OtherProgramIsRefused` | internal/monitor/process.go:150-158 | any other program name is refused, colon or not |
| `Process.TreeTerminator.CheckRoot` | internal/monitor/process.go:117-128 | the command and then the verifier are asked, and both must agree |
| `Process.TreeTerminator.TerminateTree` | internal/monitor/process.go:101-134 | the recursive walk over the shared set of visited processes equals the walk function |
| `Process.TreeTerminator.Run` | internal/monitor/process.go:82-99 | a run is the preflight and then the walk |
| `ProcessOrder.EveryRunIsSound` | internal/monitor/process.go:101-134 | in every run, failing ones included: each process's children are asked for at most once, each is signalled at most once and only if reachable, and the signals are in post-order up to cycles |
| `ProcessOrder.CompletedRunCoversTree` | internal/monitor/process.go:82-134 | a successful run signals exactly what the root reaches in the observed graph, each once |
| `ProcessOrder.RootIsGated` | internal/monitor/process.go:117-133 | the root is signalled at most once, as the last action, right after passing rechecks |
| `ProcessOrder.PreflightGuardsEverySignal` | internal/monitor/process.go:87-98 | nothing is signalled unless the preflight passed |
| `ProcessOrder.RunSucceedsIff` | internal/monitor/process.go:82-134 | every recorded answer is the system's, and a run succeeds exactly when all of them let it go on; a process already gone does |
| `ProcessOrder.DescendantsFirst` | internal/monitor/process.go:112-133 | on acyclic observations every descendant is signalled before its ancestor |
| `Session.SessionKeyInjective` | internal/monitor/identity.go:187-189 | equal session keys mean equal process and remote end |
| `Lsof.ArrowIsFirst` | internal/monitor/lsof.go:183-187 | a connection name is cut at its first arrow |
| `Lsof.ParseNameIff` | internal/monitor/lsof.go:183-198 | a name reads as local and remote end exactly when the texts before and after its first arrow, trimmed, read as those |
| `Lsof.ValuesArePicked` | internal/monitor/lsof.go:144-171 | the values of a field are those of exactly the lines with its letter, in order |
| `Lsof.EstablishedIff` | internal/monitor/lsof.go:170 | a state says established exactly when the word occurs in it, in either case |
| `Lsof.UserIs` | internal/monitor/lsof.go:160-165 | the user is the last login name, else the first user, else empty |
| `Lsof.NamesArePicked` | internal/monitor/lsof.go:114-132 | a record lists the ends of exactly its wanted names, in order |
| `Lsof.ParseConnections` | internal/monitor/lsof.go:114-132 | the names of a record in order, filtered by port, up to the first that does not parse |
| `Lsof.Flush` | internal/monitor/lsof.go:101-135 | what a record contributes, and that only a record with process zero survives |
| `Lsof.MeaningStep` | internal/monitor/lsof.go:144-171 | one line moves the record from the meaning of the lines so far to that of one line more: last login name else first user, last state line |
| `Lsof.ParseLsofOutput` | internal/monitor/lsof.go:97-181 | on every input the result, errors included, is that of the line groups one by one |
| `LsofComposition.GroupsAreBlocks` | internal/monitor/lsof.go:137-155 | from a process line on and without process zero the groups are the blocks cut at process lines |
| `LsofComposition.BlocksCut` | internal/monitor/lsof.go:145-155 | the blocks are the lines cut before every process line and nowhere else |
| `LsofComposition.ParseComposesIff` | internal/monitor/lsof.go:97-181 | the parse of any first part composes with every block that follows exactly when it is an error already, ends in a record with a non-zero process, or leaves an inert record: no daemon command, no user, not established, all names readable and unwanted |
| `LsofComposition.ZeroPidLeaks` | internal/monitor/lsof.go:102-104 | an input on which composition fails: a record with process zero leaks its command into the next block |
| `Lsof.ParsedContents` | internal/monitor/lsof.go:97-181 | a connection is listed exactly when some group has a name that reads as its two ends, a wanted local port, and its process, daemon command, user and an established last state |
| `Lsof.Verify` | internal/monitor/lsof.go:37-61 | the answer is yes exactly when the listing still has a connection with that process and both ends |
| `Identity.ParseAuthLogRecords` | internal/monitor/identity.go:104-133 | a readable log gives the map a search from the end would; one broken event gives none |
| `Identity.IdentifiesIff` | internal/monitor/identity.go:118-185 | an event identifies a connection exactly when it is an accepted login of that process from that address and port with a readable time; its method and key are the ones it names |
| `Identity.SystemIdentityResolver.Refresh` | internal/monitor/identity.go:58-90 | nothing within a second of the last reading, a whole reading merged in or none of it |
| `Identity.SystemIdentityResolver.Resolve` | internal/monitor/identity.go:40-56 | the answer after the refresh, with the guard on the start of the process |
| `Identity.CacheIsLastWriter` | internal/monitor/identity.go:58-90 | after any run the cache is the last-writer-wins map of all lines read successfully |
| `Identity.ReadingsAreExact` | internal/monitor/identity.go:62-75 | the log is read by exactly the first call and each that comes a second or more after the last reading, successful or not |
| `Identity.ReadingsAreSpaced` | internal/monitor/identity.go:66-69 | readings are at least a second apart, so k of them span at least k - 1 seconds |
| `Identity.KnownIff` | internal/monitor/identity.go:104-133 | a session is known exactly when some event read so far identifies it |
| `Identity.IdentityIsGrounded` | internal/monitor/identity.go:40-56 | an identity returned comes from the last event of the same process and remote end, no earlier than the start of the process |
| `Identity.MappedRemoteIsNeverIdentified` | internal/monitor/identity.go:44-47 | a remote address mapped into IPv6 is never identified |
| `Admission.AnswerIsLatest` | internal/monitor/identity.go:40-56 | after any run the cache's lookup answers with the last event of the session in everything read |
| `Admission.RecognizedIffAuthenticated` | internal/monitor/monitor.go:83-94 | a discovered session is recognized exactly when the last reading of the log did not fail and its last accepted event is no older than its process and carries the key of a device that admits its user and address |
| `Admission.UnansweredIsUnrecognized` | internal/monitor/monitor.go:83-94 | a session without keys, which is what discovery gives, is not recognized |
| `Admission.FailedReadingUnrecognizes` | internal/monitor/identity.go:71-75 | a run of two calls: recognized after the first, and no longer after a failed reading a second later, although its event is still cached and still admits it; in enforce mode it is condemned |
| `Admission.KnownIffNotMapped` | internal/monitor/identity.go:44-47 | when the log has an event of the process, unmapped address and port, the cache knows the connection exactly when its address is not mapped into IPv6 |
| `Admission.AuthenticatedRecognizedIffNotMapped` | internal/monitor/monitor.go:83-94 | a session that its event admits under the unmapped address is recognized exactly when discovery does not report the address mapped |
| `Admission.RunRecognizesIffVouched` | internal/monitor/monitor.go:80-94 | in a run whose resolver is the cache, threaded through all connections and scans, a session is recognized exactly when the log vouches for it at its own call |
| `Admission.RunAttemptsExactly` | internal/monitor/monitor.go:68-138 | in such a run a session is attempted exactly when the policy exposes it, the log does not vouch for it, it is not remembered as terminated and was not terminated earlier in the scan |
| `Admission.EveryoneIsAsked` | internal/monitor/monitor.go:80-129 | with an enforcer the resolver is asked about every connection of every scan |
| `Monitor.Monitor.constructor` | internal/monitor/monitor.go:34-45 | a new monitor has no record, no inventory and no probe time |
| `Monitor.Monitor.Scan` | internal/monitor/monitor.go:68-138 | state, outcome and calls of one scan are those of the scan function |
| `Monitor.Monitor.Enforce` | internal/monitor/monitor.go:79-129 | the loop over the connections keeps in step with the walk function, and collects exactly the active keys |
| `Monitor.Monitor.Spares` | internal/monitor/monitor.go:110-115 | the two tests pass over exactly the connections that the policy does not condemn |
| `Monitor.Monitor.Prune` | internal/monitor/monitor.go:132-136 | exactly the inactive sessions are forgotten |
| `Monitor.Monitor.ScanNetworkInventory` | internal/monitor/monitor.go:160-187 | the inventory's part of the state moves as the inventory function says, with the backing array reused or replaced by a new one |
| `Monitor.Monitor.Store` | internal/monitor/monitor.go:184 | the new observations replace the old ones whether or not they fit the old array |
| `Monitor.Monitor.NetworkInventory` | internal/monitor/monitor.go:189-198 | a copy of what is visible at that time: new slots and new port lists, the same operating-system objects |
| `Monitor.Monitor.Run` | internal/monitor/monitor.go:47-66 | no scan without a positive interval; otherwise one scan after another, the first before the context is looked at |
| `Monitor.SnapshotSurvives` | internal/monitor/monitor.go:184-198 | a snapshot keeps its contents, operating systems included, through any later scans |
| `Monitor.MonitorIgnoresWriters` | internal/monitor/monitor.go:189-198 | writing to a snapshot's slots and port lists leaves the monitor's state as it was |
| `Monitor.WriteThrough` | internal/monitor/monitor.go:193-196 | any one write through a snapshot: it shows in exactly the inventory rows that point to the same operating system, and the monitor's state stays as it was exactly when it changes nothing of that |
| `Monitor.NextReaderSeesSystem` | internal/monitor/monitor.go:193-196 | what one reader writes to an operating system is what the next reader finds |
| `MonitorRuns.ScanAttemptsExactly` | internal/monitor/monitor.go:80-128 | an attempt is made for exactly the condemned connections of sessions not on record and not terminated earlier in the scan |
| `MonitorRuns.OnlyCondemnedAreAttempted` | internal/monitor/monitor.go:110-115 | nothing is called in observe mode, with enforcement off, or for a recognized or permitted connection |
| `MonitorRuns.CondemnedIff` | internal/monitor/monitor.go:110-115 | in an accepted configuration the policy condemns a connection exactly when enforcement is on, no device admits it, it is not allowed, and it is listed for termination if anything is |
| `MonitorRuns.CondemnedAreHandled` | internal/monitor/monitor.go:110-136 | after a completed scan every condemned connection is on record or had a failed attempt in that scan |
| `MonitorRuns.ScanCompletesIff` | internal/monitor/monitor.go:68-138 | a scan completes exactly when it discovers and either has an enforcer or meets no condemned connection off the record |
| `MonitorRuns.OneSuccessPerScan` | internal/monitor/monitor.go:116-128 | no session is terminated twice in one scan |
| `MonitorRuns.TerminatedHistory` | internal/monitor/monitor.go:68-138 | a session is on record exactly when some scan terminated it and every completed scan from that one on listed it |
| `MonitorRuns.SuccessesAreSeparated` | internal/monitor/monitor.go:116-136 | two successes for one session have a completed scan without it between them |
| `MonitorRuns.EnforcementIgnoresInventory` | internal/monitor/monitor.go:68-138 | runs over the same sessions make the same calls and keep the same record whatever the prober, the probe settings and the clock do |
| `MonitorRuns.ProbesAreSpaced` | internal/monitor/monitor.go:164-168 | probes start at least one interval apart |
| `MonitorRuns.ProbesStartExactly` | internal/monitor/monitor.go:160-168 | a scan starts a probe exactly when probing is on and there was none before or an interval has passed since the last |
| `MonitorRuns.NextProbeIsScheduled` | internal/monitor/monitor.go:164-168 | the next probe time is an interval after the last probe that was due, and unset before the first |
| `MonitorRuns.ScanInventory` | internal/monitor/monitor.go:160-187 | a scan that starts a probe sets the next probe time and takes over a successful reply; any other leaves the inventory alone |
| `MonitorRuns.InventoryIsLatestProbe` | internal/monitor/monitor.go:179-192 | a reader sees nothing or the result of the last successful probe, begun less than two intervals before |
| `MonitorRuns.InventoryIsSeen` | internal/monitor/monitor.go:184-192 | and sees it for all of that time, unless twice the interval overflows a duration |
| `MonitorRuns.AcceptedIsResolvable` | internal/monitor/monitor.go:174-178 | in an accepted configuration the probe networks always resolve when a probe starts |
| `MonitorRuns.PolicyMeansWhatWasValidatedIff` | internal/monitor/monitor.go:140-158 | a validated policy list means at run time what validation read exactly when no entry has surrounding space |
| `MonitorRuns.PaddedNeverMatches` | internal/monitor/monitor.go:140-148 | the address of a padded entry is matched by no entry of its list |
| `MonitorRuns.AllowedIsNeverListedForTermination` | internal/monitor/monitor.go:140-158 | in an accepted configuration no address is both allowed and listed for termination |

## Left out

- Running commands, sockets, signals, files, interface enumeration, environment and flags: foreign calls, replaced by scripted answers.
- JSON, XML, time stamps, and the text forms of addresses, prefixes, endpoints and numbers: library code; the model starts from decoded values or takes the parsers as arbitrary functions.
- The arguments and the report format of OS detection, and the parsing of ARP and NDP tables and hardware addresses: mostly field copying; the report is an arbitrary map and neighbour lists are arbitrary.
- An operating system's list of CPEs is part of its object, not an array of its own: a reader who keeps the list and replaces it in the object is not told apart from one who does not.
- Logging, error wording, which of several errors is returned by validation, configuration defaults, the log level's effect.
- The ticker: a run is a sequence of scans with arbitrary times, ended by the context after any of them.
- IPv6 zones, the invalid zero prefix, scanner token limits, missing command runners and process controllers.
- Saturation of times: times are unbounded integers with zero as the unset instant; only the doubling of the interval is done in 64 bits.
- The TCP scan is a transition system of its goroutines' steps, with the port loop of each worker among them; the goroutines are not separate Dafny methods.
- Prober.ProbeNetworks: takes the outcome of the scan as a value that the transition system can produce, and the order in which its map is walked as a parameter.
- Process.Tree: process numbers range over 64-bit integers, which is what makes the universe finite.
- Text.TrimSpaceIdentity: covers the white space of Unicode; case folding is modelled as far as ASCII results go, which is all that the compared words contain.
- Monitor.Monitor.Store: leaves the growth of a replaced array open: any capacity that suffices.
