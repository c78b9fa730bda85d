# Verified model of the OT asset discovery core

The repository discovers industrial devices on a network. A passive sniffer and an active prober parse Modbus, S7comm
and DNP3 packets into fingerprints; a discovery engine compares each fingerprint with the device inventory, raises
alerts and merges it into the inventory with a bounded audit history; a topology mapper counts who talks to whom in a
buffer that is flushed to a database; a scheduler runs scans from cron loops and manual triggers; a limiter guards the
login. This project models those parts in Dafny and proves what they are for.

Code that changes state is a class whose methods are proved against a function on values; the function then carries the
theorems over whole runs. Loops over bytes are methods with loops proved against a recursive function. Expressions stay
functions. Beside the theorems about a function stand lemmas that say which input each output comes from, with the
numbers, names and byte positions written out instead of the constants and tables the function uses.

| file | what it models |
|---|---|
| `Topology`, `TopologyTimes`, `TopologyOrder`, `TopologyMapper` | the write-behind topology buffer: the protocol over table, in-flight snapshots and buffer; its timestamps under orderly flushes and under any order; the object with its lock regions |
| `Crc`, `CrcDivision`, `Dnp3Frame`, `Dnp3Attributes` | the DNP3 checksum as a register and as a division, the link frame and the group 0 attribute parser |
| `Csv`, `TypedColumns`, `Audit`, `Inventory`, `KeptHistory`, `DeviceRepository` | protocol lists as text, what the typed columns make of a text, the bounded history, the inventory as a fold, the chain that is left in the stored history, the repository object |
| `Alerts`, `DiscoveryEngine` | change detection and the look-up, detect, merge pipeline |
| `Scheduler`, `ScanScheduler` | scan scheduling as a protocol over suspensions; the scheduler object |
| `RateLimiter` | the sliding-window login limiter |
| `NetworkHeaders`, `Sniffer`, `PassiveSniffer` | packet dispatch by port; the buffer of discovered devices |
| `PaddedText`, `S7comm`, `S7Response`, `S7Domain` | S7comm text fields, record scans, packet layers, and S7comm fingerprints as domain objects |
| `Modbus` | the device identification parser |
| `Schema`, `Serialization` | the schema interpreter and the fingerprint round trip |
| `Bytes`, `Text`, `LastWins` | shared bytes, string operations and last-assignment-wins dictionaries |

## How to read the model

- Coroutines switch only where they suspend. Taking an uncontended asyncio lock does not suspend, and a lock region that
  contains no other `await` cannot be interrupted, so each lock region is one step; so is everything between two
  suspensions in the scheduler.
- A database transaction is one step that commits or fails. Writing a topology row is a read followed by an update
  (`app/topology/mapper.py:238-252`) and the session sets no isolation level (`app/db/session.py:13`), so for
  overlapping flushes this assumes transactions that behave as if run one after the other.
- Times are integers. Where the source reads the clock more than once in one operation the readings are kept apart
  (`RateLimiter.Clock`), and a theorem that needs them in order says so.
- What a column stores of a text is a parameter (`TypedColumns.Columns`): it may be another text, as for the `MACADDR` and
  `INET` columns of the address pair, or a refusal (`app/models/database.py:37-44`). Between two operations a device is
  read back from the database. The texts of a fingerprint are stored unchanged, because the domain model limits them to
  their columns' lengths (`app/models/domain.py:43-46`); that the database may refuse a merge all the same, say for a NUL
  character, is the parameter `merges` of a handler.
- A history row is identified by the position at which it was recorded, as the source identifies it by its key. Among rows
  of one time the limit drops any, and a query ordered by time alone returns them in any order
  (`app/db/device_repository.py:402-436`).
- Decoding bytes to text (UTF-8 with replacement, DNP3 numeric types) is a function parameter, so the theorems hold for
  every decoder. ASCII decoding is modelled in full, and the digits that `\d` matches are the decimal digits of Unicode 14.0.
- Exceptions the source raises to its caller are result values (`Outcome`, `Option`, `UpdateResult`).

## Findings

Places where the code does not do what its documentation or its neighbours suggest. Each is a lemma, with the exact
condition under which the intended property holds.

- An explicit update writes its raw text to the history but stores what the protocol list or the typed column makes of
  it, so the audit chain of everything recorded breaks exactly when a protocol text is not canonical or a column rewrites
  the text, as `INET` does with "FE80::1" (`Inventory.AuditChain`, `Inventory.NonCanonicalUpdateBreaksChain`,
  `Inventory.RewrittenTextBreaksChain`).
- The stored history keeps the latest thousand entries. Two entries of one attribute at one time can mislead its reader:
  the limit drops entries in the order written exactly when no such pair shares the time at which the limit cuts
  (`KeptHistories.DropsExactlyInOrder`, for clocks that run backwards `DropsExactly`), and the history always shows the end
  of the chain in the order written exactly when there is no such pair among the entries that can stay
  (`KeptHistories.ShowsExactly`). Two updates at one time and 999 later ones suffice for a history that never leads to the
  current value (`KeptHistories.TieBreaksChain`). Without such pairs, so whenever the clock moves on between operations
  (`KeptHistories.TickingUntied`), the history shows the end of each chain, whole under the condition above on the
  operations it still shows (`KeptHistories.KeptChain`).
- A fingerprint without a hardware address is looked up under "unknown" (`app/discovery_engine.py:316`, `:387`), which is
  no `MACADDR` (`app/models/database.py:37`). If the column refuses it, the handler ends at the look-up without an alert
  or a record (`Alerts.HandledIff`). Only the sniffer sets a hardware address (`app/capture/sniffer.py:335`), so nothing
  found by an active probe reaches the inventory.
- Alerts are raised before the merge, so a handler whose merge the database refuses has raised alerts that are raised
  again the next time; `Alerts.ExactAlertLog` counts them.
- Deserializing data whose `schema_version` is a list or an object escapes with a `TypeError` instead of the documented
  deserialization error (`Serialization.OutcomesExactly`).
- A fingerprint with an empty address serializes but cannot be read back (`Serialization.RoundTrip`); the sniffer passes
  the S7comm parser bytes without an IP header, so its fingerprints are of that kind (`S7Domain.SurvivesIffAddressed`,
  `S7Domain.SniffedNeverSurvives`).
- The sniffer's flush clears the whole buffer when no commit callback is registered, and starting again, even when the
  capture then fails, empties what a broken-off flush kept; of the discoveries it accepted it loses no others
  (`PassiveSniffers.DiscoveriesConserved`). A discovery whose own commit fails is logged and lost; it does not count as
  accepted (`PassiveSniffers.PassiveSniffer.Discover`).
- Calling the scheduler's `start` while it runs starts a second loop for every scheduled job; after a deletion two scans
  of that job can then execute at once (`Scheduler.RepeatedStartBreaksExclusion`). No caller in the repository repeats
  it. A run breaks the exclusion of a job
  exactly when an uncancelled loop of the unregistered job wakes up while its scan is executing
  (`Scheduler.RunBreaksExactly`).
- Overlapping topology flushes can lose times, though, given serial transactions, never a packet. When both fail and the
  older is put back first, the last sighting is lost (`TopologyOrders.TwoFlushersLoseLastSeen`); when both commit and the
  newer is first, the first sighting is lost for good (`TopologyOrders.TwoFlushersLoseFirstSeen`). Whatever the order,
  times are right exactly when no commit loses a first sighting and no put-back loses a last one that is not followed by
  another packet (`TopologyOrders.StampsExactly`), where both losses are conditions on the stores at that step. Committing
  the oldest and putting back the newest snapshot first is always safe (`TopologyTimes.StampsSurviveFailures`), and the
  discovery engine's single flusher does (`TopologyTimes.OneFlusherIsOrderly`).
- A topology query concurrent with a flush may miss packets, but counts none twice; `Topology.ReaderExactIff` says
  exactly when it is complete.
- For the keyword forms modelled (`type`, an `enum` of strings and null, the length limits, the version `pattern`, and
  `additionalProperties` as false or a schema) the schema interpreter departs from JSON Schema draft 2020-12 in six lax
  readings and a strict one, for every schema and value in no others (`Schema.StandardExactly`): an empty type list, null
  under an `enum`, members under a type list, forbidden members, a final newline and digits of other scripts under the
  pattern; and a number such as 1.0 is no integer to it. The version 1.0.0 document meets only the two of the pattern: it
  judges differently exactly those versions that end in a newline or contain a digit outside ASCII, and such data
  never gets that far (`Serialization.V1IsStandard`).

## Model

| member | source | states |
|---|---|---|
| Topology.PacketsConserved | app/topology/mapper.py:140-225 | in every state reachable by interleaved records, snapshots, commits and failed flushes, table plus in-flight snapshots plus buffer hold each triple exactly as often as it was recorded |
| Topology.ConservedStep | app/topology/mapper.py:191-263 | each single step keeps that balance, with any number of snapshots in flight |
| Topology.EmptyIsConserved | app/topology/mapper.py:75-92 | a fresh mapper starts in balance |
| Topology.RowsOnlyGrow | app/topology/mapper.py:227-263 | table counts never fall along a run, and rise for some triple exactly when something commits |
| Topology.ReaderNeverOvercounts | app/topology/mapper.py:283-326 | what a reader reports plus what was committed between its two reads plus what is in flight at the second equals what was recorded; so it never counts a packet twice |
| Topology.ReaderExactIff | app/topology/mapper.py:283-326 | the reader is exact for every triple if and only if nothing commits between its reads and nothing is in flight at the second |
| Topology.NewPathEvent | app/topology/mapper.py:95-172 | a triple is due a new-communication event exactly when it was not recorded since the sniffer last went from stopped to running |
| Topology.ObservedExactly | app/topology/mapper.py:99-160 | in terms of the steps of a run alone: the log holds the recorded packets, and a triple is observed if and only if some step recorded it and the sniffer was not started after that step |
| TopologyTimes.StoresAreSlices | app/topology/mapper.py:140-225 | with any number of snapshots in flight, commits taking the oldest, put-backs the newest and a clock that does not run backwards, every store stays the exact summary of one slice of the packet log |
| TopologyTimes.OneFlusherIsOrderly | app/discovery_engine.py:606-620 | one flusher at a time keeps that order by itself |
| TopologyTimes.MergesExactly | app/topology/mapper.py:216-262 | a commit and a put-back keep the widest times exactly when the row is nowhere later than the snapshot, respectively the buffer nowhere earlier |
| TopologyTimes.SummaryConcat | app/topology/mapper.py:216-263 | adding a snapshot to the table and putting it back into the buffer both merge two consecutive summaries into the summary of both |
| TopologyTimes.StampsSurviveFailures | app/topology/mapper.py:143-262 | through any failed and successful flushes the earliest `first_seen` over the stores is the time of the first packet, the latest `last_seen` that of the last |
| TopologyTimes.FlushedTableFaithful | app/topology/mapper.py:191-263 | once nothing is buffered or in flight the table alone tells count, first and last time of every triple |
| TopologyTimes.SummaryUnique | app/topology/mapper.py:45-59 | a packet log has only one such summary, so the theorems above leave no freedom |
| TopologyOrders.StampsExactly | app/topology/mapper.py:140-262 | for every run with any number of flushers in any order: the stores together tell count, first and last time of every triple if and only if no commit lost a first sighting and no put-back a last one that no later packet replaced |
| TopologyOrders.RunKeeps | app/topology/mapper.py:140-262 | the same from any reachable state, triple by triple, first and last sightings apart |
| TopologyOrders.StepKeeps | app/topology/mapper.py:213-262 | one step keeps the first sighting exactly if it does not commit, over an existing row, the only snapshot that reaches back that far; and the last exactly if it records anew or does not put back, under a buffered edge, the only snapshot that reaches that far |
| TopologyOrders.ReachTwoInFlight | app/topology/mapper.py:191-199 | two overlapping flushes lead to the state the next two start from |
| TopologyOrders.TwoFlushersLoseLastSeen | app/topology/mapper.py:213-225 | both fail, the older put back first: the last packet's time is nowhere |
| TopologyOrders.TwoFlushersLoseFirstSeen | app/topology/mapper.py:248-262 | both commit, the newer first: the table never learns the first packet's time |
| TopologyMapping.TopologyMapper.SetSnifferRunning | app/topology/mapper.py:99-110 | going from stopped to running forgets the observed triples, and nothing else changes them |
| TopologyMapping.TopologyMapper.RecordCommunication | app/topology/mapper.py:112-172 | one packet is added to the buffer, and the event is raised exactly for a triple not observed yet |
| TopologyMapping.TopologyMapper.TakeSnapshot | app/topology/mapper.py:191-199 | the records move to the snapshot, the buffer starts empty, and no record is in both |
| TopologyMapping.TopologyMapper.PersistSnapshot | app/topology/mapper.py:200-263 | committing adds every snapshot edge to its row or creates it |
| TopologyMapping.TopologyMapper.RestoreSnapshot | app/topology/mapper.py:213-225 | the put-back loop, updating shared records in place, merges the whole snapshot into what arrived meanwhile |
| TopologyMapping.TopologyMapper.MergeEdges | app/topology/mapper.py:283-326 | the query lists exactly one edge per triple of table or buffer, with the summed count |
| Crc.ComputeChecksum | app/capture/prober.py:492-513 | the two nested loops compute the checksum bytes of the shift register specification |
| CrcDivision.ChecksumExactly | app/capture/prober.py:492-513 | two bytes are the checksum of a block if and only if the block's bits in order of transmission, followed by the complement of theirs, are a multiple of x^16 + x^13 + x^12 + x^11 + x^10 + x^8 + x^6 + x^5 + x^2 + 1 over GF(2) |
| Crc.FeedLinear | app/capture/prober.py:504-511 | the register update is linear over GF(2) in register and data together |
| Crc.ZeroExactlyOnOwnBits | app/capture/prober.py:504-511 | at most 16 bits drive a register to zero exactly when they are the register's own bits |
| Crc.BurstDetected | app/capture/prober.py:492-513 | two different blocks of equal length that differ only inside 16 consecutive bits get different checksums |
| Crc.OddErrorDetected | app/capture/prober.py:492-513 | any odd number of flipped bits, anywhere, changes the checksum |
| Crc.ResidueExactlyOnOwnChecksum | app/capture/prober.py:482-513 | over a block and two trailing bytes the register ends in one constant if and only if the bytes are the block's checksum |
| Dnp3Frame.ExtractUserData | app/parsers/dnp3.py:259-301 | the block loop returns the user bytes of the specification, `None` for none |
| Dnp3Frame.FrameRoundTrip | app/parsers/dnp3.py:268-301 | every message of 1 to 250 bytes, framed in 16-byte blocks with any checksum bytes, is extracted unchanged |
| Dnp3Frame.TruncatedFrame | app/parsers/dnp3.py:268-301 | a frame cut anywhere behind its header yields exactly the user bytes sent before the cut |
| Dnp3Frame.TruncationMonotone | app/parsers/dnp3.py:268-301 | on arbitrary bytes, cutting the input yields a prefix of the result |
| Dnp3Frame.PaddedFrame | app/parsers/dnp3.py:268-301 | bytes behind a frame do not matter |
| Dnp3Frame.BuiltBlocksAccepted | app/capture/prober.py:470-490 | every block a builder emits passes the receiver's residue check |
| Dnp3Frame.ProberFrameIsAFrame | app/capture/prober.py:439-490 | the prober's one-block frame is the general frame, both its checksums pass, and the parser recovers its user bytes |
| Dnp3Attributes.ReadObject | app/parsers/dnp3.py:315-416 | one object moves the offset forward by at least its header and never past the end, so the nested loops terminate |
| Dnp3Attributes.ReadPrefixed | app/parsers/dnp3.py:334-411 | the counted loops never move the offset back or past the end |
| Dnp3Attributes.ReadSized | app/parsers/dnp3.py:368-393 | the same for length-prefixed objects |
| Dnp3Attributes.ParseDeviceAttributes | app/parsers/dnp3.py:304-416 | the outer loop fills the dictionary with the last assignment per name, stopping where the specification stops |
| Dnp3Attributes.ParseObject | app/parsers/dnp3.py:318-414 | one turn of the outer loop makes exactly the assignments of one object, or leaves the dictionary and ends the parse |
| Dnp3Attributes.ScanPrefixed | app/parsers/dnp3.py:334-411 | the loops of qualifiers 0x00, 0x17 and 0x28 |
| Dnp3Attributes.ScanSized | app/parsers/dnp3.py:368-393 | the loop of qualifier 0x5B |
| Dnp3Attributes.ObjectsRead | app/parsers/dnp3.py:315-416 | any list of well-formed objects with any mix of the four qualifiers is read back exactly, and parsing resumes behind it |
| Dnp3Attributes.AttributesRoundTrip | app/parsers/dnp3.py:315-465 | encoding a list of attribute objects and parsing it gives the encoded values in order |
| Dnp3Attributes.NamedExactly | app/parsers/dnp3.py:304-416 | each of the seven names stands for the text of the last value of its variation (252 manufacturer, 253 model, 254 firmware, 246 serial number, 245, 251, 250) that has one |
| Dnp3Attributes.BuildFingerprint | app/parsers/dnp3.py:80-256 | there is a fingerprint exactly when an identity attribute is known, complete exactly when all four are, each field its attribute cut to the limit |
| Dnp3Attributes.ResponseDecoded | app/parsers/dnp3.py:80-256 | end to end: a framed response decodes to the last-wins dictionary of its objects under the frame's addresses |
| Dnp3Attributes.OnlyResponses | app/parsers/dnp3.py:80-256 | only user data with function code 0x81 behind the start bytes 0x05 0x64 yield a fingerprint; the addresses are the little-endian words at bytes 4 and 6 |
| Dnp3Attributes.EchoedRequestIsNoDevice | app/capture/prober.py:439-490 | the prober's own request is extracted intact and never taken for a device |
| LastWins.OverlayIsLast | app/parsers/dnp3.py:344-412 | repeated assignment keeps exactly the keys that occur, each with its last value |
| Csv.SplitOfJoin | app/db/device_repository.py:273-279 | comma-free names survive joining and splitting |
| Csv.ParseOfRender | app/db/device_repository.py:273-345 | a rendered list of clean names reads back as itself |
| Csv.RenderOfParse | app/db/device_repository.py:327-345 | storing a text and rendering it again gives the same text if and only if it is canonical |
| Audit.LatestKeptStep | app/db/device_repository.py:372-414 | one more entry, whatever its time, and the history is again the latest thousand, ties arbitrary |
| Audit.StreamingLatest | app/db/device_repository.py:372-414 | after any sequence of insertions at most 1000 entries remain and none discarded is later than any kept |
| Inventory.InventoryIsFirstKnown | app/db/device_repository.py:92-283 | after any sequence of upserts a key is present exactly when an observation could create it, and each fill-once attribute is the first non-null value observed, also across protocol-limit exceptions |
| Inventory.MergeFills | app/db/device_repository.py:245-263 | a merge fills null attributes only, also when it ends in the limit exception |
| Inventory.MergeWrites | app/db/device_repository.py:245-283 | the history entries of a merge are exactly those of the attributes it fills, each with its own old and new value, and one of the protocol list if it grows |
| Inventory.OutcomeTells | app/db/device_repository.py:158-283 | an upsert ends in the limit exception, a new device or a re-detection exactly when names are missing and more than 20 would be listed, the pair is new, respectively stored |
| Inventory.UpdateTells | app/db/device_repository.py:317-344 | an explicit update changes the named attribute to what its column makes of the text, and nothing else |
| Inventory.MergeProtocols | app/db/device_repository.py:264-283 | a merge keeps the list as a prefix and adds exactly the missing names, or past the limit leaves it alone |
| Inventory.ProtocolsOnlyGrow | app/db/device_repository.py:92-283 | over any run protocol lists never shrink, reorder or exceed 20, and stay duplicate-free when every observed list is |
| Inventory.OpLinks | app/db/device_repository.py:245-348 | one operation writes at most one history entry per attribute, starting at the current value |
| Inventory.AuditChain | app/db/device_repository.py:247-348 | of everything ever recorded, the entries of an attribute lead link by link from the creation value to the current value if and only if no explicit update wrote a non-canonical protocol text or a text that its column rewrites |
| Inventory.NonCanonicalUpdateBreaksChain | app/db/device_repository.py:327-347 | an update of the protocols that breaks the chain |
| Inventory.RewrittenTextBreaksChain | app/db/device_repository.py:340-347 | any update with a text that its column rewrites breaks the chain |
| KeptHistories.StreamedExactly | app/db/device_repository.py:372-414 | the row sets that insertions and limit checks can leave, ties broken in any way, are exactly the sets of a thousand rows of which none is older than a dropped one |
| KeptHistories.RowsExactly | app/db/device_repository.py:372-414 | entries are the latest thousand in the sense in which the repository object keeps them if and only if they are those of such a row set |
| KeptHistories.DropsExactly | app/db/device_repository.py:398-414 | however the limit breaks ties, the rows it leaves of an attribute are the last written, if and only if no row with fewer than a thousand later ones is followed by a row of the attribute, of the same or an earlier time, with more than a thousand that are not earlier |
| KeptHistories.DropsExactlyInOrder | app/db/device_repository.py:398-414 | for rows recorded in order of time: if and only if no two rows of the attribute share the time at which the limit cuts |
| KeptHistories.ShowsExactly | app/db/device_repository.py:398-440 | whatever the limit drops and in whatever order rows of one time are read, the history shows the rows of an attribute last written, in the order written, if and only if no row with fewer than a thousand later ones is followed by one of the attribute with the same or an earlier time |
| KeptHistories.TickingUntied | app/db/device_repository.py:219-350 | operations at increasing times leave no such pair, though one operation may write several entries at one time |
| KeptHistories.KeptChain | app/db/device_repository.py:219-440 | without such pairs the stored entries of an attribute are those of the operations from some point on, from the creation on when none was dropped; they lead from the value before those operations to the current value if and only if none of them wrote a non-canonical protocol text or a text that its column rewrites |
| KeptHistories.TieBreaksChain | app/db/device_repository.py:287-414 | two updates of the vendor at one time and 999 later ones of the model, and the limit can leave a vendor history that does not lead to the current value |
| DeviceRepositories.Device.EnforceHistoryLimit | app/db/device_repository.py:385-414 | exactly the excess oldest entries are removed |
| DeviceRepositories.Device.RecordHistory | app/db/device_repository.py:352-383 | appends one entry and keeps the stored history the latest thousand of all recorded |
| DeviceRepositories.Device.Merge | app/db/device_repository.py:219-285 | the in-place merge leaves the record, the entries and the exception of the specification |
| DeviceRepositories.Device.FillNull | app/db/device_repository.py:245-263 | one null-only fill with its history entry |
| DeviceRepositories.Device.FillAttributes | app/db/device_repository.py:245-263 | the four null-only fills with their history entries |
| DeviceRepositories.Device.AddProtocols | app/db/device_repository.py:264-279 | missing protocols are appended with one history entry, or the limit is reported and nothing changes |
| DeviceRepositories.Device.UpdateAttribute | app/db/device_repository.py:287-350 | an explicit update stores what the column makes of the text and records the text, or is refused with nothing changed |
| DeviceRepositories.DeviceRepository.CreateDevice | app/db/device_repository.py:51-124 | creates the record, or reports the protocol limit before the duplicate |
| DeviceRepositories.DeviceRepository.GetDeviceByMacIp | app/db/device_repository.py:126-143 | finds the one device under an address pair |
| DeviceRepositories.DeviceRepository.UpsertDevice | app/db/device_repository.py:158-217 | creates or merges, keeps address pairs unique, and ends as the specification says on every path |
| DeviceRepositories.DeviceRepository.UpdateDeviceAttribute | app/db/device_repository.py:287-350 | updates one device, moving it in the unique index to the stored form of a changed address; not found, refused and colliding are each reported exactly when they are the case |
| DeviceRepositories.DeviceRepository.DeleteDevice | app/db/device_repository.py:491-506 | removes exactly the one device |
| Alerts.HandledIff | app/discovery_engine.py:309-350 | a handler changes nothing and alerts nothing when an address column refuses an address it looks up, the placeholder included; any other alerts a device not stored yet, and leaves it stored when its merge is accepted |
| Alerts.ExactAlertLog | app/discovery_engine.py:310-350 | over any run of handlers, refused look-ups and merges included, each stored device raised one new-device alert, and each protocol other than its first one new-protocol alert, besides those of the handlers that did not get to merge; there are none of these when every merge is accepted |
| Alerts.StoredDevice | app/discovery_engine.py:337-421 | in terms of the events of a run alone: a device is stored if and only if a fingerprint was merged under its addresses, its vendor, model, firmware version and device type are each what the first of them that carried one carried, and it was last seen with the last |
| Alerts.FirmwareAlertIff | app/detection/change_detector.py:313-353 | a firmware alert is raised if and only if the fingerprint carries a version and the first fingerprint merged into the device that carried one carried another, which the alert names |
| Alerts.NewAlertsIff | app/detection/change_detector.py:162-190 | a new-device alert is raised if and only if no fingerprint was merged under these addresses, a new-protocol alert if and only if some were and none with this protocol; it names the stored list |
| Alerts.StoreIsFold | app/discovery_engine.py:337-350 | the store after a run is the inventory fold of its observations |
| Alerts.StoredProtocols | app/db/device_repository.py:264-283 | a device lists exactly the protocols it was seen with, the first one first |
| Alerts.CheckExact | app/detection/change_detector.py:192-242 | a check alerts exactly the overdue devices not alerted yet, once each |
| Alerts.NoRepeatedDisappearance | app/detection/change_detector.py:162-253 | between two disappearance alerts of a device it was re-detected or explicitly cleared |
| Alerts.DisappearsIff | app/detection/change_detector.py:162-253 | an event raises a disappearance alert for a device if and only if it is a check that finds it overdue and since every earlier such check the device was re-detected or explicitly cleared |
| DiscoveryEngines.ChangeDetector.ProcessFingerprint | app/detection/change_detector.py:137-190 | dispatches the alerts of the comparison, and clears the disappeared state of a known device |
| DiscoveryEngines.ChangeDetector.CheckDisappearedDevices | app/detection/change_detector.py:192-242 | the loop over sightings alerts and marks as specified |
| DiscoveryEngines.ChangeDetector.ClearDisappearedState | app/detection/change_detector.py:244-253 | forgets one device |
| DiscoveryEngines.DiscoveryEngine.HandleFingerprint | app/discovery_engine.py:309-421 | look-up, detection and merge on the shared objects, cut short by a refused look-up or merge, are one step of the pipeline that the alert theorems run over |
| Scheduler.RegisteredJobsExclusive | app/scheduling/scheduler.py:236-422 | under every interleaving, even with repeated `start`, a registered job has at most one executing scan and its flag is up exactly while it has one |
| Scheduler.EveryJobExclusive | app/scheduling/scheduler.py:282-422 | when `start` is not repeated while running, the same holds for every job, also deleted ones whose scan is still executing |
| Scheduler.StepBreaksExactly | app/scheduling/scheduler.py:268-362 | one step breaks the exclusion of a job if and only if an uncancelled loop of the unregistered job wakes up while its scan is executing |
| Scheduler.RunBreaksExactly | app/scheduling/scheduler.py:236-422 | a run keeps any job's exclusion in every state if and only if it has no such step |
| Scheduler.RepeatedStartBreaksExclusion | app/scheduling/scheduler.py:282-305 | a run with a repeated `start` that ends with two executing scans of one job |
| Scheduler.OneEmissionEach | app/scheduling/scheduler.py:347-473 | in every reachable state a finished attempt that was not cancelled has emitted exactly one of completion, failure and skip |
| Scheduler.SkippedIffExecuting | app/scheduling/scheduler.py:236-280 | a trigger begins one attempt for its job, which is a skip exactly when the job has an executing scan |
| Scheduler.LoopsSurvive | app/scheduling/scheduler.py:282-345 | over every run, while the scheduler is on, every registered job with a schedule has an uncancelled loop on file, which sleeps or is in a live attempt of its own for that job |
| Scheduler.LoopGoesRound | app/scheduling/scheduler.py:317-339 | however a cron attempt ends, by return, exception or skip, its loop can wake up again |
| Scheduler.NeverStuck | app/scheduling/scheduler.py:307-345 | so a registered job with a schedule is never stuck: its loop can wake up or its attempt can take its next step |
| Scheduler.TickBegins | app/scheduling/scheduler.py:329-339 | a loop that wakes up begins an attempt for its job, which executes unless a scan of the job is executing |
| Scheduler.EmissionsTell | app/scheduling/scheduler.py:347-422 | over every run an attempt has as many completion events as its executor returned and as many failure alerts as it raised |
| Scheduler.EmptyState | app/scheduling/scheduler.py:112-131 | a fresh scheduler meets all these invariants |
| ScanSchedulers.ScanScheduler.CreateJob | app/scheduling/scheduler.py:173-202 | registers a job and starts its loop if the scheduler runs; like every method below it keeps registered jobs exclusive, emissions accounted for and the loops of scheduled jobs alive |
| ScanSchedulers.ScanScheduler.DeleteJob | app/scheduling/scheduler.py:215-234 | requests cancellation of the job's loop and unregisters it |
| ScanSchedulers.ScanScheduler.TriggerManual | app/scheduling/scheduler.py:236-266 | check and set happen in one step, and the attempt is a skip exactly when a scan of the job is executing; an unknown job changes nothing |
| ScanSchedulers.ScanScheduler.CheckOverlap | app/scheduling/scheduler.py:268-280 | overlap is asked of the registry, so an unregistered job never overlaps |
| ScanSchedulers.ScanScheduler.Start | app/scheduling/scheduler.py:282-305 | starts one loop for every registered job with a schedule |
| ScanSchedulers.ScanScheduler.Stop | app/scheduling/scheduler.py:290-296 | requests cancellation of every loop on file |
| ScanSchedulers.ScanScheduler.CronTick | app/scheduling/scheduler.py:326-340 | a woken loop ends when the scheduler stopped, else begins an attempt for its job, a skip exactly when a scan of it is executing |
| ScanSchedulers.ScanScheduler.EmissionDone | app/scheduling/scheduler.py:317-422 | the end of an attempt; the loop it was in goes back to sleep and can wake up again while the scheduler runs |
| ScanSchedulers.ScanScheduler.FinishAttempt | app/scheduling/scheduler.py:419-422 | every way out of a scan lowers the flag it raised |
| ScanSchedulers.ScanScheduler.DeliverCancel | app/scheduling/scheduler.py:341-345 | a delivered cancellation ends the loop and the attempt it was in |
| RateLimiter.AuthTable.HandleLogin | app/api/router_auth.py:87-113 | of all logins handled since the table was empty: this one is refused if and only if five of its address got past the limiter with invalid credentials in the 900 seconds before the check, else answered by its credentials; no window is lifted over its five failures |
| RateLimiter.AnswersExactly | app/api/router_auth.py:87-113 | the same for every login of every run, whatever the clocks read |
| RateLimiter.HintExactly | app/api/rate_limiter.py:108-131 | the retry hint of a refusal is the whole seconds until the earliest failure that still counts is 900 seconds old, at least zero, or 900 when none counts any more |
| RateLimiter.OldestIs | app/api/rate_limiter.py:112-123 | the ordered one-row query yields an earliest counted failure, and none exactly when none is counted |
| RateLimiter.WindowHolds | app/api/router_auth.py:87-113 | over every run of logins each interval of 15 minutes holds at most 5 recorded failures per address |
| RateLimiter.LimitedStep | app/api/rate_limiter.py:57-86 | one login keeps that bound |
| RateLimiter.RetryBounded | app/api/rate_limiter.py:108-137 | a refusal's retry hint lies between 0 and 900 seconds |
| RateLimiter.RetryIsTight | app/api/rate_limiter.py:108-137 | an address stays blocked through the hint and is admitted one second later |
| RateLimiter.RefusalRecordsNothing | app/api/router_auth.py:87-94 | a refused login leaves the attempts unchanged, any other adds one |
| Sniffer.FrameRouted | app/capture/sniffer.py:369-503 | any legal Ethernet, IPv4 and TCP or UDP frame with a payload is dispatched by its ports alone, with exactly its payload and IP addresses, whatever header options it carries |
| Sniffer.AddressedByIp | app/capture/sniffer.py:395-398 | a dispatched frame always carries the addresses at their place in the IP header, so the hardware-address fallback is never taken |
| Sniffer.PortsExactly | app/capture/sniffer.py:413-503 | two ports stand for Modbus if one is 502, else EtherNet/IP if one is 44818 or 2222, else S7comm if one is 102, else DNP3 if one is 20000, else for nothing |
| Sniffer.ModbusFrameDecoded | app/capture/sniffer.py:369-503 | end to end: a device identification response in any legal TCP frame on port 502, with padding, decodes to the last-wins map of its objects |
| Sniffer.S7FrameDecoded | app/capture/sniffer.py:369-503 | end to end for S7comm; the fingerprint comes out without addresses |
| Sniffer.Dnp3FrameDecoded | app/capture/sniffer.py:369-503 | end to end for DNP3 over TCP or UDP |
| PassiveSniffers.PassiveSniffer.FlushBuffer | app/capture/sniffer.py:189-235 | a flush commits a prefix and keeps the rest, or without a callback discards everything |
| PassiveSniffers.PassiveSniffer.Start | app/capture/sniffer.py:114-158 | rejected unchanged when running or without its interface; otherwise the buffer is emptied, whether the capture starts or fails |
| PassiveSniffers.PassiveSniffer.Stop | app/capture/sniffer.py:160-187 | stops and flushes, or is rejected unchanged; with a callback committed entries followed by buffered ones read the same as before |
| PassiveSniffers.PassiveSniffer.Discover | app/capture/sniffer.py:332-345 | a discovery is committed, buffered when there is no callback, or lost with its failed commit; what was accepted stays accounted for |
| PassiveSniffers.FlushHolds | app/capture/sniffer.py:189-235 | committed entries followed by buffered ones read the same before and after a flush, if there is a callback or nothing to flush |
| PassiveSniffers.RunConserves | app/capture/sniffer.py:114-235 | along every run nothing is held that was not accepted, and a loss never heals |
| PassiveSniffers.DiscoveriesConserved | app/capture/sniffer.py:114-235 | over every run, failed starts included, every accepted discovery is committed or still buffered if and only if no step drops the buffer |
| PassiveSniffers.RunTells | app/capture/sniffer.py:114-345 | in terms of the steps of a run alone: what was accepted, whether the sniffer runs, and whether it has a callback |
| PassiveSniffers.CallbackFirst | app/capture/sniffer.py:336-345 | with the callback registered first nothing is ever dropped |
| PaddedText.DecodePadded | app/parsers/s7comm.py:576-586 | clean text padded with zeros reads back as itself, and an empty field as none |
| PaddedText.FieldExactly | app/parsers/s7comm.py:576-586 | any field reads as its bytes before the first NUL, other than ASCII replaced, without the white space around, and as none if nothing is left |
| PaddedText.VersionExactly | app/parsers/s7comm.py:589-598 | text looks like a version exactly when it is V, v and blanks, digits, a dot, digits, and nothing or a further dot |
| S7comm.RecordsDecoded | app/parsers/s7comm.py:460-522 | an encoded record list reads back exactly, whatever incomplete record follows |
| S7comm.FirstIsFirst | app/parsers/s7comm.py:540-551 | `First` is the value of the first record that has one |
| S7comm.LastIsLast | app/parsers/s7comm.py:523-538 | `Last` is the value of the last record that has one |
| S7comm.ModulesExactly | app/parsers/s7comm.py:445-490 | which index and text of a module list each of the four fields comes from: 1, 2, 3 and the extra text of 1, the last that has one |
| S7comm.ComponentsExactly | app/parsers/s7comm.py:493-573 | the same for a component list: the type from 1 (last) else 7 (first), the module name from 2, the firmware version from the extra text of 2 (first) else a version-like 4 (first), the serial number from 5 (last) else 9 (first) |
| S7comm.RecordLayout | app/parsers/s7comm.py:445-522 | the byte positions of index and texts in records of 28 and of 34 bytes |
| S7comm.ParseSzl0011 | app/parsers/s7comm.py:445-490 | the loop of overwrites equals the rule: type and serial from the last index-1 record that has them, name from index 2, firmware from index 3 |
| S7comm.ParseSzl001c | app/parsers/s7comm.py:493-573 | the two scans equal the rule: type the last index-1 name, else the first index-7 name; serial the last index-5 value, else the first index-9 value; firmware the first index-2 extra, else the first version-like index-4 name |
| S7comm.FirmwareScan | app/parsers/s7comm.py:553-573 | the second scan, which stops early |
| S7Responses.TpktPeels | app/parsers/s7comm.py:242-264 | a payload is peeled exactly from its TPKT unit followed by anything |
| S7Responses.PeelInvertsWrap | app/parsers/s7comm.py:242-293 | TPKT and COTP peeling inverts wrapping for every payload that fits and every COTP header |
| S7Responses.AddressesStripped | app/parsers/s7comm.py:203-239 | IP and TCP headers with any options are removed and their addresses found |
| S7Responses.ParseS7comm | app/parsers/s7comm.py:52-200 | the parser computes the decoding the theorems speak of |
| S7Responses.ResponseDecoded | app/parsers/s7comm.py:52-200 | end to end: a list response decodes to the identity its records name, complete exactly when all four fields are known, and to nothing when none is |
| S7Responses.OnlyListResponses | app/parsers/s7comm.py:52-440 | what is read at all: the marker bytes, the two list identifiers and the positions of the records, written out |
| S7Responses.PacketDecoded | app/parsers/s7comm.py:52-239 | the same behind any legal IP and TCP header, with its addresses |
| S7Responses.EchoedRequestIsNoDevice | app/capture/prober.py:360-437 | the prober's SZL request is framed as the parser expects and never taken for a device |
| S7Domain.AlwaysValid | app/parsers/s7comm.py:166-184 | building the domain object of any S7comm packet cannot fail |
| S7Domain.DomainTells | app/parsers/s7comm.py:166-184 | which part of the identity becomes which attribute |
| S7Domain.SurvivesIffAddressed | app/parsers/serialization.py:124-189 | the fingerprint of any S7comm packet survives serialization exactly when the parser found its addresses |
| S7Domain.SniffedNeverSurvives | app/capture/sniffer.py:402-407 | the fingerprint of the bytes the sniffer hands over does not |
| Modbus.ParseDeviceIdObjects | app/parsers/modbus.py:204-245 | the loop builds the last-wins dictionary of the objects that stand whole in the packet |
| Modbus.ObjectsRead | app/parsers/modbus.py:220-243 | an encoded object list, cut anywhere, reads back as the objects that lie whole before the cut, whatever follows |
| Modbus.WholeIsLargest | app/parsers/modbus.py:221-230 | that is the largest number of objects that fit |
| Modbus.DictionaryKeys | app/parsers/modbus.py:232-243 | the dictionary has exactly the standard identifiers that occur |
| Modbus.DictionaryIsLastWins | app/parsers/modbus.py:232-243 | each with the cleaned text of its last occurrence |
| Modbus.CleanExactly | app/parsers/modbus.py:236-239 | the cleaned text is the decoded one without the NULs around it and then without the white space around that |
| Modbus.BuildParseResult | app/parsers/modbus.py:248-351 | each field is the object it stands for, cut to the domain model's limit (the model name if it is non-empty, else the product code), complete exactly when vendor, model and firmware are non-empty |
| Modbus.ParseModbus | app/parsers/modbus.py:73-201 | the parser computes the decoding the theorems speak of |
| Modbus.ResponseDecoded | app/parsers/modbus.py:73-245 | a response with any padding, cut anywhere behind its header, decodes to the last-wins map of its whole objects |
| Modbus.OnlyIdentifications | app/parsers/modbus.py:73-201 | only a packet of at least 14 bytes with protocol 0, function 0x2B and type 0x0E that has a standard object yields a fingerprint |
| Modbus.EchoedRequestIsNoDevice | app/capture/prober.py:291-327 | the prober's request, padded or not, is never taken for a device |
| Schema.ValidateField | app/parsers/serialization.py:231-289 | the collected errors are exactly the violations, keyword by keyword and path by path, and there are none exactly when the value conforms |
| Schema.ValidateAgainstSchema | app/parsers/serialization.py:192-228 | the same for a document, where missing fields end the validation early |
| Schema.SomeReport | app/parsers/serialization.py:231-289 | complete: what does not conform is reported |
| Schema.ReportedFails | app/parsers/serialization.py:231-289 | sound: what is reported does not conform |
| Schema.ReportedExactly | app/parsers/serialization.py:231-289 | what each kind of violation reported of a value means, keyword by keyword; none but a wrong type when the type does not fit |
| Schema.DocumentReportedExactly | app/parsers/serialization.py:192-228 | the same for a document; while a required field is missing nothing else is reported |
| Schema.StandardExactly | app/parsers/serialization.py:231-315 | for every schema and value: valid as JSON Schema draft 2020-12 defines it if and only if the interpreter accepts it without one of six lax readings, or refuses it only by its strict reading of "integer" |
| Schema.EmptyTypeListAcceptsAnything | app/parsers/serialization.py:237-245 | an empty type list is read as no type |
| Schema.NullSkipsEnum | app/parsers/serialization.py:250-256 | a null value passes an `enum` that does not list it |
| Schema.UnionTypeSkipsMembers | app/parsers/serialization.py:281-287 | members are not looked into under a type list that includes objects |
| Schema.ForbiddenMembersPass | app/parsers/serialization.py:281-287 | a nested `additionalProperties` of false forbids nothing |
| Schema.FinalNewlineMatches | app/parsers/serialization.py:271-278 | a version followed by a newline passes the version pattern |
| Schema.OtherDigitsMatch | app/parsers/serialization.py:271-278 | so does a version in digits of another script |
| Schema.IntegralFloatRefused | app/parsers/serialization.py:303-304 | a float without a fractional part is refused as an integer |
| Schema.MatchesIff | app/parsers/serialization.py:271-278 | the version pattern accepts exactly a version, or a version followed by a newline |
| Schema.VersionIff | app/parsers/serialization.py:40-44 | a version is exactly three non-empty runs of decimal digits, of any script, separated by dots |
| Serialization.DeserializeFingerprint | app/parsers/serialization.py:124-189 | the checks run in the order of the specification, the unhashable version included |
| Serialization.OutcomesExactly | app/parsers/serialization.py:142-189 | exactly when each documented error is raised, when a fingerprint comes out, when the undocumented exception escapes, and that the model's own validation error never does |
| Serialization.SchemaIsModel | app/parsers/serialization.py:26-68 | version 1.0.0 data conforms to the schema if and only if the domain model accepts it, knows all its fields, and both addresses are non-empty |
| Serialization.FieldAgrees | app/models/domain.py:31-54 | the same field by field |
| Serialization.V1IsStandard | app/parsers/serialization.py:26-68 | a document is valid by the standard against the version 1.0.0 schema if and only if it conforms and its version neither ends in a newline nor has a digit outside ASCII; with version 1.0.0 the two agree |
| Serialization.PropertyIsStandard | app/parsers/serialization.py:36-66 | the same field by field |
| Serialization.ConstructedIsValid | app/models/domain.py:31-54 | whatever the domain model accepts is a valid object |
| Serialization.AcceptedExactly | app/models/domain.py:31-54 | what the domain model accepts in each field, limits and lists written out |
| Serialization.WrittenExactly | app/parsers/serialization.py:90-121 | which attribute is written to which field |
| Serialization.DeserializedKeepsData | app/parsers/serialization.py:157-189 | a deserialized fingerprint, written out again, has every field of the data unchanged |
| Serialization.DeserializedDefaults | app/models/domain.py:31-54 | fields the data leave out read as null, an empty object, or the status "complete" |
| Serialization.RoundTrip | app/parsers/serialization.py:90-189 | reading back a written valid fingerprint gives it exactly when its version is 1.0.0 and both addresses are non-empty, else the error of the first failing check |

## Left out

- Sockets, packet capture, HTTP routing, database sessions, JWT and password hashing, WebSockets and logging: input and output.
- Cancelling a topology flush between its snapshot and its commit, and the flush without a database: both drop the snapshot, so conservation is stated for a database flush that commits or fails with an ordinary exception.
- Writing topology rows one by one: a failed flush is modelled as having written nothing, which is what its transaction guarantees.
- The node list, the stale flag and the last-updated time of a topology query.
- Cancelling the sniffer's flush in the middle, which keeps the already committed entries in the buffer.
- Pipeline handlers overlapping for one new device: look-up and merge are separate database calls, so the alert theorems are about handlers that run one at a time, without administrative edits or deletions in between.
- A failing persist handler of the change detector, which ends a handler after some of its alerts and before its merge.
- Alert severities, texts and identifiers.
- Risk scores, peer counts and the alerts they raise.
- Fingerprint fields the alert and inventory decisions never read; the stored fingerprint is an opaque value.
- The result objects, last results and status text of scan jobs, and the names and schedules in their configuration.
- Cron validation: it depends on a library and inspects a single gap between two occurrences.
- Executors that swallow cancellation: a cancelled scan is taken to end cancelled.
- Concurrent logins: the limit check and the recording are separate database calls, so the window theorem is about logins handled one at a time.
- The EtherNet/IP parser and its port are dispatched to but not modelled: a ladder of bounds checks.
- Fragmented IP packets and VLAN tags, which the sniffer does not interpret either.
- Printing and parsing JSON text: serialization is between fingerprints and JSON values; member names are strings.
- Python's equality between numbers and booleans in an `enum`: the modelled enumerations list strings and null, as the schema's do.
- Binary fields given as bytes, which the domain model does not admit.
- Duplicate keys in JSON text: the parser of the text has already kept the last.
- Modbus.BuildParseResult: does not state the entries of the protocol data beyond the object dictionary, the unit, the device identification code and the conformity level.
- DeviceRepositories.DeviceRepository.UpdateDeviceAttribute: takes a field from the closed list of updatable ones, so the error for an unknown field name is not modelled.
