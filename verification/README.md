# Clipp: a verified model of its replication core

Clipp shares a clipboard and a set of named registers between the devices of one person. This
project models the parts of it that have to be right when devices crash, clocks drift, frames are
cut short and threads interleave, and proves what they promise:

* the **named-register engine** -- records stamped by a hybrid logical clock, merged last-writer-wins,
  expired lazily, deleted by tombstone, exchanged by digest and push, encoded for the wire, sealed to
  disk and merged back in;
* the **clipboard activity store** -- a list sorted by event time with deduplication, relocation and
  limits;
* the **outgoing-peer reconciler** over the peer table, and the loop that wakes it;
* the **snapshot writer** -- the dirty-flag protocol between the threads that change the store and the
  one that saves it;
* the **reserved-ahead floors** that keep sequence numbers and register stamps monotone across crashes;
* and five small algorithms: the glob matcher, the UTF-8 decoder with its folding pass, the mesh-map
  report, the keystroke compiler and the binary value header.

## How the model is built

Each source file has a module. Objects whose methods update fields are classes with those fields;
loops are loops. Beside them stand the same operations as functions of a state value. Every method is
proved to compute its function, and the theorems are about the functions: over single steps, over
traces (`IsRun` says that each state follows from the one before it) or, for networks and threads,
over step relations that allow every interleaving. What an operation does is said once more without
its function's own words: as laws (`RegisterLaws`), byte positions (`WireLayout`), or relations between
inputs and results.

Conventions. Bytes are integers below 256 and byte strings are sequences of them; in the mesh-map
report each byte is one `char`. Shifts and masks are written as division and remainder. Where 64-bit
wrap-around matters it is explicit: `HybridClock.Tick`, `ActivityLimits.SaturatedTotal`,
`SettingsFloors.Wrap`, the count field of a sealed snapshot, `Netmap.Add64`. The store reads the wall
clock once an operation, as the parameter `now`. The cipher is a parameter, assumed to undo itself and
to accept nothing it did not produce (`SealedSnapshot.Ideal`). A save replaces the file atomically.

Hypotheses that carry weight are part of the statements, and where one of them is needed a lemma says
so: the clock's counter does not wrap (`ClockBound.FreshWriteIsTheJoin` shows the in-place write is
the join exactly then); time does not run backwards where expiry matters
(`LazyExpiry.SteppingBackRevives`). That one stamp means one write is not assumed: where two hosts
minted a stamp in the same millisecond, the results about anti-entropy say exactly what follows.

## What is promised but not so

* `GlobMatch` is exact on strings without a `*`, and on no others: for each string with a star some
  pattern is answered wrongly (`Glob.ExactlyStarFreeStrings`). Register names cannot contain one.
* A comment says that an over-cap record is encoded as nothing and skipped when sealing. The encoder
  never fails; such a record is written to the file and dropped when it is read
  (`RegisterWire.ReadBackIffInCap`, `RegisterPersistence.OpenedSealed`).
* A snapshot of more than 65535 records is sealed without complaint and never opens again. Only live
  values are capped, tombstones are not (`RegisterPersistence.SaveThenLoad`).
* The byte limit of the activity store keeps too much when the true total passes 2^64 - 1
  (`ActivityLimits.SaturationIsTheOnlyLoss` over all limits; `ActivityLimits.KeepsTooMuchExactly` is the
  exact condition for one).
* An address change that was undone when its restart comes, the timer's or any other, leaves the wrong
  fingerprint recorded, and a later move to that fingerprint is not announced.
  `RuntimeWake.MissedExactlyAfterUndone` says exactly which changes are missed over any run,
  `RuntimeWake.RestartRecordsFingerprint` exactly which restarts record the wrong one, and
  `RuntimeWake.UndoneChangeHidesTheNext` gives the runs.
* Stamps are to be tiebroken by host so that replicas converge (docs/REGISTERS-PLAN.md:23-31). The merge
  does that, but a digest names no host (src/RegisterStore.cpp:357-360): when two hosts write a name in
  one millisecond, neither need ever be sent the other's write (`AntiEntropy.SameMillisecond`). Three
  half-exchanges leave two stores agreeing if and only if the digests hide no such tie
  (`AntiEntropy.ThreeHalfExchangesConverge`). Two rounds of pulls among any number of replicas are sure
  to heal a name if and only if one write alone has the top stamp or every record touched last is the
  winning write (`MeshTie.SureToHealExactly`).
* The register plan (docs/REGISTERS-PLAN.md:196-209) has two daemons converge by one digest each way on
  connecting. Ties aside their values do, and their touches do if and only if no fresher touch sits on
  an older write that the digest hides (`AntiEntropy.ConnectExact`, for every moment at which the second
  side may answer; `AntiEntropy.TwoHalfExchangesDoNot` gives two stores). Ties aside, a third
  half-exchange settles that, and two rounds do for any number of replicas (`MeshHeal.TwoRoundsHeal`).
* The cap on registers is said to be exact and to bound memory (docs/REGISTERS-PLAN.md:36-43). Writes made
  on a device respect it exactly (`CountCap.CapIsExact`, `CountCap.RunCapped`); records merged in and
  tombstones are not bounded by it (`CountCap.MergesAreNotCapped`, `CountCap.TombstonesPileUp`).
* A binary header is said to parse from a listing's preview as well (src/RegisterWire.h:54-57). It does if
  and only if the preview holds the whole header (`BinaryValue.PreviewParsesAlike`).

## Limits the source states, made exact

* A listener call that comes when the writer has made its final check waits for the next start
  (src/RegisterPersistenceRuntime.cpp:178-186). The file a stop leaves is complete if and only if the
  mark was set at that check or nothing was missing (`SnapshotWriter.FinalCheckExact`).
* A deleted value can come back from a replica that was out of touch (docs/REGISTERS-PLAN.md:70-75): if
  and only if its copy outlives the idle tombstone (`StickyDelete.ResurrectsExactly`), and then never as
  a write the replica had met while the tombstone stood (`MeshExpiry.OnlyTheUnmetComeBack`).

## Model

| member | source | states |
|---|---|---|
| `HybridClock.TickAdvances` | src/Hlc.cpp:34-45 | a minted stamp is above everything generated or witnessed if and only if the counter does not wrap |
| `HybridClock.TickIsLeast` | src/Hlc.cpp:34-45 | and it is the least stamp above the mark whose wall clock is not behind the reading |
| `HybridClock.HlcClock.Now` | src/Hlc.cpp:34-45 | minting moves the clock to the minted stamp, above the old one unless the counter wraps |
| `HybridClock.HlcClock.Witness` | src/Hlc.cpp:47-49 | the clock becomes the later of itself and what was seen |
| `HybridClock.HlcClock.SeedFloor` | src/Hlc.cpp:51-53 | the clock becomes the later of itself and the floor |
| `HybridClock.PackUnpack` | src/Hlc.cpp:7-23 | unpacking undoes packing for every stamp |
| `HybridClock.UnpackPack` | src/Hlc.cpp:7-23 | packing undoes unpacking for every 16 bytes |
| `HybridClock.PackPreservesOrder` | src/Hlc.h:15-32 | packed stamps compare as byte strings exactly as the stamps compare |
| `HybridClock.Pack` | src/Hlc.cpp:7-14 | the loop writes the big-endian encoding |
| `HybridClock.Unpack` | src/Hlc.cpp:16-23 | the loop reads it |
| `RegisterMerge.ValueOrderTotal` | src/RegisterStore.cpp:16-21 | the value order is a strict total order on all a record holds but its touch |
| `RegisterMerge.ValueOrderTransitive` | src/RegisterStore.cpp:16-21 | and transitive |
| `RegisterMerge.MergeLaws` | src/RegisterStore.cpp:59-64 | merging is commutative, associative and idempotent for all records of a name, forged ones included |
| `RegisterMerge.LaterWinsThenHigherHost` | src/RegisterStore.cpp:16-21 | the later stamp wins, of one stamp the higher host, then the higher flags and value: the merge has the greater of the byte strings stamp, host, flags, value, and the later touch |
| `RegisterMerge.JoinIsGreatest` | src/RegisterStore.cpp:59-64 | the join of any set of records is its greatest in that order of byte strings, with its latest touch |
| `RegisterMerge.JoinUnique` | src/RegisterStore.cpp:59-64 | a set of records has one join |
| `RegisterMerge.JoinUnion` | src/RegisterStore.cpp:59-64 | merging the joins of two sets is the join of their union |
| `RegisterMerge.FoldIsJoin` | src/RegisterStore.cpp:59-64 | folding any list of deliveries is the join of the set delivered |
| `RegisterMerge.FoldOrderIrrelevant` | src/RegisterStore.cpp:59-64 | so neither order nor duplication matters |
| `RegisterMerge.ExpiryMonotone` | src/RegisterStore.cpp:50-57 | expiry is permanent as time passes and a later touch only postpones it |
| `RegisterName.IsValidRegisterName` | src/RegisterStore.cpp:25-48 | the loop over code points decides validity |
| `RegisterName.ValidExact` | src/RegisterStore.cpp:25-48 | a name is valid if and only if it is 1 to 64 bytes that spell scalar values with no control character, no `?`, `*` or `/`, and no space at either edge |
| `RegisterName.ValidHasNoStar` | src/RegisterStore.cpp:42-44 | a valid name contains no `*` |
| `Utf8.DecodeExact` | src/platform.h:295-356 | decoding accepts exactly the encodings of Unicode scalar values (sections 3 and 4 of RFC 3629) |
| `Utf8.DecodesGrammar` | src/platform.h:295-356 | the decoder takes a prefix if and only if the octet grammar of section 4 of RFC 3629 does, and returns the value of its bits |
| `Utf8.DecodedIsEncoded` | src/platform.h:358-374 | what is decoded is the encoding of the code point returned |
| `Utf8.EncodedDecodes` | src/platform.h:358-374 | every encoded scalar value decodes to itself, whatever follows |
| `Utf8.DecodeUtf8CodePoint` | src/platform.h:295-356 | the decoder advances past one code point, or one byte when the text is malformed |
| `Utf8.FoldKeepsRun` | src/platform.h:427-449 | folding neither adds nor removes continuation bytes in front of a text, so it never completes a malformed sequence |
| `Utf8.FoldIdempotent` | src/platform.h:427-449 | folding twice is folding once, on every byte string |
| `Utf8.FoldReplaces` | src/platform.h:376-425 | folding any text of scalar values turns each typographic apostrophe into 0x27, double quote into 0x22, space into 0x20 and dash into 0x2D, and leaves every other one |
| `Utf8.FoldOfMalformed` | src/platform.h:434-437 | a byte that starts nothing well-formed is kept |
| `Utf8.FoldKeyDerivationTextVariants` | src/platform.h:427-449 | the loop folds token by token |
| `Glob.GlobMatch` | src/Cli.cpp:720-730 | the backtracking loop terminates and computes its run; on star-free strings it decides the glob relation |
| `Glob.RunCorrect` | src/Cli.cpp:720-730 | remembering only the last star loses nothing when the string has no star |
| `Glob.StarInStringFails` | src/Cli.cpp:724-725 | every string with a star has a pattern the matcher answers wrongly |
| `Glob.ExactlyStarFreeStrings` | src/Cli.cpp:720-730 | the matcher is exact for all patterns if and only if the string has no star |
| `Glob.RegisterNamesMatchExactly` | src/Cli.cpp:1255-1255 | so it is exact on register names |
| `TypePlan.BuildTypeSchedule` | src/TypePlan.cpp:13-42 | the nested loops compute the schedule |
| `TypePlan.ReplayIsLegal` | src/TypePlan.cpp:13-42 | no key is pressed while down or released while up and nothing is down at the end, if and only if no chord's key is one of its own modifiers |
| `TypePlan.CharactersTyped` | src/TypePlan.cpp:34-35 | at each chord's key press exactly that chord's modifiers are down |
| `TypePlan.OtherEventsAreModifiers` | src/TypePlan.cpp:20-33 | every other event is a modifier of the plan |
| `TypePlan.MaximalRunsExact` | src/TypePlan.cpp:20-33 | the runs counted are the maximal runs of consecutive chords sharing a modifier |
| `TypePlan.ScheduleLength` | src/TypePlan.cpp:13-42 | the event count is two a chord and two a maximal run |
| `TypePlan.NewestReleasedFirst` | src/TypePlan.cpp:21-26 | of two modifiers released together the one released first went down after the other |
| `RegisterState.SelectFacts` | src/RegisterStore.cpp:289-300 | a listing holds exactly the named records, once each, ascending by name |
| `RegisterState.StepKeyed` | src/RegisterStore.cpp:114-422 | every operation keeps each record under its own name |
| `RegisterLaws.UpsertLaw` | src/RegisterStore.cpp:114-146 | a write stores the value, host and flags but the tombstone bit, stamped now, or is refused for exactly one of the three reasons; other names keep what they show |
| `RegisterLaws.ReadLaw` | src/RegisterStore.cpp:189-209 | a read answers if and only if a live value is there, and touches it |
| `RegisterLaws.DeleteLaw` | src/RegisterStore.cpp:211-236 | a delete puts an empty tombstone in place of a live value, and does nothing without one |
| `RegisterLaws.MirrorLaw` | src/RegisterStore.cpp:262-274 | the mirror holds the clipboard value, from this host, without flags |
| `RegisterLaws.WriteThenRead` | src/RegisterStore.h:117-133 | what is written is read back, and what is deleted is not |
| `RegisterLaws.FetchLaw` | src/RegisterStore.cpp:326-337 | a fetch shows the unexpired record, tombstones too, and touches nothing |
| `RegisterLaws.ApplyLaw` | src/RegisterStore.cpp:389-422 | merging joins the incoming record, if unexpired, to what is shown, witnesses its stamps, and reports a change exactly when what is shown changes |
| `RegisterLaws.HeardCallsChange` | src/RegisterStore.cpp:424-440 | the listeners hear of no call that changes nothing |
| `RegisterLaws.ListLaw` | src/RegisterStore.cpp:289-300 | the list holds exactly the live records, the mirror too, ascending by name |
| `RegisterLaws.ListNamesLaw` | src/RegisterStore.cpp:276-287 | the names are those of the live records |
| `RegisterLaws.SnapshotLaw` | src/RegisterStore.cpp:302-324 | snapshot and digest hold exactly the unexpired records but the mirror, tombstones too |
| `RegisterLaws.LookupFirst` | src/RegisterStore.cpp:343-348 | of several digest entries for a name the first counts |
| `RegisterLaws.PushLaw` | src/RegisterStore.cpp:339-365 | pushed is exactly what the peer lacks, or holds written earlier, or written alike but touched earlier |
| `RegisterStore.RegisterStore.constructor` | src/RegisterStore.cpp:66-73 | a new store is empty with the clock at zero |
| `RegisterStore.RegisterStore.PruneExpired` | src/RegisterStore.cpp:91-100 | the erase loop leaves exactly the unexpired records |
| `RegisterStore.RegisterStore.LiveCount` | src/RegisterStore.cpp:102-112 | the loop counts unexpired values other than the mirror |
| `RegisterStore.RegisterStore.UpsertLocked` | src/RegisterStore.cpp:114-146 | the whole new state and result of a write, refusals included |
| `RegisterStore.RegisterStore.Upsert` | src/RegisterStore.cpp:148-174 | the write, with the listeners called exactly when it succeeds |
| `RegisterStore.RegisterStore.UpsertWithFlags` | src/RegisterStore.cpp:176-187 | the same keeping all value flags but the tombstone bit |
| `RegisterStore.RegisterStore.Read` | src/RegisterStore.cpp:189-209 | a read drops an expired record, hides a tombstone, and otherwise re-stamps the touch |
| `RegisterStore.RegisterStore.DeleteLocked` | src/RegisterStore.cpp:211-236 | the whole new state and result of a delete |
| `RegisterStore.RegisterStore.Delete` | src/RegisterStore.cpp:238-260 | the delete, with the listeners called exactly when it succeeds |
| `RegisterStore.RegisterStore.MirrorDefault` | src/RegisterStore.cpp:262-274 | the mirror record is overwritten |
| `RegisterStore.RegisterStore.ListNames` | src/RegisterStore.cpp:276-287 | prunes and lists the live names in order |
| `RegisterStore.RegisterStore.List` | src/RegisterStore.cpp:289-300 | prunes and lists the live records in order |
| `RegisterStore.RegisterStore.Digest` | src/RegisterStore.cpp:302-312 | prunes and lists the stamps of every record but the mirror |
| `RegisterStore.RegisterStore.SnapshotForSync` | src/RegisterStore.cpp:314-324 | prunes and lists every record but the mirror, tombstones included |
| `RegisterStore.RegisterStore.GetForBroadcast` | src/RegisterStore.cpp:326-337 | fetches a record without touching it, dropping it if expired |
| `RegisterStore.RegisterStore.RecordsToPush` | src/RegisterStore.cpp:339-365 | prunes and lists the records the digest shows to be missing or stale |
| `RegisterStore.RegisterStore.PlanPush` | src/RegisterStore.cpp:367-375 | their names |
| `RegisterStore.RegisterStore.ApplyRemoteLocked` | src/RegisterStore.cpp:389-422 | the whole new state and result of merging a record in |
| `RegisterStore.RegisterStore.ApplyRemote` | src/RegisterStore.cpp:377-387 | the merge, with the listeners called exactly when something changed |
| `RegisterStore.RegisterStore.SeedClockFloor` | src/RegisterStore.cpp:442-445 | lifts the clock and nothing else |
| `RegisterStore.SilentRecords` | src/RegisterStore.cpp:91-422 | what a call can have done to the records when the listeners do not hear of it |
| `RegisterStore.SilentCallsChangeNothing` | src/RegisterStore.cpp:424-440 | no call changes the replicated records without the listeners hearing of it |
| `CountCap.CapIsExact` | src/RegisterStore.cpp:114-131 | a write of a good name and size is refused if and only if it would take the live count past the cap and make it grow |
| `CountCap.StepCapped` | src/RegisterStore.cpp:114-146 | no call made on the device takes the live count past the cap, or makes it grow when it is past it |
| `CountCap.RunCapped` | docs/REGISTERS-PLAN.md:41-43 | over every run of such calls the live count stays within the cap |
| `CountCap.MergesAreNotCapped` | src/RegisterStore.cpp:389-422 | a live record of a new name is merged in whatever the count |
| `CountCap.TombstonesPileUp` | src/RegisterStore.cpp:102-112 | writing and deleting names one by one leaves a record for each with nothing live |
| `LazyExpiry.EveryStepAlike` | src/RegisterStore.cpp:91-422 | an operation on the store and on its pruned copy give the same answer and alike states |
| `LazyExpiry.LazyRefinesEager` | src/RegisterStore.cpp:91-422 | over every run with monotone time, dropping on access answers every call but PhysicalCount like a store that prunes before each call |
| `LazyExpiry.SteppingBackRevives` | src/RegisterStore.cpp:50-57 | with the clock stepped back an expired record is alive again |
| `ClockBound.StepBounded` | src/RegisterStore.cpp:114-422 | every operation keeps the clock at or above every resident stamp unless the counter wraps |
| `ClockBound.RunBounded` | src/RegisterStore.cpp:114-422 | so it holds throughout a run |
| `ClockBound.FreshWriteIsTheJoin` | src/RegisterStore.cpp:133-145 | assigning a fresh write outright is the join with every record the clock bounds, if and only if the counter did not wrap |
| `ClockBound.RefreshIsTheJoin` | src/RegisterStore.cpp:189-209 | refreshing the touch in place is the join |
| `StickyDelete.StepGuarded` | src/RegisterStore.cpp:114-422 | a record written at or after a stamp is not replaced by an older one while unexpired |
| `StickyDelete.StepAnswers` | src/RegisterStore.cpp:189-365 | and no answer shows an older value of that name |
| `StickyDelete.DeleteSticks` | src/RegisterStore.cpp:211-236 | after a delete stamped ts, no call of any run with monotone time returns a value of that name written before ts until the replica's own record expires, and each state's record is touched no earlier |
| `StickyDelete.OlderCopyRefusedExactlyUntilExpiry` | src/RegisterStore.cpp:389-422 | an older copy is refused if and only if the resident record has not expired |
| `StickyDelete.ResurrectsExactly` | docs/REGISTERS-PLAN.md:70-75 | a deleted value is read again from a merged copy if and only if the tombstone has been idle for the whole limit and the copy has not |
| `MeshExpiry.AlwaysDominates` | src/RegisterStore.cpp:389-422 | with expiry in force and one monotone clock, in every interleaving each replica's unexpired record is made of writes that reached it and is above every unexpired one of them |
| `MeshExpiry.SameWritesSameRecordAlive` | src/RegisterStore.cpp:59-64 | replicas reached by the same writes of a name hold the same record, the join of them all, as long as the newest write is unexpired |
| `MeshExpiry.VictimStaysDown` | docs/REGISTERS-PLAN.md:51-53 | a tombstone never expires before its victims: what stands over a write that reached the replica stands, or yields to something newer, as long as that write is unexpired |
| `MeshExpiry.OnlyTheUnmetComeBack` | docs/REGISTERS-PLAN.md:70-75 | when an older value replaces a newer one, every write that had reached the replica has expired |
| `Convergence.AlwaysJoins` | src/RegisterStore.cpp:389-422 | in every interleaving of local calls and deliveries each replica's record of a name is the join of all it originated or received |
| `Convergence.SameWritesSameRecord` | src/RegisterStore.cpp:59-64 | replicas that saw the same records of a name hold the same record, in whatever order and however often |
| `Convergence.RecordIsTheFold` | src/RegisterStore.cpp:59-64 | and it is the merge fold of any listing of them |
| `AntiEntropy.PullAt` | src/RegisterStore.cpp:339-422 | the effect of one half-exchange on each name |
| `AntiEntropy.ThreePullsOne` | src/RegisterStore.cpp:339-422 | three half-exchanges on one name end equal, on the join, if and only if the listings hide no tie |
| `AntiEntropy.ThreeHalfExchangesConverge` | src/RegisterStore.cpp:302-422 | three half-exchanges between any two stores, with any part of each digest missing, leave them agreeing, on the pointwise join of their unexpired records, if and only if the listings hide no two writes of one stamp |
| `AntiEntropy.PushedExactly` | src/RegisterStore.cpp:339-365 | an answer carries the record of a name if and only if the digest shows it to be missing or stale |
| `AntiEntropy.ConnectExact` | src/Peer.cpp:458-475 | after one digest each way between any two stores both hold the joined values if and only if no tie is hidden, and they agree, on the pointwise join, if and only if besides no fresher touch was left on an older write, for any cut of the digests and any progress of the first answer when the second is made |
| `AntiEntropy.TwoHalfExchangesExact` | src/RegisterStore.cpp:339-422 | when the second side answers last the stores agree if and only if no tie is hidden and no listed name has its older write touched last on the first-answering side |
| `AntiEntropy.CrossedAnswersExact` | src/RegisterStore.cpp:339-422 | when both answer before merging they agree if and only if that holds on both sides |
| `AntiEntropy.TwoHalfExchangesDoNot` | src/RegisterStore.cpp:357-360 | two stores that exchange whole digests each way, in sequence or crossed, and stay different |
| `AntiEntropy.SameMillisecond` | src/RegisterStore.cpp:357-360 | two empty stores that write a name in one millisecond keep their different writes through every exchange of whole digests |
| `MeshHeal.TwoRoundsHeal` | src/RegisterStore.cpp:302-422 | any number of replicas with any contents, pulling from one another in any order with digests cut anywhere, hold exactly the join of what all held of every name on which no tie can hide, once each has pulled from every other twice over |
| `MeshHeal.HealedAgree` | src/RegisterStore.cpp:302-422 | so all of them agree on every such name |
| `MeshTie.SureToHealExactly` | src/RegisterStore.cpp:302-422 | every plan of two rounds ends with all replicas holding the join of a name if and only if no tie can hide: one write alone has the top stamp, or every record touched last is the winning write |
| `MeshTie.HidingPlan` | src/RegisterStore.cpp:357-360 | where a tie can hide, a plan of two rounds with whole digests that leaves a replica with the losing write |
| `RegisterWire.RecordRoundTrip` | src/RegisterWire.cpp:142-194 | decoding undoes encoding for in-cap records, whatever the transport and reserved bytes |
| `RegisterWire.RecordExact` | src/RegisterWire.cpp:159-194 | an accepted record body is the encoding of what it decodes to |
| `RegisterWire.RecordInjective` | src/RegisterWire.cpp:142-157 | encoding is one-to-one on in-cap records |
| `RegisterWire.ReadBackIffInCap` | src/RegisterWire.cpp:142-194 | a record of an admissible name is read back if and only if its value is within the cap |
| `RegisterWire.DigestRoundTrip` | src/RegisterWire.cpp:196-233 | a digest arrives as its first 1024 entries |
| `RegisterWire.DigestExact` | src/RegisterWire.cpp:213-233 | an accepted digest body is the encoding of what it decodes to |
| `RegisterWire.NameExact` | src/RegisterWire.cpp:235-253 | a name body is accepted if and only if it is the encoding of the in-cap name it decodes to |
| `RegisterWire.ListRoundTrip` | src/RegisterWire.cpp:255-309 | a listing arrives as its first 1024 entries with previews and host names clipped |
| `RegisterWire.ListExact` | src/RegisterWire.cpp:281-309 | an accepted listing body is the encoding of what it decodes to |
| `WireLayout.RecordLayout` | src/RegisterWire.cpp:142-158 | where every field of a record body stands, byte by byte |
| `WireLayout.EntryLayout` | src/RegisterWire.cpp:204-209 | where every field of a digest entry stands |
| `WireLayout.DigestLayout` | src/RegisterWire.cpp:196-211 | version, count and entries of a digest body, cut at 1024 |
| `WireLayout.NameLayout` | src/RegisterWire.cpp:235-241 | version, length and name of a name body |
| `WireLayout.ListEntryStart` | src/RegisterWire.cpp:255-280 | where the name, touch and size of a listing entry stand |
| `WireLayout.ListEntryEnd` | src/RegisterWire.cpp:255-280 | where its host, flags, clipped preview and clipped device name stand |
| `WireLayout.FileLayout` | src/SealedSnapshot.cpp:62-93 | a snapshot file is magic, version, nonce and the cipher's output for the frame |
| `WireLayout.FrameLayout` | src/SealedSnapshot.cpp:65-81 | the frame is the count modulo 2^32 and the length-prefixed records |
| `WireCursor.EncodeRecordBody` | src/RegisterWire.cpp:142-157 | appending field by field writes the encoding |
| `WireCursor.EncodeDigestBody` | src/RegisterWire.cpp:196-211 | the loop writes the encoding of the first 1024 entries |
| `WireCursor.EncodeNameBody` | src/RegisterWire.cpp:235-242 | writes the encoding of a name |
| `WireCursor.EncodeListBody` | src/RegisterWire.cpp:255-279 | the loop writes the encoding of a listing |
| `WireCursor.TryDecodeRecord` | src/RegisterWire.cpp:159-194 | total on all bytes: accepts exactly the record bodies and returns the record |
| `WireCursor.TryDecodeDigest` | src/RegisterWire.cpp:213-233 | total on all bytes: accepts exactly the digest bodies and returns the entries |
| `WireCursor.TryDecodeName` | src/RegisterWire.cpp:244-253 | total on all bytes: accepts exactly the name bodies |
| `WireCursor.TryDecodeList` | src/RegisterWire.cpp:281-309 | total on all bytes: accepts exactly the listing bodies and returns the entries |
| `WireCursor.Reader.U64` | src/RegisterWire.cpp:67-76 | reads eight bytes big-endian or leaves the cursor where it was |
| `WireCursor.Reader.ReadString` | src/RegisterWire.cpp:93-99 | reads n bytes or leaves the cursor where it was |
| `WireCursor.EncodeRecordBodies` | src/RegisterPersistence.cpp:17-26 | the loop encodes every record, as the anti-entropy answer does too |
| `BinaryValue.ParseLayout` | src/RegisterWire.cpp:121-140 | format and stream are found behind the header of this or any later version |
| `BinaryValue.OnlyLayoutsParse` | src/RegisterWire.cpp:121-140 | nothing else is accepted |
| `BinaryValue.PreviewParsesAlike` | src/RegisterWire.h:54-57 | a prefix of a value parses like the value if and only if it holds the whole header |
| `BinaryValue.EncodeBinaryValue` | src/RegisterWire.cpp:104-119 | writes a version 1 layout |
| `BinaryValue.TryParseBinaryValue` | src/RegisterWire.cpp:121-140 | total on all bytes: the parse of the header |
| `RegisterSync.RelayWriteAndBroadcast` | src/Peer.cpp:428-452 | the new store, the acknowledgement, the reading noted for the floor and the broadcast of a relayed write |
| `RegisterSync.RelayedOrRefused` | src/Peer.cpp:428-452 | a relayed write is taken if and only if it is acceptable: the client's value, flags and host, or a tombstone, stored under this device's stamp, acknowledged, noted and broadcast as stored; otherwise refused with nothing changed or sent on; other names keep what they show |
| `RegisterSync.RelayBit` | src/Peer.cpp:421-457 | the relay bit of the transport flags alone decides between such a request and a record of the mesh |
| `RegisterSync.HandleRegw` | src/Peer.cpp:421-457 | the new store and every effect of a REGW frame, malformed and invalid ones included |
| `RegisterSync.HandleRsyn` | src/Peer.cpp:458-475 | an RSYN frame is answered with one REGW frame for each record the digest shows to be missing or stale and a closing REOS; a malformed one with nothing |
| `RegisterSync.HandleRegisterFrame` | src/Peer.cpp:416-480 | the dispatch by tag; REOS changes nothing |
| `RegisterSync.SentDigestArrives` | src/Peer.cpp:607-615 | the peer decodes the first 1024 entries of the digest sent |
| `RegisterSync.FrameArrives` | src/Peer.cpp:421-457 | a pushed record crosses the wire and is merged in |
| `RegisterSync.SyncFrom` | src/Peer.cpp:458-475 | one half-exchange over bytes is a pull on the cut digest |
| `RegisterSync.Connect` | src/Peer.cpp:607-615 | two stores of any size connect over bytes, each sending its digest once: the values agree if and only if no tie is hidden, and the stores if and only if besides no fresher touch was left on an older write |
| `RegisterSync.RunTravels` | src/main.cpp:426-428 | under the caps the program sets, whatever calls are made and whatever bytes arrive, a store that starts with records its peers will accept, or with none, holds only such records |
| `RegisterSync.LoadTravels` | src/RegisterPersistenceRuntime.cpp:97-117 | and so does one that loads a file such a store saved |
| `RegisterSync.SyncBothWays` | src/Peer.cpp:607-615 | three half-exchanges over bytes leave two stores of any size agreeing on the join of their unexpired records if and only if the digests hide no tie |
| `SealedSnapshot.FrameRoundTrip` | src/SealedSnapshot.cpp:62-151 | a frame is read back if and only if it has at most 65535 records |
| `SealedSnapshot.FrameExact` | src/SealedSnapshot.cpp:124-147 | an accepted plaintext is the frame of what it holds, with nothing after it |
| `SealedSnapshot.OpenUndoesSeal` | src/SealedSnapshot.cpp:62-151 | opening returns the non-empty records, if and only if there are at most 65535 |
| `SealedSnapshot.OnlySealedBlobsOpen` | src/SealedSnapshot.cpp:95-151 | what opens is header, nonce and the encryption of the frame of what it opens to |
| `SealedSnapshot.KindsAreSeparate` | src/SealedSnapshot.cpp:98-103 | a blob of one magic and version never opens as another |
| `SealedSnapshot.Frame` | src/SealedSnapshot.cpp:65-81 | the loop and the patched count write the frame |
| `SealedSnapshot.Seal` | src/SealedSnapshot.cpp:62-93 | builds header, nonce and ciphertext |
| `SealedSnapshot.Unframe` | src/SealedSnapshot.cpp:121-147 | the moving offset reads the frame or rejects it |
| `SealedSnapshot.TryOpen` | src/SealedSnapshot.cpp:95-151 | the checks, the decryption and the frame |
| `RegisterPersistence.OpenedSealed` | src/RegisterPersistence.cpp:46-59 | a snapshot opens to its records except over-cap ones, if and only if it has at most 65535 |
| `RegisterPersistence.DecodeRecords` | src/RegisterPersistence.cpp:28-41 | the loop keeps the decodable records with a name |
| `RegisterPersistence.SealSnapshot` | src/RegisterPersistence.cpp:46-49 | seals the encodings of the records |
| `RegisterPersistence.TryOpenSnapshot` | src/RegisterPersistence.cpp:51-59 | opens a blob to records or refuses it |
| `RegisterPersistence.SaveNow` | src/RegisterPersistenceRuntime.cpp:82-92 | the file holds the sealed snapshot of the store at that moment |
| `RegisterPersistence.LoadIntoStore` | src/RegisterPersistenceRuntime.cpp:97-124 | each record of the file is merged in; a file that does not open is moved aside and the store left alone |
| `RegisterPersistence.SavedFileOpens` | src/RegisterPersistenceRuntime.cpp:82-92 | a saved file opens to the snapshot it was made from |
| `RegisterPersistence.LoadIsTheJoin` | src/RegisterPersistenceRuntime.cpp:94-96 | loading any snapshot, at any time earlier or later, into any store, gives name by name the join of what is unexpired on either side, over-cap values aside; one of more than 65535 records changes nothing |
| `RegisterPersistence.LaterLoadIsTheJoin` | src/RegisterPersistenceRuntime.cpp:94-96 | loaded no earlier than saved and within the caps, that is the pointwise join of the two stores |
| `RegisterPersistence.StaleSnapshotUndoesNothing` | src/RegisterPersistenceRuntime.cpp:94-96 | whatever the bytes of the file, its age, the cipher and the clock, an unexpired resident record stays, touched no earlier, and keeps its write if and only if the file does not open to an unexpired newer write of that name |
| `RegisterPersistence.SaveThenLoad` | src/RegisterPersistenceRuntime.cpp:82-124 | an empty store gets back exactly the replicated records, if and only if there are at most 65535 |
| `RegisterPersistence.LoadLiftsClock` | src/RegisterPersistenceRuntime.cpp:94-96 | loading lifts the clock past every stamp in the file |
| `SnapshotWriter.StepAccounted` | src/RegisterPersistenceRuntime.cpp:126-151 | every step of mutators, listener and writer keeps each unsaved change accounted for, unless it takes a snapshot that will not open with no mark to follow |
| `SnapshotWriter.OverfullIsLost` | src/SealedSnapshot.cpp:127-131 | such a step, taken of more than 65535 records, does lose them |
| `SnapshotWriter.NoLostSnapshot` | src/RegisterPersistenceRuntime.cpp:126-192 | in every interleaving, restarts included, whose snapshots stay within 65535 records, a change missing from the file has its listener call outstanding, or the flag set, or a save in progress that includes it |
| `SnapshotWriter.StopLeavesEverythingInTheFile` | src/RegisterPersistenceRuntime.cpp:241-256 | once the mutators are done and heard, stopping and joining leaves the final replicated records in the file, snapshots staying within the count |
| `SnapshotWriter.FinalCheckExact` | src/RegisterPersistenceRuntime.cpp:126-151 | the file a stopped writer leaves, its snapshot within the count, is complete if and only if the mark was set at its final check or nothing was missing then, up to what expired since |
| `SnapshotWriter.WriterRests` | src/RegisterPersistenceRuntime.cpp:126-143 | after a save has begun the writer waits until a listener is called again |
| `SnapshotWriter.MarkLeadsToSave` | src/RegisterPersistenceRuntime.cpp:126-143 | a marked writer can go on to a file that holds everything |
| `SnapshotWriter.LateMarkStays` | src/RegisterPersistenceRuntime.cpp:178-186 | a listener call after the final check leaves a mark that survives the restart |
| `SnapshotWriter.LateCallMissesTheSave` | src/RegisterPersistenceRuntime.cpp:178-186 | the run in which a stop overtakes a listener call and the file is left incomplete |
| `SnapshotWriter.StartIsALoad` | src/RegisterPersistenceRuntime.cpp:158-176 | loading the bytes of any snapshot at any time is the merge a start makes of the records the file opens to, none when it holds too many |
| `ActivityList.AddKeeps` | src/ClipboardActivityStore.cpp:201-291 | adding keeps the list sorted with distinct ids and one item an event |
| `ActivityList.AddMembers` | src/ClipboardActivityStore.cpp:213-282 | at most one item changes, under its old id, and an echo changes nothing |
| `ActivityList.AddedPlace` | src/ClipboardActivityStore.cpp:213-282 | an addition takes out the old copy of its event, leaves the others in place, and stands behind all older items and before those of its timestamp, under the old id or the next one; the update says which |
| `ActivityList.ListMirrorsArrivals` | src/ClipboardActivityStore.cpp:201-291 | any sequence of stamped arrivals leaves a sorted list holding exactly the newest copy of each event |
| `ActivityList.ContentIgnoresOrder` | src/ClipboardActivityStore.cpp:201-291 | so the content depends only on which copies arrived, not on their order or number |
| `ActivityList.IdsAreStable` | src/ClipboardActivityStore.cpp:218-225 | a listed event keeps its id through any further arrivals |
| `ActivityLimits.SaturatedIsCut` | src/ClipboardActivityStore.cpp:389-397 | saturating addition gives the true total cut at 2^64 - 1 |
| `ActivityLimits.EvictsToFit` | src/ClipboardActivityStore.cpp:399-403 | eviction by an exact running total stops at the longest suffix within the limit |
| `ActivityLimits.KeepsTheLongestSuffix` | src/ClipboardActivityStore.cpp:352-404 | the limits keep exactly the longest suffix of the age survivors that fits, or a single item |
| `ActivityLimits.SaturationIsTheOnlyLoss` | src/ClipboardActivityStore.cpp:385-403 | with two or more items to weigh, that holds for every byte limit if and only if the true total fits in 64 bits |
| `ActivityLimits.KeepsTooMuchExactly` | src/ClipboardActivityStore.cpp:385-403 | for one byte limit the rule is met if and only if no suffix of two or more of the items weighed passes the limit by at most what the saturated total fell short |
| `ActivityLimits.TooOldExactly` | src/ClipboardActivityStore.cpp:364-377 | too old is learned more than the limit ago; zero, or more than the clock can count, is no limit |
| `ActivityLimits.TotalIs` | src/ClipboardActivityStore.cpp:180-186 | the estimated total is 256 bytes an item and the bytes of the payloads |
| `ActivityLimits.LimitedKeeps` | src/ClipboardActivityStore.cpp:352-404 | limits keep the list well formed and the Removed updates are exactly the dropped ids |
| `ActivityLimits.AddSeen` | src/ClipboardActivityStore.cpp:253-271 | the updates of an addition tell a watcher the exact set of ids |
| `ActivityStore.ArriveKeeps` | src/ClipboardActivityStore.cpp:201-291 | adding and then limiting keeps the list well formed, and its updates tell a watcher the exact set of ids |
| `ActivityStore.ArrivalIsLimited` | src/ClipboardActivityStore.cpp:201-291 | after every arrival but an old copy the list is the longest suffix, meeting the count and byte limits, of the old items and the new one learned within the age limit, while their true total fits in 64 bits |
| `ActivityStore.ArrivalUpdates` | src/ClipboardActivityStore.cpp:201-291 | its updates are one Added or Moved for the item, then a Removed for each that went |
| `ActivityStore.NothingArrives` | src/ClipboardActivityStore.cpp:201-221 | a null or empty payload and an old copy change nothing; an old copy answers with the listed id |
| `ActivityStore.ArriveWithoutLimits` | src/ClipboardActivityStore.cpp:364-387 | with the limits off an arrival is exactly an addition |
| `ActivityStore.PagesJoin` | src/ClipboardActivityStore.cpp:303-350 | the page after the last event of a page continues it without gap or repetition |
| `ActivityStore.ReplayNewest` | src/ClipboardActivityStore.cpp:303-350 | without a listed anchor a replay is the newest payloads, oldest first |
| `ActivityStore.ReplayBehind` | src/ClipboardActivityStore.cpp:303-350 | with one it is the payloads behind it |
| `ActivityStore.LowerBoundOf` | src/ClipboardActivityStore.cpp:277-281 | halving finds the first item not older than the timestamp |
| `ActivityStore.RemoveAged` | src/ClipboardActivityStore.cpp:364-377 | the erase loop leaves the items young enough and reports the others in order |
| `ActivityStore.EvictOldest` | src/ClipboardActivityStore.cpp:389-403 | the byte loop drops what the running total says and reports it in order |
| `ActivityStore.ActivityStore.ApplyLimits` | src/ClipboardActivityStore.cpp:352-404 | the three loops compute what the limits leave and the updates |
| `ActivityStore.ActivityStore.AddItem` | src/ClipboardActivityStore.cpp:201-291 | the whole new list, id and updates of an arrival; null, empty and echoed payloads included |
| `ActivityStore.ActivityStore.SetLimits` | src/ClipboardActivityStore.cpp:21-35 | the new limits are applied at once |
| `ActivityStore.ActivityStore.Snapshot` | src/ClipboardActivityStore.cpp:37-51 | limits are applied, then the list is returned |
| `ActivityStore.ActivityStore.Remove` | src/ClipboardActivityStore.cpp:66-90 | exactly the item of that id goes |
| `ActivityStore.ActivityStore.RemoveByEventGuid` | src/ClipboardActivityStore.cpp:92-122 | exactly the item of that event goes; a zero identity matches nothing |
| `ActivityStore.ActivityStore.Clear` | src/ClipboardActivityStore.cpp:124-143 | everything goes, with one update if there was anything |
| `ActivityStore.ActivityStore.PayloadReference` | src/ClipboardActivityStore.cpp:53-64 | finds the payload of a listed id and no other |
| `ActivityStore.ActivityStore.TailEventGuid` | src/ClipboardActivityStore.cpp:293-301 | the identity of an item with the greatest timestamp, or zero |
| `ActivityStore.ActivityStore.ItemsSince` | src/ClipboardActivityStore.cpp:303-350 | the payloads after the anchor, or the newest when there is no anchor |
| `PeerTable.WithoutOne` | src/PeerManager.cpp:166-178 | tearing down a host's only connection frees exactly one slot |
| `PeerTable.PeerManager.AddPeer` | src/PeerManager.cpp:23-70 | adds, finds present or rejects at 127 |
| `PeerTable.PeerManager.RemoveOutgoingPeer` | src/PeerManager.cpp:166-178 | the host's outgoing connections go, its incoming ones stay |
| `ReconcilerState.AddedKeeps` | src/NetworkRuntime.cpp:94-133 | an announcement keeps the invariant: new, moved, waiting or unchanged |
| `ReconcilerState.AdmitKeeps` | src/NetworkRuntime.cpp:201-215 | admitting in host order ends with every slot taken or nobody waiting |
| `ReconcilerState.SweepKeeps` | src/NetworkRuntime.cpp:139-166 | a sweep keeps the invariant |
| `ReconcilerState.RunKeeps` | src/NetworkRuntime.cpp:73-215 | throughout any run pending hosts are tracked, a host is admitted if and only if it has exactly one outgoing connection and that to its tracked endpoint, at most 127 are out, and one waits only while all are taken |
| `ReconcilerState.ConnectedWhereAnnounced` | src/NetworkRuntime.cpp:94-133 | in every run every outgoing connection goes to the endpoint last announced for its host, no host has two, and there are at most 127 |
| `ReconcilerState.PresentIsTracked` | src/NetworkRuntime.cpp:94-215 | a host announced and not reported gone since is tracked, and connected unless all 127 slots are taken |
| `ReconcilerState.GoneIsTornDown` | src/NetworkRuntime.cpp:139-166 | a sweep four seconds after a host was last reported gone, with no announcement since, leaves it untracked and unconnected |
| `ReconcilerState.SweepAdmitsInOrder` | src/NetworkRuntime.cpp:201-215 | freed slots go to waiting hosts in host order |
| `ReconcilerState.IncomingUntouched` | src/PeerManager.cpp:166-178 | incoming connections are neither opened nor closed |
| `ReconcilerState.DeadlinesAreEarned` | src/NetworkRuntime.cpp:82-98 | a deadline is four seconds after the latest departure reported, with no announcement since |
| `ReconcilerState.NoChurn` | src/NetworkRuntime.cpp:41-59 | a live connection is torn down only when its host moves or by a sweep at least four seconds after its latest departure with no announcement since |
| `Reconciler.OutgoingReconciler.OnAdded` | src/NetworkRuntime.cpp:94-133 | the whole new state after an announcement |
| `Reconciler.OutgoingReconciler.OnRemoved` | src/NetworkRuntime.cpp:82-93 | a departure is deferred, and the runtime woken, exactly for a tracked host |
| `Reconciler.OutgoingReconciler.Sweep` | src/NetworkRuntime.cpp:139-166 | the whole new state after a sweep |
| `Reconciler.OutgoingReconciler.AdmitPendingPeers` | src/NetworkRuntime.cpp:201-215 | free slots are filled in host order until one is turned away |
| `Reconciler.OutgoingReconciler.NextRemovalDeadline` | src/NetworkRuntime.cpp:183-190 | the earliest deadline, or none exactly when nothing is pending |
| `RuntimeWake.NothingLeftDue` | src/NetworkRuntime.cpp:393-465 | after a wake nothing is due, so the next deadline is in the future |
| `RuntimeWake.EarlyWakeIsIdle` | src/NetworkRuntime.cpp:393-465 | a wake before anything is due does nothing |
| `RuntimeWake.RestartsAreSpaced` | src/NetworkRuntime.cpp:62-64 | however interfaces flap, discovery is restarted at most once in ten seconds |
| `RuntimeWake.LastAttemptDecides` | src/NetworkRuntime.cpp:424-443 | discovery runs if and only if the last attempt to start it worked, the cooldown counts from that attempt, and a failed one stays pending |
| `RuntimeWake.ChangeStaysPending` | src/NetworkRuntime.cpp:444-449 | a change seen during the cooldown stays pending until a restart succeeds |
| `RuntimeWake.RestartRecordsFingerprint` | src/NetworkRuntime.cpp:401-443 | in every run, every successful restart, the timer's included, records the fingerprint last read if and only if that differs from the one acted on before |
| `RuntimeWake.MissedExactlyAfterUndone` | src/NetworkRuntime.cpp:401-443 | a change of addresses goes unannounced if and only if the last restart was for a change that had been undone, nothing was read since, and the addresses now are the ones it recorded |
| `RuntimeWake.UndoneChangeHidesTheNext` | src/NetworkRuntime.cpp:401-443 | for any times within the cooldown, the run in which a change is undone, the timer restarts, and the same change is then missed |
| `RuntimeWake.NetworkRuntime.ComputeNextWake` | src/NetworkRuntime.cpp:380-391 | there is work to do from the deadline on and no earlier |
| `RuntimeWake.NetworkRuntime.ProcessWake` | src/NetworkRuntime.cpp:393-465 | the whole effect of a wake |
| `NetmapText.ParseDecimal` | src/Cli.cpp:1692-1694 | every 64-bit number is read back from its decimal spelling |
| `NetmapText.ParseLabeled` | src/Cli.cpp:1671-1690 | a printed field is read back and the rest is read after it |
| `NetmapText.ParseName` | src/Cli.cpp:1676-1679 | a name takes the rest of the line with its spaces and equals signs |
| `NetmapText.ParseReportFields` | src/Cli.cpp:1671-1690 | the moving position reads the fields of any text |
| `NetmapText.SplitJoined` | src/Cli.cpp:1793-1800 | splitting undoes joining lines |
| `NetmapText.ScrubFacts` | src/Peer.cpp:1037-1043 | a scrubbed name cannot end its line, and scrubbing again changes nothing |
| `NetmapText.ToHexString` | src/HostId.h:49-68 | the loop writes the grouped hexadecimal identity |
| `NetmapFacts.HexIs` | src/HostId.h:49-68 | an identity is four groups of eight lower-case digits, high digit first |
| `Netmap.PrefixFits` | src/Peer.cpp:1077-1083 | the formatted prefix is at most 158 bytes and is never cut by the 192-byte buffer |
| `Netmap.ReadConn` | src/Cli.cpp:1817-1829 | a connection line reads back as its entry |
| `Netmap.ReadUndoesPrint` | src/Peer.cpp:1046-1087 | the report of any table reads back as one entry for each host shown with its counts, state, age, traffic, system, identity and scrubbed name, and their sums |
| `NetmapFacts.MapTells` | src/Peer.cpp:1046-1087 | for every table the map shows exactly the hosts with a connection besides the one asking, in order, and tells each one's counts, state, age in whole seconds, traffic, system, first eight digits and dotted name in the words of the report, with the sums |
| `NetmapFacts.LineIs` | src/Peer.cpp:1077-1086 | the words of a connection's line |
| `NetmapFacts.ParseSpelled` | src/Cli.cpp:1692-1694 | a number is read behind white space and a sign, up to what is no digit, cut at 2^64 - 1; a minus wraps it (`strtoull` in base ten) |
| `NetmapFacts.UnknownIgnored` | src/Cli.cpp:1790-1839 | lines and keys of other builds are passed over |
| `NetmapFacts.NotAReport` | src/Cli.cpp:1790-1839 | nothing is read of what does not begin as a report |
| `Netmap.PrintReport` | src/Peer.cpp:1045-1087 | the report grows line by line to its body, leaving out the requester's own connection and empty entries |
| `Netmap.ReadReport` | src/Cli.cpp:1790-1839 | the line splitter reads any body, and stops at what is not a report |
| `SettingsFloors.NumberIsReserved` | src/Settings.cpp:274-285 | a number taken is below the floor afterwards if and only if reserving did not wrap |
| `SettingsFloors.ReadingIsReserved` | src/Settings.cpp:302-312 | a reading noted is below the floor afterwards if and only if reserving did not wrap |
| `SettingsFloors.NumbersIncrease` | src/Settings.cpp:274-285 | sequence numbers strictly increase over any run of calls, crashes inside calls, and restarts |
| `SettingsFloors.NumbersConsecutive` | src/Settings.cpp:274-285 | between restarts the numbers are consecutive |
| `SettingsFloors.WritesAreRare` | src/Settings.cpp:278-283 | after a write of the floor the next is at least 500 numbers later |
| `SettingsFloors.StampsIncreaseAcrossRestarts` | src/Settings.cpp:302-312 | every stamp minted after a restart is above every stamp whose reading was noted before it |
| `SettingsFloors.WrappedFloorForgets` | src/Settings.cpp:308-311 | a floor that wraps loses the reading |
| `SettingsFloors.Settings.constructor` | src/Settings.cpp:433-450 | counters start from what storage holds |
| `SettingsFloors.Settings.NextOriginSequenceNumber` | src/Settings.cpp:274-285 | the number, the counter and the floors after a call |
| `SettingsFloors.Settings.NoteRegisterHlcWallMs` | src/Settings.cpp:302-312 | the floors after a call |

## Left out

- Sockets, handshakes, the secure channel, mDNS, key storage and the cipher itself: frames are byte strings, discovery is a sequence of events, and encryption is a parameter.
- Unicode normalisation, wide-character conversion, compression, hashing and the logger: foreign code with no part in these results.
- User interfaces, watcher delivery across threads and terminal rendering: watchers are modelled by the updates they are told.
- RegisterPersistence.LaterLoadIsTheJoin: the usual case of `RegisterPersistence.LoadIsTheJoin`, which has no condition on the times or the count.
- SnapshotWriter.NoLostSnapshot: snapshots stay within 65535 records; `SnapshotWriter.OverfullIsLost` says what happens past that.
- File-system steps inside a save or load: a save is one atomic replacement and succeeds; a file that does not open is gone from its place.
- Several clock reads inside one call: the store reads the clock once an operation, the activity store once a call.
- `SetLimits` and `SetLocalHost` of the register store and a change of network key in mid-run: limits and key are fixed for a run.
- Duration arithmetic of the standard clock library: times are unbounded integers or in range, so the overflow of an absurd age limit does not show.
- Item ids of the activity store: a counter that never reaches 2^64.
- Incoming-connection admission, culling and broadcast of the peer manager: outgoing connections leave only through the reconciler, and incoming ones come and go freely beside it.
- The claim that the runtime thread wakes on time: what it does on waking and when it asks to be woken are modelled, the condition variable is not.
- `EstimateTypeSeconds` and the character counts of a typing plan: one-line sums.
- NetmapFacts.MapTells: as for `Netmap.ReadUndoesPrint`.
- Netmap.ReadUndoesPrint: the version string has no space or newline, because a report line would end its value there; names are compared before conversion to wide characters.
- Convergence.AlwaysJoins: nothing expires during the run, because an expired record is dropped from a replica and the claim is about what was kept; replicas may read different clocks. `MeshExpiry` has expiry in force under one clock.
- Convergence.SameWritesSameRecord: as for `Convergence.AlwaysJoins`.
- Convergence.RecordIsTheFold: as for `Convergence.AlwaysJoins`.
- RegisterSync.HandleRegisterFrame: RGET, RPUT and RLST, which wrap single store operations, are taken as unknown tags; sends succeed.
- RegisterSync.Connect: as for `RegisterSync.SyncBothWays`.
- RegisterSync.SyncBothWays: every replicated record can travel (a valid name and a value within the frame cap), because a reader drops the others; `RegisterSync.RunTravels` and `RegisterSync.LoadTravels` show it of every store the program runs.
- SealedSnapshot.OnlySealedBlobsOpen: that no other key opens a blob is a property of the cipher and is not stated.
