# Protocol and state models of netd, vold and adb

A Dafny model of the parts of three Android system daemons in which several pieces of state have to agree, with proofs of
what every step keeps and of what whole runs guarantee. System calls and external commands appear as outcomes passed in as
parameters, so every theorem ranges over all patterns of success and failure unless it names the exception.

- `Iptables`, `BandwidthLayout`, `BandwidthEdits`, `Bandwidth`, `BandwidthBook`, `BandwidthAlerts`: netd's bandwidth control.
  The chains are edited one command at a time; the daemon's lists have to agree with them and with a book kept from the
  requests alone, the walk of a packet has to equal a declarative policy, and the kernel has to have the values recorded.
- `TetherStats`: the tethering counter rules and the parser that reads their listing back.
- `SecondaryTables`, `Nat`: reference-counted routing tables, and tethering as a sequence of commands with unwinding.
- `UidMarks`: a user-space index of uid ranges beside a mangle chain that is edited in another order.
- `Ring`, `NetdList`: the sentinel ring under netd's lists, as a refinement of sequences. `FdEvent` uses the same ring.
- `FdEvent`, `FdTurn`: adb's event loop; table, descriptor sets, state bits and pending ring under arbitrary callbacks, and
  the same turn as a function of values.
- `SyncWire`, `SyncServer`, `SyncClient`: adb's file sync; bytes on the wire, the service, the client, and both together.
- `CryptFooter`, `CryptEnable`, `PersistStore`: vold's disk encryption; the key footer over its whole life, in-place
  encryption with its crash points, and the two-copy store beside the footer.
- `Asec`: container images; 32-bit geometry, and creation and mounting as transactions over several resources.
- `DirectVolume`: the barrier over disk and partition events.
- `Util`: sequences without repeats, removal of a first occurrence, 32-bit numbers.

Code that works by changing state is a class with methods; each method is proved against a function of the old state, and the
theorems are lemmas about these functions or contracts of the methods that drive whole runs.

Where the source departs from what it promises, the model follows the source. The table names the input that shows the
departure and the exact condition under which the promise holds, among them: setting an alert again rewrites the old value
(`AlertSetTwice`, `KernelAgreesIff`); an interface called "shared" disarms the shared quota (`QuotaOnShared`,
`SetInterfaceQuota`); quota names joined with an underscore collide (`UnderscoresCollide`, `PairedIffUnambiguous`); a failed
tethering enable leaves a rule that a later enable arms (`LeftoverOpensPair`, `FailedEnable`); disabling a pair that is not
up cuts off one that is (`StrayDisableCutsOff`, `DisableKeepsIff`); only the first external interface is masqueraded
(`SecondPairNotMasqueraded`, `RunMasqueradesIff`); a range added twice puts index and chain apart (`RepeatedRangeDisagrees`,
`RemoveAgreesIff`); a password change without the scrypt link, or with a failing cipher, loses the key, and a wrapped
failure counter accepts a wrong one (`LostMigrationBricks`, `CipherFailureBricks`, `WrongPasswordAccepted`, `StepKeepsIff`);
the outcome of all but the last volume is ignored and short transfers count as success (`EarlierVolumeFailureMasked`,
`ShortTransferUnnoticed`, `EnableInplace`); progress divides by zero on small disks (`EncryptInplace`); the persistent store
seeks with 32 bits (`SaveGoesAstray`, `RegisterIffFits`); long keys are lost (`LongKeyIsLost`); an install on a taken
descriptor displaces its event (`InstallOverTaken`, `Install`); `fdevent_set` clears the bits just requested (`PendingRead`,
`UnwantedStaysSignalled`); the shell-exit handler calls an event twice (`CalledTwice`, `DispatchOnce`); descriptors past the
sets are accepted (`BeyondSets`, `SetsFitIff`); a failed link ends the session (`LinkSent`); read errors on the host go
unnoticed (`SentIsSourceIff`); lengths are read as signed numbers (`HugeLengthOverruns`, `PullOverrunsIff`); files are not
truncated when they cannot be removed (`StoredIsSentIff`); images over 2016 MB do not fit 32-bit offsets (`OffsetsFitIff`);
an ext4 file system can cover the container's superblock (`EightMegabytesCovered`, `Ext4CoversSuperblockIff`); three
failures of a container's creation leave something behind (`CreateAsec`); a partition announced again hides a mount
(`AnnouncedAgain`, `IdleIffAllSeen`).

Verify with `dafny verify dfyconfig.toml`.

## Model

| member | source | states |
|---|---|---|
| BandwidthLayout.WalkEqualsPolicy | system/netd/BandwidthController.cpp:327-471 | For every packet and every table laid out for the lists, walking the chains rejects the packet if and only if its interface has a shared or own quota and the packet is penalised (its uid is naughty, or the happy box is on and its uid is not nice) or a quota that applies to it is exhausted. |
| BandwidthLayout.PenalisedSparesOwnQuota | system/netd/BandwidthController.cpp:504-556 | A packet the penalty box rejects never reaches, and so is never counted by, the quota rule of an interface with its own quota. |
| BandwidthLayout.AcceptedIsCounted | system/netd/BandwidthController.cpp:593-658 | A packet that gets through has been counted by every quota that applies to its interface. |
| BandwidthLayout.PenaltyWalk | system/netd/BandwidthController.cpp:299-357 | Walking the penalty box, and the happy box behind it, rejects exactly the naughty uids and, with the happy box on, the uids that are not nice. |
| BandwidthLayout.SharedWalk | system/netd/BandwidthController.cpp:593-658 | Walking the shared chain rejects exactly the penalised packets and those over the shared quota. |
| BandwidthLayout.OwnWalk | system/netd/BandwidthController.cpp:699-765 | Walking the chain of an interface with its own quota rejects exactly the penalised packets and those over that quota. |
| BandwidthEdits.SpecialAppsMeaning | system/netd/BandwidthController.cpp:399-471 | Adding or removing a list of uids completes if and only if the uids are different and all of them are, respectively, absent or present; the list then gains or loses exactly these and stays free of repeats. |
| BandwidthEdits.SharedNameDisarms | system/netd/BandwidthController.cpp:558-591 | The state setting a quota on an interface called "shared" leads to, and what removing that quota does to it: every packet of an interface that only has the shared quota is let through, exhausted or naughty alike. |
| Bandwidth.BandwidthController.PrepCostlyIface | system/netd/BandwidthController.cpp:504-556 | Puts one jump to the right chain at the head of both top chains, behind the alert if there is one, whether or not a jump was there already, and creates or empties the chain of an interface with its own quota; nothing else changes. |
| Bandwidth.BandwidthController.CleanupCostlyIface | system/netd/BandwidthController.cpp:558-591 | Takes the first such jump out of both top chains and drops the chain of an interface with its own quota, for every name and every table; on a table in order exactly that jump and that chain go. |
| Bandwidth.BandwidthController.SetInterfaceSharedQuota | system/netd/BandwidthController.cpp:593-658 | Keeps chains and lists in step; says when it fails, what the lists become (size -1 means removal) and which quota values are rewritten. After an accepted size netd records it, and the kernel was given it unless it was the recorded size already. |
| Bandwidth.BandwidthController.RemoveInterfaceSharedQuota | system/netd/BandwidthController.cpp:661-697 | Keeps chains and lists in step; the quota and its alert go with the last interface. |
| Bandwidth.BandwidthController.SetInterfaceQuota | system/netd/BandwidthController.cpp:699-765 | Says when it fails, what the lists become and which value the kernel gets; chains and lists stay in step if and only if it is not a quota newly set on an interface called "shared". |
| Bandwidth.BandwidthController.RemoveInterfaceQuota | system/netd/BandwidthController.cpp:789-820 | Exactly the entry of the interface goes and chains and lists stay in step; after a quota set on an interface called "shared" the table is the one the cleanup of that name leaves. |
| Bandwidth.BandwidthController.QuotaOnShared | system/netd/BandwidthController.cpp:699-820 | Setting and then removing a quota on an interface called "shared": the lists are as before, and every packet of an interface that only has the shared quota gets through, exhausted or naughty alike. |
| Bandwidth.BandwidthController.SetCostlyAlert | system/netd/BandwidthController.cpp:1033-1056 | Appends the alert rule, with its value, for a first alert; for a later one it rewrites the value recorded before, not the new one, as the source does. |
| Bandwidth.BandwidthController.SetSharedAlert | system/netd/BandwidthController.cpp:981-991 | Fails without shared interfaces or with size 0; otherwise records the new value, while the kernel is told the old one again. |
| Bandwidth.BandwidthController.RemoveSharedAlert | system/netd/BandwidthController.cpp:993-995 | Removes the alert rule and value; fails exactly when there was none. |
| Bandwidth.BandwidthController.SetInterfaceAlert | system/netd/BandwidthController.cpp:997-1015 | As for the shared alert, for an interface that has a quota. |
| Bandwidth.BandwidthController.RemoveInterfaceAlert | system/netd/BandwidthController.cpp:1017-1031 | Removes the alert of an interface; fails exactly when there was none. |
| Bandwidth.BandwidthController.SetGlobalAlert | system/netd/BandwidthController.cpp:898-917 | Keeps the alert at the head of both top chains exactly when one is set, and in the forward chain exactly when tethering is up too. |
| Bandwidth.BandwidthController.RemoveGlobalAlert | system/netd/BandwidthController.cpp:940-955 | Takes the alert out of all three chains; fails exactly when none was set. |
| Bandwidth.BandwidthController.SetGlobalAlertInForwardChain | system/netd/BandwidthController.cpp:919-938 | Counts tethering up; the alert enters the forward chain with the first, once. |
| Bandwidth.BandwidthController.RemoveGlobalAlertInForwardChain | system/netd/BandwidthController.cpp:957-979 | Counts tethering down, never below zero; the alert leaves the forward chain with the last. |
| Bandwidth.BandwidthController.EnableHappyBox | system/netd/BandwidthController.cpp:327-357 | The happy box stands behind the penalty box with an empty list of nice uids, whatever was there before. |
| Bandwidth.BandwidthController.DisableHappyBox | system/netd/BandwidthController.cpp:359-372 | The happy box and its chain are gone and the list of nice uids is empty. |
| Bandwidth.BandwidthController.ManipulateSpecialApps | system/netd/BandwidthController.cpp:399-471 | An unparsable uid changes nothing; otherwise list and chain follow the uids one by one, up to and including the first that cannot be handled. |
| Bandwidth.BandwidthController.FlushExistingCostlyTables | system/netd/BandwidthController.cpp:1222-1268 | Every costly chain except the shared one is emptied and none is removed. |
| Bandwidth.BandwidthController.EnableBandwidthControl | system/netd/BandwidthController.cpp:250-275 | Succeeds if and only if the shared chain exists; then, whatever the chains held, they are laid out for empty lists. |
| Bandwidth.BandwidthController.Handle | system/netd/BandwidthController.cpp:593-979 | Every request changes the lists as described above, whether it succeeds or not, and keeps the chain layout if and only if it does not set a quota on an interface called "shared". |
| Bandwidth.BandwidthController.Serve | system/netd/BandwidthController.cpp:250-275 | Starts if and only if the shared chain exists. After any sequence of requests chains and lists are in step if and only if none of them sets a quota on an interface called "shared"; then the chain walk equals the policy for every packet and no packet the penalty box rejects reaches the quota rule of an interface. Up to and including the first such request the lists hold exactly what a book of sets and maps kept from the requests alone holds, and the kernel values are those of the run computed without the chains. |
| BandwidthAlerts.KernelAgreesIff | system/netd/BandwidthController.cpp:981-1056 | Over every run of requests in which no other request uses its quota name, an alert threshold in the kernel equals the one recorded if and only if the alert was set once since it was last absent, or its last two values agree. |
| BandwidthAlerts.AlertSetTwice | system/netd/BandwidthController.cpp:1033-1056 | The run that sets an alert to 1 and then to 2: 2 is recorded and the kernel has 1. |
| BandwidthBook.RunMatches | system/netd/BandwidthController.cpp:593-1030 | After enabling and any requests, accepted or not, netd's lists hold exactly what a book of sets and maps holds that is kept from the requests alone: interfaces, sizes, alerts, tethers and uids, each once. |
| BandwidthBook.NoteMatches | system/netd/BandwidthController.cpp:593-1030 | Each request changes the lists as it changes the book, from any lists that match it. |
| BandwidthBook.SharedQuotaInKernel | system/netd/BandwidthController.cpp:622-647 | Over every run in which no other request uses the quota name: while some interface shares it, netd and the kernel both have the size last accepted for the shared quota since its list was last empty, also when a repeated size is not written. |
| BandwidthBook.OwnQuotaInKernel | system/netd/BandwidthController.cpp:725-752 | The same for the quota of an interface. |
| BandwidthBook.GlobalAlertInKernel | system/netd/BandwidthController.cpp:898-938 | The same for the global alert, first tethers included. |
| TetherStats.PairedIffUnambiguous | system/netd/NatController.cpp:256-336 | After any history of successful enables the counter chain is adjacent int-to-ext and ext-to-int rules, one pair of rules for each pair of interfaces in the order the pairs were first enabled, if and only if no two of the rules wanted share a quota name. |
| TetherStats.NamesStayDistinct | system/netd/NatController.cpp:256-336 | No two counting rules ever have the same quota name. |
| TetherStats.CountedIffUnambiguous | system/netd/NatController.cpp:256-336 | Every enabled pair is counted in both directions if and only if no two of the rules wanted share a quota name. |
| TetherStats.PlainNamesUnambiguous | system/netd/NatController.cpp:264 | Interface names without an underscore never share a quota name. |
| TetherStats.UnderscoresCollide | system/netd/NatController.cpp:264-273 | Two pairs whose joined names agree: the second is only half counted. |
| TetherStats.ParseForwardChainStats | system/netd/BandwidthController.cpp:1090-1184 | The loop over the listing computes the replies and the return code of the row-by-row definition, lines that do not parse being skipped. |
| TetherStats.OneLinePerPair | system/netd/BandwidthController.cpp:1090-1184 | For every listing of adjacent pairs and every filter the client gets exactly one line for each pair the filter asks for, with received and sent counts in the direction the filter names, and never a partial entry or an error. |
| TetherStats.UnpairedRowFails | system/netd/BandwidthController.cpp:1151-1184 | Without a filter, a last row without its counterpart is an error after the lines of the others. |
| TetherStats.HistoryReadsBack | system/netd/BandwidthController.h:155-163 | End to end: after any history of enables with unambiguous names, whatever the counts and the filter, each pair is read back once. |
| SecondaryTables.RunKeeps | system/netd/SecondaryTableController.cpp:105-192 | Over every balanced run each slot counts 2 x routes + from-rules + local routes asked for, and a slot that counts something has an interface. |
| SecondaryTables.FreedWithLastItem | system/netd/SecondaryTableController.cpp:182-192 | A slot is given up exactly by the step that takes its last item. |
| SecondaryTables.FailedRouteKeepsSlot | system/netd/SecondaryTableController.cpp:105-122 | A first route that fails leaves its interface in possession of an empty slot. |
| SecondaryTables.RunKeepsOneSlotEach | system/netd/SecondaryTableController.cpp:94-122 | No interface with a name of at most 16 characters ever holds two slots. |
| SecondaryTables.LongNameTakesTwoSlots | system/netd/SecondaryTableController.cpp:94-122 | A longer name is cut off, never found again, and takes a slot each time. |
| SecondaryTables.SecondaryTableController.FindTableNumber | system/netd/SecondaryTableController.cpp:94-103 | The first slot with the name, or -1. |
| SecondaryTables.SecondaryTableController.AddRoute | system/netd/SecondaryTableController.cpp:105-122 | Claims a slot if need be; succeeds exactly when a slot is to be had and the route is new and accepted; then the slot found under the interface has exactly that route more, and no rule or local route of any slot changes. |
| SecondaryTables.SecondaryTableController.ModifyRoute | system/netd/SecondaryTableController.cpp:124-180 | Adds or removes exactly the route, and succeeds exactly when the command can; counts it twice, and only on success. |
| SecondaryTables.SecondaryTableController.ModifyRuleCount | system/netd/SecondaryTableController.cpp:182-192 | Counts up, or down with the slot given up at zero. |
| SecondaryTables.SecondaryTableController.RemoveRoute | system/netd/SecondaryTableController.cpp:220-231 | Succeeds exactly when the interface has a slot and the route is in it, which then lacks exactly that route. |
| SecondaryTables.SecondaryTableController.ModifyFromRule | system/netd/SecondaryTableController.cpp:233-259 | Refuses a free slot; on success exactly that rule is added or removed, and only then is it counted. |
| SecondaryTables.SecondaryTableController.ModifyLocalRoute | system/netd/SecondaryTableController.cpp:261-285 | Refuses a free slot; succeeds exactly when the route is new and accepted, or there to be removed, and then the local routes differ by exactly that one; counts whether or not the command succeeds. |
| Nat.UnwindExactly | system/netd/NatController.cpp:140-199 | After adding addresses with any pattern of failures and unwinding: the from-rules are what they were if and only if no address whose add failed had a rule before; the local routes if and only if none of them was there; the slot keeps its interface exactly when it still counts something. |
| Nat.UnwindRestores | system/netd/NatController.cpp:194-199 | Over fresh addresses everything but the slot name is restored whichever adds failed, and the slot itself exactly when it counted at least 1 before. |
| Nat.FailedEnableRestoresTables | system/netd/NatController.cpp:194-232 | A failed enable over fresh addresses on a table in use restores all tables if and only if a pair is up, or it was the routes that failed, or there was no rule for the flush to take. |
| Nat.FlushKeepsCountsIff | system/netd/NatController.cpp:104-133 | The rule flush of the defaults keeps the slot counts exact if and only if there was no rule. |
| Nat.FailedEnable | system/netd/NatController.cpp:201-232 | A failed enable with pairs up leaves the forward chain in order if and only if the routes or the first forward rule failed, or the pair is new and the second or third forward rule failed. |
| Nat.LeftoverOpensPair | system/netd/NatController.cpp:338-414 | When the counting rules fail, the rule left behind DROP is passed over by the next enable of another pair, and the pair whose enable failed is then let through, invalid packets included. |
| Nat.EnableAppends | system/netd/NatController.cpp:224-253 | A successful enable appends the rules of the pair and keeps one DROP, at the end. |
| Nat.AddAllEffect | system/netd/NatController.cpp:140-163 | Whatever fails, exactly the rules and exactly the local routes whose commands succeeded are added, and the count grows by one for each rule and one for each address. |
| Nat.AddAllSucceedsIff | system/netd/NatController.cpp:140-163 | The loop reports success if and only if no command fails by itself, no address comes twice and none has a local route already. |
| Nat.EnableSucceedsIff | system/netd/NatController.cpp:167-254 | An enable succeeds if and only if its routes do, masquerading does when no pair is up, the three forward rules do, and each counting rule is there under its name or can be added. |
| Nat.EnableAdds | system/netd/NatController.cpp:191-254 | A successful enable puts exactly one rule and one local route for each address into the table of the external interface, leaves the other tables alone, and masquerades that interface when no pair was up. |
| Nat.DisableTakes | system/netd/NatController.cpp:419-445 | On a table whose count covers its rules and the addresses, a disable takes one rule and the local route of each address out of that table and leaves the other tables alone; with the last pair the rules of all tables go. |
| Nat.CountersStick | system/netd/NatController.cpp:256-330 | Counting rules are only ever added, over every run and whatever fails. |
| Nat.FailedEnableCounters | system/netd/NatController.cpp:256-330 | A failed enable leaves one counting rule behind exactly when it got as far as the second one. |
| Nat.DisableKeepsIff | system/netd/NatController.cpp:419-445 | A disable keeps chain, masquerading and count in step with the pairs that are up if and only if its pair is up, or none is; it takes out exactly the rules of its pair, and the last one resets to the defaults. |
| Nat.StrayDisable | system/netd/NatController.cpp:438-443 | Disabling a pair that is not up while others are: the count is one short, and when only one pair was up everything is cut off. |
| Nat.StrayDisableCutsOff | system/netd/NatController.cpp:438-443 | One pair is enabled and another disabled: nothing is forwarded any more. |
| Nat.ForwardPolicy | system/netd/NatController.cpp:338-414 | A chain in order lets through exactly established traffic back into a live pair and traffic out of it that is not invalid. |
| Nat.NextKeeps | system/netd/NatController.cpp:167-445 | Each enable and disable keeps the controller in step with the pairs that are up if and only if it is fair: no pair is disabled that is not up while others are, and an enable beside live pairs that fails does so cleanly. |
| Nat.RunForwardsLivePairs | system/netd/NatController.cpp:167-254 | Over every run of fair enables and disables the chain passes exactly the traffic of the pairs that are up, and the count is the number of them. |
| Nat.RunMasqueradesIff | system/netd/NatController.cpp:201-221 | Over every such run all live pairs are masqueraded if and only if all leave by the external interface of the pair that was enabled while none was up. |
| Nat.SecondPairNotMasqueraded | system/netd/NatController.cpp:201-221 | A second pair with another external interface is forwarded without being masqueraded. |
| Nat.DisableUndoesEnable | system/netd/NatController.cpp:419-445 | Enabling a new pair with fresh addresses beside others and disabling it again changes nothing but the counting rules. |
| Nat.EnablesCountPairs | system/netd/NatController.cpp:256-336 | The counting rules after a run of successful enables are those of the tethering statistics. |
| Nat.NatController.EnableNat | system/netd/NatController.cpp:167-254 | Refuses long names, equal interfaces and missing addresses without a trace; otherwise routes, masquerading, forward rules, counting rules and unwinding follow the outcome of each command. When it returns 0 the table of the external interface, if there is one, has exactly one rule and one local route more for each address, and the other tables are as they were. |
| Nat.NatController.DisableNat | system/netd/NatController.cpp:419-445 | Takes out forward rules and addresses and resets to the defaults when the count reaches zero or less. |
| Nat.NatController.AddForwardRules | system/netd/NatController.cpp:338-414 | Three forward rules and the counting rules, with the two-stage unwind of the source. |
| Nat.NatController.AddRoutes | system/netd/NatController.cpp:140-163 | The loop over the addresses: rule and local route each, going on after a failure and reporting it; AddAllEffect and AddAllSucceedsIff say what it leaves and when it succeeds. |
| Nat.NatController.DelRoutes | system/netd/NatController.cpp:140-163 | The reverse loop, local route first. |
| Nat.NatController.SetTetherCountingRules | system/netd/NatController.cpp:256-336 | Adds each counting rule only when its quota name is new; the second may fail with the first in place. |
| Nat.NatController.SetDefaults | system/netd/NatController.cpp:104-133 | Stops at the first checked command that fails, with the count as it was; otherwise only DROP is left, no masquerading, no rules in any table unless their flush failed, no pairs. |
| Nat.DefaultsConsistentIff | system/netd/NatController.cpp:104-133 | The defaults leave chain, masquerading and count in step if and only if the checked commands succeed or there was nothing to undo. |
| Nat.DefaultsReported | system/netd/NatController.cpp:104-133 | Success is reported if and only if the three checked commands succeed; only then does the count go to zero and, if that command works too, do the rules of all tables go. |
| Nat.OpenWithoutDrop | system/netd/NatController.cpp:111-128 | When the drop rule cannot be put back, every packet is forwarded and the count stands. |
| UidMarks.ChainAgreesWithList | system/netd/SecondaryTableController.cpp:55-92 | For every uid the chain built for a list marks an unmarked packet, not from the vpn user, with the mark of the newest matching entry, and leaves all others alone. |
| UidMarks.AddedIsNewest | system/netd/UidMarkMap.cpp:26-63 | A range just added decides for all its uids, both ends included, and for no other; without a range the mark is 1. |
| UidMarks.RemoveUndoesAdd | system/netd/UidMarkMap.cpp:26-49 | Removing a range that is not repeated undoes adding it, in the list and in the chain. |
| UidMarks.LookupEqualsWalk | system/netd/SecondaryTableController.cpp:500-536 | After every history in which no range is live twice with the same mark, the lookup equals the mark the chain gives, for every uid. |
| UidMarks.RunKeepsMirror | system/netd/SecondaryTableController.cpp:500-536 | Every such history keeps the chain the mirror image of the list. |
| UidMarks.RemoveKeepsMirror | system/netd/UidMarkMap.cpp:37-49 | Removing an entry keeps list and chain in step if and only if its copies stand together. |
| UidMarks.RemoveAgreesIff | system/netd/UidMarkMap.cpp:37-49 | After a removal from list and chain that mirror each other, lookup and walk agree on a uid if and only if the range does not cover it, or a newer entry does, or no copy is left, or the next entry that covers it has the same mark. |
| UidMarks.RemoveEitherEnd | system/netd/UidMarkMap.cpp:37-49 | Taking out the first and taking out the last copy give the same list exactly when no other entry stands between copies. |
| UidMarks.RepeatedRangeDisagrees | system/netd/SecondaryTableController.cpp:500-536 | A range added twice around another one: after one removal list and chain give different marks. |
| UidMarks.UidMarkMap.AddUidRule | system/netd/UidMarkMap.cpp:26-35 | Refuses an inverted range; otherwise the entry goes to the front of the list and its rule to the end of the chain. |
| UidMarks.UidMarkMap.RemoveUidRule | system/netd/UidMarkMap.cpp:37-49 | Takes out the first equal entry and the first equal rule, or fails without a trace. |
| UidMarks.UidMarkMap.GetMark | system/netd/UidMarkMap.cpp:51-63 | The mark of the newest entry that contains the uid, or the base mark. |
| UidMarks.UidMarkMap.AnyRulesForMark | system/netd/UidMarkMap.cpp:65-75 | True exactly when some entry has the mark. |
| NetdList.List.Insert | system/netd/List.h:211-220 | Inserts at the position, keeps next and prev inverse around the ring, and allocates one node. |
| NetdList.List.InsertRange | system/netd/List.h:222-227 | Copies any range of another list, in order, in front of the position given; the other list is untouched. |
| NetdList.List.Erase | system/netd/List.h:229-236 | Removes the element at the position and returns the one after it. |
| NetdList.List.EraseRange | system/netd/List.h:239-244 | Removes exactly the elements of the range and returns the position behind it, which now stands where the range began. |
| NetdList.List.Clear | system/netd/List.h:246-257 | The list is empty and its ring closed on the sentinel. |
| NetdList.List.Size | system/netd/List.h:274-283 | The walk from begin to end ends and counts the elements. |
| NetdList.List.Assign | system/netd/List.h:313-329 | After assignment, which reuses nodes, the contents equal those of the other list, which is unchanged. |
| NetdList.List.PushFront | system/netd/List.h:208 | The element comes first. |
| NetdList.List.PushBack | system/netd/List.h:209 | The element comes last. |
| NetdList.List.Empty | system/netd/List.h:182 | True exactly for the empty sequence. |
| Ring.LinkBefore | system/netd/List.h:211-220 | Four pointer writes keep the ring a ring, with the node inserted at its place. |
| Ring.Unlink | system/netd/List.h:229-236 | Two pointer writes keep the ring a ring, without the node. |
| CryptFooter.RunKeeps | system/vold/cryptfs.c:889-987 | Over every run of reads, unlocks and password changes under the stated conditions the footer on disk opens under the current password to the same master key. |
| CryptFooter.DependableRunKeeps | system/vold/cryptfs.c:1194-1295 | With footer writes and the cipher succeeding, failed attempts that do not reach the end of the 32-bit counter and the link that a saved master key implies scrypt, every run meets these conditions and keeps the link. |
| CryptFooter.PasswordIsLastSet | system/vold/cryptfs.c:1919-1942 | The current password is the one last set, when no footer on the way opens under two passwords. |
| CryptFooter.StepKeeps | system/vold/cryptfs.c:1194-1295 | Each operation keeps the footer opening to the same key. |
| CryptFooter.StepKeepsIff | system/vold/cryptfs.c:1194-1295 | Each operation keeps the footer opening to the same key if and only if it is not a wrong password that wraps the failure counter, nor a written password change whose footer lacks the scrypt type, nor one with a failing cipher that changes the parameters of a scrypt footer (with a crypto in which different derived keys always unwrap differently). |
| CryptFooter.FailureCounted | system/vold/cryptfs.c:1246-1264 | A failed attempt is answered with one more than the failures counted, as a signed 32-bit number; that is the count on disk if it could be written, no key is saved, and every password opens what it opened before. |
| CryptFooter.SuccessReported | system/vold/cryptfs.c:1246-1295 | The right password saves the key of the volume and keeps opening the footer; it is answered with success if and only if the footer has the scrypt type already or is re-wrapped and written, and the failures are forgotten as soon as a footer is written. |
| CryptFooter.UnlockRefused | system/vold/cryptfs.c:1208-1219 | On an unlocked process, or without a readable footer, the answer is an error and nothing changes. |
| CryptFooter.UnlockUnmapped | system/vold/cryptfs.c:1231-1235 | Without a mapping the answer is an error, no failure is counted and every password opens what it opened before. |
| CryptFooter.StackKeyTried | system/vold/cryptfs.c:1224-1235 | When the key is marked as not encrypted, what the stack buffer holds is tried, whatever the password. |
| CryptFooter.ChangeReported | system/vold/cryptfs.c:1919-1942 | A password change is answered with success by every unlocked process with a readable footer, whatever fails in it, and never touches the count of failures. |
| CryptFooter.RunKeepsVolume | system/vold/cryptfs.c:315-369 | Over every run no operation changes what the footer says about the volume: its size, salt, flags and, once placed, the places of the persistent data. |
| CryptFooter.UpgradeKeepsKey | system/vold/cryptfs.c:315-369 | Upgrading a footer changes the key it opens to for no password. |
| CryptFooter.RewrapNeedsScrypt | system/vold/cryptfs.c:889-926 | A rewrapped key opens again under the new password if and only if the footer says scrypt (with a crypto in which different derived keys always unwrap differently). |
| CryptFooter.RewrapOpens | system/vold/cryptfs.c:889-926 | A key wrapped under scrypt opens under its password. |
| CryptFooter.ChangeNeedsLink | system/vold/cryptfs.c:1919-1942 | A password change leaves a key that opens under the new password if and only if the footer said scrypt (with a crypto in which different derived keys always unwrap differently). |
| CryptFooter.WrapTakesWrongKey | system/vold/cryptfs.c:1238-1268 | An unlock saves a wrong key if and only if a wrong password wraps the failure counter to zero. |
| CryptFooter.WrongPasswordAccepted | system/vold/cryptfs.c:1238-1268 | With 2^32 - 1 failures counted, a wrong password is reported as right and its key is kept. |
| CryptFooter.CipherFailureOldOpens | system/vold/cryptfs.c:1919-1942 | After a password change with a failing cipher the old password still opens the footer if and only if its key is not derived by scrypt or the parameters of the device are those of the footer (with a crypto in which different derived keys always unwrap differently). |
| CryptFooter.LawsHoldTogether | system/vold/cryptfs.c:889-987 | The laws asked of the crypto can be met together. |
| CryptFooter.GateNeverOpens | system/vold/cryptfs.c:352-360 | A footer as it is read never has minor version 1, the only one the persistent store accepts. |
| CryptFooter.UpgradePlacesCopies | system/vold/cryptfs.c:320-360 | A version 1.0 footer gets both copies of the persistent data right behind it, 4 KB each; any footer before 1.2 gets the PBKDF2 type. |
| CryptFooter.ReadBack | system/vold/cryptfs.c:239-441 | A footer that was read and written back is read again as itself, whatever the parameters of the device are by then. |
| CryptFooter.LostMigrationBricks | system/vold/cryptfs.c:1280-1291 | When the migration to scrypt is not written, the next password change leaves a key no password opens. |
| CryptFooter.CipherFailureBricks | system/vold/cryptfs.c:1919-1942 | When the cipher fails in a password change, success is reported and no password opens the key. |
| CryptFooter.Cryptfs.UpgradeCryptFtr | system/vold/cryptfs.c:315-369 | The footer in memory is upgraded; the one on disk exactly when the minor version changed and the write succeeds. |
| CryptFooter.Cryptfs.GetCryptFtrAndKey | system/vold/cryptfs.c:372-441 | Returns the upgraded footer, or nothing when the magic is wrong or the major version too new. |
| CryptFooter.Cryptfs.CheckPasswd | system/vold/cryptfs.c:1352-1359 | A failed attempt, before the counter wraps, is answered with the number of failures, never with success, and saves no key; an attempt answered with success was made on a locked process and saves one. |
| CryptFooter.Cryptfs.TestMountEncryptedFs | system/vold/cryptfs.c:1194-1295 | An unlock attempt: which key is tried, when it counts as failed, what is saved, what is migrated and what is answered. |
| CryptFooter.Cryptfs.MigrateKdf | system/vold/cryptfs.c:1280-1291 | Rewraps under scrypt unless that is what the footer says already; reports a failure of cipher or write. |
| CryptFooter.Cryptfs.ChangePw | system/vold/cryptfs.c:1919-1942 | A password change from the saved key, the outcome of cipher and write ignored. |
| CryptFooter.Cryptfs.VerifyPasswd | system/vold/cryptfs.c:1361-1406 | Once unlocked, says yes exactly to the passwords under which the footer on disk opens to the master key of the volume, and yes to any when the key is not encrypted; an error on a locked process or without a readable footer. |
| CryptEnable.EncryptInplace | system/vold/cryptfs.c:1499-1574 | Success is reported if and only if no division by zero occurs and no transfer moves nothing; the device is encrypted, each sector under its own number, if and only if every transfer is full (only if: as far as the data can tell); with no short transfer each image on the way is the original with a prefix encrypted; sectors beyond the size are untouched; the progress shown is exactly the percentages passed through, rising; DividesIff says when it divides by zero. |
| CryptEnable.DividesIff | system/vold/cryptfs.c:1525-1536 | The progress computation divides by zero if and only if the device opens, has at least one block, and all sizes together are fewer than 800 sectors. |
| CryptEnable.FirstShort | system/vold/cryptfs.c:1544-1562 | The first short transfer leaves a sector that is never reached or written with what was in the buffer before. |
| CryptEnable.ShortTransferUnnoticed | system/vold/cryptfs.c:1544-1552 | For any one short transfer of a block success is reported, and the device is not encrypted. |
| CryptEnable.EncryptUserdata | system/vold/cryptfs.c:1818-1820 | The outcome and when the partition is encrypted, as above; every image the disk goes through is untouched, completely encrypted or accompanied by the in-progress flag, provided the footer carries it at the start. |
| CryptEnable.EnableInplace | system/vold/cryptfs.c:1757-1858 | Over every behaviour of the devices: the flag is cleared while some device is not completely encrypted if and only if clearing is written, the data partition and the last volume report success, nothing divides by zero and some transfer is not full; if all are full every sector is encrypted, up to the last 16 KB when the footer lies there. With no short transfer every image of the data partition that is partly encrypted carries the flag, if its write succeeded; nothing in the last 16 KB changes when the footer lies there. |
| CryptEnable.FsSize | system/vold/cryptfs.c:1757-1761 | The encrypted size and the 16 KB of the footer together are the partition; without a footer it is all of it. |
| CryptEnable.EncryptVolumes | system/vold/cryptfs.c:1823-1830 | The outcome of every volume, the loop going on after a failure and ending with a division by zero; each volume is encrypted if and only if every transfer on it is full. |
| CryptEnable.SucceedsIff | system/vold/cryptfs.c:1818-1846 | Success is concluded if and only if no device divides by zero and the data partition and the last volume succeed. |
| CryptEnable.AllSucceed | system/vold/cryptfs.c:1818-1830 | If every device opens, every transfer moves something and nothing divides by zero, every outcome is a success. |
| CryptEnable.EarlierVolumeFailureMasked | system/vold/cryptfs.c:1823-1830 | For any devices and any volume between the data partition and the last: the behaviour in which only that volume fails is concluded to be a success. |
| CryptEnable.FreshFooterOpens | system/vold/cryptfs.c:1757-1772 | The footer written first carries the flag and opens under the password to the new key; it has the scrypt type, no failures, and the persistent data right behind it. |
| PersistStore.SaveIsAtomic | system/vold/cryptfs.c:560-662 | A save cut off after any copy write or erase leaves a store that loads as the old or the new table, and which. |
| PersistStore.StoreIsRegister | system/vold/cryptfs.c:560-662 | Over every sequence of saves, completed or cut off, the store loads as a register that takes exactly the saves that took effect. |
| PersistStore.RegisterIffFits | system/vold/cryptfs.c:627-646 | Saves are loaded on every disk, and the store is a register over every history, if and only if both copies can be reached by the seeks of a save. |
| PersistStore.FitsIff | system/vold/cryptfs.c:629-637 | Both copies can be reached if and only if file offsets have 64 bits or both lie below 2 GB. |
| PersistStore.SaveGoesAstray | system/vold/cryptfs.c:629-646 | With 32-bit offsets and a footer at 5 GB a save reports success, leaves the store unchanged and writes the table at 1 GB. |
| PersistStore.SaveNeverSucceeds | system/vold/cryptfs.c:629-632 | At 3 GB no save succeeds and nothing is written. |
| PersistStore.NeverStale | system/vold/cryptfs.c:466-558 | What is loaded is never older than the last save that completed. |
| PersistStore.InvisibleNeverResurfaces | system/vold/cryptfs.c:560-662 | A save that was cut off without effect makes no difference to anything loaded later. |
| PersistStore.ValidMeansDisjoint | system/vold/cryptfs.c:443-464 | Short of wrap-around the validation accepts exactly two regions that do not overlap, lie in order and end before the reserved space does. |
| PersistStore.WrappedRegionsAccepted | system/vold/cryptfs.c:443-464 | With wrap-around it accepts regions that overlap. |
| PersistStore.SetThenGet | system/vold/cryptfs.c:1962-2009 | For keys under 32 characters the table is a bounded map: set fails only for a new key on a full table, then get returns the value itself up to 91 characters and its first 91 otherwise, other keys keep theirs, and keys stay distinct. |
| PersistStore.EntriesFit | system/vold/cryptfs.c:1962-2009 | An entry index passes the capacity check if and only if the entry lies within the stored table size. |
| PersistStore.TinyTableOverflows | system/vold/cryptfs.h:108-119 | A stored size below the header makes the capacity wrap to millions of entries. |
| PersistStore.LongKeyIsLost | system/vold/cryptfs.c:1944-2009 | A longer key is stored cut off and never found. |
| PersistStore.LongKeysCollide | system/vold/cryptfs.c:1962-2009 | A longer key makes a second entry with the key of an existing one. |
| PersistStore.PersistentData.GetKey | system/vold/cryptfs.c:1944-1960 | The value of the first entry with the key, or nothing. |
| PersistStore.PersistentData.SetKey | system/vold/cryptfs.c:1962-2009 | Replaces, appends or refuses as the bounded map does, the array of entries being updated in place; writes past the buffer if and only if the key is new, the buffer full and the stored table size promises more room. |
| PersistStore.PersistentData.SavePersistentData | system/vold/cryptfs.c:560-662 | Writes the copy that is not current, then erases the other, each where a seek with the width of off_t leads; the return code says whether every call succeeded. |
| PersistStore.PersistentData.LoadPersistentData | system/vold/cryptfs.c:466-558 | The first copy that is valid, or an empty table; fails exactly when a copy it has to look at cannot be read. |
| FdEvent.EventLoop.Turn | system/core/adb/fdevent.c:681-695 | One turn of the loop, with callbacks as arbitrary scripts of calls: every active event is signalled a read, write or error exactly as select reported it on its descriptor, beside what it had; the newly pending join the queue, the callbacks run, their order and the state each finds are those of the value-level turn, and unless a check aborts or an install puts the table out of step the loop invariant holds again with nothing pending. |
| FdTurn.DispatchKeeps | system/core/adb/fdevent.c:507-515 | Whatever the callbacks do, every callback runs while its event is active and has something signalled, and no event leaves the queue for its callback twice. |
| FdTurn.DispatchReaches | system/core/adb/fdevent.c:686-694 | A queued event that no callback touches is called, once, with the events it was queued with. |
| FdTurn.DispatchInOrder | system/core/adb/fdevent.c:686-694 | With callbacks that make no calls the queue is called in order, each event with what was signalled. |
| FdTurn.DispatchOnce | system/core/adb/fdevent.c:517-573 | Only the shell-exit handler calls an event that is not queued; without it no event is called twice in a turn. |
| FdTurn.CalledTwice | system/core/adb/fdevent.c:551-571 | With it one is: a ready subprocess descriptor is called, and called again when the handler reads its exit. |
| FdTurn.RunCallsSound | system/core/adb/fdevent.c:593-664 | Every sequence of calls keeps: queued exactly when pending, pending exactly when something is signalled, active when pending, one active event for each descriptor. |
| FdTurn.UnwantedStaysSignalled | system/core/adb/fdevent.c:641-651 | When the interest of a pending event changes, what stays signalled is disjoint from what is wanted; nothing unwanted stays signalled if and only if everything signalled is still wanted, and exactly then the event loses its place in the queue. |
| FdTurn.PendingRead | system/core/adb/fdevent.c:628-658 | A pending read stays signalled when the interest moves from reading to writing, and is lost when writing is added. |
| FdTurn.InterestAfter | system/core/adb/fdevent.c:628-664 | Setting wants exactly what is named, adding what was wanted or is named, deleting what was wanted and is not named. |
| FdTurn.OthersUntouched | system/core/adb/fdevent.c:584-626 | A call changes no other event; a removed one is inactive, unsignalled and wants nothing; a call aborts exactly on destroying an event that was not created or installing on a descriptor that is negative or past both 32000 and the table. |
| FdTurn.ExitSignals | system/core/adb/fdevent.c:536-571 | The shell-exit handler does nothing without an event on the descriptor or with input left; a pending event is signalled a read and keeps its place, any other is called at once with a read. |
| FdTurn.Created | system/core/adb/fdevent.c:575-609 | A created event is active, wants nothing and is in the table; it aborts exactly on a bogus descriptor. |
| FdEvent.EventLoop.Process | system/core/adb/fdevent.c:365-424 | Each event wants a read, write or error delivered exactly if it did before or select reported that very thing on its descriptor, and is pending exactly if it was or anything was reported; on a bad descriptor or an empty result the closed descriptors count as readable; inactive events are untouched. |
| FdEvent.EventLoop.WaitingInOrder | system/core/adb/fdevent.c:400-424 | The events that become pending wait behind the others, in the order of their descriptors. |
| FdEvent.EventLoop.Scan | system/core/adb/fdevent.c:398-424 | The scan that stops when the count is used up does what a full scan would: each result bit is signalled as its own event. The descriptor it finds set is always registered. |
| FdEvent.EventLoop.FdCheck | system/core/adb/fdevent.c:305-321 | Marks and counts exactly the registered descriptors that are bad. |
| FdEvent.EventLoop.NextCallback | system/core/adb/fdevent.c:507-515 | Dispatch takes the first pending event, which is active, out of the ring and clears its events. |
| FdEvent.EventLoop.RunScript | system/core/adb/fdevent.c:593-664 | Any sequence of calls from a callback follows the value-level one: the same events, queue and fate; the invariant holds unless a check aborts, and fails when an install puts the table out of step. |
| FdEvent.EventLoop.OnSubprocExit | system/core/adb/fdevent.c:529-572 | The shell-exit handler: an event found on the descriptor, with no input left, is signalled if it is queued and called at once if not. |
| FdEvent.EventLoop.Install | system/core/adb/fdevent.c:593-609 | The event is wiped, active and in the table, whatever was in its slot; the invariant holds if and only if the descriptor was free and the event not in use, or it was registered on that very descriptor, not pending and waiting for nothing. |
| FdEvent.EventLoop.InstallOverTaken | system/core/adb/fdevent.c:428-454 | Two active events on one descriptor, and one entry: the table holds the new one only. |
| FdEvent.EventLoop.RemoveDisplaced | system/core/adb/fdevent.c:456-472 | Removing the displaced one aborts. |
| FdEvent.EventLoop.Remove | system/core/adb/fdevent.c:611-625 | Aborts if and only if the event is active and not in the table under its descriptor; otherwise it leaves ring, table and sets, and its descriptor is closed exactly when it was active and not marked otherwise. |
| FdEvent.EventLoop.SetEvents | system/core/adb/fdevent.c:628-652 | The next select asks about the descriptor exactly what is wanted now; on a pending event the bits just requested are cleared, and it leaves the ring when none is left. |
| FdEvent.EventLoop.Retarget | system/core/adb/fdevent.c:281-300 | After a change of interest each of the three sets is again exactly the registered descriptors whose event wants it. |
| FdEvent.EventLoop.SetsFitIff | system/core/adb/fdevent.c:281-300 | The descriptor sets can be kept within FD_SETSIZE bits if and only if every active event that waits for something has a descriptor below it. |
| FdTurn.BeyondSets | system/core/adb/fdevent.c:428-454 | Every descriptor from FD_SETSIZE to 32000 is accepted and waited for. |
| FdTurn.RunCallsSmall | system/core/adb/fdevent.c:593-664 | Without an install on such a descriptor no sequence of calls leaves the sets. |
| FdEvent.EventLoop.PlistEnqueue | system/core/adb/fdevent.c:474-482 | The event comes last in the ring. |
| FdEvent.EventLoop.PlistRemove | system/core/adb/fdevent.c:484-490 | Exactly the event leaves the ring and its links are cleared. |
| FdEvent.EventLoop.PlistDequeue | system/core/adb/fdevent.c:492-505 | The first event leaves the ring, or there is none. |
| FdEvent.EventLoop.GrowTable | system/core/adb/fdevent.c:428-454 | The table doubles until the descriptor fits, keeps its entries, and the new ones are empty. |
| FdEvent.EventLoop.Disconnect | system/core/adb/fdevent.c:267-279 | The descriptor leaves the three sets; every registered descriptor stays below select_n. |
| SyncWire.SplitRoundTrip | system/core/adb/file_sync_service.c:276-297 | For every path, commas included, and every mode, splitting the name at its last comma recovers exactly both. |
| SyncWire.MessageReads | system/core/adb/file_sync_service.h:51-77 | A message is read back from any stream it heads: identifier, length, payload and what follows. |
| SyncWire.NumberRoundTrip | system/core/adb/file_sync_client.c:310-311 | A printed number reads back as itself, a leading zero meaning octal notwithstanding. |
| SyncServer.SendOneReply | system/core/adb/file_sync_service.c:151-224 | Every well-formed send of a file is read to its last byte and gets exactly one status: OKAY with the file stored and stamped when the open and every write succeed, one FAIL otherwise, with the file removed or, where that fails, holding what was written up to the failure. |
| SyncServer.ReceiveBroken | system/core/adb/file_sync_service.c:173-224 | A stream that ends inside a message, or goes on with anything but data of at most 64K or DONE, ends the session after any chunks before it: the file is removed if it can be, with one complaint unless the stream just ended. |
| SyncServer.StoredIsSentIff | system/core/adb/file_sync_service.c:157-164 | The stored file is the one sent if and only if no longer file was left in its place, since the open does not truncate. |
| SyncServer.ReceiveBody | system/core/adb/file_sync_service.c:171-203 | A well-formed body is consumed exactly, whatever fails on the way. |
| SyncServer.LinkSent | system/core/adb/file_sync_service.c:227-273 | A well-formed send of a link gets exactly one status, but only a link that is made leaves the next request next in line: a failure ends the session with the DONE message unread. |
| SyncServer.LinkRefused | system/core/adb/file_sync_service.c:227-245 | A link that does not start with its target is refused and ends the session; nothing is made. |
| SyncServer.LinkWithoutDone | system/core/adb/file_sync_service.c:257-272 | Anything but DONE after the target ends the session, but the link is there by then. |
| SyncServer.Session | system/core/adb/file_sync_service.c:359-414 | For every session of well-formed requests, whichever calls fail, each request is answered once and in order, both streams staying aligned up to QUIT or the first link that cannot be made. |
| SyncServer.LongNameEndsSession | system/core/adb/file_sync_service.c:375-379 | A send whose name, mode included, is longer than 1024 bytes ends the session. |
| SyncServer.TurnRefuses | system/core/adb/file_sync_service.c:368-408 | What cannot be read as a request, or names an unknown command, is answered with its own reason and ends the session, files untouched. |
| SyncServer.SpreadBits | system/core/adb/file_sync_service.c:308-312 | Bit by bit the user keeps its permissions, the group has its own and the user's, and others have theirs, the group's and the user's. |
| SyncServer.PlainName | system/core/adb/file_sync_service.c:282-300 | A name without a comma or with a number too large is a plain file with mode 0644, which the copying of permissions makes readable and writable for everyone. |
| SyncServer.WireNames | system/core/adb/file_sync_service.h:35-47 | Each identifier is its four letters on the wire, first letter first. |
| SyncServer.SyncService.Serve | system/core/adb/file_sync_service.c:359-414 | The request loop computes the answers and files of the session definition for every input whatever, well-formed or not. |
| SyncServer.SyncService.HandleRequest | system/core/adb/file_sync_service.c:389-407 | The switch over the request identifier. |
| SyncServer.SyncService.DoSend | system/core/adb/file_sync_service.c:276-317 | Name split, old file removed, then a link is made, or permissions are spread and a file is received. |
| SyncServer.SyncService.HandleSendFile | system/core/adb/file_sync_service.c:151-224 | Receiving, with the open file changing midway: chunks, failed open, failed write, bad and oversize messages, early end. |
| SyncServer.SyncService.HandleSendLink | system/core/adb/file_sync_service.c:227-273 | Making a link, for every input: bad, oversize and missing messages, a link that cannot be made. |
| SyncServer.SyncService.DoStat | system/core/adb/file_sync_service.c:56-74 | Mode, link or regular file, size and time in 32 bits, or zeros. |
| SyncServer.SyncService.DoRecv | system/core/adb/file_sync_service.c:319-357 | The file in data messages, interrupted reads repeated, a read error reported in place of the rest. |
| SyncClient.Push | system/core/adb/file_sync_client.c:297-414 | A push of a file end to end: the service reads exactly its bytes, the client exactly the one status that answers it, no other file changes, and a push reported as done has stored what was read, with the time sent, exactly when no longer file could not be removed; a new file has the permissions that SpreadBits says. |
| SyncClient.PushLink | system/core/adb/file_sync_client.c:273-414 | A push of a link end to end: reported as done if and only if the link was made, which then holds the target; after a failure the service has ended the session. |
| SyncClient.UnreadLinkEndsSession | system/core/adb/file_sync_client.c:273-296 | A link whose target cannot be read is not noticed on the host; the service misses the data message and ends the session. |
| SyncClient.LinkBecomesFile | system/core/adb/file_sync_service.c:287-297 | A service without links stores the target of a link and its NUL as a plain file. |
| SyncClient.SentIsSourceIff | system/core/adb/file_sync_client.c:210-245 | All of the source is sent if and only if it is held in memory, or can be opened and no read error hides a piece of it, or it is empty: a failed open or read goes unnoticed. |
| SyncClient.FailIsReadIff | system/core/adb/file_sync_client.c:399-411 | A failure answer is read to its end if and only if its reason is at most 256 bytes long, and overruns the buffer if and only if it is of 2^31 bytes or more and read takes such a count. |
| SyncClient.StatusOverrunsIff | system/core/adb/file_sync_client.c:396-411 | For every stream: reading a status overruns the 64K buffer if and only if it is a failure whose length reads as negative, read takes such a count, and more than 64K follow; otherwise the call fails. |
| SyncClient.SuccessIsOkay | system/core/adb/file_sync_client.c:392-410 | A push is reported as done if and only if the status read is OKAY. |
| SyncClient.Cuts | system/core/adb/file_sync_client.c:247-270 | Pieces of at most 64K, all but the last of exactly 64K, that give the buffer. |
| SyncClient.CompareSession | system/core/adb/file_sync_client.c:701-718 | With all stat requests sent before any answer is read, and any requests after them, each file is marked by its own remote state and the answers to the later requests come next in the stream. |
| SyncClient.AnswersInOrder | system/core/adb/file_sync_client.c:707-718 | The k-th answer is about the k-th file. |
| SyncClient.MarksUpTo | system/core/adb/file_sync_client.c:704-721 | When the stream ends early, the files answered so far are marked, the others are not, and the comparison fails. |
| SyncClient.RegularSkippedIff | system/core/adb/file_sync_client.c:711-716 | A regular file is skipped if and only if size (in 32 bits) and time agree and the other is a regular file, a link or a socket. |
| SyncClient.LinkSkippedIff | system/core/adb/file_sync_client.c:711-716 | A link is skipped if and only if sizes agree and the other is a link no older, or a regular file or socket of the same time. |
| SyncClient.AbsentNotSkipped | system/core/adb/file_sync_client.c:711-716 | A file that is not there is never skipped. |
| SyncClient.PullEndToEnd | system/core/adb/file_sync_client.c:441-528 | A file that can be opened and read arrives whole; otherwise the local file is gone and the pull reports success all the same; the stream is left at the next answer. |
| SyncClient.PullCutOff | system/core/adb/file_sync_client.c:476-507 | A pull whose stream ends leaves what has arrived in the local file and fails. |
| SyncClient.PullStrange | system/core/adb/file_sync_client.c:476-531 | A message of an unknown kind removes the local file and is reported as success; data longer than 64K is refused. |
| SyncClient.PullOverrunsIff | system/core/adb/file_sync_client.c:441-528 | For every stream: a pull overruns its 64K buffer if and only if read takes any count and it meets a data message or a failure text whose length reads as negative, with more than 64K to follow. |
| SyncClient.HugeLengthOverruns | system/core/adb/transport.c:1140-1170 | A length of 2^31 passes the bounds; the buffer is overrun if and only if read takes the count and more than 64K follow, and otherwise the call returns -1. |
| SyncClient.Client.WriteDataBuffer | system/core/adb/file_sync_client.c:247-270 | Sends the buffer as data messages of at most 64K that put together give it. |
| SyncClient.Client.WriteDataFile | system/core/adb/file_sync_client.c:210-245 | Sends what is read before the end or an error. |
| SyncClient.Client.WriteDataLink | system/core/adb/file_sync_client.c:273-295 | One data message with the target and a NUL, or nothing when the link cannot be read. |
| SyncClient.Client.SyncSend | system/core/adb/file_sync_client.c:297-420 | The bytes of a push, file or link, and the reading of its status; names over 1024 bytes are refused, other kinds of files given up after the request. |
| SyncClient.Client.ReadReply | system/core/adb/file_sync_client.c:396-414 | Reads the status and at most 256 bytes of a reason, its length taken as a signed number. |
| SyncClient.Client.CheckTimestamps | system/core/adb/file_sync_client.c:701-718 | Sends all requests, then reads all answers, setting the flags in place. |
| SyncClient.Client.SyncRecv | system/core/adb/file_sync_client.c:441-528 | The loop of a pull, for every stream whatever. |
| Asec.NoStepWrapsIff | system/vold/CommandListener.cpp:349 | Each 32-bit step from megabytes to the size of the image file equals the same step on unbounded integers exactly for sizes from 0 to 2047 MB. |
| Asec.Geometry | system/vold/VolumeManager.cpp:337-345 | For 1 to 2047 MB the image body is a multiple of 63 sectors, holds the container with its headroom, and its length in bytes fits 32 bits. |
| Asec.OffsetsFitIff | system/vold/Loop.cpp:235-250 | With 32-bit file offsets the image can be laid out if and only if it is of at most 2016 MB. |
| Asec.NegativeSizePasses | system/vold/VolumeManager.cpp:301-305 | A negative size is not refused. |
| Asec.SuperblockFound | system/vold/Loop.cpp:252-292 | Mount reads the superblock where create wrote it, and it lies behind the last sector mapped. |
| Asec.SuperblockOf | system/vold/VolumeManager.cpp:285-384 | The superblock has the magic number and version a mount looks for, says whether there is a cipher, and names the file system asked for. |
| Asec.FitsIff | system/vold/VolumeManager.cpp:313-328 | Names of at most 234 characters, 232 on external storage, fit the path buffer. |
| Asec.LegalStaysInside | system/vold/VolumeManager.cpp:931-956 | A legal name has no separator, no NUL, no dot in front and no two dots in a row; its characters are letters, digits, dash, underscore and dot. |
| Asec.Ext4CoversSuperblockIff | system/extras/ext4_utils/ext4_utils.c:91-117 | A file system made on a container without a key covers the superblock sector of the container if and only if its tracks leave remainder one modulo eight and the last block group is not dropped. |
| Asec.OneBlockDropped | system/extras/ext4_utils/ext4_utils.c:91-117 | One block behind a whole group of 32768 is too few for the tables of a group: the file system ends before it. |
| Asec.EightMegabytesCovered | system/vold/VolumeManager.cpp:438-443 | At 8 MB it does. |
| Asec.CreatedLayout | system/vold/VolumeManager.cpp:386-422 | What a completed creation leaves has the superblock in the last sector, with a key a mapping over that very image that ends just before it, and is mounted with the file system asked for, if any. |
| Asec.CreatedIffOffsetsFit | system/vold/VolumeManager.cpp:337-422 | A container of 1 to 2047 MB that passes the checks is created if and only if every call it needs works, a loop device is free, and file offsets have 64 bits or it is of at most 2016 MB. |
| Asec.CreateRebootMount | system/vold/VolumeManager.cpp:1020-1155 | A container created and, after a restart, mounted is found, recognised, mapped over exactly the same sectors and mounted with the kind of file system it was created with; what is up then is stated in full. |
| Asec.StubHasNoSuperblock | system/vold/Loop.cpp:243-247 | The file a failed truncation leaves behind cannot be mounted. |
| Asec.VolumeManager.CreateAsec | system/vold/VolumeManager.cpp:274-501 | All or nothing over image, loop device, mapping, container list and mounts on every failure, except that a failed truncation leaves the file, a failure to name the loop device leaves it attached, and a failure to load the mapping leaves it: each exactly that one thing. |
| Asec.VolumeManager.CreateImageFile | system/vold/Loop.cpp:235-250 | The image has its size, or is left empty when the truncation fails. |
| Asec.VolumeManager.BuildContainer | system/vold/VolumeManager.cpp:353-484 | Once the image is there, whatever fails takes it away again. |
| Asec.VolumeManager.LoopCreate | system/vold/Loop.cpp:127-209 | The first free device is attached and named; only a failure to name it leaves a trace. |
| Asec.VolumeManager.LookupActive | system/vold/Loop.cpp:81-125 | The first device with the name. |
| Asec.VolumeManager.IsLegalAsecId | system/vold/VolumeManager.cpp:931-956 | Exactly the nonempty names of letters, digits, dash, underscore and dot that have no dot at either end and no two dots in a row. |
| Asec.VolumeManager.LookupInfo | system/vold/Loop.cpp:252-292 | The superblock in the last sector and the length, or the device is taken down. |
| Asec.VolumeManager.MountAsec | system/vold/VolumeManager.cpp:1020-1155 | When it succeeds and what is up then; what exactly a failure leaves behind, devices that were up before included. |
| Asec.FailedMountKeepsIff | system/vold/VolumeManager.cpp:1053-1148 | A failed mount changes nothing if and only if neither the loop device nor, past the superblock, the mapping was up before and no step left a device half made. |
| DirectVolume.IdleIffAllSeen | system/vold/DirectVolume.cpp:211-265 | With n of 1 to 31 partitions expected and any events in any order, with repeats and strays, the volume leaves pending exactly once all of 1..n have been seen on the major of the disk; a mount that waited is tried once, at that event, and when it succeeds the volume stays mounted if and only if no further announcement comes, idle otherwise. |
| DirectVolume.AnnouncedAgain | system/vold/DirectVolume.cpp:249-260 | A partition announced a second time sets the state to idle over a mount that has succeeded. |
| DirectVolume.DiskArrives | system/vold/DirectVolume.cpp:178-209 | After the arrival of a disk, whatever went before, the same holds, and the recorded minors are then the latest reported for each partition. |
| DirectVolume.DiskChanges | system/vold/DirectVolume.cpp:267-298 | A change of another disk does nothing; of its own, the barrier holds as after an arrival, except that a volume being formatted stays so while it waits. |
| DirectVolume.DiskTaken | system/vold/DirectVolume.cpp:178-209 | A disk's numbers are taken over, exactly the bits 1..n are awaited, the volume is usable at once if there is none, and a mount that waits goes on waiting. |
| DirectVolume.MountWaits | system/vold/DirectVolume.cpp:249-258 | A mount asked for while partitions are awaited is tried once, when the last has been seen. |
| DirectVolume.MinorsAfter | system/vold/DirectVolume.cpp:242-246 | The recorded minors are the latest reported, the others unchanged; the number of partitions is the highest announced on any major. |
| DirectVolume.HighestIsAnnounced | system/vold/DirectVolume.cpp:231-238 | The number of partitions stays what the disk announced if and only if no higher number was announced, even on another major. |
| DirectVolume.FormattingStays | system/vold/DirectVolume.cpp:253 | While formatting, no partition event changes the state. |
| DirectVolume.ThirtyTwoPartitions | system/vold/DirectVolume.cpp:190-195 | A 32nd partition is waited for exactly when shifts wrap around. |
| DirectVolume.DirectVolume.Arrive | system/vold/DirectVolume.cpp:133-142 | The framework is told after the i-th event exactly when all partitions have been seen by then and the volume is not mounted for a request that waited. |
| DirectVolume.DirectVolume.HandleDiskAdded | system/vold/DirectVolume.cpp:178-209 | Disk numbers recorded, mask of the announced partitions set, state pending or idle. |
| DirectVolume.DirectVolume.HandlePartitionAdded | system/vold/DirectVolume.cpp:211-265 | Strays ignored, minor recorded, bit cleared, state moved on when none is left. |
| DirectVolume.DirectVolume.HandleDiskChanged | system/vold/DirectVolume.cpp:267-298 | Re-arms the mask for the same disk; the state follows unless formatting. |
| DirectVolume.DirectVolume.PartMask | system/vold/DirectVolume.cpp:190-195 | The mask with bits 1 to n. |
| DirectVolume.DirectVolume.SetState | system/vold/Volume.cpp:195-219 | A pending mount is forgotten when pending turns into anything but idle. |
| DirectVolume.DirectVolume.MountVol | system/vold/Volume.cpp:318-357 | Refused without media and in every state but idle, remembered while pending; otherwise tried. |
| DirectVolume.DirectVolume.GetDeviceNodes | system/vold/DirectVolume.cpp:384-403 | The disk itself without partitions, else the recorded minors as far as there is room; reads past the 32 minors if and only if more than 32 partitions are announced and more than 32 devices are asked for, or the configured index is out of range. |

## Left out

- Bandwidth.BandwidthController.Serve: a session starts with enable and has no disable, which flushes the chains without resetting the counters; the raw and mangle tracking chains are not modelled.
- Bandwidth.BandwidthController.Handle: what later requests do to the table after a quota was set on an interface called "shared" is followed only through the removal of that quota.
- BandwidthBook.SharedQuotaInKernel: runs in which another request uses the quota name (a quota on an interface called "shared", or an alert on one whose name with "Alert" appended is the name) are excluded by name, as for BandwidthBook.OwnQuotaInKernel and BandwidthBook.GlobalAlertInKernel.
- BandwidthAlerts.KernelAgreesIff: runs in which another quota or alert has the quota name of the alert (an interface called "sharedAlert", say) share one value in the kernel and are excluded by name.
- Bandwidth: an iptables command fails only for a reason in the table (a missing chain or rule, a chain in use); the failure paths that leave lists and chains apart on purpose are not modelled, nor are the counter values behind a quota, which appear as the set of exhausted quotas of a packet.
- Nat.NatController.EnableNat: when it falls back to the defaults their commands are taken to succeed, as are the moving of DROP and all deletions that have something to delete; Nat.NatController.SetDefaults covers the failures.
- Nat.NatController.DisableNat: the same.
- Nat.DisableTakes: a table whose count does not cover its rules and the addresses is given up on the way, and what is left of it is not described; balanced use keeps the count large enough.
- Nat.UnwindExactly: a local route and a plain route of a table are kept apart, since they leave by different devices.
- SecondaryTables: the commands of setFwmarkRule, setFwmarkRoute and host exemptions; only the slot that setFwmarkRule claims is modelled. removeFwmarkRoute adds instead of removing in the source and is not modelled.
- TetherStats.ParseForwardChainStats: starts from lines already split into fields; the text of the listing is not modelled.
- CryptFooter.RunKeeps: pbkdf2, scrypt, AES and the mapping are functions with the laws stated in Crypto. Separating and Distinguishing idealise them: a real cipher, with finite keys, may have coincidences; the directions that need them say so.
- CryptEnable.EncryptInplace: a transfer moves whole sectors; a transfer cut inside a sector is not modelled.
- CryptEnable.EnableInplace: enabling by wiping, unmounting, the progress property as text, and the restart at the end.
- PersistStore.PersistentData.SavePersistentData: the version gate above the store is left out here, since CryptFooter.GateNeverOpens shows that it never opens.
- FdEvent.EventLoop.Turn: a run is followed up to the first FATAL check or the first install that puts the table out of step; of what comes after the latter only the removal of the displaced event is followed. What FD_SET does to a descriptor past FD_SETSIZE, the force_eof mark, the epoll variant and the file-descriptor flags are not modelled.
- SyncServer.SyncService.DoSend: strtoul is modelled without signs, spaces and hexadecimal; a link that could not be removed counts as a file that cannot be opened, where the source would follow it.
- SyncServer.SyncService.HandleRequest: the directory listing is whatever the environment says; transport errors on the answer stream are not modelled.
- SyncClient.Client.SyncSend: the check that an APK is a zip file, transport errors and progress totals.
- SyncClient.Client.SyncRecv: a read that ends early leaves the stream where it was; after it the connection is given up.
- SyncClient.Client.CheckTimestamps: building the file list by walking a directory.
- Asec.VolumeManager.CreateAsec: removals during clean-up are taken to succeed; what a file system that covers the superblock sector later writes there is not modelled.
- Asec.VolumeManager.MountAsec: a loop device found active is expected to hold a file that still exists; waiting for the device node is left out.
- DirectVolume.DirectVolume.MountVol: the checks and mounts of the device nodes are one outcome, the same for every try.
- DirectVolume.DirectVolume.Arrive: a mount is requested before the partitions arrive or not at all; removal events and the encrypted-partition override of device numbers are not modelled.
- Command dispatch, logging, properties, sleeps, allocation failure and the daemons not named above.
