# Verification of the IEC 61850 server, demo device and .NET wrapper

A Dafny model of the parts of this repository that keep state, with proofs about whole runs of them.
`dafny verify dfyconfig.toml` checks everything.

| file | models |
|---|---|
| `BeagleDevice.dfy` | the BeagleBone demo server: its static variables as a class, one method per handler |
| `BeagleRuns.dfy`, `BeagleControl.dfy`, `BeagleTiming.dfy` | that server with any number of clients as a step system; authority, outputs, toggling |
| `ReportControlBlock.dfy`, `WriteBack.dfy` | the client's copy of a report control block: send flags, parameter mask, flush |
| `ReportRegistry.dfy`, `ReportDelivery.dfy` | the blocks of one connection and the native list of report handlers; which entries live, where reports go |
| `HandlerDispatch.dfy`, `ClientConnections.dfy` | the server wrapper: callback records behind opaque handles, the dictionary of connections |
| `NativeHeap.dfy`, `ClientServices.dfy` | native memory and linked lists; the read, directory, log and data set services |
| `Paging.dfy` | the journal loop and the file list loop of the MMS utility |
| `SampledValues.dfy` | the publisher, the main loop's operations on it, and the time deltas |
| `Common.dfy` | options and machine integers |

Every method of a class is proved equal to a function on values, or keeps a `Valid()` that ties the
fields to the history of calls. The lemmas are about those functions, over every run.

## What is taken from outside

* Demo server. Check handlers, settings and connection events run on the threads of the connections.
  Control handlers all run on the one worker thread of the server
  (libiec61850/src/iec61850/server/mms_mapping/mms_mapping.c:3005-3051, control.c:682-724 beside it),
  so one at a time. An accepted check occupies its control object until the handler has returned; a
  request for an occupied object reaches no handler (control.c:1434-1519). All outputs are under direct
  control without activation times, as the static model of the demo sets them up. Handlers, the two
  halves of a double point command, and rounds of the main loop are atomic.
* No promise is made that a connection outlives its commands: the stack reports the end of a
  connection before it looks for running commands (mms_mapping.c:2349-2365). Where a property of
  authority needs that, it says so (`CommandsOutlived`), and `ExclusiveThroughoutExactly` shows that it
  is exactly what is needed.
* `opCnt++` wraps at 32 bits in the model; in C an overflow is undefined.
* Report control block. The server stores the attributes it takes and changes nothing else, and an
  answer may be lost after a write was taken; the order of the writes and the rejected combinations are those of
  libiec61850/src/iec61850/client/client_report_control.c:496-699.
* Report handlers. The native list holds one handler per reference and replaces on install; a report
  goes to the first entry with its report id (libiec61850/src/iec61850/client/client_report.c:245-380).
  A block reports under the id that the server has for it, or the default id if that is empty.
  References are shorter than the 129 bytes of the buffer for default ids. Blocks are not used after
  the connection has been disposed.
* Native memory. A service returns an object or a list only with error 0. Any unused address may be
  allocated. The list functions are those of libiec61850/src/common/linked_list.c:27-90.
* Paging. Entry id and time identify a journal entry, file names differ, are not empty and fit the
  client's 300 byte buffer. Page sizes are arbitrary, and requests may fail; a server does not answer
  with empty pages of files for ever, for which the loop would ask for ever.

## Where the code does not do what it says

* A test check is refused but still takes the device over: a refused check leaves the device alone
  if and only if somebody has claimed it before (`RefusedCheckChangesNothingExactly`,
  `TestCheckLocksOut`).
* Ending a connection frees the device even if a command of that connection is waiting or moving an
  output: another client then controls the device while the command goes on
  (`ExclusiveThroughoutExactly`, `OwnershipChangesDuringMove`, `CommandStartsForFormerOwner`).
* `SetRCBValues` clears its flags before it tests the one that should install the report handler
  again, so the handler keeps its first report id (`RegisteredIdIsCurrentExactly`,
  `RenamedReportIsMissed`, `EarlyInstallIsHeardExactly`).
* `InstallReportHandler` is documented to replace any earlier handler. With two blocks of the same
  reference, or of the same report id, it may not (`InstallTakesEffectExactly`, `SecondInstallIsLost`,
  `SharedIdIsLost`).
* The journal loop uses the last entry of each page without looking whether there is one: it fails if
  and only if the first page is empty, as for a time range without entries, or a later request fails
  or brings nothing while entries are left (`ReadJournal`, `TwoReadingsMeetNull`).
* The file loop does not tell a failed request from the end of the list (`ListFiles`).
* `QueryLogAfter` never frees the native copy of the entry id (`QueryLogAfter`).
* The constant for the number of channels is 16, but 17 are reached; that for the number of values
  bounds nothing. The main loop's array has room for 16 times 16 (`ChannelLimitExactly`,
  `ArrayHoldsExactly`, `PressesAddChannels`, `PressesAddValues`).
* A block that is disposed still takes a handler, which then outlives the connection
  (`EmptyAtDestroyExactly`, `ReuseOutlivesConnection`).
* A comment puts the limit of time deltas at two seconds; it is one (`DeltasTelescope`, `LongGapIsCut`).

## Model

| member | source | states |
|---|---|---|
| BeagleDevice.BeagleServer.ConnectionIndication | libiec61850/demos/beaglebone/beagle_demo.c:37-54 | only the end of the owner's connection frees the device and turns automatic mode on again; nothing else changes |
| BeagleDevice.BeagleServer.PerformCheck | libiec61850/demos/beaglebone/beagle_demo.c:56-74 | a free device goes to the caller, test or not; accepted means the caller owns it and it was no test |
| BeagleDevice.BeagleServer.ControlBinaryOutput | libiec61850/demos/beaglebone/beagle_demo.c:103-147 | a test changes nothing; else exactly the addressed output changes, the double point one through its intermediate state |
| BeagleDevice.BeagleServer.StartMove | libiec61850/demos/beaglebone/beagle_demo.c:122-130 | the half before the sleep publishes 0 and flashes LED4 |
| BeagleDevice.BeagleServer.FinishMove | libiec61850/demos/beaglebone/beagle_demo.c:131-144 | the half after the sleep leaves LED4, state and published value on the commanded position, with the time of entry |
| BeagleDevice.BeagleServer.ControlInt32 | libiec61850/demos/beaglebone/beagle_demo.c:153-171 | only a real write to OpCntRs sets the counter and publishes it |
| BeagleDevice.BeagleServer.WriteSetting | libiec61850/demos/beaglebone/beagle_demo.c:175-203 | invalid value if and only if it is negative, whatever the attribute; access denied if and only if it is not negative and the attribute is neither delay; a refused write changes nothing, an accepted one its own delay alone |
| BeagleDevice.BeagleServer.Tick | libiec61850/demos/beaglebone/beagle_demo.c:275-299 | one round of the loop is the toggle function on the whole state, or nothing |
| BeagleRuns.StepKeepsInv | libiec61850/demos/beaglebone/beagle_demo.c:37-147 | automatic mode if and only if no owner, owner connected, delays non-negative, published counter current, double point state in transit exactly while its handler sleeps and consistent otherwise: kept by every step |
| BeagleRuns.ReachableInv | libiec61850/demos/beaglebone/beagle_demo.c:24-30 | that invariant holds after every run from power-up |
| BeagleRuns.NothingElseBlocks | libiec61850/src/iec61850/server/mms_mapping/control.c:682-724 | the rules of the step system refuse nothing else: ticks at any time, settings, checks of idle outputs and leaving for every connected client, waiting commands whenever no handler runs |
| BeagleRuns.StepKeepsExclusiveExactly | libiec61850/src/iec61850/server/mms_mapping/mms_mapping.c:2349-2365 | where all commands belong to the owner, a step keeps this if and only if it does not end a connection with a command waiting or moving |
| BeagleRuns.ExclusiveThroughoutExactly | libiec61850/demos/beaglebone/beagle_demo.c:45-73 | on every run all commands belong to the owner at every point if and only if no connection ends while it has a command |
| BeagleControl.DpcCommandCompletes | libiec61850/demos/beaglebone/beagle_demo.c:122-144 | between the halves of a command 0 is published, and no other handler runs, which is the promise of the single worker thread carried along the run; from its end to the next command LED4, dpcState, published value and time show the command; whatever connections come and go |
| BeagleControl.CommandHoldsDevice | libiec61850/demos/beaglebone/beagle_demo.c:122-138 | if connections outlive their commands, the client of a moving command owns the device to the end of the move, and all waiting commands are its own |
| BeagleControl.OwnershipChangesDuringMove | libiec61850/demos/beaglebone/beagle_demo.c:48-52 | a run in which another client is accepted while the first one's command still moves |
| BeagleControl.CommandStartsForFormerOwner | libiec61850/src/iec61850/server/mms_mapping/control.c:1505-1519 | a run in which a waiting command starts to move when another client owns the device |
| BeagleControl.RestsUntilFirstMove | libiec61850/demos/beaglebone/beagle_demo.c:30-35 | before the first double point command LED4 is off, the state 0 and the published value 1, after any run |
| BeagleControl.WaitsExactly | libiec61850/src/iec61850/server/mms_mapping/control.c:1434-1519 | a command of a client waits at an output if and only if a check for it was accepted and no handler of the output has started since |
| BeagleControl.HandlersFollowChecks | libiec61850/src/iec61850/server/mms_mapping/control.c:400-405 | each handler runs for the client and the value of an accepted check that no handler has served yet |
| BeagleControl.ConnectedExactly | libiec61850/src/iec61850/server/mms_mapping/mms_mapping.c:2344-2392 | a client is connected if and only if its last connection event opened it |
| BeagleControl.DpcCommandIsAtomic | libiec61850/demos/beaglebone/beagle_demo.c:129-140 | any run with other events between the two halves ends in the state of the run with both halves together at the end |
| BeagleControl.OwnerIsFirstClaimant | libiec61850/demos/beaglebone/beagle_demo.c:38-63 | after any run the owner is the first client that called the check handler since the last disconnect of an owner, none if nobody did |
| BeagleControl.AcceptedExactlyForClaimant | libiec61850/demos/beaglebone/beagle_demo.c:56-74 | a verdict is ACCEPTED if and only if the check is no test and its caller is that first client |
| BeagleControl.RefusedCheckChangesNothingExactly | libiec61850/demos/beaglebone/beagle_demo.c:59-74 | after any run a refused check leaves the device unchanged if and only if somebody called the check handler since the last disconnect of an owner; else it was a test, and its caller becomes owner |
| BeagleControl.TestCheckLocksOut | libiec61850/demos/beaglebone/beagle_demo.c:59-67 | a run in which one refused test makes its caller the owner, stops automatic mode and has another client refused |
| BeagleControl.OneControllerBetweenReleases | libiec61850/demos/beaglebone/beagle_demo.c:69-73 | two accepted checks with no release between them come from the same client |
| BeagleControl.OwnedRunsIgnoreTicks | libiec61850/demos/beaglebone/beagle_demo.c:278-298 | while the device is owned, all rounds of the main loop can be left out of a run without changing its result |
| BeagleControl.DelaysAreLastWrites | libiec61850/demos/beaglebone/beagle_demo.c:149-203 | after any run OpDlTmms governs the off delay and RsDlTmms the on delay, each the last accepted value or 1000 |
| BeagleTiming.CounterIsConserved | libiec61850/demos/beaglebone/beagle_demo.c:153-171 | LED phase is the parity of all toggles; counter and published counter are the last write plus on-toggles since, modulo 32 bits, over any hand-overs |
| BeagleTiming.CounterWithoutOverflow | libiec61850/demos/beaglebone/beagle_demo.c:289-293 | the counter is that balance itself if and only if the balance fits 32 bits |
| BeagleTiming.CounterShowsItsTime | libiec61850/demos/beaglebone/beagle_demo.c:163-168 | after any run the time stamp of the counter is that of the last write or of the last toggle that counted, every other one |
| BeagleTiming.DeadlinesAdvance | libiec61850/demos/beaglebone/beagle_demo.c:279-285 | on every run a new deadline is exactly one non-negative delay after its tick, and deadlines never decrease |
| BeagleTiming.TogglesAreSpaced | libiec61850/demos/beaglebone/beagle_demo.c:273-299 | in automatic mode neighbouring toggles alternate and are between one delay and one delay plus one clock gap apart; no round of the loop passes a deadline without a toggle |
| BeagleTiming.FirstToggle | libiec61850/demos/beaglebone/beagle_demo.c:278-285 | the first toggle of an automatic run, also after a client has let go, comes at the first clock reading that is not before the deadline, so at most one gap late; until then no reading reaches the deadline |
| BeagleTiming.FirstToggleAfterPowerUp | libiec61850/demos/beaglebone/beagle_demo.c:271-279 | after power-up the LEDs go on between 1000 ms and 1000 ms plus one gap |
| BeagleTiming.ToggleTiming | libiec61850/demos/beaglebone/beagle_demo.c:273-299 | the time between any two toggles lies between the sum of the delays in force and that sum plus one gap per interval |
| BeagleTiming.OutputsShowLastSwitch | libiec61850/demos/beaglebone/beagle_demo.c:76-120 | after any run LED, stVal, quality and time of each single point output are those of its own last command or the last toggle, whichever came later |
| ReportControlBlock.MaskDecodes | libiec61850/dotnet/IEC61850forCSharp/ReportControlBlock.cs:327-369 | a mask with one bit per attribute reads back as exactly the attributes it was made from |
| ReportControlBlock.WeightsDecode | libiec61850/src/iec61850/inc/iec61850_client.h:696-741 | adding the weights of any set of attributes gives a mask that decodes to that set |
| ReportControlBlock.ReportControlBlock.ParametersMask | libiec61850/dotnet/IEC61850forCSharp/ReportControlBlock.cs:325-369 | the accumulated mask decodes to the raised flags |
| ReportControlBlock.ReportControlBlock.Set | libiec61850/dotnet/IEC61850forCSharp/ReportControlBlock.cs:487-712 | the value is stored and its flag raised; flags stay within the eleven settable attributes, so never ConfRev, SqNum or ResvTms |
| ReportControlBlock.ReportControlBlock.GetRCBValues | libiec61850/dotnet/IEC61850forCSharp/ReportControlBlock.cs:292-300 | a successful read overlays the server's values and leaves the flags alone |
| ReportControlBlock.ReportControlBlock.SetRCBValues | libiec61850/dotnet/IEC61850forCSharp/ReportControlBlock.cs:325-387 | no flag is up afterwards whether or not it throws; it throws if and only if a buffered block wants Resv, an unbuffered one PurgeBuf, a wanted write is not taken and confirmed, or a single request is not answered; in the first two cases nothing is written |
| ReportControlBlock.DefaultIdExactly | libiec61850/src/iec61850/client/client_report.c:365-369 | without an id or with an empty one a block goes by its reference with every dot turned into a dollar sign, character by character |
| ReportControlBlock.BufferedExactly | libiec61850/src/iec61850/client/client_report_control.c:34-46 | a block is buffered if and only if the first dot of its reference is followed by a B |
| ReportControlBlock.ReportControlBlock.InstallReportHandler | libiec61850/dotnet/IEC61850forCSharp/ReportControlBlock.cs:268-286 | the native library is called the first time only, with the report id of that moment |
| WriteBack.RequestOrder | libiec61850/src/iec61850/client/client_report_control.c:526-643 | each wanted attribute is written once, reservations first, RptEna after all settings, GI after RptEna if it enables |
| WriteBack.WrittenExactly | libiec61850/src/iec61850/client/client_report_control.c:496-699 | for any answer: what reaches the server is, if not refused, the wanted attributes that the server takes, with separate requests only those with everything before them taken and confirmed, in the order of the places |
| WriteBack.FlushExactly | libiec61850/src/iec61850/client/client_report_control.c:496-699 | the flush overlays the server block with the local values of exactly these attributes and changes nothing else but the flags |
| WriteBack.ConfirmedFlushExactly | libiec61850/dotnet/IEC61850forCSharp/ReportControlBlock.cs:371-378 | if everything is taken and confirmed, the server block is the old one overlaid with the local values of all dirty attributes, or the old one if the flush is refused |
| WriteBack.SettersRaise | libiec61850/dotnet/IEC61850forCSharp/ReportControlBlock.cs:487-712 | the settable attributes are all but ConfRev, SqNum, TimeOfEntry and ResvTms |
| WriteBack.FlushWrites | libiec61850/dotnet/IEC61850forCSharp/ReportControlBlock.cs:371-375 | a flush changes written attributes only, to the local values; all dirty ones if it succeeds |
| WriteBack.FlushDeliversPending | libiec61850/dotnet/IEC61850forCSharp/ReportControlBlock.cs:292-378 | after any history of setters, reads and flushes a flush moves at most the pending values to the server, and all of them if it does not throw |
| WriteBack.FlushAfterReadIsNeutral | libiec61850/dotnet/IEC61850forCSharp/ReportControlBlock.cs:292-300 | after a read with no later setter a flush leaves the server as it is |
| WriteBack.WriteBackRefinesWriteThrough | libiec61850/dotnet/IEC61850forCSharp/ReportControlBlock.cs:42-46 | without reads, server block plus pending values is at any point the block that write-through setters would give |
| WriteBack.FlushEqualsWriteThrough | libiec61850/dotnet/IEC61850forCSharp/ReportControlBlock.cs:305-308 | so after each flush the server block equals the write-through block |
| WriteBack.CarriesRptIdExactly | libiec61850/src/iec61850/client/client_report_control.c:524-552 | a flush brings RptId to the server if and only if it is wanted and allowed, the server takes it, and a separate Resv before it was confirmed |
| WriteBack.RegisteredIdIsCurrentExactly | libiec61850/dotnet/IEC61850forCSharp/ReportControlBlock.cs:268-286 | over all histories with reads and failed flushes: the registered id is the server's if and only if the id the client had at the first install is the one the flushes have left at the server, and reports are heard if and only if both mean the same |
| WriteBack.EarlyInstallIsHeardExactly | libiec61850/dotnet/IEC61850forCSharp/ReportControlBlock.cs:274-284 | a handler installed before any read is heard if and only if the server has no id, an empty one, or the reference with dots turned into dollar signs |
| WriteBack.RenamedReportIsMissed | libiec61850/dotnet/IEC61850forCSharp/ReportControlBlock.cs:380-386 | a concrete flush that changes the id at the server and not at the handler |
| ReportRegistry.StepKeepsInvExactly | libiec61850/dotnet/IEC61850forCSharp/Reporting.cs:36-65 | native entries belong to active blocks of their reference: kept by a step if and only if it gives no first handler to a disposed block |
| ReportRegistry.InvThroughoutExactly | libiec61850/dotnet/IEC61850forCSharp/Reporting.cs:36-65 | on every run that holds at every point if and only if no disposed block gets its first handler |
| ReportRegistry.RegistrySafety | libiec61850/dotnet/IEC61850forCSharp/IEC61850ClientAPI.cs:417-435 | destroy happens once exactly if the run disposes; if no disposed block is used again, native references are among the active ones on every run, and the handler list is empty at destroy |
| ReportDelivery.EmptyAtDestroyExactly | libiec61850/dotnet/IEC61850forCSharp/Reporting.cs:38-47 | over all runs, reuse included: the handler list is empty at destroy if and only if every install that still counts has the reference of some block that is not disposed |
| ReportDelivery.ReuseOutlivesConnection | libiec61850/dotnet/IEC61850forCSharp/ReportControlBlock.cs:242-247 | a run in which a handler installed on a disposed block outlives the connection |
| ReportDelivery.HandlersAreLiveInstalls | libiec61850/src/iec61850/client/client_report.c:262-306 | after any run the native list is, in order, the first installs of blocks that no later disposal or first install of the same reference has removed |
| ReportDelivery.ReportsGoToEarliestExactly | libiec61850/src/iec61850/client/client_report.c:345-380 | after any run a report of an id reaches a block if and only if the block made the earliest such install under that id; nobody if and only if there is none |
| ReportDelivery.OnlyInstallHearsExactly | libiec61850/src/iec61850/client/client_report.c:358-376 | with one live install a report reaches its block if and only if it carries the id of the install or, if that had none, the reference with dots turned into dollar signs |
| ReportDelivery.InstallTakesEffectExactly | libiec61850/dotnet/IEC61850forCSharp/ReportControlBlock.cs:254-286 | in terms of the calls before it: exactly when an install makes the reports of an id reach its block and its callback; a later install of a block not reached changes no delivery |
| ReportDelivery.SecondInstallIsLost | libiec61850/dotnet/IEC61850forCSharp/ReportControlBlock.cs:274-285 | a run in which the documented replacement fails |
| ReportDelivery.SharedIdIsLost | libiec61850/src/iec61850/client/client_report.c:358-376 | a run in which two blocks share a report id and the second one's handler gets nothing |
| ReportDelivery.DistinctBlocksAreReached | libiec61850/dotnet/IEC61850forCSharp/Reporting.cs:49-59 | with one block per reference and per report id, every block with a handler is reached under its id until disposed |
| ReportRegistry.IedConnection.GetReportControlBlock | libiec61850/dotnet/IEC61850forCSharp/Reporting.cs:49-59 | a new block is appended to the list, which is made on first use |
| ReportRegistry.IedConnection.InstallReportHandler | libiec61850/dotnet/IEC61850forCSharp/ReportControlBlock.cs:268-286 | on the connection's state it is the registry step |
| ReportRegistry.IedConnection.DisposeBlock | libiec61850/dotnet/IEC61850forCSharp/ReportControlBlock.cs:229-247 | it takes the reference out of the native list and the block out of the active ones |
| ReportRegistry.IedConnection.CleanupRCBs | libiec61850/dotnet/IEC61850forCSharp/Reporting.cs:38-47 | the loop removes exactly the references of the active blocks |
| ReportRegistry.IedConnection.Dispose | libiec61850/dotnet/IEC61850forCSharp/IEC61850ClientAPI.cs:417-435 | after any number of calls destroyed once, with an empty handler list if every entry belonged to an active block |
| HandlerDispatch.LastFor | libiec61850/dotnet/IEC61850forCSharp/IEC61850ServerAPI.cs:882-919 | names the last registration of a node and kind through any wrapper: one exists exactly if the log has one, and no later one matches |
| HandlerDispatch.FirstFor | libiec61850/dotnet/IEC61850forCSharp/IEC61850ServerAPI.cs:921-927 | names the first write registration of a node |
| HandlerDispatch.IedServer.GetControlHandlerInfo | libiec61850/dotnet/IEC61850forCSharp/IEC61850ServerAPI.cs:868-880 | one record per wrapper, kept once it exists |
| HandlerDispatch.IedServer.SetHandler | libiec61850/dotnet/IEC61850forCSharp/IEC61850ServerAPI.cs:882-919 | every node keeps leading to the record and callback of its last registration, with several wrappers per node and all three kinds mixed |
| HandlerDispatch.IedServer.DispatchControl | libiec61850/dotnet/IEC61850forCSharp/IEC61850ServerAPI.cs:692-731 | what is invoked is the callback, parameter and wrapper of the last registration of the node, or the refusal code of the kind if that was null; a check sees the client that is open |
| HandlerDispatch.IedServer.HandleWriteAccess | libiec61850/dotnet/IEC61850forCSharp/IEC61850ServerAPI.cs:921-927 | a second registration of a node throws and changes nothing |
| HandlerDispatch.IedServer.DispatchWrite | libiec61850/dotnet/IEC61850forCSharp/IEC61850ServerAPI.cs:746-758 | the first registration of the node is invoked, with the client that is open |
| HandlerDispatch.IedServer.ConnectionIndication | libiec61850/dotnet/IEC61850forCSharp/IEC61850ServerAPI.cs:762-784 | the dictionary and the announcements are those of the event history; every opening has a new object; opening twice throws unannounced |
| ClientConnections.OpenExactly | libiec61850/dotnet/IEC61850forCSharp/IEC61850ServerAPI.cs:704-718 | a handler is given an object for a pointer if and only if the last event of that pointer opened it with that object |
| ClientConnections.DisconnectsMatchConnects | libiec61850/dotnet/IEC61850forCSharp/IEC61850ServerAPI.cs:762-784 | each disconnect announces the object announced at the matching connect, with no event of the pointer between, reuse included |
| ClientConnections.AnnouncementsBalance | libiec61850/dotnet/IEC61850forCSharp/IEC61850ServerAPI.cs:762-784 | over a whole history each object is announced connected at most once and disconnected as often, less one while it is open |
| NativeHeap.Heap.LinkedListAdd | libiec61850/src/common/linked_list.c:106-116 | one new node with the data at the end of the list, all cells outside the list untouched |
| NativeHeap.Heap.LinkedListDestroyDeep | libiec61850/src/common/linked_list.c:51-67 | exactly the head, the nodes and their data are freed, each once |
| NativeHeap.Heap.LinkedListDestroyStatic | libiec61850/src/common/linked_list.c:78-90 | exactly the head and the nodes are freed |
| NativeHeap.Heap.GetLastElement | libiec61850/src/common/linked_list.c:27-34 | the walk ends at the last node, or the head of an empty list |
| NativeHeap.ChainAppend | libiec61850/src/common/linked_list.c:106-116 | relinking the last node makes the longer chain |
| ClientServices.IedServices.ReadObjectChecked | libiec61850/dotnet/IEC61850forCSharp/IEC61850ClientAPI.cs:842-883 | a service error throws its own code, a missing object 0, an access error its code, with nothing left allocated; any other answer is returned |
| ClientServices.IedServices.ReadBooleanValue | libiec61850/dotnet/IEC61850forCSharp/IEC61850ClientAPI.cs:890-904 | the value exactly for a boolean answer, an exception otherwise; the heap is unchanged on every exit |
| ClientServices.IedServices.ReadFloatValue | libiec61850/dotnet/IEC61850forCSharp/IEC61850ClientAPI.cs:910-924 | the same for float |
| ClientServices.IedServices.ReadStringValue | libiec61850/dotnet/IEC61850forCSharp/IEC61850ClientAPI.cs:930-946 | the same for both string types |
| ClientServices.IedServices.ReadBitStringValue | libiec61850/dotnet/IEC61850forCSharp/IEC61850ClientAPI.cs:952-984 | the same for bit strings and qualities |
| ClientServices.IedServices.ReadValue | libiec61850/dotnet/IEC61850forCSharp/IEC61850ClientAPI.cs:862-867 | the native value is kept by exactly the returned wrapper |
| ClientServices.IedServices.ReadIntegerValue | libiec61850/dotnet/IEC61850forCSharp/IEC61850ClientAPI.cs:1008-1018 | the value for an integer answer; also on a wrong type one wrapper keeps the native value |
| ClientServices.IedServices.ReadTimestampValue | libiec61850/dotnet/IEC61850forCSharp/IEC61850ClientAPI.cs:990-1000 | the same for time stamps |
| ClientServices.IedServices.FinaliseValue | libiec61850/dotnet/IEC61850forCSharp/MmsValue.cs:222-226 | the finaliser frees the one cell its wrapper keeps |
| ClientServices.IedServices.CopyStrings | libiec61850/dotnet/IEC61850forCSharp/IEC61850ClientAPI.cs:598-608 | the walk yields the strings of the native list in order |
| ClientServices.IedServices.StringDirectory | libiec61850/dotnet/IEC61850forCSharp/IEC61850ClientAPI.cs:589-613 | the caller gets exactly the list of the answer and the heap is as before the call |
| ClientServices.IedServices.FileDirectory | libiec61850/dotnet/IEC61850forCSharp/IEC61850ClientAPI.cs:1040-1069 | the same for file entries, which are freed during the walk |
| ClientServices.IedServices.CreateDataSet | libiec61850/dotnet/IEC61850forCSharp/IEC61850ClientAPI.cs:1252-1271 | the service gets all elements in order and all memory is freed whether or not it fails |
| ClientServices.IedServices.WrapNativeLogQueryResult | libiec61850/dotnet/IEC61850forCSharp/IEC61850ClientAPI.cs:738-756 | one new wrapper per entry, in order; only the spine is freed |
| ClientServices.IedServices.QueryLogByTime | libiec61850/dotnet/IEC61850forCSharp/IEC61850ClientAPI.cs:793-807 | the live cells grow by the entries, each kept by its own wrapper |
| ClientServices.IedServices.QueryLogAfter | libiec61850/dotnet/IEC61850forCSharp/IEC61850ClientAPI.cs:767-782 | the same, each entry kept by its own wrapper and old cells unchanged, plus one cell for the entry id that nobody will free; ids over 255 bytes are refused first |
| ClientServices.IedServices.DisposeEntry | libiec61850/dotnet/IEC61850forCSharp/IEC61850ClientAPI.cs:227-238 | the entry is freed once over any number of calls |
| Paging.ReadJournal | libiec61850/examples/mms_utility/mms_utility.c:280-312 | for all page sizes and failing requests the loop ends; it meets a null entry if and only if the first page is empty, or more follows and some request fails or brings nothing while entries are left; else it prints the first page and, if more follows, every later entry once and in order; what is printed and how often is asked is stated in each case |
| Paging.Ends | libiec61850/examples/mms_utility/mms_utility.c:300-312 | whether and at which request the reading starves follows from the page sizes: at the first request not served, if anything is left then |
| Paging.TwoReadingsMeetNull | libiec61850/examples/mms_utility/mms_utility.c:286-287 | a time range without entries and a failed second request both meet a null entry |
| Paging.ListFiles | libiec61850/examples/mms_utility/mms_utility.c:345-354 | files are printed in order and once; all of them if and only if no request fails while names are left, else exactly those before the failure; empty pages are asked again |
| Paging.StrCpy | libiec61850/examples/mms_utility/mms_utility.c:29-37 | the buffer reads back as the name |
| Paging.ReadStartAfter | libiec61850/src/mms/iso_mms/client/mms_client_connection.c:1947-1966 | a failed request has no list; else the answer is a run strictly after the cursor, empty only at the end of the journal or if the server sends none |
| Paging.ResumeAt | libiec61850/src/mms/iso_mms/server/mms_file_service.c:852-857 | the server resumes just behind the named file, at the start for an empty name, nowhere for an unknown one |
| SampledValues.PublisherInvariant | publisher.hpp:108-156 | on every run: running if and only if set up, at most 17 channels, values at separate places, one sample count for all channels that counts the frames since the last reset |
| SampledValues.InterfaceAndNames | main.cpp:170-180 | on every run the interface is the network chosen last, or that of the start, and the channels are those added and not taken away, in order |
| SampledValues.RunsSinceStart | main.cpp:160-172 | the publisher runs if and only if it was started and neither stopped nor given a network since |
| SampledValues.ResetClearsAll | main.cpp:170-180 | after a stop or a choice of network there is no channel, nothing runs or is set up, and the interface is the old one or the chosen one |
| SampledValues.ValuesFollowChoices | main.cpp:292-333 | on runs without removals every value keeps its place and has the mode chosen last for it; new values are manual and lie four bytes apart behind the old ones |
| SampledValues.NewChannelIsEmpty | publisher.hpp:131-136 | a new channel is the last one and empty, unless there are 17 |
| SampledValues.RemoveValueTakesLast | main.cpp:316-318 | only the last value of the channel goes; the data does not shrink |
| SampledValues.RemoveChannelTakesLast | main.cpp:230-232 | only the last channel goes |
| SampledValues.LayoutIsFrozen | main.cpp:227-365 | from start to reset names and places of all channels and values stay, whatever is pressed |
| SampledValues.ChannelLimitExactly | publisher.hpp:131-136 | on every run the channels stay within the constant 16 if and only if none is added to 16 |
| SampledValues.ArrayHoldsExactly | main.cpp:219-268 | on every run all channel and value indices stay inside the array of 16 times 16 if and only if no channel is added to 16 and no value to a channel of 16 |
| SampledValues.PressesAddValues | publisher.hpp:57-64 | any number of presses lead to one value more; the constant for values bounds nothing |
| SampledValues.PressesAddChannels | publisher.hpp:131-136 | sixteen presses lead to 17 channels |
| SampledValues.MainLoop.Handle | main.cpp:158-365 | each menu choice or button is its step on the publisher, which only stop and network replace |
| SampledValues.MainLoop.NextTimestamp | main.cpp:273-287 | what is sent is the delta of the two readings, in unsigned arithmetic without wrap |
| SampledValues.Publisher.Broadcast | publisher.hpp:139-145 | the loop counts every channel once, and nothing unless set up and running |
| SampledValues.Publisher.AddChannel | publisher.hpp:131-136 | one channel more up to the limit as coded |
| SampledValues.DeltaIsGapModSecond | main.cpp:274-286 | a delta is the true gap modulo one second, and the gap itself if and only if that is under a second |
| SampledValues.DeltasTelescope | main.cpp:274-286 | all deltas add up to the elapsed time modulo a second and never to more; to the elapsed time if and only if every gap is under a second |
| SampledValues.LongGapIsCut | main.cpp:274-286 | a gap of 1.5 seconds is sent as half a second |

## Left out

- The user interface, OpenGL and menu code, and the enumeration of network interfaces.
- The generated static models, and the encoding, sockets and threads of libiec61850.
- The sine values and the float process values of the demo server.
- The LED files of the BeagleBone: an LED is off, on or flashing.
- The clean-up of control objects after their connection has ended, which may forget a waiting command or free an object before its handler returns.
- Freeing the last cursor pair of the journal loop, which the program forgets when no page follows.
- The dangling channel reference after a channel is removed in the middle of drawing it.
- Which integer type a value in timestamp mode has when it is sent: only the number is modelled.
- The conversions of OptFlds and TrgOps to bit strings, and the report objects passed to callbacks.
- Memory of the native report control block objects, which the wrapper never frees.
- ReportControlBlock.ReportControlBlock.Set: stands for eleven setters that differ in attribute only; the fourteen flag fields are one set of attributes.
- HandlerDispatch.IedServer.SetHandler: stands for three methods that differ in the kind only.
- ClientServices.IedServices.FileDirectory: stands also for the query of file names, which keeps the name of each entry only.
- ClientServices.IedServices.StringDirectory: stands for the seven string queries, whose walks are the same text.
- Paging.ReadJournal: the first page is any run of the journal; how a time range selects it is not modelled.
