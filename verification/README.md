# Verification of the HID bootloader

A Dafny model of a USB HID bootloader for XMEGA microcontrollers and of the host program that
flashes it, with proofs of what both are for. `dafny verify dfyconfig.toml` checks everything.

| file | models |
|---|---|
| `Endpoint.dfy` | jobs on bulk and interrupt endpoints: `udd_ep_run`, `udd_ep_trans_complet`, abort, halt, allocation |
| `Control.dfy` | the control endpoint: SETUP, DATA and STATUS stages |
| `UsbConfig.dfy` | configuration descriptors, interfaces and endpoint allocation |
| `Flashing.dfy` | the flashing protocol: bootloader, report channel and host program |
| `IntelHex.dfy` | the Intel HEX loader, and the host program as a whole |
| `Nvm.dfy` | read-modify-write of flash, user signature row and EEPROM |
| `HexImage.dfy` | firmware images, cut into hex records, loaded and flashed |
| `Crc.dfy` | CRC-32 and the 24-bit CRC of the XMEGA controller |
| `CrcDivision.dfy` | the 24-bit CRC as a division of polynomials |
| `CrcTable.dfy` | the literal lookup table of CRC-32 |
| `Getopt.dfy` | the permuting option scanner |
| `CommandLine.dfy` | options declared and given, written as command lines and scanned |
| `SleepLocks.dfy` | the sleep mode locks of the USB driver |
| `Packets.dfy` | cutting data into packets, and the arithmetic of multiples |

The code changes state in place, and so does the model: endpoints, the scanner, the device, the
host, the loader, the memories and the locks are classes whose methods have the branches, constants
and integer widths of the source. Each method is proved against a function of the old state, and the
lemmas say what those functions mean in terms that no code uses: command lines rendered from options,
images cut into records, remainders of polynomials, packets that concatenate to the data. The hardware is the least that the driver relies on: an endpoint
moves one packet at a time, erasing sets every bit, writing without erasing only clears bits, a page
buffer ANDs what is loaded twice and is empty after a write, and self-programming goes on until
somebody waits for it. Ghost fields record what an observer sees: packets, callbacks, reports.
Interrupt routines run one after the other.

## What the proofs found

Several expectations hold only under a condition. The code is modelled as it is, and the exact
condition is proved.

* The byte count of an OUT job has 16 bits. It wraps to 0 exactly for buffers larger than 65536 minus
  the packet size; such a job never completes by filling its buffer, only with a short packet
  (`JobStates.FullBufferEndsExactlyWhen`, `EndpointJobs.Endpoint.HwReceive`).
* A completion that is still pending when its job is aborted is handled all the same. It goes by the
  registers of whatever runs then: it can request a transfer for no job, or end the next job early,
  but it never calls a callback twice or for a job that is over
  (`EndpointJobs.Endpoint.LateCompletion`, `EndpointJobs.Replay`).
* The sums of the counters in the OUT stage of a control transfer have 16 bits too. The stage keeps to
  its payload buffer exactly when the buffer or the request is not larger than 65536 minus the packet
  size; otherwise full packets can bring the count around to 0, and the last of them is written past
  the buffer (`ControlWrites.KeepsToBufferExactlyWhen`). No request of this firmware offers such a
  buffer.
* A control read conforms to section 8.5.3.2 of USB 2.0 exactly when its payload is not longer than
  wLength and, if it is empty, the short-packet flag was not left set by an earlier request
  (`ControlReads.ConformsExactlyWhen`).
* The address of SET_ADDRESS comes into force when its status stage has been entered, not only when it
  has succeeded: the next SETUP counts as its end even after the handshake was stalled
  (`ControlEndpoint.AddressWithoutHandshake`).
* A SET_INTERFACE for a setting that does not exist leaves the interface switched off, so the endpoints
  of the default settings are all allocated exactly when each interface has them
  (`UsbConfig.DefaultsAllocatedExactlyWhen`). The endpoints of alternate settings are freed only if
  the class driver reports the setting in use, or if they are endpoints of setting 0 as well: a
  descriptor with others leaks them (`UsbConfig.Released`, `UsbConfig.AlternateLeaks`); the driver of
  this firmware always reports 0, and its descriptor has no other setting. The abort loop of a bus
  reset leaves out the highest endpoint number; unconfiguring makes up for it (`UsbConfig.Udc.BusReset`).
* Scanning a permuted argument vector again gives the same result except exactly when the last option
  lacked its argument and other elements follow (`GetoptTheorems.RescanSame`).
* `CheckBusy` asks for a status of six bytes, an accepted command has one of five: the host never waits
  (`FlashingHost.Host.WaitNotBusy`). What orders the flash operations is that each command of the
  device waits for the operation before it. A transport that reports any other number of bytes than
  five leaves the device erased (`FlashingHost.Host.UpdateFirmware`).
* The answer to a command is the right one exactly when the drain before it left no report on its way,
  which is up to the transport: a read that gives up early can let the report of a page write pass for
  an answer (`FlashingHost.Host.ExecuteHIDCommandWithResponse`).
* A flash write, and an EEPROM write that begins with a full page, program the AND of the data with
  whatever the page buffer already held (`Overlays.AndOverlayKeepsExactlyWhen`,
  `NvmEeprom.WritesDataExactlyWhen`).
* The loader reads hexadecimal digits right exactly when none is lower-case
  (`Hex.ReadRightExactlyWhen`); an end-of-file record does not end the file; `firmware_size` is the
  highest address, one less than a size.
* Enabling the USB driver twice without disabling it leaks a lock (`SleepLocks.Locks.UddEnable`);
  without `sleepmgr_init`, which this firmware does not call, the search for a sleep mode stays in the
  table only while the driver is enabled (`SleepLocks.ModeOfPower`).

## Model

| member | source | states |
|---|---|---|
| `EndpointJobs.Replay` | firmware/hid_bootloader/src/ASF/xmega/drivers/usb/usb_device.c:619-753 | over every interleaving of allocation, freeing, runs, aborts, halts, clear-halts, packets and late completions of transfers that were aborted: each run that was accepted with a callback got a number then, and the callbacks come with just these numbers, each once and in order, but for a run still under way; a callback hears of an abort if and only if its event was an abort, a halt or a freeing, and after such an event no run is waiting; a halted or freed endpoint has no job |
| `EndpointJobs.SendAll` | firmware/hid_bootloader/src/ASF/xmega/drivers/usb/usb_device.c:1362-1397 | an IN job puts exactly its buffer on the wire in full packets with only the last possibly short, closed by a zero-length packet iff it is empty or a short packet was asked for and the size is a multiple of the packet size; one callback, with the size |
| `EndpointJobs.ReceiveAll` | firmware/hid_bootloader/src/ASF/xmega/drivers/usb/usb_device.c:1398-1446 | an OUT job fed with any packets ends at exactly the first that is short or, unless the byte count can wrap, fills the buffer; the callback hears the count; as long as fewer than 65536 bytes came, as always when the count cannot wrap, the buffer holds them, cut at its size; nothing beyond the buffer is written |
| `EndpointJobs.Apply` | firmware/hid_bootloader/src/ASF/xmega/drivers/usb/usb_device.c:619-753 | one event keeps the bookkeeping of the endpoint, and all of its invariant unless a completion has come late; it counts accepted runs and never takes back a callback |
| `EndpointJobs.Endpoint.HwSend` | firmware/hid_bootloader/src/ASF/xmega/drivers/usb/usb_device.c:1362-1397 | each packet is the next one of the job, the job ends exactly when all of it is on the wire, and no transfer is lost at a seam between hardware transfers |
| `EndpointJobs.Endpoint.HwReceive` | firmware/hid_bootloader/src/ASF/xmega/drivers/usb/usb_device.c:1398-1446 | each packet is stored inside the buffer or the cache; unless the byte count can wrap, the job ends exactly with a short packet or a full buffer; if it can wrap, only with a short packet |
| `EndpointJobs.Endpoint.InTransComplet` | firmware/hid_bootloader/src/ASF/xmega/drivers/usb/usb_device.c:1362-1397 | after a completed IN transfer: the next chunk, the zero-length packet, or the callback once everything has been sent |
| `EndpointJobs.Endpoint.OutTransComplet` | firmware/hid_bootloader/src/ASF/xmega/drivers/usb/usb_device.c:1398-1456 | after a completed OUT transfer: the cached rest is copied, the count brought up to date, and the next transfer or the callback follows, each exactly when it should |
| `EndpointJobs.Endpoint.RequestOut` | firmware/hid_bootloader/src/ASF/xmega/drivers/usb/usb_device.c:1420-1444 | the next OUT transfer is whole packets inside the buffer, or one packet into the cache when less than a packet is left |
| `EndpointJobs.Endpoint.CopyFromCache` | firmware/hid_bootloader/src/ASF/xmega/drivers/usb/usb_device.c:1403-1408 | exactly the last part of the buffer comes from the cache, and only if the cache was used |
| `EndpointJobs.Endpoint.LateCompletion` | firmware/hid_bootloader/src/ASF/xmega/drivers/usb/usb_device.c:1351-1458 | a completion that arrives after its job was aborted, or during the next one, calls the callback at most once, and only that of the job under way; without a job it calls none |
| `EndpointJobs.Endpoint.Run` | firmware/hid_bootloader/src/ASF/xmega/drivers/usb/usb_device.c:673-729 | a run is accepted iff the endpoint is allocated, not halted and idle; a refused one changes nothing, an accepted one starts a fresh job |
| `EndpointJobs.Endpoint.AbortJob` | firmware/hid_bootloader/src/ASF/xmega/drivers/usb/usb_device.c:731-753 | a job under way is ended with exactly one callback, which hears that it was aborted and how far the hardware got |
| `EndpointJobs.Endpoint.SetHalt` | firmware/hid_bootloader/src/ASF/xmega/drivers/usb/usb_device.c:638-649 | halting ends the job with one callback, so that a halted endpoint has none |
| `EndpointJobs.Endpoint.ClearHalt` | firmware/hid_bootloader/src/ASF/xmega/drivers/usb/usb_device.c:651-671 | ending a halt finds no job |
| `EndpointJobs.Endpoint.Alloc` | firmware/hid_bootloader/src/ASF/xmega/drivers/usb/usb_device.c:596-616 | an endpoint is allocated iff it was not |
| `EndpointJobs.Endpoint.Free` | firmware/hid_bootloader/src/ASF/xmega/drivers/usb/usb_device.c:619-627 | freeing ends the job with one callback |
| `JobStates.NextChunk` | firmware/hid_bootloader/src/ASF/xmega/drivers/usb/usb_device.c:1371-1386 | a chunk before the last is a multiple of the packet size, so no short packet occurs at a seam |
| `JobStates.PacketSent` | firmware/hid_bootloader/src/ASF/xmega/drivers/usb/usb_device.c:1362-1397 | every packet the hardware sends keeps the wire equal to the data cut into packets |
| `JobStates.OutJobContinues` | firmware/hid_bootloader/src/ASF/xmega/drivers/usb/usb_device.c:1416-1445 | a job that goes on has counted a multiple of the packet size, and its next transfer lands inside the buffer or the cache |
| `JobStates.OutJobEnds` | firmware/hid_bootloader/src/ASF/xmega/drivers/usb/usb_device.c:1403-1414 | a job that ends has the received bytes, cut at its size, in the buffer |
| `JobStates.CountedMultiple` | firmware/hid_bootloader/src/ASF/xmega/drivers/usb/usb_device.c:1410-1419 | while receiving goes on the byte count is a multiple of the packet size, or has wrapped to 0 after 65536 bytes |
| `JobStates.FullBufferEndsExactlyWhen` | firmware/hid_bootloader/src/ASF/xmega/drivers/usb/usb_device.c:1410-1419 | a full transfer that has brought as many bytes as the buffer holds ends the job if and only if the buffer is not larger than 65536 minus the packet size; otherwise the 16-bit byte count has wrapped to 0 |
| `Packets.CutIsFaithful` | firmware/hid_bootloader/src/ASF/xmega/drivers/usb/usb_device.c:1369-1397 | cutting data into packets loses nothing and leaves every packet but the last full |
| `ControlReads.ConformsExactlyWhen` | firmware/hid_bootloader/src/ASF/xmega/drivers/usb/usb_device.c:1078-1130 | for every payload, requested length, packet size and left-over flag: the data stage is what section 8.5.3.2 of USB 2.0 asks for if and only if the payload is not empty and not longer than wLength, or is empty and the flag was not left set |
| `ControlReads.FinishFromStart` | firmware/hid_bootloader/src/ASF/xmega/drivers/usb/usb_device.c:1078-1130 | a nonempty payload is sent completely, whatever flag an earlier request left behind, with a zero-length packet iff its length differs from wLength and is a multiple of the packet size |
| `ControlReads.Finish` | firmware/hid_bootloader/src/ASF/xmega/drivers/usb/usb_device.c:1078-1130 | every data stage comes to its end |
| `ControlReads.DescriptorRead` | firmware/hid_bootloader/src/ASF/common/services/usb/udc/udc.c:777-779 | cutting a descriptor at wLength establishes what the data stage needs: the wire is the cut descriptor, properly closed |
| `ControlEndpoint.ControlRead` | firmware/hid_bootloader/src/ASF/xmega/drivers/usb/usb_device.c:1029-1130 | every accepted control read with wLength above 0, from SETUP to status stage, puts exactly the finished data stage on the wire; with a payload that is not empty and fits wLength that is the payload in full packets, closed as USB 2.0 asks |
| `ControlEndpoint.ControlWrite` | firmware/hid_bootloader/src/ASF/xmega/drivers/usb/usb_device.c:1132-1198 | a control write fed with any packets is the value model of its data stage; a contained one uses the packets up to the first that ends it, stores what they carry, cut at the payload buffer, and touches nothing beyond it |
| `ControlWrites.KeepsToBufferExactlyWhen` | firmware/hid_bootloader/src/ASF/xmega/drivers/usb/usb_device.c:1148-1159 | no sequence of packets makes the data stage write behind its buffer if and only if the buffer or the request is not larger than 65536 minus the packet size: the sums of the counters have 16 bits |
| `ControlWrites.StageConforms` | firmware/hid_bootloader/src/ASF/xmega/drivers/usb/usb_device.c:1132-1198 | a contained stage ends, stalls or goes on after each packet exactly as the total says, and the buffer holds the bytes received as far as they fit |
| `ControlWrites.StageRunsOver` | firmware/hid_bootloader/src/ASF/xmega/drivers/usb/usb_device.c:1148-1159 | in every other stage full packets bring the count around to 0: the last one runs past the buffer, and the stage starts over |
| `ControlWrites.LargeWriteRunsOver` | firmware/hid_bootloader/src/ASF/xmega/drivers/usb/usb_device.c:1148-1159 | for example, 1024 packets of 64 bytes for a buffer of 65500 write 36 bytes behind it |
| `ControlEndpoint.Replay` | firmware/hid_bootloader/src/ASF/xmega/drivers/usb/usb_device.c:1009-1263 | along every event sequence each callback comes right after its own SETUP, so each SETUP leads to at most one, and the address is that of the last SET_ADDRESS that came that far, or 0 after a reset |
| `ControlEndpoint.Apply` | firmware/hid_bootloader/src/ASF/xmega/drivers/usb/usb_device.c:1009-1263 | one event changes the address only by a bus reset or out of the status stage of a SET_ADDRESS (section 9.4.6 of USB 2.0) |
| `ControlEndpoint.AddressWithoutHandshake` | firmware/hid_bootloader/src/ASF/xmega/drivers/usb/usb_device.c:1217-1232 | entering the status stage is enough: after a stalled handshake the next SETUP still puts the new address in force |
| `ControlEndpoint.Endpoint0.SetupReceived` | firmware/hid_bootloader/src/ASF/xmega/drivers/usb/usb_device.c:1029-1076 | a SETUP closes an open status stage, forgets any other request, and leads to STALL if and only if it is a read of nothing, a SET_ADDRESS (request 5) with data, or another one that is not accepted; otherwise to a data stage or a status stage |
| `ControlEndpoint.Endpoint0.ProcessSetup` | firmware/hid_bootloader/src/ASF/common/services/usb/udc/udc.c:1102-1143 | which requests are answered, and that SET_ADDRESS alone registers the address callback |
| `ControlEndpoint.Endpoint0.InPacketSent` | firmware/hid_bootloader/src/ASF/xmega/drivers/usb/usb_device.c:1078-1130 | each packet advances the data stage as the value model says; the end of the status stage calls the callback and reinitialises |
| `ControlEndpoint.Endpoint0.OutPacketReceived` | firmware/hid_bootloader/src/ASF/xmega/drivers/usb/usb_device.c:1132-1198 | each packet takes the data stage one step of the value model, with 16-bit sums; the end of the status stage calls the callback and reinitialises |
| `ControlEndpoint.Endpoint0.EndStatus` | firmware/hid_bootloader/src/ASF/xmega/drivers/usb/usb_device.c:1083-1089 | the end of a status stage calls the callback at most once and always returns to waiting for a SETUP |
| `ControlEndpoint.Endpoint0.Underflow` | firmware/hid_bootloader/src/ASF/xmega/drivers/usb/usb_device.c:1200-1215 | an early host stop of an OUT stage enters the status stage; extra IN data in an OUT handshake is stalled |
| `ControlEndpoint.Endpoint0.Overflow` | firmware/hid_bootloader/src/ASF/xmega/drivers/usb/usb_device.c:1217-1232 | an early host stop of an IN stage enters the status stage; extra data in an IN handshake is stalled |
| `ControlEndpoint.Endpoint0.Reset` | firmware/hid_bootloader/src/ASF/xmega/drivers/usb/usb_device.c:809-827 | a bus reset sets the address to 0, ends a stall and forgets the request without a callback |
| `UsbConfig.Replay` | firmware/hid_bootloader/src/ASF/common/services/usb/udc/udc.c:378-403 | over every sequence of SET_CONFIGURATION, SET_INTERFACE, SET_ADDRESS, traffic and bus resets: configuration, address and switched-on interfaces with their settings are what the requests ask for, and exactly their endpoints are allocated, if every interface can be switched off completely (`Released`) |
| `UsbConfig.DefaultsAllocatedExactlyWhen` | firmware/hid_bootloader/src/ASF/common/services/usb/udc/udc.c:803-927 | the allocated endpoints are some of those in the descriptors, and they are those of the default settings if and only if each interface has the endpoints of setting 0 |
| `UsbConfig.AlternateLeaks` | firmware/hid_bootloader/src/ASF/common/services/usb/udc/udc.c:274-314 | the condition of the whole-run result is needed: with a driver that reports setting 0 always, any setting with an endpoint that setting 0 lacks can be selected once and not again, and unconfiguring leaves the endpoint allocated |
| `UsbConfig.AlternateConfigIsNotReleased` | firmware/hid_bootloader/src/ASF/common/services/usb/udc/udc.c:274-314 | there is such a descriptor: one interface with an empty setting 0 and a setting 1 with an endpoint can be followed and leaks |
| `UsbConfig.Udc.SetConfiguration` | firmware/hid_bootloader/src/ASF/common/services/usb/udc/udc.c:803-860 | succeeds iff the request is well formed, the device has an address and the number exists; then every interface is on with setting 0 and exactly their endpoints are allocated, however often it is repeated; otherwise nothing changes |
| `UsbConfig.Udc.SetInterface` | firmware/hid_bootloader/src/ASF/common/services/usb/udc/udc.c:906-927 | for every descriptor: frees what the driver reports, and succeeds iff the setting exists and none of its endpoints is taken; when interfaces can be switched off completely, iff the setting exists; when only the interface does, it is left switched off |
| `UsbConfig.Udc.Reset` | firmware/hid_bootloader/src/ASF/common/services/usb/udc/udc.c:378-403 | frees what the drivers report, interface by interface; when interfaces can be switched off completely, no endpoint is left allocated and no job |
| `UsbConfig.Udc.BusReset` | firmware/hid_bootloader/src/ASF/xmega/drivers/usb/usb_device.c:805-827 | all jobs are gone although the abort loop leaves out the highest endpoint number |
| `UsbConfig.Udc.AbortLoop` | firmware/hid_bootloader/src/ASF/xmega/drivers/usb/usb_device.c:807-814 | the abort loop ends exactly the jobs of the endpoint numbers below the highest |
| `UsbConfig.Udc.UpdateIfaceDesc` | firmware/hid_bootloader/src/ASF/common/services/usb/udc/udc.c:229-264 | the walk terminates and finds the first descriptor of the interface and setting iff there is one |
| `UsbConfig.Udc.NextEndpoint` | firmware/hid_bootloader/src/ASF/common/services/usb/udc/udc.c:193-217 | the walk terminates and finds the next endpoint descriptor of the interface iff there is one |
| `UsbConfig.Udc.IfaceDisable` | firmware/hid_bootloader/src/ASF/common/services/usb/udc/udc.c:274-314 | frees exactly the endpoints of the setting that the class driver reports, and ends their jobs |
| `UsbConfig.Udc.IfaceEnable` | firmware/hid_bootloader/src/ASF/common/services/usb/udc/udc.c:326-357 | allocates exactly the endpoints of the setting iff it exists and none of them is taken |
| `UsbConfig.Udc.AllocListed` | firmware/hid_bootloader/src/ASF/common/services/usb/udc/udc.c:333-353 | allocates the listed endpoints until one is taken |
| `UsbConfig.Udc.UdiEnable` | firmware/hid_bootloader/src/ASF/common/services/usb/class/hid/device/generic/udi_hid_generic.c:221-230 | the class driver's transfers all start, and it remembers the setting |
| `Descriptors.EpIndexTells` | firmware/hid_bootloader/src/ASF/common/services/usb/usb_protocol.h:280-295 | two endpoint addresses mean the same endpoint if and only if number and direction agree |
| `UsbConfig.HidConfigIsWellFormed` | firmware/hid_bootloader/src/ASF/common/services/usb/class/hid/device/generic/udi_hid_generic.h:99-128 | the firmware's own configuration descriptor, with its driver that reports 0, is one to which all of this applies |
| `CommandLines.ScanLine` | pc/hid_bootloader/getopt.c:434-470 | a command line written down from any options (plain, clustered, undeclared; with attached, separate, optional or missing arguments) and operands, for any declarations: getopt reports exactly those options with their arguments, and leaves the elements that hold options in front of the operands |
| `CommandLines.EveryLine` | pc/hid_bootloader/getopt.c:434-470 | every argument vector is such a command line, so this says what getopt reports for all of them |
| `CommandLines.KindIsDeclared` | pc/hid_bootloader/getopt.c:848-1150 | an option is taken for what its first declaration says: no colon, one or two behind its character |
| `CommandLines.OptionsOfProgram` | pc/hid_bootloader/hid_bootloader.c:48 | the option string of the program declares four options without arguments |
| `GetoptSpec.DeclaredIsFirst` | pc/hid_bootloader/getopt.c:848-850 | an option is found if and only if it occurs in the option string, at its first place |
| `Getopt.ScanAll` | pc/hid_bootloader/getopt.c:526-592 | calling getopt until it returns -1 reports exactly the events of a left-to-right parse of the untouched vector, and leaves the options with their arguments first, then the others, with optind between them |
| `Getopt.Scanner.GetOpt` | pc/hid_bootloader/getopt.c:505-593 | one call reports the next event of that parse; -1 comes exactly when none is left |
| `Getopt.Scanner.Exchange` | pc/hid_bootloader/getopt.c:285-362 | the in-place block swap is the rotation of the two blocks, and the record of the skipped elements moves along |
| `Getopt.RotatedIsExchange` | pc/hid_bootloader/getopt.c:285-362 | the rotation turns A ++ B into B ++ A and leaves everything outside in place |
| `Getopt.Scanner.SwapBlocks` | pc/hid_bootloader/getopt.c:329-334 | two disjoint blocks are exchanged element by element |
| `Getopt.Scanner.MoveOptionsForward` | pc/hid_bootloader/getopt.c:530-545 | options met after skipped elements move in front of them, also when the caller has moved optind back |
| `Getopt.Scanner.Regroup` | pc/hid_bootloader/getopt.c:530-552 | skipping non-options keeps the parse and stops at an option element or at the end |
| `Getopt.Scanner.TakeTerminator` | pc/hid_bootloader/getopt.c:554-567 | "--" is an option element itself, and everything after it is not |
| `Getopt.Scanner.Advance` | pc/hid_bootloader/getopt.c:526-593 | the next option element is entered, or the permuted vector is complete |
| `Getopt.Scanner.ShortOption` | pc/hid_bootloader/getopt.c:845-1161 | one option character is the next event of the parse |
| `Getopt.Scanner.TakeArgument` | pc/hid_bootloader/getopt.c:1094-1158 | a required or optional argument is found where the parse says, a missing one is reported |
| `GetoptTheorems.ScanIsStable` | pc/hid_bootloader/getopt.c:526-592 | options and others both keep their order on the command line |
| `GetoptTheorems.InterleavedIsPermutation` | pc/hid_bootloader/getopt.c:526-592 | the resulting vector is a permutation of the original one |
| `GetoptTheorems.OthersAreNonOptions` | pc/hid_bootloader/getopt.c:526-592 | without "--" nothing that looks like an option is left among the others |
| `GetoptTheorems.RescanSame` | pc/hid_bootloader/getopt.c:526-592 | scanning the permuted vector again gives the same result if and only if not (the last option lacked its argument and there are others) |
| `Crc32.ComputeCrc32` | pc/hid_bootloader/crc.c:25-50 | the bit-at-a-time loop returns what the table form returns, for every buffer |
| `Crc32Table.Crc32ByTable` | pc/hid_bootloader/crc.c:100-108 | so does the byte-at-a-time loop over the literal table |
| `Crc32Table.ResidueOfMessage` | pc/hid_bootloader/crc.c:100-108 | a message with its CRC behind it has always the same CRC, 0x2144DF1C, and the empty message has 0 |
| `Crc32Table.LiteralIsTableEntry` | pc/hid_bootloader/crc.c:54-98 | all 256 literal entries of the table are eight reflected steps of their index |
| `Crc32.ReverseIsInvolution` | pc/hid_bootloader/crc.c:12-20 | reversing the bits twice changes nothing |
| `Crc32.ReverseBit` | pc/hid_bootloader/crc.c:12-20 | bit i of the reversal is bit 31 - i of the argument |
| `Crc32.ReverseCommutesWithStep` | pc/hid_bootloader/crc.c:12-20 | reversal turns a most-significant-bit-first step into a reflected one |
| `Crc32.TableStepIsEightSteps` | pc/hid_bootloader/crc.c:100-108 | a lookup step is eight reflected steps |
| `Crc32.RegisterInjective` | pc/hid_bootloader/crc.c:100-108 | for a fixed message the register is an injective function of its start |
| `Crc32.BurstDetected` | pc/hid_bootloader/crc.c:100-108 | messages of equal length that differ only inside a window of at most 32 bits, at any bit position, never share a CRC |
| `Crc32.WiderBurstEscapes` | pc/hid_bootloader/crc.c:100-108 | 32 bits are the limit: messages that differ inside 33 bits share a CRC if and only if they differ there by the generator polynomial |
| `Crc32.TableIsBitRegister` | pc/hid_bootloader/crc.c:100-108 | the table form feeds the register bit by bit, the lowest bit of each byte first |
| `Crc32.RegisterOfBits` | pc/hid_bootloader/crc.c:100-108 | up to 32 bits act like one word xored into the register before as many steps |
| `XmegaCrc.XmegaNvmCrc32` | pc/hid_bootloader/crc.c:116-138 | the loop computes the checksum of the words of the buffer by Horner's rule, a 24-bit value; of an odd length the last word is read whole |
| `XmegaCrc.UpdateRegister` | pc/hid_bootloader/crc.c:126-136 | one turn of the loop is a multiplication by x and an addition |
| `XmegaCrc.CrcIsPolynomial` | pc/hid_bootloader/crc.c:116-138 | Horner's rule computes the sum of the words, each times the power of x of its place; by what polynomial this is reduced, CrcDivision says |
| `CrcDivision.CrcIsRemainder` | pc/hid_bootloader/crc.c:112-138 | the checksum is what remains of the message in the division by x^24 + x^23 + x^4 + x^3 + x + 1, and the only 24 coefficients that are |
| `CrcDivision.ImageChecksumIsRemainder` | pc/hid_bootloader/crc.c:112-138 | the same for an image of bytes, the second of every two counting more |
| `CrcDivision.EscapesExactlyWhenMultiple` | pc/hid_bootloader/crc.c:112-138 | two messages of equal length share a checksum if and only if their difference is a multiple of that polynomial |
| `CrcDivision.MultiplesHaveChecksumZero` | pc/hid_bootloader/crc.c:112-138 | differences of one bit in each of any number of words escape if and only if they are multiples of it; its own 25 coefficients, as words, have checksum 0 |
| `Polynomials.RemainderIsUnique` | pc/hid_bootloader/crc.c:112-138 | the remainder of a division of polynomials is unique |
| `XmegaCrc.CrcIsLinear` | pc/hid_bootloader/crc.c:116-138 | the checksum of a sum of images is the sum of the checksums |
| `XmegaCrc.TimesXIsBijective` | pc/hid_bootloader/crc.c:126-136 | each step is a bijection on 24-bit registers |
| `XmegaCrc.WindowDecides` | pc/hid_bootloader/crc.c:116-138 | two images that differ only in a window share a checksum if and only if the windows alone do |
| `XmegaCrc.SingleWordDetected` | pc/hid_bootloader/crc.c:116-138 | a change of exactly one word always changes the checksum |
| `XmegaCrc.TwoWordsEscape` | pc/hid_bootloader/crc.c:116-138 | one word is the limit: a change of two words at any distance goes unnoticed if and only if the first difference, multiplied by x once for each word up to the second, is the second difference |
| `XmegaCrc.AdjacentWordsEscape` | pc/hid_bootloader/crc.c:116-138 | for adjacent words: if and only if the second difference is twice the first |
| `XmegaCrc.SingleWordOfImageDetected` | pc/hid_bootloader/crc.c:116-138 | two byte images of equal, even or odd, length that differ in exactly one aligned word, read whole, never share a checksum |
| `NvmFlash.Flash.EraseAndWriteBuffer` | firmware/hid_bootloader/src/ASF/xmega/drivers/nvm/nvm.c:612-678 | for every address, length, flash content and page buffer, the given range becomes the buffer and everything else stays, whichever pages were erased; without blank checking exactly the bits that are 0 in the buffer are cleared; and what the page buffer held before is ANDed into the first page |
| `NvmFlash.Flash.UserSigWriteBuffer` | firmware/hid_bootloader/src/ASF/xmega/drivers/nvm/nvm.c:549-599 | the same for the user signature row |
| `NvmFlash.Flash.PutPage` | firmware/hid_bootloader/src/ASF/xmega/drivers/nvm/nvm.c:631-676 | one page becomes what it should be, but for what the page buffer held, and every other stays |
| `NvmFlash.Flash.FillPage` | firmware/hid_bootloader/src/ASF/xmega/drivers/nvm/nvm.c:634-669 | the page buffer holds the merged page ANDed with what it held before, and a page is called blank only if it is |
| `NvmFlash.Flash.MergeWord` | firmware/hid_bootloader/src/ASF/xmega/drivers/nvm/nvm.c:635-665 | a word is the old one with the new data in place |
| `Overlays.AndOverlayBit` | firmware/hid_bootloader/src/ASF/xmega/drivers/nvm/nvm.h:627-638 | programming clears exactly the bits that are 0 in the data, and changes no other bit |
| `Overlays.AndOverlayKeepsExactlyWhen` | firmware/hid_bootloader/src/ASF/xmega/drivers/nvm/nvm.h:627-638 | a page buffer that was not empty does no harm if and only if it has no 0 bit where the page should have a 1 |
| `Overlays.EmptyBufferHarmless` | firmware/hid_bootloader/src/ASF/xmega/drivers/nvm/nvm.h:612-624 | an empty page buffer does none |
| `Overlays.AndOverlayIsOverlay` | firmware/hid_bootloader/src/ASF/xmega/drivers/nvm/nvm.c:607-610 | writing without blank checking is right if and only if no bit has to become 1 |
| `Overlays.AndOverlayOnErased` | firmware/hid_bootloader/src/ASF/xmega/drivers/nvm/nvm.c:607-610 | on erased memory it is always right |
| `NvmEeprom.Eeprom.EraseAndWriteBuffer` | firmware/hid_bootloader/src/ASF/xmega/drivers/nvm/nvm.c:186-202 | exactly the given range becomes the buffer, but for what was left in the page buffer when the write begins with a full page; afterwards the page buffer is empty |
| `NvmEeprom.WritesDataExactlyWhen` | firmware/hid_bootloader/src/ASF/xmega/drivers/nvm/nvm.c:186-202 | the write does what it says if and only if it does not begin with a full page, or what was left in the page buffer clears no bit of it |
| `NvmEeprom.Eeprom.WriteByte` | firmware/hid_bootloader/src/ASF/xmega/drivers/nvm/nvm.c:152-177 | one byte changes, whatever the page buffer held |
| `NvmEeprom.Eeprom.LoadPage` | firmware/hid_bootloader/src/ASF/xmega/drivers/nvm/nvm.c:269-280 | every location is loaded, ANDed with what was there |
| `NvmEeprom.Eeprom.AtomicWritePage` | firmware/hid_bootloader/src/ASF/xmega/drivers/nvm/nvm.c:295-312 | only loaded locations of the page change; the page buffer is empty afterwards |
| `NvmEeprom.Eeprom.FlushBuffer` | firmware/hid_bootloader/src/ASF/xmega/drivers/nvm/nvm.c:215-225 | the page buffer is empty |
| `FlashingHost.Host.UpdateFirmware` | pc/hid_bootloader/hid_bootloader.c:273-351 | whenever the transport reports the five bytes of a status the application section is the image afterwards, otherwise it is erased and nothing succeeds; with a transport whose reads do not give up early, an update succeeds if and only if, besides, the image has the expected checksum |
| `FlashingHost.Host.VerifyFirmware` | pc/hid_bootloader/hid_bootloader.c:356-396 | with such a transport, verification succeeds if and only if the application section equals the image |
| `FlashingHost.Host.Flash` | pc/hid_bootloader/hid_bootloader.c:175-179 | with such a transport, after a successful update verification never fails |
| `FlashingHost.Host.SendPages` | pc/hid_bootloader/hid_bootloader.c:295-328 | after all pages the application section is the image and the pointer is back at 0 |
| `FlashingHost.Host.SendPage` | pc/hid_bootloader/hid_bootloader.c:298-328 | each page adds exactly its part of the image to the erased section, with the pointer back at 0 |
| `FlashingHost.Host.LoadPage` | pc/hid_bootloader/hid_bootloader.c:300-312 | the reports of a page fill the device's page buffer with exactly that page |
| `FlashingHost.Host.CompareCrc` | pc/hid_bootloader/hid_bootloader.c:332-348 | with such a transport, the checksum compared is that of the application section |
| `FlashingHost.Host.ExecuteHIDCommandWithResponse` | pc/hid_bootloader/hid_bootloader.c:251-268 | the report returned is the one this command produced exactly when the drain before it left none on its way, and otherwise the oldest of those left; a drain whose reads do not give up early leaves none |
| `FlashingHost.Host.ExecuteHIDCommand` | pc/hid_bootloader/hid_bootloader.c:230-246 | a command is accepted if and only if five status bytes come back and the device did not refuse it |
| `FlashingHost.Host.WaitNotBusy` | pc/hid_bootloader/hid_bootloader.c:202-225 | waiting succeeds unless the limit is reached, and only ever waits when a status has six bytes, which no accepted command has |
| `FlashingHost.Host.Drain` | pc/hid_bootloader/hid_bootloader.c:253-254 | what is left on its way are the latest of the reports that were, and none if reads do not give up early |
| `FlashingHost.Host.CompareReport` | pc/hid_bootloader/hid_bootloader.c:375-383 | 64 bytes are compared exactly |
| `Bootloader.Device.SetFeature` | firmware/hid_bootloader/hid_bootloader.c:118-308 | each command has exactly its effect on flash, pointer, result and report channel; flash operations follow one another because each waits for the one before |
| `Bootloader.Device.WritePage` | firmware/hid_bootloader/hid_bootloader.c:204-207 | after the operation under way, the page buffer is ANDed into the page |
| `Bootloader.Device.ReportOut` | firmware/hid_bootloader/hid_bootloader.c:95-100 | 64 bytes land at the pointer, which advances modulo the page size |
| `Bootloader.Device.ReadCrcs` | firmware/hid_bootloader/hid_bootloader.c:159-164 | the response carries the checksums of both sections, low byte first |
| `Bootloader.Device.SendReportIn` | firmware/hid_bootloader/src/ASF/common/services/usb/class/hid/device/generic/udi_hid_generic.c:274-293 | a report is taken iff no IN job is busy, and one in flight is never overwritten |
| `Bootloader.Device.ReportOutReceived` | firmware/hid_bootloader/src/ASF/common/services/usb/class/hid/device/generic/udi_hid_generic.c:305-316 | only a complete 64-byte report is used |
| `Masks.MaskIsRemainderExactlyWhen` | firmware/hid_bootloader/hid_bootloader.c:99-99 | masking with the page size minus 1 is a remainder for all numbers if and only if the page size is a power of two |
| `Bootloader.CommandsByCode` | pc/hid_bootloader/bootloader.h:3-15 | by their codes: 1 sets the pointer, 3 erases, 7 writes a page, 2 and 4 read, 0 does nothing; and when the parameters are out of range |
| `Commands.LeastSignificantFirst` | pc/hid_bootloader/hid_bootloader.c:340-341 | the least significant byte goes first, in commands and in reports |
| `Commands.ParametersArrive` | pc/hid_bootloader/bootloader.h:50-60 | what the host stores in the parameter union is what the device reads from it |
| `Commands.NumbersArrive` | pc/hid_bootloader/hid_bootloader.c:340-341 | a 32-bit number stored low byte first is put together again |
| `HexImages.ProgramImage` | pc/hid_bootloader/hid_bootloader.c:163-179 | the file of a firmware image, whichever way it is cut into records, whose embedded info describes the device: a run that ends well has put exactly the image into the application section; if reads do not give up early it ends well if and only if the image is for the microcontroller and the transport reports five status bytes |
| `HexImages.LoadImage` | pc/hid_bootloader/intel_hex.c:49-163 | every image inside the buffer, cut in any way into segment, data and other records: loading their file leaves exactly the image |
| `HexImages.LastByteStays` | pc/hid_bootloader/intel_hex.c:95-124 | of all bytes that a file has for a place (sixteen times the last segment value plus the 16-bit offset) the last one stays |
| `HexImages.SegmentAndData` | pc/hid_bootloader/intel_hex.c:95-124 | the bytes of a data record behind a segment record are each in their place, and none covers another |
| `HexImages.InfoIsRead` | pc/hid_bootloader/intel_hex.h:13-25 | the embedded info is found at its first place, and its fields are those that the firmware laid out |
| `Programmer.Program` | pc/hid_bootloader/hid_bootloader.c:163-179 | a program run succeeds only if the file is read to its end, suits the microcontroller and the transport reports five status bytes, and, if reads do not give up early, whenever all this holds; then every byte of the application section is the last one a record wrote to its address, or 0xFF |
| `Loader.HexLoader.ReadHexFile` | pc/hid_bootloader/intel_hex.c:49-163 | the buffer is the last-writer-wins image of the records that take effect; the result is true if and only if the file is read to its end and holds an embedded info whose flash fits; the checksum is that of the flash, of odd size too |
| `Loader.HexLoader.ReadLines` | pc/hid_bootloader/intel_hex.c:68-129 | the record loop stops where and why the parse of the lines says |
| `Loader.HexLoader.ReadLine` | pc/hid_bootloader/intel_hex.c:76-128 | one line has exactly the effect of its record |
| `Loader.HexLoader.DataRecord` | pc/hid_bootloader/intel_hex.c:95-110 | bytes are stored up to the first that lies beyond the buffer, with the 16-bit offset wrapping around |
| `Loader.HexLoader.FindEmbeddedInfo` | pc/hid_bootloader/intel_hex.c:23-33 | the first place of the magic string is found |
| `Loader.InfoIsFirst` | pc/hid_bootloader/intel_hex.c:23-33 | it is the first, or there is none |
| `IntelHex.LineStopsExactlyWhen` | pc/hid_bootloader/intel_hex.c:76-125 | a line stops the reading if and only if it has no colon, is a segment record whose length is not 2, or holds a byte that belongs behind the buffer |
| `IntelHex.HighestIsMaximum` | pc/hid_bootloader/intel_hex.c:108-109 | the size recorded is the highest address written |
| `IntelHex.ParseEncoded` | pc/hid_bootloader/intel_hex.c:68-129 | a file of well-formed upper-case records inside the buffer is read to its end, and nothing is lost |
| `IntelHex.DecodeEncode` | pc/hid_bootloader/intel_hex.c:83-121 | what is encoded as a record is decoded |
| `Hex.ReadBase16` | pc/hid_bootloader/intel_hex.c:35-46 | shifting and adding in 32 bits computes the positional value, of signed characters |
| `Hex.ReadRightExactlyWhen` | pc/hid_bootloader/intel_hex.c:41-41 | up to seven hexadecimal digits of either case are read right if and only if none is lower-case |
| `Hex.ByteRoundTrip` | firmware/hid_bootloader/hid_bootloader.c:82-90 | ReadBase16 undoes hex_to_char, byte by byte |
| `Hex.WordRoundTrip` | pc/hid_bootloader/intel_hex.c:86-86 | the same for 16-bit numbers |
| `SleepLocks.Locks.Replay` | firmware/hid_bootloader/src/ASF/common/services/sleepmgr/sleepmgr.h:145-199 | over every possible run each count is the sum of what the driver and the others hold, so that the hang loops are never entered; by the last event about the bus the driver holds IDLE exactly after attach, resume and wakeup, and PDOWN exactly unless it was disabled |
| `SleepLocks.PowerAfter` | firmware/hid_bootloader/src/ASF/xmega/drivers/usb/usb_device.c:526-587 | the power state is what the last event about the bus made it |
| `SleepLocks.OthersAfter` | firmware/hid_bootloader/src/ASF/common/services/sleepmgr/sleepmgr.h:145-199 | the other users hold a mode as often as they locked it and did not unlock it |
| `SleepLocks.Locks.SleepMode` | firmware/hid_bootloader/src/ASF/xmega/drivers/usb/usb_device.c:167-176 | the IDLE lock is held exactly while the bus is active |
| `SleepLocks.Locks.UddEnable` | firmware/hid_bootloader/src/ASF/xmega/drivers/usb/usb_device.c:491-495 | PDOWN is locked once more; the counts stay balanced if and only if the driver was disabled |
| `SleepLocks.Locks.UddDisable` | firmware/hid_bootloader/src/ASF/xmega/drivers/usb/usb_device.c:505-519 | every lock of the driver is given back |
| `SleepLocks.Locks.Handle` | firmware/hid_bootloader/src/ASF/xmega/drivers/usb/usb_device.c:526-587 | one event keeps the counts balanced |
| `SleepLocks.Locks.GetSleepMode` | firmware/hid_bootloader/src/ASF/common/services/sleepmgr/sleepmgr.h:208-228 | the scan stays in the table and returns the shallowest locked mode |
| `SleepLocks.Locks.Init` | firmware/hid_bootloader/src/ASF/common/services/sleepmgr/sleepmgr.h:125-135 | after initialisation the last mode is locked and nothing else |
| `SleepLocks.ModeOfPower` | firmware/hid_bootloader/src/ASF/common/services/sleepmgr/sleepmgr.h:208-228 | without other users the scan finds IDLE exactly when the bus is active and PDOWN exactly when it is suspended; nothing is locked exactly when the driver is disabled |

## Left out

- EndpointJobs.Endpoint.AbortJob: the count the callback of an aborted job hears is, as in the source, that of the current hardware transfer only; no claim is made about the bytes of the whole job.
- EndpointJobs.ReceiveAll: states nothing about the contents of the buffer once 65536 bytes have arrived, which only happens when the byte count can wrap (`JobStates.FullBufferEndsExactlyWhen`).
- EndpointJobs.Endpoint.LateCompletion: follows the job, its counters and its callback, not the bytes: where the packets of a transfer go that was requested after an abort is not modelled, and `HwSend` and `HwReceive` let the completion follow the last packet at once.
- ControlEndpoint.ControlWrite: no byte count is claimed for a data stage that the host stops early (`udd_ctrl_underflow`), because the source leaves `payload_size` at the size of the buffer there. A stage that is not contained is modelled on an array that stands for the memory from the buffer on, up to 64 KB.
- ControlEndpoint.Endpoint0.ProcessSetup: reads of nothing and SET_ADDRESS are decided here; what the other requests are answered with is a parameter.
- ControlEndpoint.Endpoint0.InPacketSent: as for OutPacketReceived, the callback `over_under_run` is not modelled.
- ControlEndpoint.Endpoint0.OutPacketReceived: the callback `over_under_run`, which `udc_process_setup` clears and nothing in this firmware sets, is not modelled.
- UsbConfig.Replay: requires that interfaces can be switched off completely (`Released`); for descriptors of which that is not so, `UsbConfig.AlternateLeaks` gives the run that fails.
- UsbConfig.Udc.SetInterface: descriptors whose interfaces share endpoints, or that list an endpoint twice for one setting, are outside `WellFormed`.
- Bootloader.Device.SetFeature: covers no-op, pointer, read, erase, checksum, page write and unknown commands; commands for EEPROM, user signature row, fuses, identification, serial number and reset are not part of the model. A page number equal to the number of pages and a pointer beyond the page, which the source does not guard against, are excluded by `Allowed`.
- FlashingHost.Host.UpdateFirmware: requires that the sizes in the image are those of the device and that the transport delivers reports in order and unharmed. Transport errors (-1) are not modelled.
- Loader.HexLoader.ReadHexFile: addresses equal to the buffer size and an embedded info at the very end of the buffer, which the source does not guard against, are excluded; lines are as long as what is read of them; the checksum of a record is not checked by the source.
- NvmFlash.Flash.UserSigWriteBuffer: requires the range to lie inside the row; beyond it the source does not terminate.
- SleepLocks.Locks.Lock: the hang loop at the greatest count is excluded by the precondition, and so is that of Unlock at 0; `SleepLocks.Locks.Replay` shows that neither is reached.
- Isochronous endpoints, OUT endpoints larger than the 64-byte cache buffer, `udd_ep_wait_stall_clear`, and callbacks that start a new run from inside freeing.
- Underflow and overflow interrupts that the driver postpones because a transfer is still to be handled.
- Long options, `W;`, the orderings REQUIRE_ORDER and RETURN_IN_ORDER with their environment variable, error messages and the `_LIBC` parts of getopt; arguments that contain NUL characters.
- The literal bytes of descriptors other than the configuration descriptor, string descriptors, status and feature requests.
- `hid.c`, clocks, oscillators, pads, the assembly routines behind the SP_ and nvm_ functions, progress output, and time.
