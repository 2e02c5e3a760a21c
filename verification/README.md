# A verified model of the IPMI message stack

This project models, in Dafny, the IPMI stack of the IPMI feature package: the two transports
that move bytes between firmware and a BMC, the generic layer that frames commands and tracks
BMC health, and the libraries and BMC-side state above it. Run `dafny verify dfyconfig.toml`.

The C code that works step by step is modelled by classes and methods with loops, each proved
against a specification function or relation; what holds over whole runs is proved about those
functions as lemmas.

## Components

- **KCS** (`KcsProtocol`, `KcsBmc`). The BMC is a step machine after section 9 of the IPMI v2.0
  specification. Between any two host accesses it makes any moves a script says; the host code
  runs against it, or against a device whose registers read as anything. Whatever is
  reported a success with a conforming BMC is one, however slow the BMC: the request was served and
  the response received is its response. With one that acts within the timeout everything that
  fits is a success, and the BMC is idle after each exchange, from whatever state it started in.
  For every device the
  status reads of recovery, status checks and receiving are bounded; those of sending are for
  every device whose IBF reads the same from some access on (an absent or stuck device is an
  error, and so is reading from one that offers nothing), and only a device that keeps toggling it can hold the host up for ever.
- **SSIF** (`SsifProtocol`, `SsifDevices`, `Ssif`). Fragmenting and reassembly after section 12.
  `ReceivedIffCarried` says for every device which block streams yield which message, without
  reference to the algorithm; the round trips with a conforming device and with the repository's
  test device, and exactly when the latter fails, follow.
- **Generic layer** (`IpmiHealth`, `GenericIpmi`, `IpmiInitialize`). One command as a function of
  device and health; the class that computes it in the one shared buffer; the refinement of the
  direct base library over the mock; health over all runs; initialization bounds and outcomes.
  `IpmiOverKcs` puts commands and whole sessions on the KCS transport, `GenericOverMock` runs the
  layer and the direct library side by side on two mocks.
- **Mock BMC** (`MockSel`, `MockWdt`, `MockChassis`, `MockIpmi`) with `SelLog`, `IpmiBaseLib`,
  `IpmiSelLib`, `SelSessions`, `BootOptions`, `IpmiBootOptionLib`, `WatchdogLifecycle`,
  `WatchdogFaults`, `IpmiWatchdog`.

## What the proofs turned up

- Framing a response in the instance's own buffer overwrites the completion code when the
  payload has two bytes or more. `InPlaceFraming` gives the exact condition under which byte 0
  is still the code; `InPlaceLosesCompletionCode` is a concrete response for which it is not.
- The comment of `UpdateErrorStatus` says that the count is not updated in Force Update Mode. The
  code counts in every mode (`OtherReplyEnds`); only the BMC status is left alone there.
- After a state mismatch `KcsCheckStatus` aborts the transaction and reports success; its
  contract says when, and `MismatchIsSuccess` is a case.
- The wait before a KCS write has no bound of its own. `KeepsWaiting` gives a device that keeps
  it busy for any number of passes.
- A single-block SSIF message beginning 00 01 is never received intact, from a conforming device
  (`ConformingRoundTrip`) or the test device (`TestDeviceRoundTrip`,
  `TestDeviceLosesMultiPartStart`).
- A query for the boot device wipes a pending CMOS-clear request together with an override that
  is not persistent (`CmosReportedOnce`, `CmosRequestWiped`).
- A reported self-test error (57h) is judged by the bits of 57h itself and not by the parameter
  that comes with it. The verdict is the intended one exactly under the condition of
  `JudgedAsIntended`; with the bits of section 20.4 of the IPMI v2.0 specification it is always a
  hard failure (`ErrorAlwaysHard`), and `SelfTestErrorMisjudged` gives the BMCs that are misjudged.
  Results meant for device specific code never reach it.
- The ReadyToBoot callback stops whatever timer runs. `OsTimerExactly` says for every run when
  the OS timer survives: it is lost when ExitBootServices comes before any ReadyToBoot and
  ReadyToBoot follows (`OsTimerStopped`). The UEFI specification leaves nobody but memory
  services once ExitBootServices was called, so firmware that keeps to it signals no ReadyToBoot
  afterwards; nothing in the driver itself rules it out.
- A query for the watchdog timer that fails with a bad completion code is believed. If what came
  with it reads as stopped, the ReadyToBoot callback closes over a running timer, which
  runs on (`ReadyToBootUnder`). Short of such a query nothing that goes wrong lets another timer
  run than the OS loader's (`NeverAnotherTimer`).
- `IpmiSelProtocol.h` says that record ID FFFFh retrieves the last entry. The mock answers it
  with "not present"; the model follows the code (`GetEntryReads`).
- Asking the mock for the erase status empties the log just as starting an erase does
  (`MockIpmiSelClear`).

## Assumptions

- A conforming BMC accepts WRITE_START and ABORT in every state, hands out at least one response
  byte, and never shows a status byte of all ones (what an absent device reads as).
- SSIF: a block's size covers its header and is at most 64 bytes. In particular a first block is
  not the single byte 00h, of which the code would read a second byte it was not given.
- Generic layer: command data of at most 253 bytes, at least one try, a response buffer with one
  byte more than its stated size (the code adds the completion code after its size check).
- The ready-delay timer is not zero. Reserved and pre-timeout fields are not modelled.
- Record layouts, completion codes and command numbers are those of the IPMI v2.0
  specification; the industry-standard headers that define them are not part of this model.
  Values found only there (software ID, self-test masks, the place of the execution context)
  are parameters.

## Model

| member | source | states |
|---|---|---|
| KcsProtocol.PlayReaches | IpmiFeaturePkg/Library/IpmiTransportLibKcs/KcsBmc.h:19-54 | However many moves the BMC makes between two host accesses, it accepts at most the waiting byte and offers at most the byte the dialogue calls for |
| KcsProtocol.StatusByte | IpmiFeaturePkg/Library/IpmiTransportLibKcs/KcsBmc.h:43-54 | The bits the host decodes are the OBF, IBF and state of the BMC, whatever the other four bits are |
| KcsBmc.Ports.Await | IpmiFeaturePkg/Library/IpmiTransportLibKcs/KcsBmc.c:239-248 | For every device at most period + 1 status reads; a timely BMC always lets the wait succeed, and meanwhile only does what PlayReaches allows |
| KcsBmc.Ports.KcsErrorExit | IpmiFeaturePkg/Library/IpmiTransportLibKcs/KcsBmc.c:49-197 | Success only with the BMC idle, IBF and OBF clear and nothing served but what was already complete, for every conforming BMC and from every state; always success with a timely one (whose status never reads as all ones); for every device at most 6 (period + 1) status reads, and an error if it stays busy or offers nothing |
| KcsBmc.Ports.AbortTransaction | IpmiFeaturePkg/Library/IpmiTransportLibKcs/KcsBmc.c:99-130 | The first half of a recovery, if it goes through, brings every conforming BMC to reporting its error, and always goes through with a timely one |
| KcsBmc.Ports.DrainError | IpmiFeaturePkg/Library/IpmiTransportLibKcs/KcsBmc.c:132-177 | The second half brings it to rest |
| KcsBmc.Ports.KcsCheckStatus | IpmiFeaturePkg/Library/IpmiTransportLibKcs/KcsBmc.c:199-287 | What success means with every conforming BMC, in the write phases from every state, in the read phases, at the end of a response, when nothing is due, and after a mismatch, which is aborted; that it is a success with a timely one; that a device that stays busy or offers nothing to read is an error; read bound for every device |
| KcsBmc.Ports.MismatchIsSuccess | IpmiFeaturePkg/Library/IpmiTransportLibKcs/KcsBmc.c:255-261 | About to write to an idle BMC, the check aborts and reports success |
| KcsBmc.Ports.AwaitFreeInput | IpmiFeaturePkg/Library/IpmiTransportLibKcs/KcsBmc.c:327-337 | The wait before a write ends for every conforming BMC, within period + 1 reads for a timely one, and within a computed bound for any other device whose IBF reads the same from some access on; one that reads as busy from now on is an error |
| KcsBmc.Ports.PollFreeInput | IpmiFeaturePkg/Library/IpmiTransportLibKcs/KcsBmc.c:327-337 | One pass of that wait on every device |
| KcsBmc.Ports.KeepsWaiting | IpmiFeaturePkg/Library/IpmiTransportLibKcs/KcsBmc.c:327-337 | For every n a device that keeps the wait going for n passes |
| KcsBmc.Ports.SendDataToBmc | IpmiFeaturePkg/Library/IpmiTransportLibKcs/KcsBmc.c:289-364 | Success means, for every conforming BMC, that exactly the request bytes are in the hands of the BMC, the last one marked by WRITE_END and in the input register; with a timely one it always succeeds; for any other device whose IBF reads the same from some access on a linear read bound, and an error if it reads as busy |
| KcsBmc.Ports.SendByte | IpmiFeaturePkg/Library/IpmiTransportLibKcs/KcsBmc.c:345-361 | One pass of the sending loop |
| KcsBmc.Ports.SendDataToBmcPort | IpmiFeaturePkg/Library/IpmiTransportLibKcs/KcsBmc.c:477-517 | The same through the retry wrapper |
| KcsBmc.Ports.AwaitByte | IpmiFeaturePkg/Library/IpmiTransportLibKcs/KcsBmc.c:403-411 | Success means, for every conforming BMC, that the next byte of its response is offered or the response has ended |
| KcsBmc.Ports.FetchByte | IpmiFeaturePkg/Library/IpmiTransportLibKcs/KcsBmc.c:419-424 | The byte is fetched and the next asked for |
| KcsBmc.Ports.ReceiveByte | IpmiFeaturePkg/Library/IpmiTransportLibKcs/KcsBmc.c:402-425 | One pass of the receiving loop, on every device |
| KcsBmc.Ports.ReceiveBmcData | IpmiFeaturePkg/Library/IpmiTransportLibKcs/KcsBmc.c:366-428 | Success means, for every conforming BMC, that data and size are its response and it is at rest; with a timely one it succeeds exactly if the response fits; for every device a linear read bound, no write past the size, size unchanged on failure, and an error if it stays busy or offers nothing |
| KcsBmc.Ports.ReceiveBmcDataFromPort | IpmiFeaturePkg/Library/IpmiTransportLibKcs/KcsBmc.c:430-475 | The same with recovery included; a response that does not fit leaves the BMC at rest too |
| KcsBmc.Ports.ConverseOnce | IpmiFeaturePkg/GenericIpmi/Common/GenericIpmi.c:192-221 | One exchange from any BMC state, timely or not: what is received is the response of the BMC to this request, which it has served |
| KcsBmc.Ports.Converse | IpmiFeaturePkg/GenericIpmi/Common/GenericIpmi.c:192-221 | Over any number of exchanges the BMC serves exactly the requests sent and the host receives exactly the responses that fit |
| SsifProtocol.FragmentsCarryTheMessage | IpmiFeaturePkg/Library/IpmiTransportLibSsif/Ssif.c:49-102 | ceil(n/32) blocks that join to the message, full but for the last, in the grammar WRITE or START MIDDLE* END |
| Ssif.WriteNext | IpmiFeaturePkg/Library/IpmiTransportLibSsif/Ssif.c:78-88 | The i-th write carries the i-th fragment, and the test device's buffer grows by it |
| Ssif.WriteBlocks | IpmiFeaturePkg/Library/IpmiTransportLibSsif/Ssif.c:70-102 | The writing loop emits the fragments in order; on every device it stops at the first refusal and returns that status |
| Ssif.SendDataToBmcPort | IpmiFeaturePkg/Library/IpmiTransportLibSsif/Ssif.c:27-107 | On every device the writes are the fragments up to the one refused, the status is that of the refusal, and the bus is closed as often as opened; the test device then holds the message |
| SsifProtocol.ReceivedIffCarried | IpmiFeaturePkg/Library/IpmiTransportLibSsif/Ssif.c:150-210 | For every device a message is received exactly when at most 257 in-order blocks, the last marked, hold it and it fits |
| SsifProtocol.SameParts | IpmiFeaturePkg/Library/IpmiTransportLibSsif/Ssif.c:185-196 | A stream of blocks carries at most one multi-part message |
| SsifProtocol.RejectedIffStopped | IpmiFeaturePkg/Library/IpmiTransportLibSsif/Ssif.c:150-208 | For every device a read ends with an error exactly when some block cannot be read, is out of order, or is too long, all before it being in order, and with that error |
| SsifDevices.ConformingRoundTrip | IpmiFeaturePkg/Library/IpmiTransportLibSsif/Ssif.c:150-210 | From a conforming device a message that fits comes back intact if and only if it is not a single block beginning 00 01, and a longer one is refused |
| SsifDevices.TestDeviceRoundTrip | IpmiFeaturePkg/Test/UnitTest/SsifUnitTest/BmcSmbusLibTest.c:141-176 | From the test device a message comes back intact if and only if it is not a single block beginning 00 01 |
| SsifDevices.TestDeviceLosesMultiPartStart | IpmiFeaturePkg/Library/IpmiTransportLibSsif/Ssif.c:172-183 | A three-byte message that is lost: its first two bytes are taken for a multi-part header |
| SsifDevices.TestDeviceMultiPart | IpmiFeaturePkg/Test/UnitTest/SsifUnitTest/BmcSmbusLibTest.c:141-176 | A multi-part message from the test device arrives intact or is refused as too long, and its blocks are numbered on, empty ones included, so that only counting reaches the end mark |
| SsifDevices.TestReadRefusals | IpmiFeaturePkg/Test/UnitTest/SsifUnitTest/BmcSmbusLibTest.c:133-179 | Exactly which reads the test device refuses, with which error, and that it stays as it was |
| Ssif.Smbus.SetRxBuffer | IpmiFeaturePkg/Test/UnitTest/SsifUnitTest/BmcSmbusLibTest.c:209-221 | The device is about to hand out the message from its start; its block number is left as it was |
| Ssif.Smbus.BmcSmbusBlockWrite | IpmiFeaturePkg/Test/UnitTest/SsifUnitTest/BmcSmbusLibTest.c:73-110 | Which writes the test device takes, and that what it takes is appended |
| Ssif.TestWriteRules | IpmiFeaturePkg/Test/UnitTest/SsifUnitTest/BmcSmbusLibTest.c:82-103 | Which writes it takes, by command number |
| Ssif.Smbus.TestReadFirst | IpmiFeaturePkg/Test/UnitTest/SsifUnitTest/BmcSmbusLibTest.c:141-159 | The first read of the test device refines its specification |
| Ssif.Smbus.TestReadNext | IpmiFeaturePkg/Test/UnitTest/SsifUnitTest/BmcSmbusLibTest.c:160-173 | A later read of the test device refines its specification |
| Ssif.Smbus.BmcSmbusBlockRead | IpmiFeaturePkg/Test/UnitTest/SsifUnitTest/BmcSmbusLibTest.c:128-179 | Every read fills the reader's buffer with the device's next block or reports its error |
| Ssif.ReadHeader | IpmiFeaturePkg/Library/IpmiTransportLibSsif/Ssif.c:159-197 | The header decoding and the next expected number agree with the format |
| Ssif.AddPayload | IpmiFeaturePkg/Library/IpmiTransportLibSsif/Ssif.c:199-207 | The payload is appended, or refused if it passes the size, and nothing past the size is touched |
| Ssif.TakeBlock | IpmiFeaturePkg/Library/IpmiTransportLibSsif/Ssif.c:150-208 | One pass of the loop takes one step of the reassembly |
| Ssif.ReceiveBmcDataFromPort | IpmiFeaturePkg/Library/IpmiTransportLibSsif/Ssif.c:122-214 | The outcome the block stream calls for, at most 257 reads, no write past the size, size changed only on success, one close per open |
| Ssif.ReadFromTestDevice | IpmiFeaturePkg/Test/UnitTest/SsifUnitTest/SsifUnitTest.c:117-122 | A message put into the test device is read back, exactly when the round trip says |
| IpmiHealth.CommandOutcome | IpmiFeaturePkg/GenericIpmi/Common/GenericIpmi.c:198-308 | Count, BMC status, return status and size of a command, told from the reply that ended it: only transport failures and listed codes count, and a bad code never leaves update mode |
| IpmiHealth.CommandDecided | IpmiFeaturePkg/GenericIpmi/Common/GenericIpmi.c:164-311 | Against any script of replies a command comes to what its first conclusive reply makes of it |
| IpmiHealth.StaleResponseRetried | IpmiFeaturePkg/GenericIpmi/Common/GenericIpmi.c:289-300 | A response that is too long and answers something else is dropped while tries are left, and the command goes on as if it had never come |
| IpmiHealth.OtherReplyEnds | IpmiFeaturePkg/GenericIpmi/Common/GenericIpmi.c:198-335 | Every other reply ends the command, and its bytes decide status, health and size |
| IpmiHealth.HealthOverRuns | IpmiFeaturePkg/GenericIpmi/Common/GenericIpmi.c:349-372 | Over every run the counter is the number of soft errors modulo 256; a query makes a soft failure a hard one exactly at a count of ten or more and changes nothing else, so from the 10th to the 255th soft error none reports a soft failure |
| IpmiHealth.GenericRefinesDirect | IpmiFeaturePkg/GenericIpmi/Common/GenericIpmi.c:164-337 | Over the mock the generic layer leaves the BMC as the direct base library does and, for a normal code that fits, returns the same bytes and size |
| GenericOverMock.SideBySide | IpmiFeaturePkg/Library/MockIpmi/IpmiBaseLibMock.c:49-73 | An Instance and the direct library on two mocks in the same state: the same command leaves them in the same state and hands out the same bytes and size, unless the layer refuses code or size |
| GenericOverMock.GenericSide | IpmiFeaturePkg/GenericIpmi/Common/GenericIpmi.c:164-337 | What the Instance hands out over a mock, told from its handler |
| GenericOverMock.KeepInStep | IpmiFeaturePkg/Library/MockIpmi/MockIpmi.c:54-136 | Over any commands the two mocks stay in the same state |
| IpmiHealth.InPlaceFraming | IpmiFeaturePkg/GenericIpmi/Common/GenericIpmi.c:313-333 | Framing in place always keeps the payload, and the completion code exactly if the payload is shorter than two bytes or its second byte equals the code |
| IpmiHealth.InPlaceLosesCompletionCode | IpmiFeaturePkg/GenericIpmi/Common/IpmiInitialize.c:75-84 | A response whose code is lost that way |
| GenericIpmi.Instance.UpdateErrorStatus | IpmiFeaturePkg/GenericIpmi/Common/GenericIpmi.c:12-56 | The search loop classifies a code as the specification does |
| GenericIpmi.Instance.SendRequest | IpmiFeaturePkg/GenericIpmi/Common/GenericIpmi.c:170-196 | The bytes handed to the transport are the header and the command data |
| GenericIpmi.Instance.JudgeResponse | IpmiFeaturePkg/GenericIpmi/Common/GenericIpmi.c:224-308 | A response in TempData is dropped for another try or concludes the command as specified |
| GenericIpmi.Instance.Attempt | IpmiFeaturePkg/GenericIpmi/Common/GenericIpmi.c:164-311 | One pass of the retry loop decides the command, of a success leaving the response in TempData, or leaves it to the remaining tries |
| GenericIpmi.Instance.RetryCommand | IpmiFeaturePkg/GenericIpmi/Common/GenericIpmi.c:164-311 | The retry loop computes the command, and leaves its response in TempData |
| GenericIpmi.Instance.ShiftRight | IpmiFeaturePkg/GenericIpmi/Common/GenericIpmi.c:328-330 | The in-place loop moves every byte one place up |
| GenericIpmi.Instance.PlacePayload | IpmiFeaturePkg/GenericIpmi/Common/GenericIpmi.c:317-330 | Where the payload ends up, and what that does to the byte that held the code |
| GenericIpmi.Instance.FrameResponse | IpmiFeaturePkg/GenericIpmi/Common/GenericIpmi.c:313-333 | The caller's buffer holds the framed response, whether it is its own or TempData |
| GenericIpmi.Instance.Deliver | IpmiFeaturePkg/GenericIpmi/Common/GenericIpmi.c:313-335 | A successful command is handed to the caller, whose buffer may be TempData |
| GenericIpmi.Instance.IpmiSendCommandInternal | IpmiFeaturePkg/GenericIpmi/Common/GenericIpmi.c:121-337 | Null argument checks; otherwise device, health, status, size and response are those of the command |
| GenericIpmi.Instance.IpmiBmcStatus | IpmiFeaturePkg/GenericIpmi/Common/GenericIpmi.c:349-372 | A soft failure with ten soft errors is reported, and from then on kept, as hard |
| IpmiOverKcs.SendCommand | IpmiFeaturePkg/GenericIpmi/Common/GenericIpmi.c:164-311 | Over KCS and every timely BMC a command puts header and data in the hands of the BMC once for each try, leaves it at rest, and comes out as Command says of its responses |
| IpmiOverKcs.Session | IpmiFeaturePkg/GenericIpmi/Common/GenericIpmi.c:198-372 | Over KCS every session of commands and queries is a run of HealthOverRuns: the counter is the number of soft errors modulo 256; the BMC is at rest after it |
| IpmiInitialize.Initializer.AwaitAnswer | IpmiFeaturePkg/GenericIpmi/Common/IpmiInitialize.c:225-264 | At most R + 1 commands, all for the device ID, and all of them if none succeeds; none but the last succeeds |
| IpmiInitialize.Initializer.PollReady | IpmiFeaturePkg/GenericIpmi/Common/IpmiInitialize.c:298-323 | At most R commands; OK exactly if the last says ready, none before it having done so |
| IpmiInitialize.Initializer.AwaitReady | IpmiFeaturePkg/GenericIpmi/Common/IpmiInitialize.c:275-327 | At most R + 1 commands, the first for the execution context and the others for the device ID; OK, update mode or hard failure by the last of them, none before it having settled it |
| IpmiInitialize.Initializer.GetDeviceId | IpmiFeaturePkg/GenericIpmi/Common/IpmiInitialize.c:207-328 | At most 2R + 2 commands: the device ID until the first success, and if that says not ready the execution context once and the device ID again; OK exactly if the last says ready, update mode exactly if it says so, hard failure otherwise and only after all tries |
| IpmiInitialize.Initializer.AwaitSelfTest | IpmiFeaturePkg/GenericIpmi/Common/IpmiInitialize.c:64-105 | At most R commands, or one if the delay is shorter than the timeout, and all of them exactly if none brought a recognized result |
| IpmiInitialize.Initializer.JudgeSelfTest | IpmiFeaturePkg/GenericIpmi/Common/IpmiInitialize.c:133-188 | Status and error codes by result and the byte searched for details |
| IpmiInitialize.Initializer.GetSelfTest | IpmiFeaturePkg/GenericIpmi/Common/IpmiInitialize.c:40-192 | Status, error codes and error status bytes are exactly those of the last result with itself as detail, or a communication error and hard failure without one |
| IpmiInitialize.Initializer.CopyErrorStatus | IpmiFeaturePkg/GenericIpmi/Common/IpmiInitialize.c:122-131 | As much of the response as fits becomes the error status |
| IpmiInitialize.Initializer.CheckBmc | IpmiFeaturePkg/GenericIpmi/Common/IpmiInitialize.c:357-399 | For every BMC the command bounds hold, the last command decides, and the self test is asked only of a BMC that said it is ready |
| IpmiInitialize.Initializer.IpmiInitializeBmc | IpmiFeaturePkg/GenericIpmi/Common/IpmiInitialize.c:339-410 | The same, error codes reported included, once platform init succeeds; otherwise nothing is sent |
| IpmiInitialize.Initializer.PromptDecides | IpmiFeaturePkg/GenericIpmi/Common/IpmiInitialize.c:357-399 | A BMC that answers at once is sent one command of each kind, and its reply decides |
| IpmiInitialize.InitializeTested | IpmiFeaturePkg/GenericIpmi/Common/IpmiInitialize.c:137-188 | Whole runs with every BMC that is ready and reports 55h, 56h, 57h or 58h: OK with nothing to report for the first two, a hard failure for the last, by the bits of 57h for the third |
| IpmiInitialize.ErrorsFitStatus | IpmiFeaturePkg/GenericIpmi/Common/IpmiInitialize.c:107-189 | Never not ready, at most two error codes, and exactly which go with which status |
| IpmiInitialize.OutcomeByBytes | IpmiFeaturePkg/GenericIpmi/Common/IpmiInitialize.c:87-188 | Status and error codes by the bytes of the last response: the ready bit, the execution context, and each self-test result by number |
| IpmiInitialize.JudgedAsIntended | IpmiFeaturePkg/GenericIpmi/Common/IpmiInitialize.c:143-153 | The verdict on a self test is the intended one exactly if the result is not 57h or its parameter has a corruption bit just when 57h has |
| IpmiInitialize.ErrorAlwaysHard | IpmiFeaturePkg/GenericIpmi/Common/IpmiInitialize.c:143-153 | With the specified bits 57h is always a hard failure, as intended exactly if the parameter has a corruption bit |
| IpmiInitialize.SelfTestErrorMisjudged | IpmiFeaturePkg/GenericIpmi/Common/IpmiInitialize.c:143-153 | Every BMC that is ready and answers 57h with a parameter without corruption bits ends in a hard failure, though a soft one is meant |
| IpmiInitialize.MisjudgedBmc | IpmiFeaturePkg/GenericIpmi/Common/IpmiInitialize.c:143-153 | Such a BMC |
| IpmiInitialize.InitializeOnMock | IpmiFeaturePkg/GenericIpmi/Common/IpmiInitialize.c:339-410 | From every state of the mock: OK, nothing reported, one command of each kind, the mock unchanged |
| MockSel.Stored | IpmiFeaturePkg/Library/MockIpmi/MockSel.c:100-105 | A stored record has its new ID, the caller's content and, if timestamped, the time |
| MockSel.ClockSteps | IpmiFeaturePkg/Library/MockIpmi/MockSel.c:99-113 | Adding a timestamped record and looking at the clock advance it by one; a record without timestamp, a refused one and a clear leave it alone |
| MockSel.ReadRequests | IpmiFeaturePkg/Library/MockIpmi/MockSel.c:244-259 | Exactly which read requests are invalid |
| MockSel.InfoBytes | IpmiFeaturePkg/Library/MockIpmi/MockSel.c:56-67 | The info response byte by byte |
| MockSel.Store.MockIpmiSelGetInfo | IpmiFeaturePkg/Library/MockIpmi/MockSel.c:45-70 | Refines the specification on the log |
| MockSel.Store.MockIpmiSelAddEntry | IpmiFeaturePkg/Library/MockIpmi/MockSel.c:82-116 | The table and clock refine appending to the log; a full table is unchanged |
| MockSel.Store.MockIpmiSelGetTime | IpmiFeaturePkg/Library/MockIpmi/MockSel.c:128-144 | Looking at the clock advances it, modulo 2^32 |
| MockSel.Store.MockIpmiSelSetTime | IpmiFeaturePkg/Library/MockIpmi/MockSel.c:156-176 | The clock is set and the log kept |
| MockSel.Store.MockIpmiSelClear | IpmiFeaturePkg/Library/MockIpmi/MockSel.c:188-218 | The log is emptied by either erase operation, and which progress is reported |
| MockSel.Store.MockIpmiSelGetEntry | IpmiFeaturePkg/Library/MockIpmi/MockSel.c:230-275 | Refines reading the log |
| SelLog.StoreRefinesLog | IpmiFeaturePkg/Library/MockIpmi/MockSel.c:99-113 | Over every run the store is the plain sequence of what was added since the last clear while there was room, entry i with ID i |
| SelLog.GetEntryReads | IpmiFeaturePkg/Library/MockIpmi/MockSel.c:261-274 | A read succeeds exactly for the IDs in the log and returns that entry and its successor |
| SelLog.WalkVisitsAll | IpmiFeaturePkg/Library/MockIpmi/MockSel.c:261-274 | In every reachable state following the links from 0 to FFFFh visits each live record once in order |
| SelLog.EntriesOnlyGrow | IpmiFeaturePkg/Library/MockIpmi/MockSel.c:99-113 | Without a clear, no entry is changed or lost |
| SelLog.AddThenGet | IpmiFeaturePkg/Library/MockIpmi/MockSel.c:99-108 | Any later read before a clear returns the added type and data; only ID and timestamp are new |
| SelLog.TimestampsIncrease | IpmiFeaturePkg/Library/MockIpmi/MockSel.c:103-105 | Timestamps rise strictly along the log while the clock is not set and does not wrap |
| SelLog.Conservation | IpmiFeaturePkg/Library/MockIpmi/MockSel.c:56-67 | Free space plus 16 times entries is the capacity, overflow means full, a full store refuses and stays |
| IpmiSelLib.IpmiCompCodeToEfiStatus | IpmiFeaturePkg/Library/IpmiSelLib/IpmiSelLib.c:51-98 | Exactly which codes lead to which status |
| IpmiSelLib.ContentDeterminesEvent | IpmiFeaturePkg/Include/Protocol/IpmiSelProtocol.h:34-59 | In all three layouts the fields a caller set are recovered from the content the log keeps |
| IpmiSelLib.RecordLayout | IpmiFeaturePkg/Library/IpmiSelLib/IpmiSelLib.c:184-331 | The three layouts byte by byte |
| IpmiSelLib.AddedEventIsRead | IpmiFeaturePkg/Library/IpmiSelLib/IpmiSelLib.c:184-331 | An added event is decoded with the same type and fields from any later read before a clear |
| IpmiSelLib.SelLib.IpmiAddSelEntry | IpmiFeaturePkg/Library/IpmiSelLib/IpmiSelLib.c:111-168 | On the mock the record is logged and its ID returned, or out of resources and nothing changed; on any BMC one request, and success exactly for a full response with a normal code, whose ID is returned |
| IpmiSelLib.SelLib.SelAddSystemEntry | IpmiFeaturePkg/Library/IpmiSelLib/IpmiSelLib.c:184-211 | The system event given is the one submitted, and on the mock the one logged |
| IpmiSelLib.SelLib.SelAddOemEntryEx | IpmiFeaturePkg/Library/IpmiSelLib/IpmiSelLib.c:225-263 | Types outside C0-DF and null data send nothing; otherwise the OEM event given is submitted, and on the mock logged |
| IpmiSelLib.SelLib.SelAddOemEntry | IpmiFeaturePkg/Library/IpmiSelLib/IpmiSelLib.c:276-288 | The same with the platform's manufacturer ID |
| IpmiSelLib.SelLib.SelAddOemEntryNoTimestamp | IpmiFeaturePkg/Library/IpmiSelLib/IpmiSelLib.c:301-331 | Types below E0 send nothing; otherwise the event given is submitted, and on the mock logged |
| IpmiSelLib.SelLib.SubmitClear | IpmiFeaturePkg/Library/IpmiSelLib/IpmiSelLib.c:361-399 | One clear command and how its answer is read, a short answer counting as normal and in progress |
| IpmiSelLib.SelLib.SelClear | IpmiFeaturePkg/Library/IpmiSelLib/IpmiSelLib.c:342-413 | Against any BMC one initialize-erase first, then status queries only; success exactly if the last answer is normal and, when awaited, complete; an awaited clear goes on exactly while answers are normal and incomplete |
| IpmiSelLib.SelLib.ClearAndAwait | IpmiFeaturePkg/Library/IpmiSelLib/IpmiSelLib.c:359-409 | If completion comes at the k-th reply exactly k commands are sent and the clear succeeds, and it succeeds only so |
| IpmiSelLib.SelLib.SelGetTime | IpmiFeaturePkg/Library/IpmiSelLib/IpmiSelLib.c:423-468 | On the mock the advanced clock; on any BMC the request, and status and time by the answer |
| IpmiSelLib.SelLib.SelSetTime | IpmiFeaturePkg/Library/IpmiSelLib/IpmiSelLib.c:478-520 | On the mock the clock is set; on any BMC the request, and the status by the answer |
| IpmiSelLib.SelLib.SelGetInfo | IpmiFeaturePkg/Library/IpmiSelLib/IpmiSelLib.c:531-583 | On the mock version, entries, free space, times and overflow flag are those of the log; on any BMC the request, and status and fields by the answer |
| IpmiSelLib.SelLib.SelGetEntry | IpmiFeaturePkg/Library/IpmiSelLib/IpmiSelLib.c:596-656 | On the mock the entry and its successor for an ID in the log, not found otherwise; on any BMC the request, and status and record by the answer |
| SelSessions.Perform | IpmiFeaturePkg/Library/IpmiSelLib/IpmiSelLib.c:184-656 | Every library call takes the step of the log that its message stands for |
| SelSessions.PerformAll | IpmiFeaturePkg/Library/IpmiSelLib/IpmiSelLib.c:184-656 | Any calls one after another take the log through the run of their messages |
| SelSessions.AddThenRead | IpmiFeaturePkg/Library/IpmiSelLib/IpmiSelLib.c:596-656 | On one library: an added event is read back and decoded by its returned ID after any calls that do not clear the log |
| MockIpmi.HandleKeepsValid | IpmiFeaturePkg/Library/MockIpmi/MockIpmi.c:17-32 | Every command keeps the invariants of log and watchdog |
| MockIpmi.CommandsByNumber | IpmiFeaturePkg/Library/MockIpmi/MockIpmi.c:17-32 | The watchdog commands by number, and that any command without a handler is invalid and changes nothing |
| MockIpmi.MockBmc.Dispatch | IpmiFeaturePkg/Library/MockIpmi/MockIpmi.c:81-97 | Each handler has the effect and response of its command |
| MockIpmi.MockBmc.MockIpmiCommand | IpmiFeaturePkg/Library/MockIpmi/MockIpmi.c:54-108 | The table search finds the handler of the command, or answers invalid command, and the response waits in the slot |
| MockIpmi.MockBmc.MockIpmiResponse | IpmiFeaturePkg/Library/MockIpmi/MockIpmi.c:118-136 | The slot's response is handed out once and changes nothing else |
| MockIpmi.BaseLibMock.IpmiSubmitCommand | IpmiFeaturePkg/Library/MockIpmi/IpmiBaseLibMock.c:31-74 | Through the two buffers and the slot the caller gets exactly the handler's response |
| MockChassis.Options.MockIpmiGetSystemBootOptions | IpmiFeaturePkg/Library/MockIpmi/MockChassis.c:23-69 | Which parameters can be read and what they hold |
| MockChassis.Options.MockIpmiSetSystemBootOptions | IpmiFeaturePkg/Library/MockIpmi/MockChassis.c:80-119 | The flags are replaced, or the acknowledge bits under the mask |
| MockChassis.OptionMessages | IpmiFeaturePkg/Library/MockIpmi/MockChassis.c:37-118 | Which parameters can be read and set, and the messages byte by byte |
| MockChassis.WrittenBits | IpmiFeaturePkg/Library/MockIpmi/MockChassis.c:112-114 | The acknowledge bits under the mask take the value, the others stay |
| MockChassis.FlagLayout | IpmiFeaturePkg/Library/IpmiBootOptionLib/IpmiBootOptionLib.c:374-393 | Where valid, persistent, CMOS and device are in the flags |
| MockChassis.WithoutCmosClear | IpmiFeaturePkg/Library/IpmiBootOptionLib/IpmiBootOptionLib.c:460-469 | Of the flags only the CMOS bit is taken out |
| BootOptions.FlagsOverRuns | IpmiFeaturePkg/Library/IpmiBootOptionLib/IpmiBootOptionLib.c:374-393 | The flags after any calls: zero once a valid override that is not persistent was taken, less a reported CMOS request otherwise |
| BootOptions.OverrideReturnedOnce | IpmiFeaturePkg/Library/IpmiBootOptionLib/IpmiBootOptionLib.c:374-393 | Over any calls a valid override that is not persistent is returned by the first query for the device and by no other |
| BootOptions.PersistentReturnedAlways | IpmiFeaturePkg/Library/IpmiBootOptionLib/IpmiBootOptionLib.c:374-393 | A persistent override is returned by every query |
| BootOptions.PersistentFlagsKept | IpmiFeaturePkg/Library/IpmiBootOptionLib/IpmiBootOptionLib.c:389-392 | Nothing but a reported CMOS request is taken out of persistent flags |
| BootOptions.OnlyBiosAcknowledged | IpmiFeaturePkg/Library/MockIpmi/MockChassis.c:112-114 | Over any calls only the BIOS-handled bit is cleared, and only by queries for the device |
| BootOptions.CmosQueryKeepsOverride | IpmiFeaturePkg/Library/IpmiBootOptionLib/IpmiBootOptionLib.c:460-469 | Asking for the CMOS request first never changes the next device returned |
| BootOptions.CmosReportedOnce | IpmiFeaturePkg/Library/IpmiBootOptionLib/IpmiBootOptionLib.c:460-469 | A CMOS request is reported once or never, once exactly if pending and asked for before the flags are wiped |
| BootOptions.CmosRequestWiped | IpmiFeaturePkg/Library/IpmiBootOptionLib/IpmiBootOptionLib.c:389-392 | A pending CMOS request that is never reported, the flags having been wiped by a query for the device |
| IpmiBootOptionLib.BootOptionLib.IpmiGetBootOption | IpmiFeaturePkg/Library/IpmiBootOptionLib/IpmiBootOptionLib.c:66-125 | On any BMC the request, and the status by the answer: success only for a normal code and a full-size response |
| IpmiBootOptionLib.BootOptionLib.IpmiCheckSetInProgress | IpmiFeaturePkg/Library/IpmiBootOptionLib/IpmiBootOptionLib.c:138-168 | On any BMC in progress exactly if a valid parameter says so; never on the mock |
| IpmiBootOptionLib.BootOptionLib.IpmiAcknowledgeBootOption | IpmiFeaturePkg/Library/IpmiBootOptionLib/IpmiBootOptionLib.c:175-213 | Clears the BIOS-handled bit and nothing else |
| IpmiBootOptionLib.BootOptionLib.IpmiSetBootFlags | IpmiFeaturePkg/Library/IpmiBootOptionLib/IpmiBootOptionLib.c:226-267 | Replaces the flags and nothing else |
| IpmiBootOptionLib.BootOptionLib.IpmiGetBootFlags | IpmiFeaturePkg/Library/IpmiBootOptionLib/IpmiBootOptionLib.c:281-320 | On any BMC flags are returned exactly if the parameter and they are marked valid, and on the mock they are its flags |
| IpmiBootOptionLib.BootOptionLib.IpmiGetBootDevice | IpmiFeaturePkg/Library/IpmiBootOptionLib/IpmiBootOptionLib.c:336-402 | On the mock one query as BootOptions takes it; on any BMC status, device and the commands sent are told from its answers, and a failed call has only queried |
| IpmiBootOptionLib.BootOptionLib.IpmiGetCmosClearOption | IpmiFeaturePkg/Library/IpmiBootOptionLib/IpmiBootOptionLib.c:416-472 | On the mock one query as BootOptions takes it; on any BMC status, result and the commands sent are told from its answers, and a failed call has only queried |
| IpmiBootOptionLib.AskAll | IpmiFeaturePkg/Library/IpmiBootOptionLib/IpmiBootOptionLib.c:336-472 | Any calls on one library over the mock are answered, and leave it, as BootOptions says |
| IpmiBootOptionLib.OverrideEndToEnd | IpmiFeaturePkg/Library/IpmiBootOptionLib/IpmiBootOptionLib.c:336-472 | Whatever is asked of the library, a valid override is returned by the first query for the device, and by all others exactly if it is persistent; only the BIOS bit is cleared |
| MockWdt.Timer.MockIpmiGetWatchdog | IpmiFeaturePkg/Library/MockIpmi/MockWdt.c:23-47 | A running timer loses one count when looked at, never going below zero |
| MockWdt.Timer.MockIpmiSetWatchdog | IpmiFeaturePkg/Library/MockIpmi/MockWdt.c:59-93 | The setting is taken over and the timer stopped |
| MockWdt.Timer.MockIpmiResetWatchdog | IpmiFeaturePkg/Library/MockIpmi/MockWdt.c:105-125 | The timer runs from its full count |
| MockWdt.TimerFields | IpmiFeaturePkg/Library/MockIpmi/MockWdt.c:38-117 | What each command does to each field of the timer |
| MockWdt.ResponseFields | IpmiFeaturePkg/Library/MockIpmi/MockWdt.c:38-46 | The timer can be read off the response, byte by byte |
| MockWdt.RequestFields | IpmiFeaturePkg/Library/MockIpmi/MockWdt.c:74-81 | Where a setting is in the request |
| WatchdogLifecycle.CountdownBounded | IpmiFeaturePkg/Library/MockIpmi/MockWdt.c:38-117 | After any commands the present count is at most the initial count |
| WatchdogLifecycle.EntryByPolicy | IpmiFeaturePkg/IpmiWatchdog/Dxe/WatchdogDxe.c:133-140 | Entry starts a stopped timer for FRB2 exactly if the policy enables it with a non-zero time, with the setting of the policy; a running one keeps its setting |
| WatchdogLifecycle.SettingsByArguments | IpmiFeaturePkg/Library/IpmiWatchdogLib/IpmiWatchdogLib.c:35-161 | What enabling and disabling leave of the timer, field by field |
| WatchdogLifecycle.ReactionsByPolicy | IpmiFeaturePkg/IpmiWatchdog/Dxe/WatchdogDxe.c:35-83 | What the two signals do, read off the policy |
| WatchdogLifecycle.NoTimerAfterReadyToBoot | IpmiFeaturePkg/IpmiWatchdog/Dxe/WatchdogDxe.c:35-56 | After entry and any positive number of ReadyToBoot signals no timer runs and the callback is closed |
| WatchdogLifecycle.OsTimerRunsAsConfigured | IpmiFeaturePkg/IpmiWatchdog/Dxe/WatchdogDxe.c:64-83 | After entry and some ReadyToBoot, ExitBootServices starts the OS timer exactly if the policy enables it with non-zero seconds, and no later signal stops it |
| WatchdogLifecycle.OsTimerExactly | IpmiFeaturePkg/IpmiWatchdog/Dxe/WatchdogDxe.c:35-83 | Over every run from entry that contains an ExitBootServices: exactly when a timer runs at the end, and which |
| WatchdogLifecycle.OsTimerStopped | IpmiFeaturePkg/IpmiWatchdog/Dxe/WatchdogDxe.c:44-55 | A run from entry that loses the OS timer |
| WatchdogFaults.RunUnderNone | IpmiFeaturePkg/IpmiWatchdog/Dxe/WatchdogDxe.c:35-83 | Without faults a run is that of the lifecycle |
| WatchdogFaults.EnableByFaults | IpmiFeaturePkg/Library/IpmiWatchdogLib/IpmiWatchdogLib.c:62-101 | Which commands must go well for enabling to succeed, and what it leaves otherwise |
| WatchdogFaults.DisableByFaults | IpmiFeaturePkg/Library/IpmiWatchdogLib/IpmiWatchdogLib.c:126-161 | The same for disabling, which believes the response of a failed query |
| WatchdogFaults.EntryByFaults | IpmiFeaturePkg/IpmiWatchdog/Dxe/WatchdogDxe.c:107-190 | Whatever goes wrong: success means both callbacks registered, a stopped timer runs afterwards only as the FRB2 timer of the policy, and a running one keeps its setting unless a query misleads |
| WatchdogFaults.NeverAnotherTimer | IpmiFeaturePkg/IpmiWatchdog/Dxe/WatchdogDxe.c:35-83 | Over every run with any faults but misleading queries: once the ReadyToBoot callback is closed only the OS timer, as configured, can run |
| WatchdogFaults.GuardBrokenIffMisled | IpmiFeaturePkg/IpmiWatchdog/Dxe/WatchdogDxe.c:35-83 | A reaction breaks that exactly when a misleading query closes the callback over a running timer |
| WatchdogFaults.ReadyToBootUnder | IpmiFeaturePkg/IpmiWatchdog/Dxe/WatchdogDxe.c:35-56 | Over ReadyToBoot signals with any faults: while the callback is open the timer runs on, when it closes the timer is stopped, and after a misleading query it runs on for good |
| WatchdogFaults.EntryStartsFrb2 | IpmiFeaturePkg/IpmiWatchdog/Dxe/WatchdogDxe.c:133-140 | A stopped timer is started as the policy says if the query says so and enabling goes well, whatever goes wrong later |
| IpmiWatchdog.IpmiEnableWatchdogTimer | IpmiFeaturePkg/Library/IpmiWatchdogLib/IpmiWatchdogLib.c:35-101 | Success means the timer is set as asked and runs from its full count; zero use or time changes nothing; under any faults timer and status are as specified |
| IpmiWatchdog.IpmiDisableWatchdogTimer | IpmiFeaturePkg/Library/IpmiWatchdogLib/IpmiWatchdogLib.c:115-162 | Without faults no timer runs afterwards; under any faults timer and status are as specified, success leaving the timer running exactly after a query with a bad code that reads as stopped |
| IpmiWatchdog.WatchdogDxe.IpmiWatchdogDxeEntryPoint | IpmiFeaturePkg/IpmiWatchdog/Dxe/WatchdogDxe.c:98-198 | Under any faults state and status are those EntryByFaults is about, and without faults those EntryByPolicy is about; without a policy nothing is sent |
| IpmiWatchdog.WatchdogDxe.DisableFrb2WatchdogTimer | IpmiFeaturePkg/IpmiWatchdog/Dxe/WatchdogDxe.c:35-56 | Without faults, the reaction of the lifecycle to ReadyToBoot; whatever goes wrong, the callback closes over a running timer exactly after a misleading query |
| IpmiWatchdog.WatchdogDxe.EnableOsWatchdogTimer | IpmiFeaturePkg/IpmiWatchdog/Dxe/WatchdogDxe.c:66-83 | The callback is closed in any case; with or without faults the specified reaction to ExitBootServices |
| IpmiWatchdog.WatchdogDxe.Boots | IpmiFeaturePkg/IpmiWatchdog/Dxe/WatchdogDxe.c:172-190 | Over any signals and faults the driver and its callbacks take the run of WatchdogFaults, and without faults that of the lifecycle |

## Left out

- KcsBmc.Ports.SendDataToBmc: requires a conforming device or one whose IBF reads the same from some access on, because its first wait need not end otherwise (`KeepsWaiting`); the same for AwaitFreeInput and SendDataToBmcPort.
- IpmiSelLib.SelLib.SelClear: the BMC's answers are a finite list followed by a failure, because against a BMC that reports progress for ever the awaited loop does not end.
- IpmiSelLib.SelLib.SelGetTime: response bytes a BMC leaves unsent read as zero, where the code reads an uninitialized structure; the same for SelSetTime and SelGetInfo.
- GenericIpmi.Instance.IpmiBmcStatus: the fixed communication address it also fills in.
- SsifDevices.TestDeviceRoundTrip: not for the one-byte message 00h, see the assumptions; nor are ConformingRoundTrip and ReadFromTestDevice.
- Commands over SSIF: the test device hands out whatever was put into it and answers no request, so only KCS carries whole commands here.
- KCS faults of the BMC itself: the modelled BMC leaves the dialogue only when the host breaks it. What the host does about a mismatch is in KcsCheckStatus.
- Port I/O, SMBus hardware, delays and debug output: replaced by scripts and step machines.
- UEFI, PEI, SMM and MM plumbing, the narrowing of sizes in IpmiHooks.c, and the base libraries other than the mock's.
- The command library: one wrapper per command; the watchdog's wrappers appear as the call boundary with faults.
- ACPI, SPMI, SMBIOS, FRU, SOL, power-restore and CMOS drivers: table filling or a single branch.
- The mock's pre-timeout and don't-log fields, which no modelled code reads.
