# StatusButtonDemo: a Dafny model of the status button driver

StatusButtonDemo is an Android app that drives a USB HID "status button". The
button has a push button and three indicator lines (red, green, blue). Two
classes form its core.

- `HidCommand` builds the 64-byte output reports and decodes the button's
  state from a 64-byte input report.
- `StatusButton` manages the session:
  - finding the button by vendor and product id and asking for permission;
  - scanning the first HID interface for its OUT and IN endpoints;
  - opening the device and recording its description;
  - running transactions on a handler thread;
  - polling the button's state and switching the light when the button
    changes between pressed and released.

The project has five files:

- `codes.dfy` (module `Codes`, plus `Opt` for `Option`): the return codes,
  colours, actions, message codes and USB constants.
- `hid_command.dfy` (module `Hid`): the report codec. The `HidCommand` class
  fills an `array` in place. The lemmas about its `Report` function state
  what each report holds.
- `decimal.dfy` (module `Decimal`): the decimal text of the vendor and product
  ids in the description, and its read-back.
- `status_button.dfy` (module `Button`):
  - the `StatusButton` class, with the fields of the Java class;
  - a `ButtonModel` value that `Model()` reads off those fields;
  - one specification function per operation, which every method's
    postcondition is tied to;
  - the invariant `Consistent`. Every method whose contract mentions
    `Valid()` keeps it. Separate lemmas prove that reset, connect, run,
    handleMessage, dispatch and onReceive preserve it.
- `button_properties.dfy` (module `ButtonProperties`): what the operations
  guarantee, and multi-step scenarios.

How the environment is modelled:

- The Android USB manager is reduced to data.
  - A `Device` lists its interfaces as (class, endpoint directions) pairs.
  - It says whether permission is held and whether `openDevice` succeeds.
  - `connect()` receives the device list as a sequence.
- Whether the OUT and IN `requestWait()` calls succeed are parameters of a
  transaction (`outOk`, `inOk`), and so are the 64 bytes the IN transfer
  delivers (`rx`).
- The button handler's message queue is a sequence of `Message(what, arg1)`
  and `Task(action)` entries, processed first in, first out.
- The following are recorded as history in the state:
  - messages to the UI handler (a counter);
  - permission requests (a sequence of devices);
  - reports queued on the OUT endpoint (a sequence of byte sequences).

## Model

| member | source | states |
|---|---|---|
| Hid.ResolveBtnStatus | app/src/main/java/com/oem/statusbuttondemo/HidCommand.java:73-76 | The decoded state is Pressed or Released, and it is Pressed exactly when byte 4 of the input report is zero. |
| Hid.ResolveReadsOnlyControlByte | app/src/main/java/com/oem/statusbuttondemo/HidCommand.java:73-76 | Two input reports that agree at byte 4 decode to the same state. |
| Hid.ColorsOff | app/src/main/java/com/oem/statusbuttondemo/HidCommand.java:99-106 | The buffer stays 64 bytes long. The six colour control/data offsets become 1, and every other byte is unchanged. |
| Hid.ColorData | app/src/main/java/com/oem/statusbuttondemo/HidCommand.java:79-96 | The buffer stays 64 bytes long. For a colour, its control byte becomes 1 and its data byte 0 when enabled or 1 when not. Every other byte, and the whole buffer for a value that is not a colour, is unchanged. |
| Hid.Report | app/src/main/java/com/oem/statusbuttondemo/HidCommand.java:41-70 | A generated report is 64 bytes long. Its first byte is 0x51 for STATUS, 0x50 for OFF, PRESSED and RELEASED, and 0 for any other action. |
| Hid.HidCommand.constructor | app/src/main/java/com/oem/statusbuttondemo/HidCommand.java:34-38 | The command holds the given action and colours, and no buffer yet. |
| Hid.HidCommand.Generate | app/src/main/java/com/oem/statusbuttondemo/HidCommand.java:41-70 | The result is null exactly when `Report` is None. Otherwise it is a fresh 64-byte array holding `Report(action, pressed, released)`, and it is also left in the command's buffer field. |
| Hid.HidCommand.SetColorOff | app/src/main/java/com/oem/statusbuttondemo/HidCommand.java:99-106 | The buffer becomes the old buffer with all three control/data pairs set to 1/1. |
| Hid.HidCommand.SetColorData | app/src/main/java/com/oem/statusbuttondemo/HidCommand.java:79-96 | The pair of the given colour gets control 1, and data 0 when enabled or 1 when not. A value that is not a colour leaves the buffer unchanged. |
| Hid.ReportShape | app/src/main/java/com/oem/statusbuttondemo/HidCommand.java:41-70 | Every report generated is 64 bytes long and zero outside the opcode byte and the three colour pairs. |
| Hid.ReportNullIff | app/src/main/java/com/oem/statusbuttondemo/HidCommand.java:50-56 | generate() returns null if and only if the action is Pressed or Released and one of the two colours is None. |
| Hid.OffReport | app/src/main/java/com/oem/statusbuttondemo/HidCommand.java:45-48 | The OFF report has opcode 0x50, and every colour line has control 1 and data 1. |
| Hid.StatusReport | app/src/main/java/com/oem/statusbuttondemo/HidCommand.java:64-66 | The STATUS query is opcode 0x51 followed by 63 zero bytes. |
| Hid.UnmatchedActionReport | app/src/main/java/com/oem/statusbuttondemo/HidCommand.java:42-69 | An action that no case matches, such as UNKNOWN, yields a non-null all-zero report. |
| Hid.ColorReport | app/src/main/java/com/oem/statusbuttondemo/HidCommand.java:50-62 | With both colours set, every colour line has control 1. The released colour's data is 0 only for a Released command, because its write comes last and wins. The pressed colour's data, when the colours differ, is 0 only for a Pressed command. Every other line keeps data 1. |
| Hid.PressedDistinctColors | app/src/main/java/com/oem/statusbuttondemo/HidCommand.java:58-60 | For a Pressed command with two distinct colours, only the pressed colour's data byte is 0. |
| Hid.ReleasedDistinctColors | app/src/main/java/com/oem/statusbuttondemo/HidCommand.java:58-60 | For a Released command with two distinct colours, only the released colour's data byte is 0. |
| Decimal.NatToString | app/src/main/java/com/oem/statusbuttondemo/StatusButton.java:263-264 | The text of a natural number is non-empty, made only of decimal digits, and has no leading zero. |
| Decimal.IntToString | app/src/main/java/com/oem/statusbuttondemo/StatusButton.java:263-264 | The text starts with '-' exactly for a negative value. After the sign it is decimal digits, and reading them back gives the magnitude. |
| Decimal.ParseNatToString | app/src/main/java/com/oem/statusbuttondemo/StatusButton.java:263-264 | Reading back the digits written for n gives n. |
| Button.FirstStatusButton | app/src/main/java/com/oem/statusbuttondemo/StatusButton.java:247-256 | The result is the index of a status button with no status button before it, or None when no device in the list passes the filter. |
| Button.IsStatusButton | app/src/main/java/com/oem/statusbuttondemo/StatusButton.java:110-117 | A device is the status button exactly when its vendor id is 0x04E7 and its product id is 0xA106. |
| Button.FindStatusButton | app/src/main/java/com/oem/statusbuttondemo/StatusButton.java:247-256 | The loop returns the first device in the list that has the button's vendor and product id, or null when there is none. |
| Button.FirstHidInterface | app/src/main/java/com/oem/statusbuttondemo/StatusButton.java:199-201 | The result is the index of an interface of class 3 with none before it, or None when no interface has class 3. |
| Button.LastEndpoint | app/src/main/java/com/oem/statusbuttondemo/StatusButton.java:202-208 | The result is the index of an endpoint of the given direction with none after it, so the last one found wins. None means there is no endpoint of that direction. |
| Button.EndpointScan | app/src/main/java/com/oem/statusbuttondemo/StatusButton.java:199-211 | The interface field is None only for a device without interfaces, and otherwise indexes one of them. A found endpoint comes from the first HID interface and indexes an endpoint of its own direction there. |
| Button.ScanEndpoints | app/src/main/java/com/oem/statusbuttondemo/StatusButton.java:199-211 | The nested loops compute `EndpointScan`. Only the first HID interface is scanned, and it ends with the last OUT and the last IN endpoint. When there is no HID interface, the interface field ends on the last interface visited and no endpoint is found. |
| Button.StatusButton.constructor | app/src/main/java/com/oem/statusbuttondemo/StatusButton.java:88-107 | The new object holds no device, an empty description, no colours, UNKNOWN status and an empty queue, and it satisfies the invariant. |
| Button.StatusButton.Reset | app/src/main/java/com/oem/statusbuttondemo/StatusButton.java:271-281 | The new state is `ResetSpec` of the old one. |
| Button.StatusButton.SaveDescription | app/src/main/java/com/oem/statusbuttondemo/StatusButton.java:259-268 | With a device, the description becomes exactly its five entries. Without one, nothing changes. |
| Button.StatusButton.Connect | app/src/main/java/com/oem/statusbuttondemo/StatusButton.java:181-236 | The new state and the return code are `ConnectSpec` of the old state and the device list. |
| Button.StatusButton.Open | app/src/main/java/com/oem/statusbuttondemo/StatusButton.java:198-223 | The scan's interface and endpoints are recorded. The code is EP_NOT_FOUND when an endpoint is missing, and otherwise CONNECTION_FAILED or SUCCESS as `openDevice` fails or succeeds. |
| Button.StatusButton.SetPressedColor | app/src/main/java/com/oem/statusbuttondemo/StatusButton.java:125-133 | The pressed colour is stored, SET_LIGHT_COLOR with the current status is queued, and the invariant is kept. |
| Button.StatusButton.SetReleasedColor | app/src/main/java/com/oem/statusbuttondemo/StatusButton.java:141-149 | The released colour is stored, SET_LIGHT_COLOR with the current status is queued, and the invariant is kept. |
| Button.StatusButton.Disconnect | app/src/main/java/com/oem/statusbuttondemo/StatusButton.java:239-244 | SET_LIGHT_OFF with the OFF action is queued, and the invariant is kept. |
| Button.StatusButton.Run | app/src/main/java/com/oem/statusbuttondemo/StatusButton.java:313-360 | The new state is `RunSpec` of the old state and the transfer outcomes, and the invariant is kept. |
| Button.StatusButton.Transmit | app/src/main/java/com/oem/statusbuttondemo/StatusButton.java:324-359 | The report is recorded as queued on OUT. Only if both waits succeed does a STATUS transaction apply the status transition and an OFF transaction clear the queue and reset. |
| Button.StatusButton.HandleMessage | app/src/main/java/com/oem/statusbuttondemo/StatusButton.java:384-401 | The new state is `HandleMessageSpec` of the old one, and the invariant is kept. |
| Button.StatusButton.Dispatch | app/src/main/java/com/oem/statusbuttondemo/StatusButton.java:378-401 | The head of the queue is removed and handled as a message or run as a transaction, and the invariant is kept. |
| Button.StatusButton.Poll | app/src/main/java/com/oem/statusbuttondemo/StatusButton.java:366-373 | A STATUS task is posted only while a connection is open, and the invariant is kept. |
| Button.StatusButton.OnReceive | app/src/main/java/com/oem/statusbuttondemo/StatusButton.java:286-301 | The new state is `ReceiveSpec` of the old one, and the invariant is kept. |
| Button.ResetPreservesConsistent | app/src/main/java/com/oem/statusbuttondemo/StatusButton.java:271-281 | Any reset state satisfies the invariant: without a connection, the description is empty and the status is UNKNOWN. |
| Button.ConnectPreservesConsistent | app/src/main/java/com/oem/statusbuttondemo/StatusButton.java:181-236 | Whatever connect() returns, the state it leaves satisfies the invariant. An open connection is to a status button that has permission and the scanned endpoints, and its description is exactly the saved one. |
| Button.DescribedUpdate | app/src/main/java/com/oem/statusbuttondemo/StatusButton.java:351 | Writing a new "status" entry over a connected description gives the description of the new state. |
| Button.StatusUpdatePreservesConsistent | app/src/main/java/com/oem/statusbuttondemo/StatusButton.java:340-354 | The status transition keeps the invariant. |
| Button.RunPreservesConsistent | app/src/main/java/com/oem/statusbuttondemo/StatusButton.java:313-360 | Every transaction keeps the invariant, whatever its transfer outcomes. |
| Button.HandleMessagePreservesConsistent | app/src/main/java/com/oem/statusbuttondemo/StatusButton.java:384-401 | Handling a message keeps the invariant. |
| Button.DispatchPreservesConsistent | app/src/main/java/com/oem/statusbuttondemo/StatusButton.java:378-401 | One turn of the handler loop keeps the invariant. |
| Button.ReceivePreservesConsistent | app/src/main/java/com/oem/statusbuttondemo/StatusButton.java:286-301 | Every broadcast keeps the invariant. |
| ButtonProperties.ResetClears | app/src/main/java/com/oem/statusbuttondemo/StatusButton.java:271-281 | reset() clears the device, endpoints, connection, interface, description, status and colours. It leaves the queue and the history alone, and it is idempotent. |
| ButtonProperties.ReceiveIgnoresOtherDevices | app/src/main/java/com/oem/statusbuttondemo/StatusButton.java:110-117 | A broadcast about a device without the button's vendor and product id changes nothing. |
| ButtonProperties.ReceiveRunsConnect | app/src/main/java/com/oem/statusbuttondemo/StatusButton.java:286-301 | For the status button, attach, detach and a granted permission run connect(). A refused permission does nothing. |
| ButtonProperties.EndpointScanFindsBoth | app/src/main/java/com/oem/statusbuttondemo/StatusButton.java:199-215 | Both endpoints are found if and only if the first HID interface has an endpoint of direction 0 and one of another direction. |
| ButtonProperties.ScanIgnoresLaterInterfaces | app/src/main/java/com/oem/statusbuttondemo/StatusButton.java:209 | Once a HID interface exists, interfaces after it do not change the scan result. |
| ButtonProperties.LastEndpointWins | app/src/main/java/com/oem/statusbuttondemo/StatusButton.java:202-208 | A later endpoint of a direction replaces an earlier one, and one of the other direction leaves it in place. |
| ButtonProperties.ConnectReturnCodes | app/src/main/java/com/oem/statusbuttondemo/StatusButton.java:184-223 | Each of the five return codes holds if and only if its condition holds on the first status button in the list. The checks run in this order: found, permission, HID endpoints, openDevice. |
| ButtonProperties.ConnectEffects | app/src/main/java/com/oem/statusbuttondemo/StatusButton.java:181-236 | NOT_FOUND, NO_PERMISSION and EP_NOT_FOUND reset and send one UI update, and only NO_PERMISSION requests permission, for the device found. CONNECTION_FAILED returns early: device and endpoints stay recorded and there is no UI update. SUCCESS opens the connection, records the five description keys and queues INIT_BUTTON. |
| ButtonProperties.DescriptionIds | app/src/main/java/com/oem/statusbuttondemo/StatusButton.java:263-264 | On a connected button, the "vid" and "pid" entries are decimal digits that read back as 0x04E7 and 0xA106. |
| ButtonProperties.RunWithoutConnection | app/src/main/java/com/oem/statusbuttondemo/StatusButton.java:314-316 | Without a connection, a transaction changes nothing. |
| ButtonProperties.RunNothingToSend | app/src/main/java/com/oem/statusbuttondemo/StatusButton.java:318-322 | A colour transaction with a colour unset sends nothing and changes nothing. |
| ButtonProperties.RunAbortsOnFailedWait | app/src/main/java/com/oem/statusbuttondemo/StatusButton.java:324-337 | If either wait fails, the only effect is the report queued on OUT. |
| ButtonProperties.RunStatusTransition | app/src/main/java/com/oem/statusbuttondemo/StatusButton.java:340-354 | A status that differs from the recorded one is stored, with "Pressed" or "Released" written under "status". SET_LIGHT_COLOR for the new status is queued and one UI update is sent. The session and the colours are unchanged. |
| ButtonProperties.RunStatusUnchanged | app/src/main/java/com/oem/statusbuttondemo/StatusButton.java:340-342 | A status query that reads the recorded state only records the query it sent. |
| ButtonProperties.RunOffEndsSession | app/src/main/java/com/oem/statusbuttondemo/StatusButton.java:356-359 | A completed OFF transaction empties the handler queue and resets the session, after sending the OFF report. |
| ButtonProperties.RunSendsAtMostOne | app/src/main/java/com/oem/statusbuttondemo/StatusButton.java:326-327 | A transaction appends at most one report to those already sent. |
| ButtonProperties.LightColorRequestSends | app/src/main/java/com/oem/statusbuttondemo/StatusButton.java:384-392 | A SET_LIGHT_COLOR message for a status other than STATUS or OFF, alone on the queue, becomes a transaction for that status after one turn. After the second turn the report generate() builds for it has been sent, if there is one and a connection is open, whatever the transfer outcomes. Nothing else changes. |
| ButtonProperties.SetPressedColorReachesButton | app/src/main/java/com/oem/statusbuttondemo/StatusButton.java:125-133 | On an idle queue, setPressedColor() takes two handler turns to reach the button. The state is the old one with the new colour and one more report sent: the report for the status recorded when the colour was set. While that status is UNKNOWN, the report is the all-zero buffer. |
| ButtonProperties.SetReleasedColorReachesButton | app/src/main/java/com/oem/statusbuttondemo/StatusButton.java:141-149 | The same for setReleasedColor(): two handler turns, the new colour, and the report for the status recorded when it was set, which is all zeros while the status is UNKNOWN. |
| ButtonProperties.DisconnectEndsSession | app/src/main/java/com/oem/statusbuttondemo/StatusButton.java:239-244 | On an idle connected button, disconnect() takes two handler turns. The OFF report is sent, and once both transfers complete the session is reset with an empty queue and no UI update. On a button that is not connected, nothing changes. |
| ButtonProperties.PollRunsStatusQuery | app/src/main/java/com/oem/statusbuttondemo/StatusButton.java:368-371 | On an idle queue, a poll followed by one handler turn is exactly a STATUS transaction. Without a connection, it changes nothing. |
| ButtonProperties.DispatchKeepsOrder | app/src/main/java/com/oem/statusbuttondemo/StatusButton.java:384-401 | After one turn, the rest of the queue is still at its head with at most one entry added behind it. The only exception is a completed OFF transaction, which empties the queue. |
| ButtonProperties.DuplicateStatusSuppressed | app/src/main/java/com/oem/statusbuttondemo/StatusButton.java:340-354 | Two status queries that read the same button state notify the UI at most once. |
| ButtonProperties.InitSendsZeroReport | app/src/main/java/com/oem/statusbuttondemo/StatusButton.java:394-399 | After a successful connect on an idle queue, INIT_BUTTON becomes SET_LIGHT_COLOR with the UNKNOWN status, and then a transaction that sends the all-zero report. |
| ButtonProperties.DetachDropsStaleQuery | app/src/main/java/com/oem/statusbuttondemo/StatusButton.java:295-297 | A detach after the button has left the device list resets the session with one UI update. A status task queued before it is then dropped without a transfer. |
| ButtonProperties.PermissionThenConnect | app/src/main/java/com/oem/statusbuttondemo/StatusButton.java:192-196 | A button without permission gets a permission request. Once the permission broadcast reports it granted, connect() opens the session, records the description and queues INIT_BUTTON. |

## Left out

- Android USB APIs: `UsbManager`, `UsbRequest`, `claimInterface`, `PendingIntent` and `openDevice` are left out. They are replaced by the `Device` record and by transfer-outcome parameters.
- Threads: the receiver, the handler thread and the poller thread run concurrently in the app. The model runs each step atomically and in the order a caller chooses. Races between `connect()` and a running transaction are not modelled.
- Timing: the 500 ms delay of INIT_BUTTON and the 300 ms poll period are not modelled. The queue is plain first in, first out.
  - In the app, a status poll usually runs before the delayed INIT_BUTTON. Its status change triggers a UI update, and the UI handler re-applies the selected colours through the two colour setters. So INIT_BUTTON usually re-sends the colour report for the current status.
  - In the model, INIT_BUTTON always runs before any later poll. So the all-zero report of `InitSendsZeroReport` is the case where no poll ran first, not the usual path.
- Lifecycle: `onStart` (which registers the receiver and connects) and `onStop` (which unregisters it and disconnects) are not modelled as members. They are `Connect` and `Disconnect` plus registration, and registration is not modelled.
- Logging, the three getters, and the UI handler's own processing are not modelled. A UI update is only counted.
- The IN transfer's buffer is an input `rx`, and IN transfers are not recorded.
- `findStatusButton` iterates a `HashMap`'s values, whose order Java does not fix. The model takes the device list in a given order.
- Java `null` strings in the description, such as a missing serial number, are not modelled. Every string field is a value.
- `MainActivity.java` is not part of this model.
- Button.StatusButton.Connect: its contract does not mention the invariant. That it keeps the invariant is the separate lemma `ConnectPreservesConsistent`, which `OnReceive` uses.
- Button.StatusButton.Open and Button.StatusButton.Transmit: these are helpers split out of `connect()` and `run()` for verification cost. They have no methods of their own in the source.
