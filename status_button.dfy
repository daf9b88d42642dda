/** The session and transaction logic of the status button.

    The Android USB service is replaced by values: the enumerated devices are
    a sequence of Device records (each with its interfaces, a permission flag
    and whether opening it succeeds); the outcome of each transfer is a
    parameter. The button handler's message queue is a FIFO sequence of
    entries, the UI handler is a count of update messages sent to it. */
module Button {
  import opened Codes
  import opened Opt
  import opened Hid
  import opened Decimal

  /** A USB interface: its class code and the direction of each endpoint. */
  datatype Interface = Interface(interfaceClass: int, endpointDirections: seq<int>)

  /** An enumerated USB device, with what the USB service would answer about it. */
  datatype Device = Device(
    vendorId: int,
    productId: int,
    serialNumber: string,
    manufacturerName: string,
    productName: string,
    interfaces: seq<Interface>,
    hasPermission: bool,
    openSucceeds: bool)

  /** The broadcasts the receiver reacts to. */
  datatype Event =
    | PermissionResult(device: Device, granted: bool)
    | Attached(device: Device)
    | Detached(device: Device)

  /** An entry of the button handler's queue: a message, or a posted
      TransactionTask with its action. */
  datatype QueueEntry =
    | Message(what: int, arg1: int)
    | Task(action: int)

  /** What the endpoint scan of connect() leaves in the interface and
      endpoint fields; endpoints are indices into the interface's endpoints. */
  datatype Scan = Scan(iface: Option<nat>, epOut: Option<nat>, epIn: Option<nat>)

  /** The state of a StatusButton object, as a value. Besides the fields of
      the Java class it records what the object has sent to its collaborators:
      UI update messages, permission requests and the reports queued on the
      OUT endpoint (each after a claimInterface call). */
  datatype ButtonModel = ButtonModel(
    btn: Option<Device>,
    btnEpOut: Option<nat>,
    btnEpIn: Option<nat>,
    btnConnection: bool,
    btnInterface: Option<nat>,
    description: map<string, string>,
    pressedColor: int,
    releasedColor: int,
    btnStatus: int,
    btnQueue: seq<QueueEntry>,
    uiUpdates: nat,
    permissionRequests: seq<Device>,
    sentReports: seq<seq<byte>>)

  const StatusKey := "status"
  const DescriptionKeys: set<string> := {"sn", "vid", "pid", "manufacturer", "product"}

  // ---------------------------------------------------------------------
  // Device filter and the searches of connect().

  /** The vendor/product filter. */
  predicate IsStatusButton(d: Device) {
    d.vendorId == UsbVid && d.productId == UsbPid
  }

  /** Index of the first status button in the device list. */
  function FirstStatusButton(devices: seq<Device>): (k: Option<nat>)
    ensures k.Some? ==> (k.value < |devices| && IsStatusButton(devices[k.value])
                         && forall j | 0 <= j < k.value :: !IsStatusButton(devices[j]))
    ensures k.None? ==> forall j | 0 <= j < |devices| :: !IsStatusButton(devices[j])
  {
    if |devices| == 0 then None
    else if IsStatusButton(devices[0]) then Some(0)
    else match FirstStatusButton(devices[1..])
      case None => None
      case Some(j) => Some(j + 1)
  }

  /** The device findStatusButton() returns. */
  function FoundButton(devices: seq<Device>): Option<Device> {
    match FirstStatusButton(devices)
    case None => None
    case Some(k) => Some(devices[k])
  }

  /** Index of the first interface of HID class. */
  function FirstHidInterface(ifs: seq<Interface>): (k: Option<nat>)
    ensures k.Some? ==> (k.value < |ifs| && ifs[k.value].interfaceClass == HidInterfaceClass
                         && forall j | 0 <= j < k.value :: ifs[j].interfaceClass != HidInterfaceClass)
    ensures k.None? ==> forall j | 0 <= j < |ifs| :: ifs[j].interfaceClass != HidInterfaceClass
  {
    if |ifs| == 0 then None
    else if ifs[0].interfaceClass == HidInterfaceClass then Some(0)
    else match FirstHidInterface(ifs[1..])
      case None => None
      case Some(j) => Some(j + 1)
  }

  /** Whether an endpoint direction is taken as OUT (direction 0) or as IN
      (every other value). */
  predicate IsDirection(d: int, out: bool) {
    (d == DirectionOut) == out
  }

  /** Index of the last endpoint of the given direction. */
  function LastEndpoint(dirs: seq<int>, out: bool): (k: Option<nat>)
    ensures k.Some? ==> (k.value < |dirs| && IsDirection(dirs[k.value], out)
                         && forall j | k.value < j < |dirs| :: !IsDirection(dirs[j], out))
    ensures k.None? ==> forall j | 0 <= j < |dirs| :: !IsDirection(dirs[j], out)
  {
    if |dirs| == 0 then None
    else if IsDirection(dirs[|dirs| - 1], out) then Some(|dirs| - 1)
    else LastEndpoint(dirs[..|dirs| - 1], out)
  }

  /** The endpoint scan: only the first HID interface is scanned; the
      interface field ends on that interface, or on the last one visited when
      there is none. */
  function EndpointScan(ifs: seq<Interface>): (sc: Scan)
    ensures sc.iface.None? <==> |ifs| == 0
    ensures sc.iface.Some? ==> sc.iface.value < |ifs|
    ensures sc.epOut.Some? || sc.epIn.Some? ==> sc.iface == FirstHidInterface(ifs)
    ensures sc.epOut.Some? ==> (
      sc.iface.Some? && sc.iface.value < |ifs| &&
      var dirs := ifs[sc.iface.value].endpointDirections;
      sc.epOut.value < |dirs| && dirs[sc.epOut.value] == DirectionOut)
    ensures sc.epIn.Some? ==> (
      sc.iface.Some? && sc.iface.value < |ifs| &&
      var dirs := ifs[sc.iface.value].endpointDirections;
      sc.epIn.value < |dirs| && dirs[sc.epIn.value] != DirectionOut)
  {
    match FirstHidInterface(ifs)
    case Some(i) =>
      Scan(Some(i), LastEndpoint(ifs[i].endpointDirections, true),
           LastEndpoint(ifs[i].endpointDirections, false))
    case None =>
      Scan(if |ifs| == 0 then None else Some(|ifs| - 1), None, None)
  }

  /** findStatusButton(): the first listed device that passes the filter. */
  method FindStatusButton(devices: seq<Device>) returns (dev: Option<Device>)
    ensures dev == FoundButton(devices)
  {
    for i := 0 to |devices|
      invariant forall j | 0 <= j < i :: !IsStatusButton(devices[j])
    {
      if IsStatusButton(devices[i]) {
        return Some(devices[i]);
      }
    }
    return None;
  }

  /** The nested loops of connect() over interfaces and endpoints. */
  method ScanEndpoints(ifs: seq<Interface>) returns (iface: Option<nat>, epOut: Option<nat>, epIn: Option<nat>)
    ensures Scan(iface, epOut, epIn) == EndpointScan(ifs)
  {
    iface, epOut, epIn := None, None, None;
    var i := 0;
    while i < |ifs|
      invariant 0 <= i <= |ifs|
      invariant forall k | 0 <= k < i :: ifs[k].interfaceClass != HidInterfaceClass
      invariant iface == (if i == 0 then None else Some(i - 1))
      invariant epOut == None && epIn == None
    {
      iface := Some(i);
      if ifs[i].interfaceClass == HidInterfaceClass {
        var dirs := ifs[i].endpointDirections;
        for j := 0 to |dirs|
          invariant epOut == LastEndpoint(dirs[..j], true)
          invariant epIn == LastEndpoint(dirs[..j], false)
        {
          assert dirs[..j + 1][..j] == dirs[..j];
          if dirs[j] == DirectionOut {
            epOut := Some(j);
          } else {
            epIn := Some(j);
          }
        }
        assert dirs[..|dirs|] == dirs;
        assert FirstHidInterface(ifs) == Some(i);
        break;
      }
      i := i + 1;
    }
  }

  // ---------------------------------------------------------------------
  // The transitions of a StatusButton, as functions of its state.

  /** The initial state of a new StatusButton. */
  function Initial(): ButtonModel {
    ButtonModel(None, None, None, false, None, map[], LightColorNone, LightColorNone,
                TxBtnUnknown, [], 0, [], [])
  }

  /** reset(). */
  function ResetSpec(m: ButtonModel): ButtonModel {
    m.(btn := None, btnEpOut := None, btnEpIn := None, btnConnection := false,
       btnInterface := None, description := map[], btnStatus := TxBtnUnknown,
       pressedColor := LightColorNone, releasedColor := LightColorNone)
  }

  /** The description saveDescription() records for a device. */
  function DescriptionOf(d: Device): map<string, string> {
    map["sn" := d.serialNumber,
        "vid" := IntToString(d.vendorId),
        "pid" := IntToString(d.productId),
        "manufacturer" := d.manufacturerName,
        "product" := d.productName]
  }

  /** saveDescription(). */
  function SaveDescriptionSpec(m: ButtonModel): ButtonModel {
    if m.btn.Some? then m.(description := DescriptionOf(m.btn.value)) else m
  }

  /** The text recorded under "status" for a decoded button state. */
  function StatusName(status: int): string {
    if status == TxBtnPressed then "Pressed" else "Released"
  }

  /** A failed connect attempt: reset and one UI update. */
  function FailSpec(m: ButtonModel): ButtonModel {
    ResetSpec(m).(uiUpdates := m.uiUpdates + 1)
  }

  /** The endpoint scan and openDevice() of connect(), on a device d that
      has permission: the code is EpNotFound, ConnectionFailed or Success. */
  function OpenSpec(m: ButtonModel, d: Device): (ButtonModel, int) {
    var sc := EndpointScan(d.interfaces);
    var m1 := m.(btnInterface := sc.iface, btnEpOut := sc.epOut, btnEpIn := sc.epIn);
    if sc.epOut.None? || sc.epIn.None? then (m1, RetUsbEpNotFound)
    else (m1.(btnConnection := d.openSucceeds),
          if d.openSucceeds then RetSuccess else RetUsbConnectionFailed)
  }

  /** The end of connect(): a failure resets and updates the UI; a success
      records the description and queues the initialisation message. */
  function ConcludeSpec(m: ButtonModel, ret: int): ButtonModel {
    if ret != RetSuccess then FailSpec(m)
    else
      var m1 := SaveDescriptionSpec(m);
      m1.(btnQueue := m1.btnQueue + [Message(MsgInitButton, 0)])
  }

  /** connect(): the new state and the return code. A failed openDevice()
      returns at once, without the reset and the UI update. */
  function ConnectSpec(m: ButtonModel, devices: seq<Device>): (ButtonModel, int) {
    var m0 := ResetSpec(m).(btn := FoundButton(devices));
    if m0.btn.None? then (ConcludeSpec(m0, RetDeviceNotFound), RetDeviceNotFound)
    else if !m0.btn.value.hasPermission then
      var m1 := m0.(permissionRequests := m0.permissionRequests + [m0.btn.value]);
      (ConcludeSpec(m1, RetNoUsbPermission), RetNoUsbPermission)
    else
      var (m1, ret) := OpenSpec(m0, m0.btn.value);
      if ret == RetUsbConnectionFailed then (m1, ret) else (ConcludeSpec(m1, ret), ret)
  }

  /** setPressedColor(color). */
  function SetPressedColorSpec(m: ButtonModel, color: int): ButtonModel {
    m.(pressedColor := color, btnQueue := m.btnQueue + [Message(MsgSetLightColor, m.btnStatus)])
  }

  /** setReleasedColor(color). */
  function SetReleasedColorSpec(m: ButtonModel, color: int): ButtonModel {
    m.(releasedColor := color, btnQueue := m.btnQueue + [Message(MsgSetLightColor, m.btnStatus)])
  }

  /** disconnect(). */
  function DisconnectSpec(m: ButtonModel): ButtonModel {
    m.(btnQueue := m.btnQueue + [Message(MsgSetLightOff, TxBtnOff)])
  }

  /** The status-transition step of a STATUS transaction. */
  function StatusUpdate(m: ButtonModel, status: int): ButtonModel {
    if status != m.btnStatus then
      m.(btnQueue := m.btnQueue + [Message(MsgSetLightColor, status)],
         btnStatus := status,
         description := m.description[StatusKey := StatusName(status)],
         uiUpdates := m.uiUpdates + 1)
    else m
  }

  /** The part of TransactionTask(action).run() after a report tx was
      generated: tx is queued on the OUT endpoint; on success of both waits a
      STATUS transaction decodes rx and an OFF transaction ends the session. */
  function TransmitSpec(m: ButtonModel, action: int, tx: seq<byte>, outOk: bool, inOk: bool, rx: seq<byte>): ButtonModel
    requires |rx| == ReportSize
  {
    var m1 := m.(sentReports := m.sentReports + [tx]);
    if !outOk || !inOk then m1
    else
      var m2 := if action == TxBtnStatus then StatusUpdate(m1, ResolveBtnStatus(rx)) else m1;
      if action == TxBtnOff then ResetSpec(m2.(btnQueue := [])) else m2
  }

  /** TransactionTask(action).run(): outOk and inOk are whether the OUT and
      the IN requestWait succeed, rx the 64 bytes the IN transfer delivers. */
  function RunSpec(m: ButtonModel, action: int, outOk: bool, inOk: bool, rx: seq<byte>): ButtonModel
    requires |rx| == ReportSize
  {
    if !m.btnConnection then m
    else match Report(action, m.pressedColor, m.releasedColor)
      case None => m
      case Some(tx) => TransmitSpec(m, action, tx, outOk, inOk, rx)
  }

  /** BtnHandler.handleMessage(msg). */
  function HandleMessageSpec(m: ButtonModel, what: int, arg1: int): ButtonModel {
    if what == MsgSetLightColor || what == MsgSetLightOff then
      m.(btnQueue := m.btnQueue + [Task(arg1)])
    else if what == MsgInitButton then
      m.(btnQueue := m.btnQueue + [Message(MsgSetLightColor, m.btnStatus)])
    else m
  }

  /** One turn of the handler thread's looper: take the head of the queue and
      handle it; the transfer outcomes are used if it is a transaction. */
  function DispatchSpec(m: ButtonModel, outOk: bool, inOk: bool, rx: seq<byte>): ButtonModel
    requires |rx| == ReportSize
  {
    if m.btnQueue == [] then m
    else
      var rest := m.(btnQueue := m.btnQueue[1..]);
      match m.btnQueue[0]
      case Message(what, arg1) => HandleMessageSpec(rest, what, arg1)
      case Task(action) => RunSpec(rest, action, outOk, inOk, rx)
  }

  /** One iteration of the poller loop. */
  function PollSpec(m: ButtonModel): ButtonModel {
    if m.btnConnection then m.(btnQueue := m.btnQueue + [Task(TxBtnStatus)]) else m
  }

  /** StatusButtonReceiver.onReceive(): devices is the device list connect()
      would see. */
  function ReceiveSpec(m: ButtonModel, ev: Event, devices: seq<Device>): ButtonModel {
    if !IsStatusButton(ev.device) then m
    else match ev
      case PermissionResult(_, granted) => if granted then ConnectSpec(m, devices).0 else m
      case Attached(_) => ConnectSpec(m, devices).0
      case Detached(_) => ConnectSpec(m, devices).0
  }

  // ---------------------------------------------------------------------
  // The invariant of a StatusButton.

  /** The description of a connected device in the given button state. */
  function Described(d: Device, status: int): map<string, string> {
    if status == TxBtnUnknown then DescriptionOf(d)
    else DescriptionOf(d)[StatusKey := StatusName(status)]
  }

  /** A connection is only open on a status button with permission, with the
      interface and both endpoints the scan found. */
  ghost predicate Resolved(m: ButtonModel) {
    && m.btn.Some?
    && IsStatusButton(m.btn.value)
    && m.btn.value.hasPermission
    && EndpointScan(m.btn.value.interfaces) == Scan(m.btnInterface, m.btnEpOut, m.btnEpIn)
    && m.btnInterface.Some? && m.btnEpOut.Some? && m.btnEpIn.Some?
  }

  ghost predicate Consistent(m: ButtonModel) {
    && (m.btnStatus == TxBtnUnknown || m.btnStatus == TxBtnPressed || m.btnStatus == TxBtnReleased)
    && (!m.btnConnection ==> m.description == map[] && m.btnStatus == TxBtnUnknown)
    && (m.btnConnection ==> Resolved(m) && m.description == Described(m.btn.value, m.btnStatus))
  }

  /** The object a StatusButton is, with the fields of the Java class. */
  class StatusButton {
    var btn: Option<Device>
    var btnEpOut: Option<nat>
    var btnEpIn: Option<nat>
    var btnConnection: bool
    var btnInterface: Option<nat>
    var description: map<string, string>
    var pressedColor: int
    var releasedColor: int
    var btnStatus: int
    var btnQueue: seq<QueueEntry>
    var uiUpdates: nat
    var permissionRequests: seq<Device>
    var sentReports: seq<seq<byte>>

    function Model(): ButtonModel
      reads this
    {
      ButtonModel(btn, btnEpOut, btnEpIn, btnConnection, btnInterface, description,
                  pressedColor, releasedColor, btnStatus, btnQueue, uiUpdates,
                  permissionRequests, sentReports)
    }

    ghost predicate Valid()
      reads this
    {
      Consistent(Model())
    }

    constructor ()
      ensures Valid() && Model() == Initial()
    {
      btn, btnEpOut, btnEpIn, btnConnection, btnInterface := None, None, None, false, None;
      description := map[];
      pressedColor, releasedColor := LightColorNone, LightColorNone;
      btnStatus := TxBtnUnknown;
      btnQueue, uiUpdates, permissionRequests, sentReports := [], 0, [], [];
    }

    method Reset()
      modifies this
      ensures Model() == ResetSpec(old(Model()))
    {
      btn, btnEpOut, btnEpIn, btnConnection, btnInterface := None, None, None, false, None;
      description := map[];
      btnStatus := TxBtnUnknown;
      pressedColor, releasedColor := LightColorNone, LightColorNone;
    }

    method SaveDescription()
      modifies this
      ensures Model() == SaveDescriptionSpec(old(Model()))
    {
      if btn.Some? {
        description := map[];
        description := description["sn" := btn.value.serialNumber];
        description := description["vid" := IntToString(btn.value.vendorId)];
        description := description["pid" := IntToString(btn.value.productId)];
        description := description["manufacturer" := btn.value.manufacturerName];
        description := description["product" := btn.value.productName];
      }
    }

    /** connect(). It keeps the invariant too: see ConnectPreservesConsistent. */
    method Connect(devices: seq<Device>) returns (ret: int)
      modifies this
      ensures (Model(), ret) == ConnectSpec(old(Model()), devices)
    {
      ret := RetSuccess;
      Reset();

      btn := FindStatusButton(devices);
      if btn.None? {
        ret := RetDeviceNotFound;
      }

      if ret == RetSuccess && !btn.value.hasPermission {
        permissionRequests := permissionRequests + [btn.value];
        ret := RetNoUsbPermission;
      }

      if ret == RetSuccess {
        ret := Open();
        if ret == RetUsbConnectionFailed {
          return;
        }
      }

      if ret != RetSuccess {
        Reset();
        uiUpdates := uiUpdates + 1;
      } else {
        SaveDescription();
        btnQueue := btnQueue + [Message(MsgInitButton, 0)];
      }
    }

    /** The endpoint scan and openDevice() of connect(). */
    method Open() returns (ret: int)
      requires btn.Some?
      modifies this
      ensures (Model(), ret) == OpenSpec(old(Model()), old(btn).value)
    {
      ret := RetSuccess;
      btnInterface, btnEpOut, btnEpIn := ScanEndpoints(btn.value.interfaces);
      if btnEpOut.None? || btnEpIn.None? {
        ret := RetUsbEpNotFound;
      }

      if ret == RetSuccess {
        btnConnection := btn.value.openSucceeds;
        if !btnConnection {
          ret := RetUsbConnectionFailed;
        }
      }
    }

    method SetPressedColor(color: int)
      requires Valid()
      modifies this
      ensures Valid() && Model() == SetPressedColorSpec(old(Model()), color)
    {
      pressedColor := color;
      btnQueue := btnQueue + [Message(MsgSetLightColor, btnStatus)];
    }

    method SetReleasedColor(color: int)
      requires Valid()
      modifies this
      ensures Valid() && Model() == SetReleasedColorSpec(old(Model()), color)
    {
      releasedColor := color;
      btnQueue := btnQueue + [Message(MsgSetLightColor, btnStatus)];
    }

    method Disconnect()
      requires Valid()
      modifies this
      ensures Valid() && Model() == DisconnectSpec(old(Model()))
    {
      btnQueue := btnQueue + [Message(MsgSetLightOff, TxBtnOff)];
    }

    /** TransactionTask(action).run(). */
    method Run(action: int, outOk: bool, inOk: bool, rx: seq<byte>)
      requires Valid() && |rx| == ReportSize
      modifies this
      ensures Valid() && Model() == RunSpec(old(Model()), action, outOk, inOk, rx)
    {
      RunPreservesConsistent(Model(), action, outOk, inOk, rx);
      if !btnConnection {
        return;
      }
      var command := new HidCommand(action, pressedColor, releasedColor);
      var txData := command.Generate();
      if txData == null {
        return;
      }
      Transmit(action, txData[..], outOk, inOk, rx);
    }

    /** The transfer pair of run() and what follows it. */
    method Transmit(action: int, tx: seq<byte>, outOk: bool, inOk: bool, rx: seq<byte>)
      requires |rx| == ReportSize
      modifies this
      ensures Model() == TransmitSpec(old(Model()), action, tx, outOk, inOk, rx)
    {
      // claimInterface, then queue the report on the OUT endpoint.
      sentReports := sentReports + [tx];
      if !outOk {
        return;
      }
      if !inOk {
        return;
      }

      if action == TxBtnStatus {
        var status := ResolveBtnStatus(rx);
        if status != btnStatus {
          btnQueue := btnQueue + [Message(MsgSetLightColor, status)];
          btnStatus := status;
          description := description[StatusKey := StatusName(btnStatus)];
          uiUpdates := uiUpdates + 1;
        }
      }

      if action == TxBtnOff {
        btnQueue := [];
        Reset();
      }
    }

    /** BtnHandler.handleMessage(msg). */
    method HandleMessage(what: int, arg1: int)
      requires Valid()
      modifies this
      ensures Valid() && Model() == HandleMessageSpec(old(Model()), what, arg1)
    {
      if what == MsgSetLightColor || what == MsgSetLightOff {
        btnQueue := btnQueue + [Task(arg1)];
      } else if what == MsgInitButton {
        btnQueue := btnQueue + [Message(MsgSetLightColor, btnStatus)];
      }
    }

    /** One turn of the handler thread's looper. */
    method Dispatch(outOk: bool, inOk: bool, rx: seq<byte>)
      requires Valid() && |rx| == ReportSize
      modifies this
      ensures Valid() && Model() == DispatchSpec(old(Model()), outOk, inOk, rx)
    {
      if btnQueue == [] {
        return;
      }
      var head := btnQueue[0];
      btnQueue := btnQueue[1..];
      match head
      case Message(what, arg1) => HandleMessage(what, arg1);
      case Task(action) => Run(action, outOk, inOk, rx);
    }

    /** One iteration of the poller loop: a STATUS transaction only while a
        connection is open. */
    method Poll()
      requires Valid()
      modifies this
      ensures Valid() && Model() == PollSpec(old(Model()))
    {
      if btnConnection {
        btnQueue := btnQueue + [Task(TxBtnStatus)];
      }
    }

    /** StatusButtonReceiver.onReceive(). */
    method OnReceive(ev: Event, devices: seq<Device>)
      requires Valid()
      modifies this
      ensures Valid() && Model() == ReceiveSpec(old(Model()), ev, devices)
    {
      ReceivePreservesConsistent(Model(), ev, devices);
      if IsStatusButton(ev.device) {
        match ev
        case PermissionResult(_, granted) =>
          if granted {
            var _ := Connect(devices);
          }
        case Attached(_) =>
          var _ := Connect(devices);
        case Detached(_) =>
          var _ := Connect(devices);
      }
    }
  }

  // ---------------------------------------------------------------------
  // Every transition keeps the invariant.

  lemma ResetPreservesConsistent(m: ButtonModel)
    ensures Consistent(ResetSpec(m))
  {
  }

  lemma ConnectPreservesConsistent(m: ButtonModel, devices: seq<Device>)
    ensures Consistent(ConnectSpec(m, devices).0)
  {
  }

  /** Recording a new status in the description of a connected device. */
  lemma DescribedUpdate(d: Device, before: int, after: int)
    requires after != TxBtnUnknown
    ensures Described(d, before)[StatusKey := StatusName(after)] == Described(d, after)
  {
    var desc := DescriptionOf(d);
    if before != TxBtnUnknown {
      assert desc[StatusKey := StatusName(before)][StatusKey := StatusName(after)]
          == desc[StatusKey := StatusName(after)];
    }
  }

  lemma StatusUpdatePreservesConsistent(m: ButtonModel, status: int)
    requires Consistent(m) && m.btnConnection
    requires status == TxBtnPressed || status == TxBtnReleased
    ensures Consistent(StatusUpdate(m, status))
  {
    if status != m.btnStatus {
      DescribedUpdate(m.btn.value, m.btnStatus, status);
      assert Resolved(StatusUpdate(m, status)) by {
        assert Resolved(m);
      }
    }
  }

  lemma RunPreservesConsistent(m: ButtonModel, action: int, outOk: bool, inOk: bool, rx: seq<byte>)
    requires Consistent(m) && |rx| == ReportSize
    ensures Consistent(RunSpec(m, action, outOk, inOk, rx))
  {
    if m.btnConnection && Report(action, m.pressedColor, m.releasedColor).Some? {
      var m1 := m.(sentReports := m.sentReports + [Report(action, m.pressedColor, m.releasedColor).value]);
      assert Consistent(m1);
      if outOk && inOk && action == TxBtnStatus {
        StatusUpdatePreservesConsistent(m1, ResolveBtnStatus(rx));
      }
    }
  }

  lemma HandleMessagePreservesConsistent(m: ButtonModel, what: int, arg1: int)
    requires Consistent(m)
    ensures Consistent(HandleMessageSpec(m, what, arg1))
  {
  }

  lemma DispatchPreservesConsistent(m: ButtonModel, outOk: bool, inOk: bool, rx: seq<byte>)
    requires Consistent(m) && |rx| == ReportSize
    ensures Consistent(DispatchSpec(m, outOk, inOk, rx))
  {
    if m.btnQueue != [] {
      var rest := m.(btnQueue := m.btnQueue[1..]);
      assert Consistent(rest);
      match m.btnQueue[0]
      case Message(what, arg1) =>
        HandleMessagePreservesConsistent(rest, what, arg1);
      case Task(action) =>
        RunPreservesConsistent(rest, action, outOk, inOk, rx);
    }
  }

  lemma ReceivePreservesConsistent(m: ButtonModel, ev: Event, devices: seq<Device>)
    requires Consistent(m)
    ensures Consistent(ReceiveSpec(m, ev, devices))
  {
    ConnectPreservesConsistent(m, devices);
  }
}
