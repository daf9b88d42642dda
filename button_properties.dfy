/** What the StatusButton transitions guarantee, stated over their
    functional specifications, and a few multi-step scenarios. */
module ButtonProperties {
  import opened Codes
  import opened Opt
  import opened Hid
  import opened Decimal
  import opened Button

  /** The state reset() leaves: no device, endpoints, connection or
      interface, an empty description, an unknown status and no colours. */
  ghost predicate IsResetState(m: ButtonModel) {
    && m.btn.None? && m.btnEpOut.None? && m.btnEpIn.None?
    && !m.btnConnection && m.btnInterface.None?
    && m.description == map[]
    && m.btnStatus == TxBtnUnknown
    && m.pressedColor == LightColorNone && m.releasedColor == LightColorNone
  }

  /** k is the position of the first status button in the device list. */
  ghost predicate FirstIs(devices: seq<Device>, k: int) {
    && 0 <= k < |devices|
    && IsStatusButton(devices[k])
    && forall j | 0 <= j < k :: !IsStatusButton(devices[j])
  }

  /** The first HID interface has an endpoint of direction 0 and one of
      another direction. */
  ghost predicate HidEndpointsPresent(ifs: seq<Interface>) {
    exists i | 0 <= i < |ifs| ::
      && ifs[i].interfaceClass == HidInterfaceClass
      && (forall k | 0 <= k < i :: ifs[k].interfaceClass != HidInterfaceClass)
      && (exists j | 0 <= j < |ifs[i].endpointDirections| :: ifs[i].endpointDirections[j] == DirectionOut)
      && (exists j | 0 <= j < |ifs[i].endpointDirections| :: ifs[i].endpointDirections[j] != DirectionOut)
  }

  // ---------------------------------------------------------------------
  // reset() and the device filter.

  /** reset() clears the session, the description, the status and both
      colours, and touches neither queue nor anything sent. */
  lemma ResetClears(m: ButtonModel)
    ensures IsResetState(ResetSpec(m))
    ensures ResetSpec(m).btnQueue == m.btnQueue && ResetSpec(m).uiUpdates == m.uiUpdates
    ensures ResetSpec(m).sentReports == m.sentReports
    ensures ResetSpec(m).permissionRequests == m.permissionRequests
    ensures ResetSpec(ResetSpec(m)) == ResetSpec(m)
  {
  }

  /** The receiver ignores every device that is not the status button. */
  lemma ReceiveIgnoresOtherDevices(m: ButtonModel, ev: Event, devices: seq<Device>)
    requires !IsStatusButton(ev.device)
    ensures ReceiveSpec(m, ev, devices) == m
  {
  }

  /** For the status button, attach, detach and a granted permission all run
      connect(); a refused permission does nothing. */
  lemma ReceiveRunsConnect(m: ButtonModel, ev: Event, devices: seq<Device>)
    requires IsStatusButton(ev.device)
    ensures ReceiveSpec(m, ev, devices)
      == if ev.PermissionResult? && !ev.granted then m else ConnectSpec(m, devices).0
  {
  }

  // ---------------------------------------------------------------------
  // The endpoint scan.

  /** Both endpoints are found exactly when the first HID interface has an
      endpoint of each direction. */
  lemma EndpointScanFindsBoth(ifs: seq<Interface>)
    ensures EndpointScan(ifs).epOut.Some? && EndpointScan(ifs).epIn.Some? <==> HidEndpointsPresent(ifs)
  {
    match FirstHidInterface(ifs)
    case None =>
    case Some(i) =>
      var dirs := ifs[i].endpointDirections;
      if HidEndpointsPresent(ifs) {
        var i' :| 0 <= i' < |ifs| && ifs[i'].interfaceClass == HidInterfaceClass
          && (forall k | 0 <= k < i' :: ifs[k].interfaceClass != HidInterfaceClass)
          && (exists j | 0 <= j < |ifs[i'].endpointDirections| :: ifs[i'].endpointDirections[j] == DirectionOut)
          && (exists j | 0 <= j < |ifs[i'].endpointDirections| :: ifs[i'].endpointDirections[j] != DirectionOut);
        assert i' == i;
        var jo :| 0 <= jo < |dirs| && dirs[jo] == DirectionOut;
        var ji :| 0 <= ji < |dirs| && dirs[ji] != DirectionOut;
        assert IsDirection(dirs[jo], true) && IsDirection(dirs[ji], false);
      }
      if EndpointScan(ifs).epOut.Some? && EndpointScan(ifs).epIn.Some? {
        var jo := EndpointScan(ifs).epOut.value;
        var ji := EndpointScan(ifs).epIn.value;
        assert dirs[jo] == DirectionOut && dirs[ji] != DirectionOut;
      }
  }

  /** Only the first HID interface is scanned: interfaces after it change
      nothing. */
  lemma ScanIgnoresLaterInterfaces(ifs: seq<Interface>, later: seq<Interface>)
    requires FirstHidInterface(ifs).Some?
    ensures EndpointScan(ifs + later) == EndpointScan(ifs)
  {
    var i := FirstHidInterface(ifs).value;
    assert forall j | 0 <= j <= i :: (ifs + later)[j] == ifs[j];
  }

  /** Within the scanned interface the last endpoint of each direction wins. */
  lemma LastEndpointWins(dirs: seq<int>, d: int, out: bool)
    ensures LastEndpoint(dirs + [d], out)
      == if IsDirection(d, out) then Some(|dirs|) else LastEndpoint(dirs, out)
  {
    assert (dirs + [d])[..|dirs|] == dirs;
  }

  // ---------------------------------------------------------------------
  // connect().

  lemma FirstIsUnique(devices: seq<Device>, k: int, k': int)
    requires FirstIs(devices, k) && FirstIs(devices, k')
    ensures k == k'
  {
  }

  /** connect() reports the first check that fails, in the order: device
      found, permission, endpoints on the first HID interface, open. */
  lemma ConnectReturnCodes(m: ButtonModel, devices: seq<Device>)
    ensures var ret := ConnectSpec(m, devices).1;
      && (ret == RetDeviceNotFound <==> forall k | 0 <= k < |devices| :: !IsStatusButton(devices[k]))
      && (ret == RetNoUsbPermission <==>
            exists k :: FirstIs(devices, k) && !devices[k].hasPermission)
      && (ret == RetUsbEpNotFound <==>
            exists k :: FirstIs(devices, k) && devices[k].hasPermission
                        && !HidEndpointsPresent(devices[k].interfaces))
      && (ret == RetUsbConnectionFailed <==>
            exists k :: FirstIs(devices, k) && devices[k].hasPermission
                        && HidEndpointsPresent(devices[k].interfaces) && !devices[k].openSucceeds)
      && (ret == RetSuccess <==>
            exists k :: FirstIs(devices, k) && devices[k].hasPermission
                        && HidEndpointsPresent(devices[k].interfaces) && devices[k].openSucceeds)
  {
    match FirstStatusButton(devices)
    case None =>
    case Some(k) =>
      assert FirstIs(devices, k);
      forall k' | FirstIs(devices, k') ensures k' == k {
        FirstIsUnique(devices, k, k');
      }
      EndpointScanFindsBoth(devices[k].interfaces);
  }

  /** What connect() leaves behind, per return code. The first three
      failures reset and send one UI update; a failed open returns early with
      the device and endpoints still recorded and no UI update; a success
      records the five description keys and queues one INIT message. */
  lemma ConnectEffects(m: ButtonModel, devices: seq<Device>)
    ensures var (m', ret) := ConnectSpec(m, devices);
      && m'.sentReports == m.sentReports
      && m'.permissionRequests == m.permissionRequests
           + (if ret == RetNoUsbPermission then [FoundButton(devices).value] else [])
      && (ret == RetDeviceNotFound || ret == RetNoUsbPermission || ret == RetUsbEpNotFound ==>
            IsResetState(m') && m'.uiUpdates == m.uiUpdates + 1 && m'.btnQueue == m.btnQueue)
      && (ret == RetUsbConnectionFailed ==>
            && !m'.btnConnection && m'.btn == FoundButton(devices)
            && m'.btnEpOut.Some? && m'.btnEpIn.Some?
            && m'.description == map[] && m'.btnStatus == TxBtnUnknown
            && m'.pressedColor == LightColorNone && m'.releasedColor == LightColorNone
            && m'.uiUpdates == m.uiUpdates && m'.btnQueue == m.btnQueue)
      && (ret == RetSuccess ==>
            && m'.btnConnection && m'.btn == FoundButton(devices)
            && m'.description.Keys == DescriptionKeys
            && m'.description == DescriptionOf(FoundButton(devices).value)
            && m'.btnStatus == TxBtnUnknown
            && m'.pressedColor == LightColorNone && m'.releasedColor == LightColorNone
            && m'.uiUpdates == m.uiUpdates
            && m'.btnQueue == m.btnQueue + [Message(MsgInitButton, 0)])
  {
  }

  /** The vendor and product ids are written in decimal and read back
      from a connected button's description. */
  lemma DescriptionIds(m: ButtonModel)
    requires Consistent(m) && m.btnConnection
    ensures var desc := m.description;
      && "vid" in desc && AllDigits(desc["vid"]) && ParseNat(desc["vid"]) == UsbVid
      && "pid" in desc && AllDigits(desc["pid"]) && ParseNat(desc["pid"]) == UsbPid
  {
    DescribedIds(m.btn.value, m.btnStatus);
  }

  /** The description of a connected device holds its ids as decimal text. */
  lemma DescribedIds(d: Device, status: int)
    ensures var desc := Described(d, status);
      && "vid" in desc && desc["vid"] == IntToString(d.vendorId)
      && "pid" in desc && desc["pid"] == IntToString(d.productId)
  {
    assert StatusKey != "vid" && StatusKey != "pid";
  }

  // ---------------------------------------------------------------------
  // TransactionTask.run().

  /** A transaction does nothing without a connection. */
  lemma RunWithoutConnection(m: ButtonModel, action: int, outOk: bool, inOk: bool, rx: seq<byte>)
    requires |rx| == ReportSize && !m.btnConnection
    ensures RunSpec(m, action, outOk, inOk, rx) == m
  {
  }

  /** A colour transaction with a colour unset sends nothing and changes nothing. */
  lemma RunNothingToSend(m: ButtonModel, action: int, outOk: bool, inOk: bool, rx: seq<byte>)
    requires |rx| == ReportSize
    requires action == TxBtnPressed || action == TxBtnReleased
    requires m.pressedColor == LightColorNone || m.releasedColor == LightColorNone
    ensures RunSpec(m, action, outOk, inOk, rx) == m
  {
  }

  /** When either wait fails the transaction is abandoned: only the report
      queued on the OUT endpoint is recorded. */
  lemma RunAbortsOnFailedWait(m: ButtonModel, action: int, outOk: bool, inOk: bool, rx: seq<byte>)
    requires |rx| == ReportSize && m.btnConnection
    requires Report(action, m.pressedColor, m.releasedColor).Some?
    requires !outOk || !inOk
    ensures RunSpec(m, action, outOk, inOk, rx)
      == m.(sentReports := m.sentReports + [Report(action, m.pressedColor, m.releasedColor).value])
  {
  }

  /** A status query whose decoded state differs from the recorded one
      records it, writes "Pressed" or "Released" into the description, queues
      one SET_LIGHT_COLOR for the new state and sends one UI update. */
  lemma RunStatusTransition(m: ButtonModel, rx: seq<byte>)
    requires Consistent(m) && m.btnConnection && |rx| == ReportSize
    requires ResolveBtnStatus(rx) != m.btnStatus
    ensures var m' := RunSpec(m, TxBtnStatus, true, true, rx);
      var status := if rx[BtnCtrlIdx] == 0 then TxBtnPressed else TxBtnReleased;
      && m'.btnStatus == status
      && m'.description == m.description[StatusKey := if status == TxBtnPressed then "Pressed" else "Released"]
      && m'.btnQueue == m.btnQueue + [Message(MsgSetLightColor, status)]
      && m'.uiUpdates == m.uiUpdates + 1
      && m'.sentReports == m.sentReports + [Zeros()[StartIdx := 0x51]]
      && m'.btnConnection && m'.btn == m.btn
      && m'.btnEpOut == m.btnEpOut && m'.btnEpIn == m.btnEpIn && m'.btnInterface == m.btnInterface
      && m'.pressedColor == m.pressedColor && m'.releasedColor == m.releasedColor
      && m'.permissionRequests == m.permissionRequests
  {
  }

  /** A status query that decodes the recorded state changes nothing but
      the record of the query sent. */
  lemma RunStatusUnchanged(m: ButtonModel, rx: seq<byte>)
    requires m.btnConnection && |rx| == ReportSize
    requires ResolveBtnStatus(rx) == m.btnStatus
    ensures RunSpec(m, TxBtnStatus, true, true, rx)
      == m.(sentReports := m.sentReports + [Zeros()[StartIdx := 0x51]])
  {
  }

  /** A successful OFF transaction empties the handler queue and resets. */
  lemma RunOffEndsSession(m: ButtonModel, rx: seq<byte>)
    requires m.btnConnection && |rx| == ReportSize
    ensures var m' := RunSpec(m, TxBtnOff, true, true, rx);
      && IsResetState(m') && m'.btnQueue == []
      && m'.uiUpdates == m.uiUpdates
      && m'.sentReports == m.sentReports + [Report(TxBtnOff, m.pressedColor, m.releasedColor).value]
  {
  }

  /** Each transaction puts at most one report on the wire, after all the
      reports sent before it. */
  lemma RunSendsAtMostOne(m: ButtonModel, action: int, outOk: bool, inOk: bool, rx: seq<byte>)
    requires |rx| == ReportSize
    ensures var sent := RunSpec(m, action, outOk, inOk, rx).sentReports;
      sent == m.sentReports || (|sent| == |m.sentReports| + 1 && sent[..|m.sentReports|] == m.sentReports)
  {
  }

  // ---------------------------------------------------------------------
  // Dispatch on the handler queue.

  /** A SET_LIGHT_COLOR message for a status other than STATUS or OFF,
      alone on the queue, takes two turns of the handler: it becomes a
      transaction for that status, which sends the report generate() builds
      for it, if there is one, whatever the transfer outcomes. */
  lemma LightColorRequestSends(m: ButtonModel, status: int, outOk: bool, inOk: bool, rx: seq<byte>)
    requires m.btnQueue == [Message(MsgSetLightColor, status)] && |rx| == ReportSize
    requires status != TxBtnStatus && status != TxBtnOff
    ensures var d := DispatchSpec(DispatchSpec(m, outOk, inOk, rx), outOk, inOk, rx);
      var r := Report(status, m.pressedColor, m.releasedColor);
      d == m.(btnQueue := [],
              sentReports := m.sentReports + if m.btnConnection && r.Some? then [r.value] else [])
  {
    assert DispatchSpec(m, outOk, inOk, rx) == m.(btnQueue := [Task(status)]);
  }

  /** setPressedColor() on an idle queue reaches the button after two turns
      of the handler, with the report for the status recorded when the colour
      was set; while that status is UNKNOWN the report is the all-zero
      buffer. */
  lemma SetPressedColorReachesButton(m: ButtonModel, color: int, outOk: bool, inOk: bool, rx: seq<byte>)
    requires Consistent(m) && m.btnQueue == [] && |rx| == ReportSize
    ensures var d := DispatchSpec(DispatchSpec(SetPressedColorSpec(m, color), outOk, inOk, rx), outOk, inOk, rx);
      var r := Report(m.btnStatus, color, m.releasedColor);
      && d == m.(pressedColor := color,
                 sentReports := m.sentReports + if m.btnConnection && r.Some? then [r.value] else [])
      && (m.btnConnection && m.btnStatus == TxBtnUnknown ==>
            d.sentReports == m.sentReports + [seq(ReportSize, _ => 0 as byte)])
  {
    LightColorRequestSends(SetPressedColorSpec(m, color), m.btnStatus, outOk, inOk, rx);
    UnmatchedActionReport(TxBtnUnknown, color, m.releasedColor);
  }

  /** setReleasedColor() on an idle queue reaches the button the same way. */
  lemma SetReleasedColorReachesButton(m: ButtonModel, color: int, outOk: bool, inOk: bool, rx: seq<byte>)
    requires Consistent(m) && m.btnQueue == [] && |rx| == ReportSize
    ensures var d := DispatchSpec(DispatchSpec(SetReleasedColorSpec(m, color), outOk, inOk, rx), outOk, inOk, rx);
      var r := Report(m.btnStatus, m.pressedColor, color);
      && d == m.(releasedColor := color,
                 sentReports := m.sentReports + if m.btnConnection && r.Some? then [r.value] else [])
      && (m.btnConnection && m.btnStatus == TxBtnUnknown ==>
            d.sentReports == m.sentReports + [seq(ReportSize, _ => 0 as byte)])
  {
    LightColorRequestSends(SetReleasedColorSpec(m, color), m.btnStatus, outOk, inOk, rx);
    UnmatchedActionReport(TxBtnUnknown, m.pressedColor, color);
  }

  /** disconnect() on an idle connected button takes two turns of the
      handler: the OFF report is sent and, once both transfers complete, the
      session is reset with an empty queue. On a button that is not connected
      nothing happens. */
  lemma DisconnectEndsSession(m: ButtonModel, rx: seq<byte>)
    requires m.btnQueue == [] && |rx| == ReportSize
    ensures var d := DispatchSpec(DispatchSpec(DisconnectSpec(m), true, true, rx), true, true, rx);
      && (m.btnConnection ==>
            && IsResetState(d) && d.btnQueue == [] && d.uiUpdates == m.uiUpdates
            && d.sentReports == m.sentReports + [Report(TxBtnOff, m.pressedColor, m.releasedColor).value])
      && (!m.btnConnection ==> d == m)
  {
  }

  /** A poll on an idle queue is, after one turn of the handler, exactly a
      STATUS transaction; without a connection it leaves everything as it
      was. */
  lemma PollRunsStatusQuery(m: ButtonModel, outOk: bool, inOk: bool, rx: seq<byte>)
    requires m.btnQueue == [] && |rx| == ReportSize
    ensures DispatchSpec(PollSpec(m), outOk, inOk, rx) == RunSpec(m, TxBtnStatus, outOk, inOk, rx)
    ensures !m.btnConnection ==> DispatchSpec(PollSpec(m), outOk, inOk, rx) == m
  {
  }

  /** The handler queue is first in, first out: after one turn the rest of
      the queue is still at its head, with at most one entry added behind
      it, unless a successful OFF transaction has emptied it. */
  lemma DispatchKeepsOrder(m: ButtonModel, outOk: bool, inOk: bool, rx: seq<byte>)
    requires |rx| == ReportSize && m.btnQueue != []
    ensures var q := DispatchSpec(m, outOk, inOk, rx).btnQueue;
      || (q == [] && m.btnQueue[0] == Task(TxBtnOff))
      || (|m.btnQueue| - 1 <= |q| <= |m.btnQueue| && q[..|m.btnQueue| - 1] == m.btnQueue[1..])
  {
  }

  // ---------------------------------------------------------------------
  // Scenarios.

  /** Two status queries that read the same button state notify the UI at
      most once. */
  lemma DuplicateStatusSuppressed(m: ButtonModel, rx1: seq<byte>, rx2: seq<byte>)
    requires Consistent(m) && m.btnConnection
    requires |rx1| == ReportSize && |rx2| == ReportSize
    requires rx1[BtnCtrlIdx] == rx2[BtnCtrlIdx]
    ensures var m1 := RunSpec(m, TxBtnStatus, true, true, rx1);
      var m2 := RunSpec(m1, TxBtnStatus, true, true, rx2);
      m2.uiUpdates == m1.uiUpdates <= m.uiUpdates + 1
  {
    ResolveReadsOnlyControlByte(rx1, rx2);
  }

  /** After a successful connect() on an idle queue, the INIT message turns
      into SET_LIGHT_COLOR with the UNKNOWN status, then into a transaction
      whose action matches no case of generate(): the report sent is the
      all-zero buffer. */
  lemma InitSendsZeroReport(m: ButtonModel, devices: seq<Device>, rx: seq<byte>)
    requires m.btnQueue == [] && |rx| == ReportSize
    requires ConnectSpec(m, devices).1 == RetSuccess
    ensures var c := ConnectSpec(m, devices).0;
      var d1 := DispatchSpec(c, true, true, rx);
      var d2 := DispatchSpec(d1, true, true, rx);
      var d3 := DispatchSpec(d2, true, true, rx);
      && d1.btnQueue == [Message(MsgSetLightColor, TxBtnUnknown)]
      && d2.btnQueue == [Task(TxBtnUnknown)]
      && d3.btnQueue == []
      && d3.sentReports == m.sentReports + [seq(ReportSize, _ => 0 as byte)]
  {
    ConnectEffects(m, devices);
    var c := ConnectSpec(m, devices).0;
    var d1 := DispatchSpec(c, true, true, rx);
    var d2 := DispatchSpec(d1, true, true, rx);
    assert d2.btnConnection && d2.sentReports == m.sentReports;
    UnmatchedActionReport(TxBtnUnknown, d2.pressedColor, d2.releasedColor);
  }

  /** A detach after the device has left the device list runs connect(),
      which finds no device and resets; a status query queued before it is
      then dropped without a transfer. */
  lemma DetachDropsStaleQuery(m: ButtonModel, d: Device, devices: seq<Device>, outOk: bool, inOk: bool, rx: seq<byte>)
    requires IsStatusButton(d) && |rx| == ReportSize
    requires forall k | 0 <= k < |devices| :: !IsStatusButton(devices[k])
    requires m.btnQueue == [Task(TxBtnStatus)]
    ensures var m1 := ReceiveSpec(m, Detached(d), devices);
      var m2 := DispatchSpec(m1, outOk, inOk, rx);
      && !m1.btnConnection && m1.description == map[] && m1.uiUpdates == m.uiUpdates + 1
      && m2.sentReports == m.sentReports && m2.btnQueue == []
  {
    ConnectReturnCodes(m, devices);
    ConnectEffects(m, devices);
  }

  /** A status button first seen without permission: connect() asks for it;
      once it is granted, the next connect() opens the session and queues the
      initialisation message. */
  lemma PermissionThenConnect(m: ButtonModel, d: Device)
    requires IsStatusButton(d) && !d.hasPermission
    requires d.openSucceeds && HidEndpointsPresent(d.interfaces)
    ensures var (m1, ret1) := ConnectSpec(m, [d]);
      var granted := d.(hasPermission := true);
      var m2 := ReceiveSpec(m1, PermissionResult(granted, true), [granted]);
      && ret1 == RetNoUsbPermission
      && m1.permissionRequests == m.permissionRequests + [d]
      && !m1.btnConnection
      && m2.btnConnection
      && m2.description == DescriptionOf(granted)
      && m2.btnQueue == m.btnQueue + [Message(MsgInitButton, 0)]
  {
    var granted := d.(hasPermission := true);
    var m1 := ConnectSpec(m, [d]).0;
    assert FirstIs([d], 0) && FirstIs([granted], 0);
    ConnectReturnCodes(m, [d]);
    ConnectEffects(m, [d]);
    ConnectReturnCodes(m1, [granted]);
    ConnectEffects(m1, [granted]);
  }
}
