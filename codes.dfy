/** Public constants of the status button: return codes of connect, light
    colours, transaction actions, handler message kinds and the USB identity
    of the device. The values are the ones the Java class declares. */
module Codes {
  // Return codes of connect().
  const RetSuccess := 1
  const RetFailed := 0
  const RetDeviceNotFound := -1
  const RetNoUsbPermission := -2
  const RetUsbEpNotFound := -3
  const RetUsbConnectionFailed := -4

  // Light colours; None means "no colour assigned".
  const LightColorNone := 0
  const LightColorRed := 1
  const LightColorGreen := 2
  const LightColorBlue := 3

  // Transaction actions; Pressed and Released double as button states.
  const TxBtnUnknown := 0
  const TxBtnPressed := 1
  const TxBtnReleased := 2
  const TxBtnStatus := 3
  const TxBtnOff := 4

  // Handler message kinds (msg.what).
  const MsgUpdateUi := 1
  const MsgSetLightColor := 2
  const MsgSetLightOff := 3
  const MsgInitButton := 4

  // USB identity of the status button.
  const UsbVid := 0x04E7
  const UsbPid := 0xA106

  // USB interface class code of HID, and the endpoint direction value of OUT.
  const HidInterfaceClass := 3
  const DirectionOut := 0
}

/** The usual optional value, standing for a Java reference that may be null. */
module Opt {
  datatype Option<+T> = None | Some(value: T)
}
