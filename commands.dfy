/** The command lists that the client's typed operations build before
    handing them to `_send_command`. */
module Commands {
  import opened Wire
  import opened Protocol

  /** `analog_write`: the value travels as two bytes, most significant first.
      The list converts to bytes exactly when the pin is a byte and the value
      fits in 16 bits, and the board rebuilds the value from the two bytes. */
  function AnalogWriteCommand(k: Constants, pin: int, value: int): (c: seq<int>)
    ensures |c| == 4 && c[0] == k.analogWrite && c[1] == pin
    ensures Join16(c[2], c[3]) == value
    ensures k.Valid() ==> (AllBytes(c) <==> IsByte(pin) && 0 <= value < 65536)
  {
    var (msb, lsb) := Split16(value);
    assert k.Valid() ==> IsByte(k.Opcodes()[3]);
    [k.analogWrite, pin, msb, lsb]
  }

  /** `_set_pin_mode`'s second `if` chain: the command for a pin state, or
      None for a state it does not know (it then raises). Every command
      starts `[SET_PIN_MODE, pin, state]`; the input states ask for reports
      (trailing 1) and the analog state carries the differential as two
      bytes, most significant first, before that flag. */
  function SetPinModeCommand(k: Constants, pin: int, state: int, differential: int): (r: Option<seq<int>>)
    ensures r.Some? <==> state in k.PinStates()
    ensures r.Some? ==> |r.value| >= 3 && r.value[..3] == [k.setPinMode, pin, state]
    ensures r.Some? && (state == k.atInput || state == k.atInputPullup) ==> r.value[3..] == [1]
    ensures r.Some? && state == k.atOutput && state != k.atInput && state != k.atInputPullup ==> |r.value| == 3
    ensures r.Some? && state == k.atAnalog && k.Valid() ==>
      |r.value| == 6 && Join16(r.value[3], r.value[4]) == differential && r.value[5] == 1
    ensures r.Some? && state == k.atAnalog && k.Valid() ==> (r.value[3], r.value[4]) == Split16(differential)
    ensures r.Some? && k.Valid() ==>
      (AllBytes(r.value) <==> IsByte(pin) && (state == k.atAnalog ==> 0 <= differential < 65536))
  {
    assert k.Valid() ==>
      k.PinStates()[0] != k.PinStates()[3] && k.PinStates()[1] != k.PinStates()[3]
      && k.PinStates()[2] != k.PinStates()[3];
    assert k.Valid() ==> (IsByte(k.Opcodes()[1]) && IsByte(k.PinStates()[0]) && IsByte(k.PinStates()[1])
      && IsByte(k.PinStates()[2]) && IsByte(k.PinStates()[3]));
    var command :=
      if state == k.atInput || state == k.atInputPullup then Some([k.setPinMode, pin, state, 1])
      else if state == k.atOutput then Some([k.setPinMode, pin, k.atOutput])
      else if state == k.atAnalog then
        var (msb, lsb) := Split16(differential);
        Some([k.setPinMode, pin, k.atAnalog, msb, lsb, 1])
      else None;
    assert command.Some? ==> command.value[1] == pin;
    command
  }

  /** `set_pin_mode_servo`: both pulse widths go through
      `to_bytes(2, byteorder="big")`, which raises OverflowError (None here)
      unless the width lies in 0..65535; otherwise each width is recovered
      from its two bytes, high byte first. */
  function ServoAttachCommand(k: Constants, pin: int, minPulse: int, maxPulse: int): (r: Option<seq<int>>)
    ensures r.Some? <==> 0 <= minPulse < 65536 && 0 <= maxPulse < 65536
    ensures r.Some? ==> |r.value| == 6 && r.value[..2] == [k.servoAttach, pin]
    ensures r.Some? ==> Join16(r.value[2], r.value[3]) == minPulse && Join16(r.value[4], r.value[5]) == maxPulse
    ensures r.Some? ==> AllBytes(r.value[2..])
  {
    match (ToBytes2Big(minPulse), ToBytes2Big(maxPulse))
    case (Some(minv), Some(maxv)) => Some([k.servoAttach, pin, minv.0, minv.1, maxv.0, maxv.1])
    case _ => None
  }

  /** `_i2c_read_request`: a missing (or zero) register is sent as 0, and the
      stop-transmission flag as the byte Python's `bytes()` makes of a bool. */
  function I2cReadCommand(k: Constants, address: int, register: Option<int>, count: int,
                          stopTransmission: bool, port: int): (c: seq<int>)
    ensures |c| == 6 && c[0] == k.i2cRead && c[1] == address && c[3] == count && c[5] == port
    ensures c[2] == (if register.Some? then register.value else 0)
    ensures c[4] == (if stopTransmission then 1 else 0)
  {
    var reg := if register.Some? && register.value != 0 then register.value else 0;
    [k.i2cRead, address, reg, count, if stopTransmission then 1 else 0, port]
  }

  /** `i2c_write`: a header of four elements, the second counting the data
      bytes, followed by the data bytes appended one at a time. */
  method I2cWriteCommand(k: Constants, address: int, args: seq<int>, port: int) returns (command: seq<int>)
    ensures |command| == 4 + |args|
    ensures command[..4] == [k.i2cWrite, |args|, address, port]
    ensures command[4..] == args
  {
    command := [k.i2cWrite, |args|, address, port];
    for i := 0 to |args|
      invariant command == [k.i2cWrite, |args|, address, port] + args[..i]
    {
      command := command + [args[i]];
    }
    assert args[..|args|] == args;
  }
}
