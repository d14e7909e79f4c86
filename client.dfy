/** The `TelemetrixAIO` object: its fields, updated in place by its
    operations, each of which is proved to do exactly what the matching
    function of `Session` says. */
module Client {
  import opened Wire
  import opened Protocol
  import opened Commands
  import opened Reports
  import opened Discovery
  import Session

  class TelemetrixAio {
    /** The values of `PrivateConstants`. */
    const k: Constants
    const arduinoInstanceId: int
    const shutdownOnException: bool

    /** `serial_port` / `sock`: where `_send_command` writes. */
    var link: Session.Link
    var comPort: Option<nat>
    /** The frames written so far, each with the link it went to. */
    var sent: seq<(Session.Link, seq<Byte>)>
    var closed: bool
    /** `the_task`: whether the dispatcher task was created, and cancelled. */
    var taskStarted: bool
    var taskCancelled: bool
    var shutdownFlag: bool
    var digitalCallbacks: map<int, Handler>
    var analogCallbacks: map<int, Handler>
    var sonarCallbacks: map<int, Handler>
    var dhtCallbacks: map<int, Handler>
    var i2cCallback: Option<Handler>
    var i2cCallback2: Option<Handler>
    var i2c1Active: bool
    var i2c2Active: bool
    var loopBackCallback: Option<Handler>
    var sonarCount: int
    var dhtCount: int
    /** The callbacks invoked so far, with their messages. */
    var events: seq<Event>

    function Config(): Session.Config {
      Session.Config(k, arduinoInstanceId, shutdownOnException)
    }

    function State(): Session.State
      reads this
    {
      Session.State(link, comPort, sent, closed, taskStarted, taskCancelled, shutdownFlag,
                    digitalCallbacks, analogCallbacks, sonarCallbacks, dhtCallbacks,
                    i2cCallback, i2cCallback2, i2c1Active, i2c2Active, loopBackCallback,
                    sonarCount, dhtCount, events)
    }

    ghost predicate Valid()
      reads this
    {
      Session.Inv(Config(), State())
    }

    /** `__init__` without autostart: no transport, nothing registered. */
    constructor(k: Constants, arduinoInstanceId: int, shutdownOnException: bool)
      requires k.Valid()
      ensures Valid()
      ensures this.k == k && this.arduinoInstanceId == arduinoInstanceId
      ensures this.shutdownOnException == shutdownOnException
      ensures State() == Session.Initial()
    {
      this.k := k;
      this.arduinoInstanceId := arduinoInstanceId;
      this.shutdownOnException := shutdownOnException;
      link := Session.NoLink;
      comPort := None;
      sent := [];
      closed := false;
      taskStarted := false;
      taskCancelled := false;
      shutdownFlag := false;
      digitalCallbacks := map[];
      analogCallbacks := map[];
      sonarCallbacks := map[];
      dhtCallbacks := map[];
      i2cCallback := None;
      i2cCallback2 := None;
      i2c1Active := false;
      i2c2Active := false;
      loopBackCallback := None;
      sonarCount := 0;
      dhtCount := 0;
      events := [];
    }

    /** `_send_command`: the length goes in front and the frame is written
        on the current link. */
    method SendCommand(command: seq<int>) returns (outcome: Outcome)
      requires Valid()
      modifies this
      ensures Valid()
      ensures (State(), outcome) == Session.Send(old(State()), command)
    {
      Session.SendKeepsInv(Config(), State(), command);
      var encoded := Encode(command);
      if encoded.None? {
        outcome := Fail(NotAByte);
        assert sent + Session.Written(link, command) == sent;
      } else if link.NoLink? {
        outcome := Fail(NoTransport);
        assert sent + Session.Written(link, command) == sent;
      } else {
        assert Session.Written(link, command) == [(link, encoded.value)];
        sent := sent + [(link, encoded.value)];
        outcome := Pass;
      }
    }

    /** `shutdown`. */
    method Shutdown() returns (outcome: Outcome)
      requires Valid()
      modifies this
      ensures Valid()
      ensures (State(), outcome) == Session.Shutdown(Config(), old(State()))
    {
      Session.ShutdownKeepsInv(Config(), State());
      StopReports();
      outcome := CloseLink();
    }

    /** The second half of `shutdown`: the serial port is closed, or the
        dispatcher task cancelled, which raises when it was never created. */
    method CloseLink() returns (outcome: Outcome)
      modifies this
      ensures State() == old(State()).(closed := closed, taskCancelled := taskCancelled)
      ensures closed == (old(closed) || link.SerialLink?)
      ensures taskCancelled == (old(taskCancelled) || (link.TcpLink? && taskStarted))
      ensures outcome == (if link.TcpLink? && !taskStarted then Fail(NoTask) else Pass)
    {
      outcome := Pass;
      match link
      case NoLink =>
      case SerialLink(_) =>
        closed := true;
      case TcpLink =>
        if taskStarted {
          taskCancelled := true;
        } else {
          outcome := Fail(NoTask);
        }
    }

    /** The first half of `shutdown`: the flag is set and, on a link,
        STOP_ALL_REPORTS is written. */
    method StopReports()
      requires Valid()
      modifies this
      ensures Valid()
      ensures State() == old(State()).(shutdownFlag := true, sent := old(sent) + Session.StopLog(Config(), old(State())))
    {
      shutdownFlag := true;
      if !link.NoLink? {
        var stopped := SendCommand([k.stopAllReports]);
      }
    }

    /** The guarded `raise RuntimeError` shared by the operations below. */
    method Raise(e: Error) returns (outcome: Outcome)
      requires Valid()
      modifies this
      ensures Valid()
      ensures (State(), outcome) == Session.Raise(Config(), old(State()), e)
    {
      outcome := Fail(e);
      if shutdownOnException {
        var down := Shutdown();
        if down.Fail? {
          outcome := down;
        }
      }
    }

    /** `analog_write`. */
    method AnalogWrite(pin: int, value: int) returns (outcome: Outcome)
      requires Valid()
      modifies this
      ensures Valid()
      ensures (State(), outcome) == Session.Send(old(State()), AnalogWriteCommand(k, pin, value))
    {
      outcome := SendCommand(AnalogWriteCommand(k, pin, value));
    }

    /** `digital_write`. */
    method DigitalWrite(pin: int, value: int) returns (outcome: Outcome)
      requires Valid()
      modifies this
      ensures Valid()
      ensures (State(), outcome) == Session.Send(old(State()), [k.digitalWrite, pin, value])
    {
      outcome := SendCommand([k.digitalWrite, pin, value]);
    }

    /** `_i2c_read_request`. */
    method I2cReadRequest(address: int, register: Option<int>, count: int, stopTransmission: bool,
                          callback: Option<Handler>, port: int) returns (outcome: Outcome)
      requires Valid()
      modifies this
      ensures Valid()
      ensures (State(), outcome)
        == Session.I2cReadRequest(Config(), old(State()), address, register, count, stopTransmission, callback, port)
    {
      if port == 0 && !i2c1Active {
        outcome := Raise(I2cPortInactive);
        return;
      }
      if port != 0 && !i2c2Active {
        outcome := Raise(I2cPortInactive);
        return;
      }
      if callback.None? {
        outcome := Raise(CallbackRequired);
        return;
      }
      if port == 0 {
        i2cCallback := callback;
      } else {
        i2cCallback2 := callback;
      }
      outcome := SendCommand(I2cReadCommand(k, address, register, count, stopTransmission, port));
    }

    /** `i2c_read`: a callback is required before the request is made. */
    method I2cRead(address: int, register: Option<int>, count: int, callback: Option<Handler>, port: int)
      returns (outcome: Outcome)
      requires Valid()
      modifies this
      ensures Valid()
      ensures callback.None? ==> (State(), outcome) == Session.Raise(Config(), old(State()), CallbackRequired)
      ensures callback.Some? ==>
        (State(), outcome) == Session.I2cReadRequest(Config(), old(State()), address, register, count, true, callback, port)
    {
      if callback.None? {
        outcome := Raise(CallbackRequired);
        return;
      }
      outcome := I2cReadRequest(address, register, count, true, callback, port);
    }

    /** `i2c_read_restart_transmission`: as `i2c_read`, without the stop. */
    method I2cReadRestartTransmission(address: int, register: Option<int>, count: int,
                                      callback: Option<Handler>, port: int) returns (outcome: Outcome)
      requires Valid()
      modifies this
      ensures Valid()
      ensures callback.None? ==> (State(), outcome) == Session.Raise(Config(), old(State()), CallbackRequired)
      ensures callback.Some? ==>
        (State(), outcome) == Session.I2cReadRequest(Config(), old(State()), address, register, count, false, callback, port)
    {
      if callback.None? {
        outcome := Raise(CallbackRequired);
        return;
      }
      outcome := I2cReadRequest(address, register, count, false, callback, port);
    }

    /** `i2c_write`. */
    method I2cWrite(address: int, args: seq<int>, port: int) returns (outcome: Outcome)
      requires Valid()
      modifies this
      ensures Valid()
      ensures (State(), outcome) == Session.I2cWrite(Config(), old(State()), address, args, port)
    {
      if port == 0 && !i2c1Active {
        outcome := Raise(I2cPortInactive);
        return;
      }
      if port != 0 && !i2c2Active {
        outcome := Raise(I2cPortInactive);
        return;
      }
      var command := I2cWriteCommand(k, address, args, port);
      assert command == command[..4] + command[4..];
      outcome := SendCommand(command);
    }

    /** `loop_back`. */
    method LoopBack(start: char, callback: Option<Handler>) returns (outcome: Outcome)
      requires Valid()
      modifies this
      ensures Valid()
      ensures (State(), outcome) == Session.LoopBack(Config(), old(State()), start, callback)
    {
      if callback.None? {
        outcome := Raise(CallbackRequired);
        return;
      }
      loopBackCallback := callback;
      outcome := SendCommand([k.loopCommand, start as int]);
    }

    /** `set_analog_scan_interval`. */
    method SetAnalogScanInterval(interval: int) returns (outcome: Outcome)
      requires Valid()
      modifies this
      ensures Valid()
      ensures (State(), outcome) == Session.SetAnalogScanInterval(Config(), old(State()), interval)
    {
      if 0 <= interval <= 255 {
        outcome := SendCommand([k.setAnalogScanningInterval, interval]);
      } else {
        outcome := Raise(IntervalOutOfRange);
      }
    }

    /** `_set_pin_mode`. */
    method SetPinMode(pin: int, state: int, differential: int, callback: Option<Handler>)
      returns (outcome: Outcome)
      requires Valid()
      modifies this
      ensures Valid()
      ensures (State(), outcome) == Session.SetPinMode(Config(), old(State()), pin, state, differential, callback)
    {
      if callback.None? && state != k.atOutput {
        outcome := Raise(CallbackRequired);
        return;
      }
      assert k.PinStates()[0] != k.PinStates()[1] && k.PinStates()[2] != k.PinStates()[1]
        && k.PinStates()[3] != k.PinStates()[1];
      if state == k.atInput {
        digitalCallbacks := digitalCallbacks[pin := callback.value];
      } else if state == k.atInputPullup {
        digitalCallbacks := digitalCallbacks[pin := callback.value];
      } else if state == k.atAnalog {
        analogCallbacks := analogCallbacks[pin := callback.value];
      }
      match SetPinModeCommand(k, pin, state, differential)
      case None =>
        outcome := Raise(UnknownPinState);
      case Some(command) =>
        outcome := SendCommand(command);
    }

    /** `set_pin_mode_analog_input`: its own callback check raises exactly
        what `_set_pin_mode` would. */
    method SetPinModeAnalogInput(pin: int, differential: int, callback: Option<Handler>) returns (outcome: Outcome)
      requires Valid()
      modifies this
      ensures Valid()
      ensures (State(), outcome) == Session.SetPinMode(Config(), old(State()), pin, k.atAnalog, differential, callback)
    {
      if callback.None? {
        assert k.PinStates()[3] != k.PinStates()[1];
        outcome := Raise(CallbackRequired);
        return;
      }
      outcome := SetPinMode(pin, k.atAnalog, differential, callback);
    }

    /** `set_pin_mode_analog_output`. */
    method SetPinModeAnalogOutput(pin: int) returns (outcome: Outcome)
      requires Valid()
      modifies this
      ensures Valid()
      ensures (State(), outcome) == Session.SetPinMode(Config(), old(State()), pin, k.atOutput, 0, None)
    {
      outcome := SetPinMode(pin, k.atOutput, 0, None);
    }

    /** `set_pin_mode_digital_input`. */
    method SetPinModeDigitalInput(pin: int, callback: Option<Handler>) returns (outcome: Outcome)
      requires Valid()
      modifies this
      ensures Valid()
      ensures (State(), outcome) == Session.SetPinMode(Config(), old(State()), pin, k.atInput, 0, callback)
    {
      outcome := SetPinMode(pin, k.atInput, 0, callback);
    }

    /** `set_pin_mode_digital_input_pullup`: its own callback check raises
        exactly what `_set_pin_mode` would. */
    method SetPinModeDigitalInputPullup(pin: int, callback: Option<Handler>) returns (outcome: Outcome)
      requires Valid()
      modifies this
      ensures Valid()
      ensures (State(), outcome) == Session.SetPinMode(Config(), old(State()), pin, k.atInputPullup, 0, callback)
    {
      if callback.None? {
        assert k.PinStates()[2] != k.PinStates()[1];
        outcome := Raise(CallbackRequired);
        return;
      }
      outcome := SetPinMode(pin, k.atInputPullup, 0, callback);
    }

    /** `set_pin_mode_digital_output`. */
    method SetPinModeDigitalOutput(pin: int) returns (outcome: Outcome)
      requires Valid()
      modifies this
      ensures Valid()
      ensures (State(), outcome) == Session.SetPinMode(Config(), old(State()), pin, k.atOutput, 0, None)
    {
      outcome := SetPinMode(pin, k.atOutput, 0, None);
    }

    /** `set_pin_mode_i2c`. */
    method SetPinModeI2c(port: int) returns (outcome: Outcome)
      requires Valid()
      modifies this
      ensures Valid()
      ensures (State(), outcome) == Session.SetPinModeI2c(Config(), old(State()), port)
    {
      if port != 0 {
        if !i2c2Active {
          i2c2Active := true;
        } else {
          return Pass;
        }
      } else {
        if !i2c1Active {
          i2c1Active := true;
        } else {
          return Pass;
        }
      }
      outcome := SendCommand([k.i2cBegin, port]);
    }

    /** `set_pin_mode_dht`. */
    method SetPinModeDht(pin: int, callback: Option<Handler>) returns (outcome: Outcome)
      requires Valid()
      modifies this
      ensures Valid()
      ensures (State(), outcome) == Session.SetPinModeDht(Config(), old(State()), pin, callback)
    {
      if callback.None? {
        outcome := Raise(CallbackRequired);
        return;
      }
      if dhtCount < k.maxDhts - 1 {
        dhtCallbacks := dhtCallbacks[pin := callback.value];
        dhtCount := dhtCount + 1;
        Session.SendKeepsInv(Config(), State(), [k.dhtNew, pin]);
        outcome := SendCommand([k.dhtNew, pin]);
      } else {
        outcome := Raise(TooManyDevices);
      }
    }

    /** `set_pin_mode_servo`. */
    method SetPinModeServo(pin: int, minPulse: int, maxPulse: int) returns (outcome: Outcome)
      requires Valid()
      modifies this
      ensures Valid()
      ensures (State(), outcome) == Session.SetPinModeServo(Config(), old(State()), pin, minPulse, maxPulse)
    {
      match ServoAttachCommand(k, pin, minPulse, maxPulse)
      case None =>
        outcome := Fail(Overflow);
      case Some(command) =>
        outcome := SendCommand(command);
    }

    /** `set_pin_mode_sonar`. */
    method SetPinModeSonar(trigger: int, echo: int, callback: Option<Handler>) returns (outcome: Outcome)
      requires Valid()
      modifies this
      ensures Valid()
      ensures (State(), outcome) == Session.SetPinModeSonar(Config(), old(State()), trigger, echo, callback)
    {
      if callback.None? {
        outcome := Raise(CallbackRequired);
        return;
      }
      if sonarCount < k.maxSonars - 1 {
        sonarCallbacks := sonarCallbacks[trigger := callback.value];
        sonarCount := sonarCount + 1;
        Session.SendKeepsInv(Config(), State(), [k.sonarNew, trigger, echo]);
        outcome := SendCommand([k.sonarNew, trigger, echo]);
      } else {
        outcome := Raise(TooManyDevices);
      }
    }

    /** The end of `start_aio`: the firmware exchange, then reporting and
        the dispatcher task. */
    method StartReporting(firmware: seq<Byte>) returns (outcome: Outcome)
      requires Valid() && !link.NoLink?
      modifies this
      ensures Valid()
      ensures (State(), outcome) == Session.StartReporting(Config(), old(State()), firmware)
    {
      var asked := SendCommand([k.getFirmwareVersion]);
      if |firmware| == 0 {
        outcome := Raise(FirmwareTimeout);
        return;
      }
      if |firmware| < 4 {
        outcome := Fail(MissingIndex);
        return;
      }
      var enabled := SendCommand([k.enableAllReports]);
      taskStarted := true;
      outcome := SendCommand([k.reset]);
    }

    /** One probe of `_find_arduino`: the next port becomes the link and is
        asked ARE_U_THERE. */
    method AskPort(ghost start: Session.State, port: nat)
      requires Session.Inv(Config(), start) && State() == Session.Probing(Config(), start, port)
      modifies this
      ensures Valid()
      ensures State() == Session.Probing(Config(), start, port + 1)
    {
      Session.ProbingKeepsInv(Config(), start, port);
      Session.ProbingStep(Config(), start, port);
      link := Session.SerialLink(port);
      var asked := SendCommand([k.areYouThere]);
    }

    /** The search loop of `_find_arduino`: each port that opened becomes
        the link in turn and is asked ARE_U_THERE, until a reply names this
        instance or cannot be indexed. */
    method AskPorts(replies: seq<seq<Byte>>) returns (search: Search)
      requires Valid()
      modifies this
      ensures Valid()
      ensures search == Select(replies, arduinoInstanceId)
      ensures State() == Session.Probing(Config(), old(State()), Session.Probed(search, |replies|))
    {
      ghost var start := State();
      var i := 0;
      while i < |replies|
        invariant 0 <= i <= |replies|
        invariant PassedBefore(replies, arduinoInstanceId, i)
        invariant State() == Session.Probing(Config(), start, i)
      {
        AskPort(start, i);
        var iAmHere := replies[i];
        // no reply moves on; a reply shorter than three bytes cannot be indexed
        if !Passes(iAmHere, arduinoInstanceId) {
          search := if |iAmHere| < 3 then ShortReply(i) else Found(i);
          Session.ProbedAt(replies, arduinoInstanceId, i);
          return;
        }
        i := i + 1;
      }
      Session.ProbingKeepsInv(Config(), start, i);
      search := NotFound;
      assert Select(replies, arduinoInstanceId) == NotFound;
    }

    /** `_find_arduino` and the rest of `start_aio` on the serial side: the
        board found becomes the com port, a reply too short to index raises
        IndexError, and no match raises RuntimeError. */
    method FindArduino(replies: seq<seq<Byte>>, firmware: seq<Byte>) returns (outcome: Outcome)
      requires Valid()
      modifies this
      ensures Valid()
      ensures (State(), outcome) == Session.FindArduino(Config(), old(State()), replies, firmware)
    {
      var search := AskPorts(replies);
      match search
      case Found(j) =>
        comPort := Some(j);
        outcome := StartReporting(firmware);
      case ShortReply(_) =>
        outcome := Fail(MissingIndex);
      case NotFound =>
        outcome := Raise(NoArduinoFound);
    }

    /** `start_aio` when no com port was given. */
    method StartAio(connect: Session.Connect, firmware: seq<Byte>) returns (outcome: Outcome)
      requires Valid()
      requires connect.Discover? ==> comPort.None?
      modifies this
      ensures Valid()
      ensures (State(), outcome) == Session.StartAio(Config(), old(State()), connect, firmware)
    {
      match connect
      case Tcp =>
        link := Session.TcpLink;
        outcome := StartReporting(firmware);
      case Discover(replies) =>
        outcome := FindArduino(replies, firmware);
    }

    /** `_arduino_report_dispatcher` over the bytes that arrive, read one
        packet at a time until the flag is set, a handler raises, or no
        complete packet is left. */
    method ReportDispatcher(input: seq<Byte>, clock: nat -> real) returns (stop: Stop)
      requires Valid() && taskStarted
      modifies this
      ensures Valid()
      ensures (State(), stop) == Session.Dispatch(Config(), old(State()), input, clock)
    {
      if shutdownFlag {
        return Flagged;
      }
      var run := Dispatcher(k, Session.Callbacks(State()), input, clock);
      Session.EventsKeepInv(Config(), State(), events + run.events);
      events := events + run.events;
      if run.stop.Fatal? && shutdownOnException {
        var down := Shutdown();
      }
      stop := run.stop;
    }
  }
}
