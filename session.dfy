/** The client's state and what each of its operations does to it, as
    functions from the state before to the state after and the outcome.
    The `TelemetrixAio` class performs these steps on its fields and is
    proved to agree with them; the properties of the client are proved
    here, once, about these functions. */
module Session {
  import opened Wire
  import opened Protocol
  import opened Commands
  import opened Reports
  import opened Discovery

  /** The transport frames are written to: none yet, the serial port with
      the given position among those that opened, or the socket. */
  datatype Link = NoLink | SerialLink(port: nat) | TcpLink

  /** How `start_aio` reaches the board: by probing the serial ports that
      opened, given by their replies to ARE_U_THERE in the order they are
      tried, or over TCP. */
  datatype Connect = Discover(replies: seq<seq<Byte>>) | Tcp

  /** What the client is constructed with and never changes. */
  datatype Config = Config(k: Constants, instanceId: int, shutdownOnException: bool)

  /** The fields of a `TelemetrixAIO` object that its operations update,
      with the frames written so far and the callbacks invoked so far. */
  datatype State = State(
    link: Link, comPort: Option<nat>, sent: seq<(Link, seq<Byte>)>, closed: bool,
    taskStarted: bool, taskCancelled: bool, shutdownFlag: bool,
    digital: map<int, Handler>, analog: map<int, Handler>,
    sonar: map<int, Handler>, dht: map<int, Handler>,
    i2c: Option<Handler>, i2c2: Option<Handler>, i2c1Active: bool, i2c2Active: bool,
    loopBack: Option<Handler>, sonarCount: int, dhtCount: int, events: seq<Event>)

  /** The state the constructor leaves. */
  function Initial(): State {
    State(NoLink, None, [], false, false, false, false, map[], map[], map[], map[],
          None, None, false, false, None, 0, 0, [])
  }

  /** What every operation keeps true: every frame on the wire is well
      formed, neither device count passes its maximum less one, no device
      has more callbacks than registrations, an i2c callback is only held
      for an activated port, and the dispatcher task only runs on a link. */
  ghost predicate Inv(c: Config, s: State) {
    && c.k.Valid()
    && (forall i :: 0 <= i < |s.sent| ==> WellFormed(s.sent[i].1))
    && 0 <= s.dhtCount && (s.dhtCount == 0 || s.dhtCount < c.k.maxDhts)
    && 0 <= s.sonarCount && (s.sonarCount == 0 || s.sonarCount < c.k.maxSonars)
    && |s.dht| <= s.dhtCount && |s.sonar| <= s.sonarCount
    && (s.i2c.Some? ==> s.i2c1Active) && (s.i2c2.Some? ==> s.i2c2Active)
    && (s.taskStarted ==> !s.link.NoLink?)
  }

  /** The callbacks the report handlers look up. */
  function Callbacks(s: State): Registry {
    Registry(s.digital, s.analog, s.sonar, s.dht, s.i2c, s.i2c2, s.loopBack)
  }

  /** Whether `_send_command` raises: ValueError from `bytes()` unless the
      length and every element are bytes, then AttributeError when no serial
      port or socket exists yet. */
  function SendOutcome(link: Link, command: seq<int>): (o: Outcome)
    ensures o.Pass? <==> |command| < 256 && AllBytes(command) && !link.NoLink?
    ensures o.Fail? && !(|command| < 256 && AllBytes(command)) ==> o.error == NotAByte
    ensures o.Fail? && |command| < 256 && AllBytes(command) ==> o.error == NoTransport
  {
    if Encode(command).None? then Fail(NotAByte)
    else if link.NoLink? then Fail(NoTransport)
    else Pass
  }

  /** The frames `_send_command` writes: exactly one, on the current link,
      when it does not raise, and that frame is the command behind its
      length. */
  function Written(link: Link, command: seq<int>): (w: seq<(Link, seq<Byte>)>)
    ensures SendOutcome(link, command).Pass? ==>
      |w| == 1 && w[0].0 == link && WellFormed(w[0].1) && w[0].1[1..] == command
    ensures SendOutcome(link, command).Fail? ==> w == []
  {
    if SendOutcome(link, command).Pass? then [(link, Encode(command).value)] else []
  }

  function Send(s: State, command: seq<int>): (State, Outcome) {
    (s.(sent := s.sent + Written(s.link, command)), SendOutcome(s.link, command))
  }

  /** Writing a command keeps the invariant: the frame written, if any, is
      well formed. */
  lemma SendKeepsInv(c: Config, s: State, command: seq<int>)
    ensures Inv(c, s) ==> Inv(c, Send(s, command).0)
  {
    var w := Written(s.link, command);
    assert forall i :: 0 <= i < |w| ==> WellFormed(w[i].1);
  }

  /** The frames a shutdown writes: STOP_ALL_REPORTS, when a serial port or
      socket exists. */
  function StopLog(c: Config, s: State): (w: seq<(Link, seq<Byte>)>)
    requires c.k.Valid()
    ensures s.link.NoLink? ==> w == []
    ensures !s.link.NoLink? ==> |w| == 1 && w[0].0 == s.link && w[0].1 == [1, c.k.stopAllReports]
  {
    assert IsByte(c.k.Opcodes()[12]);
    if s.link.NoLink? then [] else Written(s.link, [c.k.stopAllReports])
  }

  /** `shutdown`: the flag is always set; with a serial port, reporting is
      stopped and the port closed; with a socket, reporting is stopped and
      the dispatcher task cancelled, which raises AttributeError when the
      task was never created. Nothing else changes. */
  function Shutdown(c: Config, s: State): (r: (State, Outcome))
    requires c.k.Valid()
    ensures r.0.shutdownFlag
    ensures r.0.sent == s.sent + StopLog(c, s)
    ensures r.0.closed == (s.closed || s.link.SerialLink?)
    ensures r.0.taskCancelled == (s.taskCancelled || (s.link.TcpLink? && s.taskStarted))
    ensures r.0 == s.(shutdownFlag := true, sent := r.0.sent, closed := r.0.closed, taskCancelled := r.0.taskCancelled)
    ensures r.1 == (if s.link.TcpLink? && !s.taskStarted then Fail(NoTask) else Pass)
  {
    var stopped := s.(shutdownFlag := true, sent := s.sent + StopLog(c, s));
    match s.link
    case NoLink => (stopped, Pass)
    case SerialLink(_) => (stopped.(closed := true), Pass)
    case TcpLink =>
      if s.taskStarted then (stopped.(taskCancelled := true), Pass) else (stopped, Fail(NoTask))
  }

  /** Shutting down keeps the invariant: the one frame it writes is well formed. */
  lemma ShutdownKeepsInv(c: Config, s: State)
    requires c.k.Valid()
    ensures Inv(c, s) ==> Inv(c, Shutdown(c, s).0)
  {
    var flagged := s.(shutdownFlag := true);
    assert Inv(c, s) ==> Inv(c, flagged);
    SendKeepsInv(c, flagged, [c.k.stopAllReports]);
  }

  /** `shutdown` does not look at the flag it sets: on a serial link a second
      call writes STOP_ALL_REPORTS again. */
  lemma ShutdownRepeats(c: Config, s: State)
    requires c.k.Valid() && s.link.SerialLink?
    ensures var twice := Shutdown(c, Shutdown(c, s).0);
      && twice.1 == Pass
      && twice.0.sent == s.sent + StopLog(c, s) + StopLog(c, s) && |StopLog(c, s)| == 1
  {
  }

  /** A guarded RuntimeError: shut down first when the client was built
      with `shutdown_on_exception`, then raise, unless shutdown raised first.
      No command is written except the shutdown's own, and no callback,
      count or i2c flag changes. */
  function Raise(c: Config, s: State, e: Error): (r: (State, Outcome))
    requires c.k.Valid()
    ensures r.1 == Fail(if c.shutdownOnException && s.link.TcpLink? && !s.taskStarted then NoTask else e)
    ensures r.0.shutdownFlag == (s.shutdownFlag || c.shutdownOnException)
    ensures r.0.closed == (s.closed || (c.shutdownOnException && s.link.SerialLink?))
    ensures r.0.taskCancelled == (s.taskCancelled || (c.shutdownOnException && s.link.TcpLink? && s.taskStarted))
    ensures r.0 == s.(shutdownFlag := r.0.shutdownFlag, sent := r.0.sent, closed := r.0.closed,
                      taskCancelled := r.0.taskCancelled)
    ensures r.0.sent == s.sent + (if c.shutdownOnException then StopLog(c, s) else [])
    ensures !c.shutdownOnException ==> r.0 == s
  {
    if c.shutdownOnException then
      var (down, outcome) := Shutdown(c, s);
      (down, if outcome.Fail? then outcome else Fail(e))
    else (s, Fail(e))
  }

  /** Raising keeps the invariant, whether or not it shuts down first. */
  lemma RaiseKeepsInv(c: Config, s: State, e: Error)
    requires c.k.Valid()
    ensures Inv(c, s) ==> Inv(c, Raise(c, s, e).0)
  {
    ShutdownKeepsInv(c, s);
  }

  /** Whether the given i2c port (0 for the first, anything else for the
      second) has been activated. */
  function Active(s: State, port: int): bool {
    if port != 0 then s.i2c2Active else s.i2c1Active
  }

  /** `set_pin_mode_i2c`: the first call for a port activates it and sends
      I2C_BEGIN; a later call for the same port returns at once. The other
      port's flag never changes. */
  function SetPinModeI2c(c: Config, s: State, port: int): (r: (State, Outcome))
    requires c.k.Valid()
    ensures Active(r.0, port)
    ensures port != 0 ==> r.0.i2c1Active == s.i2c1Active
    ensures port == 0 ==> r.0.i2c2Active == s.i2c2Active
    ensures Active(s, port) ==> r == (s, Pass)
    ensures !Active(s, port) ==>
      r.0.sent == s.sent + Written(s.link, [c.k.i2cBegin, port]) && r.1 == SendOutcome(s.link, [c.k.i2cBegin, port])
    ensures r.0 == s.(i2c1Active := r.0.i2c1Active, i2c2Active := r.0.i2c2Active, sent := r.0.sent)
    ensures Inv(c, s) ==> Inv(c, r.0)
  {
    if Active(s, port) then (s, Pass)
    else
      var activated := if port != 0 then s.(i2c2Active := true) else s.(i2c1Active := true);
      SendKeepsInv(c, activated, [c.k.i2cBegin, port]);
      Send(activated, [c.k.i2cBegin, port])
  }

  /** Activating a port twice is activating it once: the second call sends
      nothing and changes nothing. */
  lemma {:induction false} SetPinModeI2cIdempotent(c: Config, s: State, port: int)
    requires c.k.Valid()
    ensures SetPinModeI2c(c, SetPinModeI2c(c, s, port).0, port) == (SetPinModeI2c(c, s, port).0, Pass)
  {
    assert Active(SetPinModeI2c(c, s, port).0, port);
  }

  /** `_i2c_read_request`: an inactive port raises before anything is stored
      or sent; a missing callback raises too; otherwise the callback is
      stored for the port (first port for 0, second port otherwise) and the
      I2C_READ command is sent. */
  function I2cReadRequest(c: Config, s: State, address: int, register: Option<int>, count: int,
                          stopTransmission: bool, callback: Option<Handler>, port: int): (r: (State, Outcome))
    requires c.k.Valid()
    ensures r.1.Pass? ==> Active(s, port) && callback.Some?
    ensures !Active(s, port) ==> r == Raise(c, s, I2cPortInactive)
    ensures Active(s, port) && callback.None? ==> r == Raise(c, s, CallbackRequired)
    ensures Active(s, port) && callback.Some? ==>
      var command := I2cReadCommand(c.k, address, register, count, stopTransmission, port);
      && r.0.i2c == (if port == 0 then callback else s.i2c)
      && r.0.i2c2 == (if port != 0 then callback else s.i2c2)
      && r.0.sent == s.sent + Written(s.link, command) && r.1 == SendOutcome(s.link, command)
      && r.0 == s.(i2c := r.0.i2c, i2c2 := r.0.i2c2, sent := r.0.sent)
  {
    if !Active(s, port) then Raise(c, s, I2cPortInactive)
    else if callback.None? then Raise(c, s, CallbackRequired)
    else
      var stored := if port == 0 then s.(i2c := callback) else s.(i2c2 := callback);
      Send(stored, I2cReadCommand(c.k, address, register, count, stopTransmission, port))
  }

  /** An i2c read request keeps the invariant: the callback is only stored
      for an active port. */
  lemma I2cReadRequestKeepsInv(c: Config, s: State, address: int, register: Option<int>, count: int,
                               stopTransmission: bool, callback: Option<Handler>, port: int)
    requires c.k.Valid()
    ensures Inv(c, s) ==>
      Inv(c, I2cReadRequest(c, s, address, register, count, stopTransmission, callback, port).0)
  {
    var r := I2cReadRequest(c, s, address, register, count, stopTransmission, callback, port);
    if !Inv(c, s) {
    } else if !Active(s, port) {
      RaiseKeepsInv(c, s, I2cPortInactive);
      assert r.0 == Raise(c, s, I2cPortInactive).0;
    } else if callback.None? {
      RaiseKeepsInv(c, s, CallbackRequired);
      assert r.0 == Raise(c, s, CallbackRequired).0;
    } else {
      var stored := if port == 0 then s.(i2c := callback) else s.(i2c2 := callback);
      assert Inv(c, stored);
      var command := I2cReadCommand(c.k, address, register, count, stopTransmission, port);
      SendKeepsInv(c, stored, command);
      assert r.0 == Send(stored, command).0;
    }
  }

  /** An i2c read on an inactive port sends no command of its own and stores
      no callback, whatever its arguments. */
  lemma I2cReadNeedsActivation(c: Config, s: State, address: int, register: Option<int>, count: int,
                               stopTransmission: bool, callback: Option<Handler>, port: int)
    requires c.k.Valid()
    requires !Active(s, port)
    ensures var r := I2cReadRequest(c, s, address, register, count, stopTransmission, callback, port);
      && r.1.Fail? && Callbacks(r.0) == Callbacks(s)
      && r.0.sent == s.sent + (if c.shutdownOnException then StopLog(c, s) else [])
  {
  }

  /** `i2c_write`: an inactive port raises before anything is sent;
      otherwise the I2C_WRITE header and the data bytes are sent. */
  function I2cWrite(c: Config, s: State, address: int, args: seq<int>, port: int): (r: (State, Outcome))
    requires c.k.Valid()
    ensures !Active(s, port) ==> r == Raise(c, s, I2cPortInactive)
    ensures Active(s, port) ==>
      var command := [c.k.i2cWrite, |args|, address, port] + args;
      r.0.sent == s.sent + Written(s.link, command) && r.1 == SendOutcome(s.link, command)
      && r.0 == s.(sent := r.0.sent)
    ensures r.1.Pass? ==> Active(s, port) && |args| < 252
    ensures Inv(c, s) ==> Inv(c, r.0)
  {
    if !Active(s, port) then RaiseKeepsInv(c, s, I2cPortInactive); Raise(c, s, I2cPortInactive)
    else
      var command := [c.k.i2cWrite, |args|, address, port] + args;
      SendKeepsInv(c, s, command);
      Send(s, command)
  }

  /** `loop_back`: a missing callback raises; otherwise the callback is
      stored and the character's code point is sent. */
  function LoopBack(c: Config, s: State, start: char, callback: Option<Handler>): (r: (State, Outcome))
    requires c.k.Valid()
    ensures callback.None? ==> r == Raise(c, s, CallbackRequired)
    ensures callback.Some? ==>
      && r.0.loopBack == callback
      && r.0.sent == s.sent + Written(s.link, [c.k.loopCommand, start as int])
      && r.0 == s.(loopBack := callback, sent := r.0.sent)
      && r.1 == SendOutcome(s.link, [c.k.loopCommand, start as int])
    ensures r.1.Pass? <==> callback.Some? && (start as int) < 256 && !s.link.NoLink?
    ensures Inv(c, s) ==> Inv(c, r.0)
  {
    if callback.None? then RaiseKeepsInv(c, s, CallbackRequired); Raise(c, s, CallbackRequired)
    else
      assert IsByte(c.k.Opcodes()[0]);
      AllBytesPair(c.k.loopCommand, start as int);
      var stored := s.(loopBack := callback);
      SendKeepsInv(c, stored, [c.k.loopCommand, start as int]);
      Send(stored, [c.k.loopCommand, start as int])
  }

  /** `set_analog_scan_interval`: an interval in 0..255 is sent; any other
      raises and sends nothing of its own. */
  function SetAnalogScanInterval(c: Config, s: State, interval: int): (r: (State, Outcome))
    requires c.k.Valid()
    ensures 0 <= interval <= 255 ==>
      r.0 == s.(sent := s.sent + Written(s.link, [c.k.setAnalogScanningInterval, interval]))
      && (r.1.Pass? <==> !s.link.NoLink?)
      && r.1 == SendOutcome(s.link, [c.k.setAnalogScanningInterval, interval])
    ensures !(0 <= interval <= 255) ==> r == Raise(c, s, IntervalOutOfRange)
    ensures Inv(c, s) ==> Inv(c, r.0)
  {
    if 0 <= interval <= 255 then
      assert IsByte(c.k.Opcodes()[13]);
      SendKeepsInv(c, s, [c.k.setAnalogScanningInterval, interval]);
      Send(s, [c.k.setAnalogScanningInterval, interval])
    else RaiseKeepsInv(c, s, IntervalOutOfRange); Raise(c, s, IntervalOutOfRange)
  }

  /** `_set_pin_mode`: a missing callback raises for every state but output;
      the input states register the callback for digital reports, the
      analog state for analog reports, and output registers nothing; then
      the state's command is sent, or an unknown state raises. */
  function SetPinMode(c: Config, s: State, pin: int, state: int, differential: int,
                      callback: Option<Handler>): (r: (State, Outcome))
    requires c.k.Valid()
    ensures callback.None? && state != c.k.atOutput ==> r == Raise(c, s, CallbackRequired)
    ensures callback.Some? ==>
      && r.0.digital == (if state == c.k.atInput || state == c.k.atInputPullup then s.digital[pin := callback.value] else s.digital)
      && r.0.analog == (if state == c.k.atAnalog then s.analog[pin := callback.value] else s.analog)
    ensures callback.None? && state == c.k.atOutput ==> r.0.digital == s.digital && r.0.analog == s.analog
    ensures (callback.Some? || state == c.k.atOutput) && SetPinModeCommand(c.k, pin, state, differential).None? ==>
      r == Raise(c, Register(c.k, s, pin, state, callback), UnknownPinState)
    ensures (callback.Some? || state == c.k.atOutput) && SetPinModeCommand(c.k, pin, state, differential).Some? ==>
      var command := SetPinModeCommand(c.k, pin, state, differential).value;
      && r.0 == s.(digital := r.0.digital, analog := r.0.analog, sent := r.0.sent)
      && r.0.sent == s.sent + Written(s.link, command) && r.1 == SendOutcome(s.link, command)
    ensures r.1.Pass? ==> state in c.k.PinStates() && (callback.Some? || state == c.k.atOutput)
    ensures r.0.sonar == s.sonar && r.0.dht == s.dht && r.0.i2c == s.i2c && r.0.i2c2 == s.i2c2
  {
    if callback.None? && state != c.k.atOutput then Raise(c, s, CallbackRequired)
    else
      var registered := Register(c.k, s, pin, state, callback);
      var command := SetPinModeCommand(c.k, pin, state, differential);
      if command.None? then
        var raised := Raise(c, registered, UnknownPinState);
        assert raised.0.digital == registered.digital && raised.0.analog == registered.analog;
        raised
      else Send(registered, command.value)
  }

  /** Where `_set_pin_mode` stores the callback: the digital table for the
      input states, the analog table for the analog state, nowhere for the
      others. */
  function Register(k: Constants, s: State, pin: int, state: int, callback: Option<Handler>): (r: State)
    requires k.Valid() && (callback.Some? || state == k.atOutput)
    ensures r == s.(digital := r.digital, analog := r.analog)
    ensures state == k.atOutput ==> r == s
    ensures callback.Some? ==>
      && r.digital == (if state == k.atInput || state == k.atInputPullup then s.digital[pin := callback.value] else s.digital)
      && r.analog == (if state == k.atAnalog then s.analog[pin := callback.value] else s.analog)
  {
    assert k.PinStates()[0] != k.PinStates()[1] && k.PinStates()[2] != k.PinStates()[1]
      && k.PinStates()[3] != k.PinStates()[1];
    if state == k.atInput || state == k.atInputPullup then s.(digital := s.digital[pin := callback.value])
    else if state == k.atAnalog then s.(analog := s.analog[pin := callback.value])
    else s
  }

  /** Setting a pin mode keeps the invariant: only the digital and analog
      callbacks change, and the frame written is well formed. */
  lemma SetPinModeKeepsInv(c: Config, s: State, pin: int, state: int, differential: int,
                           callback: Option<Handler>)
    requires c.k.Valid()
    ensures Inv(c, s) ==> Inv(c, SetPinMode(c, s, pin, state, differential, callback).0)
  {
    var r := SetPinMode(c, s, pin, state, differential, callback);
    if callback.None? && state != c.k.atOutput {
      RaiseKeepsInv(c, s, CallbackRequired);
      assert r.0 == Raise(c, s, CallbackRequired).0;
    } else {
      var registered := Register(c.k, s, pin, state, callback);
      assert Inv(c, s) ==> Inv(c, registered);
      match SetPinModeCommand(c.k, pin, state, differential)
      case None =>
        RaiseKeepsInv(c, registered, UnknownPinState);
        assert r.0 == Raise(c, registered, UnknownPinState).0;
      case Some(command) =>
        SendKeepsInv(c, registered, command);
        assert r.0 == Send(registered, command).0;
    }
  }

  /** `set_pin_mode_dht`: a missing callback raises; below the limit of
      MAX_DHTS - 1 the callback is stored for the pin, the count goes up by
      one and DHT_NEW is sent; at the limit it raises, and neither the
      callbacks nor the count change. */
  function SetPinModeDht(c: Config, s: State, pin: int, callback: Option<Handler>): (r: (State, Outcome))
    requires c.k.Valid()
    ensures callback.None? ==> r == Raise(c, s, CallbackRequired)
    ensures callback.Some? && s.dhtCount < c.k.maxDhts - 1 ==>
      && r.0.dht == s.dht[pin := callback.value] && r.0.dhtCount == s.dhtCount + 1
      && r.0.sent == s.sent + Written(s.link, [c.k.dhtNew, pin]) && r.1 == SendOutcome(s.link, [c.k.dhtNew, pin])
      && r.0 == s.(dht := r.0.dht, dhtCount := r.0.dhtCount, sent := r.0.sent)
    ensures callback.Some? && s.dhtCount >= c.k.maxDhts - 1 ==>
      r == Raise(c, s, TooManyDevices) && r.0.dht == s.dht && r.0.dhtCount == s.dhtCount
    ensures Inv(c, s) ==> Inv(c, r.0)
  {
    if callback.None? then RaiseKeepsInv(c, s, CallbackRequired); Raise(c, s, CallbackRequired)
    else if s.dhtCount < c.k.maxDhts - 1 then
      var stored := s.(dht := s.dht[pin := callback.value], dhtCount := s.dhtCount + 1);
      SendKeepsInv(c, stored, [c.k.dhtNew, pin]);
      Send(stored, [c.k.dhtNew, pin])
    else RaiseKeepsInv(c, s, TooManyDevices); Raise(c, s, TooManyDevices)
  }

  /** `set_pin_mode_sonar`: as for DHTs, with the trigger pin as the key,
      MAX_SONARS - 1 as the limit and SONAR_NEW carrying both pins. */
  function SetPinModeSonar(c: Config, s: State, trigger: int, echo: int, callback: Option<Handler>): (r: (State, Outcome))
    requires c.k.Valid()
    ensures callback.None? ==> r == Raise(c, s, CallbackRequired)
    ensures callback.Some? && s.sonarCount < c.k.maxSonars - 1 ==>
      && r.0.sonar == s.sonar[trigger := callback.value] && r.0.sonarCount == s.sonarCount + 1
      && r.0.sent == s.sent + Written(s.link, [c.k.sonarNew, trigger, echo])
      && r.1 == SendOutcome(s.link, [c.k.sonarNew, trigger, echo])
      && r.0 == s.(sonar := r.0.sonar, sonarCount := r.0.sonarCount, sent := r.0.sent)
    ensures callback.Some? && s.sonarCount >= c.k.maxSonars - 1 ==>
      r == Raise(c, s, TooManyDevices) && r.0.sonar == s.sonar && r.0.sonarCount == s.sonarCount
    ensures Inv(c, s) ==> Inv(c, r.0)
  {
    if callback.None? then RaiseKeepsInv(c, s, CallbackRequired); Raise(c, s, CallbackRequired)
    else if s.sonarCount < c.k.maxSonars - 1 then
      var stored := s.(sonar := s.sonar[trigger := callback.value], sonarCount := s.sonarCount + 1);
      SendKeepsInv(c, stored, [c.k.sonarNew, trigger, echo]);
      Send(stored, [c.k.sonarNew, trigger, echo])
    else RaiseKeepsInv(c, s, TooManyDevices); Raise(c, s, TooManyDevices)
  }

  /** `set_pin_mode_servo`: OverflowError (no shutdown) when a pulse width
      does not fit in two bytes; otherwise SERVO_ATTACH is sent. */
  function SetPinModeServo(c: Config, s: State, pin: int, minPulse: int, maxPulse: int): (r: (State, Outcome))
    requires c.k.Valid()
    ensures ServoAttachCommand(c.k, pin, minPulse, maxPulse).None? ==> r == (s, Fail(Overflow))
    ensures ServoAttachCommand(c.k, pin, minPulse, maxPulse).Some? ==>
      var command := ServoAttachCommand(c.k, pin, minPulse, maxPulse).value;
      r.0 == s.(sent := s.sent + Written(s.link, command)) && r.1 == SendOutcome(s.link, command)
    ensures r.1.Pass? ==> 0 <= minPulse < 65536 && 0 <= maxPulse < 65536
    ensures Inv(c, s) ==> Inv(c, r.0)
  {
    match ServoAttachCommand(c.k, pin, minPulse, maxPulse)
    case None => (s, Fail(Overflow))
    case Some(command) =>
      SendKeepsInv(c, s, command);
      Send(s, command)
  }

  /** The replies whose ports were asked ARE_U_THERE before the search stopped. */
  function Probed(search: Search, ports: nat): nat {
    match search
    case Found(i) => i + 1
    case ShortReply(i) => i + 1
    case NotFound => ports
  }

  /** A search that stops at the j-th reply asked the first j + 1 ports. */
  lemma ProbedAt(replies: seq<seq<Byte>>, id: int, j: nat)
    requires j < |replies| && PassedBefore(replies, id, j) && !Passes(replies[j], id)
    ensures Select(replies, id) == (if |replies[j]| < 3 then ShortReply(j) else Found(j))
    ensures Probed(Select(replies, id), |replies|) == j + 1
  {
    SelectAt(replies, id, j);
  }

  /** ARE_U_THERE written once to each of the first `count` ports, in order. */
  function Probes(k: Constants, count: nat): (w: seq<(Link, seq<Byte>)>)
    requires k.Valid()
    ensures |w| == count
    ensures forall i :: 0 <= i < count ==> w[i] == (SerialLink(i), [1, k.areYouThere])
  {
    assert IsByte(k.Opcodes()[5]);
    var frame: seq<Byte> := [1, k.areYouThere];
    seq(count, i requires 0 <= i < count => (SerialLink(i), frame))
  }

  /** The one frame `_send_command` writes for ARE_U_THERE on a serial port. */
  lemma ProbeFrame(k: Constants, port: nat)
    requires k.Valid()
    ensures SendOutcome(SerialLink(port), [k.areYouThere]) == Pass
    ensures Written(SerialLink(port), [k.areYouThere]) == [(SerialLink(port), [1, k.areYouThere])]
  {
    assert IsByte(k.Opcodes()[5]);
    assert AllBytes([k.areYouThere]);
    var encoded := Encode([k.areYouThere]).value;
    assert encoded == [encoded[0]] + encoded[1..];
    assert encoded[0] == 1 && encoded[1..] == [k.areYouThere];
    assert encoded == [1, k.areYouThere];
  }

  /** The state after asking the first `count` ports in turn: each one
      becomes the link and is sent ARE_U_THERE. */
  function Probing(c: Config, s: State, count: nat): State
    requires c.k.Valid()
    decreases count
  {
    if count == 0 then s
    else Send(Probing(c, s, count - 1).(link := SerialLink(count - 1)), [c.k.areYouThere]).0
  }

  /** One more probe moves the link to the next port and writes one
      ARE_U_THERE frame on it. */
  lemma ProbingNext(c: Config, s: State, count: nat)
    requires c.k.Valid() && count > 0
    ensures var prev := Probing(c, s, count - 1);
      Probing(c, s, count)
        == prev.(link := SerialLink(count - 1), sent := prev.sent + [Probes(c.k, count)[count - 1]])
  {
    ProbeFrame(c.k, count - 1);
  }

  /** The probes of `count` ports are those of the first `count - 1`
      followed by the last one's. */
  lemma ProbesSnoc(k: Constants, count: nat)
    requires k.Valid() && count > 0
    ensures Probes(k, count) == Probes(k, count - 1) + [Probes(k, count)[count - 1]]
  {
    var w := Probes(k, count);
    assert forall i :: 0 <= i < count - 1 ==> w[i] == Probes(k, count - 1)[i];
  }

  /** What the probes leave behind: one ARE_U_THERE frame went to each port
      in order, the last port asked is the link, and nothing else changed. */
  lemma {:induction false} ProbingLog(c: Config, s: State, count: nat)
    requires c.k.Valid()
    ensures Probing(c, s, count).sent == s.sent + Probes(c.k, count)
    ensures count > 0 ==> Probing(c, s, count).link == SerialLink(count - 1)
    ensures Probing(c, s, count) == s.(link := Probing(c, s, count).link, sent := Probing(c, s, count).sent)
  {
    if count == 0 {
      assert Probes(c.k, 0) == [];
    } else {
      ProbingLog(c, s, count - 1);
      ProbingNext(c, s, count);
      ProbesSnoc(c.k, count);
    }
  }

  /** The end of `start_aio` once a link exists: GET_FIRMWARE_VERSION is sent;
      no reply is a timeout; a reply too short to print raises IndexError;
      otherwise ENABLE_ALL_REPORTS is sent, the dispatcher task is created,
      and RESET is sent. */
  function StartReporting(c: Config, s: State, firmware: seq<Byte>): (r: (State, Outcome))
    requires c.k.Valid()
    requires !s.link.NoLink?
    ensures r.1.Pass? <==> |firmware| >= 4
    ensures r.1.Pass? ==>
      && r.0.taskStarted
      && r.0.sent == s.sent + Written(s.link, [c.k.getFirmwareVersion])
                 + Written(s.link, [c.k.enableAllReports]) + Written(s.link, [c.k.reset])
      && r.0 == s.(taskStarted := true, sent := r.0.sent)
    ensures |firmware| == 0 ==>
      r == Raise(c, Send(s, [c.k.getFirmwareVersion]).0, FirmwareTimeout) && r.0.taskStarted == s.taskStarted
    ensures 0 < |firmware| < 4 ==> r == (Send(s, [c.k.getFirmwareVersion]).0, Fail(MissingIndex))
  {
    assert IsByte(c.k.Opcodes()[4]) && IsByte(c.k.Opcodes()[14]) && IsByte(c.k.Opcodes()[15]);
    var asked := Send(s, [c.k.getFirmwareVersion]).0;
    if |firmware| == 0 then Raise(c, asked, FirmwareTimeout)
    else if |firmware| < 4 then (asked, Fail(MissingIndex))
    else Send(Send(asked, [c.k.enableAllReports]).0.(taskStarted := true), [c.k.reset])
  }

  /** The firmware exchange keeps the invariant: the task starts only on a
      link, and every frame written is well formed. */
  lemma StartReportingKeepsInv(c: Config, s: State, firmware: seq<Byte>)
    requires c.k.Valid() && !s.link.NoLink?
    ensures Inv(c, s) ==> Inv(c, StartReporting(c, s, firmware).0)
  {
    var asked := Send(s, [c.k.getFirmwareVersion]).0;
    SendKeepsInv(c, s, [c.k.getFirmwareVersion]);
    RaiseKeepsInv(c, asked, FirmwareTimeout);
    var enabled := Send(asked, [c.k.enableAllReports]).0;
    SendKeepsInv(c, asked, [c.k.enableAllReports]);
    SendKeepsInv(c, enabled.(taskStarted := true), [c.k.reset]);
  }

  /** Asking one more port: with that port as the link, ARE_U_THERE is
      written to it and nothing is raised. */
  lemma ProbingStep(c: Config, s: State, i: nat)
    requires c.k.Valid()
    ensures Inv(c, Probing(c, s, i)) ==> Inv(c, Probing(c, s, i).(link := SerialLink(i)))
    ensures Send(Probing(c, s, i).(link := SerialLink(i)), [c.k.areYouThere]) == (Probing(c, s, i + 1), Pass)
  {
    ProbeFrame(c.k, i);
  }

  /** Asking more ports keeps the invariant: each probe is a well-formed frame. */
  lemma {:induction false} ProbingKeepsInv(c: Config, s: State, count: nat)
    requires c.k.Valid()
    ensures Inv(c, s) ==> Inv(c, Probing(c, s, count))
  {
    if count > 0 {
      ProbingKeepsInv(c, s, count - 1);
      var t := Probing(c, s, count - 1).(link := SerialLink(count - 1));
      assert Inv(c, s) ==> Inv(c, t);
      SendKeepsInv(c, t, [c.k.areYouThere]);
    }
  }

  /** `_find_arduino` followed by the rest of `start_aio`: the ports are asked
      in turn until the search stops; the board found becomes the com port
      and the link; a short reply raises IndexError; no match raises. */
  function FindArduino(c: Config, s: State, replies: seq<seq<Byte>>, firmware: seq<Byte>): (r: (State, Outcome))
    requires c.k.Valid()
    ensures var search := Select(replies, c.instanceId);
      var probed := Probing(c, s, Probed(search, |replies|));
      && (search.Found? ==> r == StartReporting(c, probed.(comPort := Some(search.index)), firmware))
      && (search.ShortReply? ==> r == (probed, Fail(MissingIndex)))
      && (search.NotFound? ==> r == Raise(c, probed, NoArduinoFound))
    ensures r.1.Pass? ==>
      var search := Select(replies, c.instanceId);
      && search.Found? && r.0.comPort == Some(search.index) && r.0.link == SerialLink(search.index)
      && r.0.taskStarted && |firmware| >= 4
  {
    var search := Select(replies, c.instanceId);
    var probed := Probing(c, s, Probed(search, |replies|));
    match search
    case Found(i) => StartReporting(c, probed.(comPort := Some(i)), firmware)
    case ShortReply(_) => (probed, Fail(MissingIndex))
    case NotFound => Raise(c, probed, NoArduinoFound)
  }

  /** Discovery keeps the invariant: every probe is a well-formed frame, and
      the firmware exchange starts the task on the port found. */
  lemma FindArduinoKeepsInv(c: Config, s: State, replies: seq<seq<Byte>>, firmware: seq<Byte>)
    requires c.k.Valid()
    ensures Inv(c, s) ==> Inv(c, FindArduino(c, s, replies, firmware).0)
  {
    var search := Select(replies, c.instanceId);
    var probed := Probing(c, s, Probed(search, |replies|));
    ProbingKeepsInv(c, s, Probed(search, |replies|));
    match search
    case Found(i) =>
      ProbingLog(c, s, Probed(search, |replies|));
      StartReportingKeepsInv(c, probed.(comPort := Some(i)), firmware);
    case ShortReply(_) =>
    case NotFound => RaiseKeepsInv(c, probed, NoArduinoFound);
  }

  /** `start_aio` without a given com port: discovery over serial, or the
      socket as the link over TCP; either way the firmware exchange follows. */
  function StartAio(c: Config, s: State, connect: Connect, firmware: seq<Byte>): (r: (State, Outcome))
    requires c.k.Valid()
    requires connect.Discover? ==> s.comPort.None?
    ensures connect.Tcp? ==> r == StartReporting(c, s.(link := TcpLink), firmware)
    ensures connect.Discover? ==> r == FindArduino(c, s, connect.replies, firmware)
    ensures r.1.Pass? ==> r.0.taskStarted && |firmware| >= 4
  {
    match connect
    case Tcp => StartReporting(c, s.(link := TcpLink), firmware)
    case Discover(replies) => FindArduino(c, s, replies, firmware)
  }

  /** Starting keeps the invariant, over either transport. */
  lemma StartAioKeepsInv(c: Config, s: State, connect: Connect, firmware: seq<Byte>)
    requires c.k.Valid()
    requires connect.Discover? ==> s.comPort.None?
    ensures Inv(c, s) ==> Inv(c, StartAio(c, s, connect, firmware).0)
  {
    match connect
    case Tcp =>
      assert Inv(c, s) ==> Inv(c, s.(link := TcpLink));
      StartReportingKeepsInv(c, s.(link := TcpLink), firmware);
    case Discover(replies) => FindArduinoKeepsInv(c, s, replies, firmware);
  }

  /** `_arduino_report_dispatcher` over the bytes that arrive: nothing is
      read once the shutdown flag is set; otherwise every complete packet is
      dispatched in order until a handler raises or the input runs out, and
      a handler's RuntimeError is preceded by a shutdown when the client was
      built with `shutdown_on_exception`. The callbacks are not changed. */
  function Dispatch(c: Config, s: State, input: seq<Byte>, clock: nat -> real): (r: (State, Stop))
    requires c.k.Valid() && s.taskStarted
    ensures s.shutdownFlag ==> r == (s, Flagged)
    ensures !s.shutdownFlag ==>
      var run := RunFrames(c.k, Callbacks(s), Deframe(input), clock, 0);
      && r.1 == run.stop
      && r.0.events == s.events + run.events
      && (run.stop.Fatal? && c.shutdownOnException ==>
            r.0 == s.(events := r.0.events, shutdownFlag := true, sent := s.sent + StopLog(c, s),
                      closed := s.closed || s.link.SerialLink?, taskCancelled := s.taskCancelled || s.link.TcpLink?))
      && (!(run.stop.Fatal? && c.shutdownOnException) ==> r.0 == s.(events := r.0.events))
    ensures Callbacks(r.0) == Callbacks(s)
  {
    if s.shutdownFlag then (s, Flagged)
    else
      var run := RunFrames(c.k, Callbacks(s), Deframe(input), clock, 0);
      var delivered := s.(events := s.events + run.events);
      if run.stop.Fatal? && c.shutdownOnException then (Shutdown(c, delivered).0, run.stop)
      else (delivered, run.stop)
  }

  /** Dispatching keeps the invariant: callbacks being invoked changes
      nothing it speaks of, and a shutdown after a fatal report keeps it. */
  lemma DispatchKeepsInv(c: Config, s: State, input: seq<Byte>, clock: nat -> real)
    requires c.k.Valid() && s.taskStarted
    ensures Inv(c, s) ==> Inv(c, Dispatch(c, s, input, clock).0)
  {
    var run := RunFrames(c.k, Callbacks(s), Deframe(input), clock, 0);
    var delivered := s.(events := s.events + run.events);
    assert Inv(c, s) ==> Inv(c, delivered);
    ShutdownKeepsInv(c, delivered);
  }

  /** Callbacks being invoked changes nothing the invariant speaks of. */
  lemma EventsKeepInv(c: Config, s: State, events: seq<Event>)
    ensures Inv(c, s) ==> Inv(c, s.(events := events))
  {
  }

  /** Once `shutdown` has run, the dispatcher reads nothing and invokes no
      callback. */
  lemma ShutdownStopsDispatch(c: Config, s: State, input: seq<Byte>, clock: nat -> real)
    requires c.k.Valid() && s.taskStarted
    ensures Dispatch(c, Shutdown(c, s).0, input, clock) == (Shutdown(c, s).0, Flagged)
  {
  }

  /** A sequence of DHT registrations, each with a callback. */
  function RegisterDhts(c: Config, s: State, requests: seq<(int, Handler)>): State
    requires c.k.Valid()
    decreases |requests|
  {
    if requests == [] then s
    else RegisterDhts(c, SetPinModeDht(c, s, requests[0].0, Some(requests[0].1)).0, requests[1..])
  }

  /** However many DHTs are registered, the count never passes MAX_DHTS - 1:
      each registration either adds one below the limit or raises and leaves
      the count alone. */
  lemma {:induction false} DhtCountBounded(c: Config, s: State, requests: seq<(int, Handler)>)
    requires Inv(c, s)
    decreases |requests|
    ensures var t := RegisterDhts(c, s, requests);
      && Inv(c, t) && s.dhtCount <= t.dhtCount <= s.dhtCount + |requests|
      && (t.dhtCount == 0 || t.dhtCount <= c.k.maxDhts - 1)
      && |t.dht| <= t.dhtCount
  {
    if requests != [] {
      DhtCountBounded(c, SetPinModeDht(c, s, requests[0].0, Some(requests[0].1)).0, requests[1..]);
    }
  }
}
