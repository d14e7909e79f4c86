/** The inbound side: the built-in report handlers of `report_dispatch`,
    the routing of one packet through the dispatch table, and the meaning of
    a whole run of the report dispatcher over a sequence of packets. */
module Reports {
  import opened Wire
  import opened Protocol

  /** A caller-supplied callback, known only by identity. */
  type Handler = nat

  /** One element of the list a callback receives: an integer, a
      `time.time()` reading, or a float decoded from four little-endian
      bytes (kept as those bytes). */
  datatype Item = Num(n: int) | Stamp(t: real) | Float32(le: seq<Byte>)

  /** What dispatching a report does that can be observed: a callback invoked
      with a message, or the debug line the debug-print report writes. */
  datatype Event = Call(handler: Handler, message: seq<Item>) | DebugLine(id: int, value: int)

  /** The callbacks the handlers look up: per pin (digital, analog), per
      trigger pin (sonar), per DHT pin, per i2c port, and for loop-back. */
  datatype Registry = Registry(
    digital: map<int, Handler>, analog: map<int, Handler>,
    sonar: map<int, Handler>, dht: map<int, Handler>,
    i2c: Option<Handler>, i2c2: Option<Handler>, loopBack: Option<Handler>)

  /** The result of one handler: the events it caused, a RuntimeError the
      handler raises on purpose after asking for shutdown, or an exception
      (IndexError, KeyError, ...) that escapes it. */
  datatype Routed = Deliver(events: seq<Event>) | Abort(error: Error) | Crash(error: Error)

  function Nums(s: seq<Byte>): seq<Item> {
    seq(|s|, i requires 0 <= i < |s| => Num(s[i]))
  }

  /** `_report_loop_data`: the looped-back bytes go to the loop-back
      callback when there is one, and nowhere otherwise. */
  function LoopData(reg: Registry, data: seq<Byte>): (r: Routed)
    ensures r.Deliver?
    ensures |r.events| == (if reg.loopBack.Some? then 1 else 0)
    ensures reg.loopBack.Some? ==> r.events[0] == Call(reg.loopBack.value, Nums(data))
  {
    if reg.loopBack.Some? then Deliver([Call(reg.loopBack.value, Nums(data))]) else Deliver([])
  }

  /** `_report_debug_data`: a device id and a 16-bit value sent high byte
      first; the line shows the value the two bytes encode. */
  function DebugData(data: seq<Byte>): (r: Routed)
    ensures r.Deliver? <==> |data| >= 3
    ensures !r.Deliver? ==> r == Crash(MissingIndex)
    ensures r.Deliver? ==>
      && |r.events| == 1 && r.events[0].DebugLine? && r.events[0].id == data[0]
      && 0 <= r.events[0].value < 65536 && Split16(r.events[0].value) == (data[1], data[2])
  {
    if |data| < 3 then Crash(MissingIndex)
    else Deliver([DebugLine(data[0], Join16(data[1], data[2]))])
  }

  /** `_digital_message`: `[DIGITAL_REPORT, pin, value, time]` goes to the
      callback registered for the pin; an unregistered pin is a KeyError. */
  function DigitalMessage(k: Constants, reg: Registry, data: seq<Byte>, now: real): (r: Routed)
    ensures |data| < 2 ==> r == Crash(MissingIndex)
    ensures |data| >= 2 ==> (r.Deliver? <==> data[0] in reg.digital)
    ensures |data| >= 2 && data[0] !in reg.digital ==> r == Crash(UnknownKey)
    ensures r.Deliver? ==>
      r.events == [Call(reg.digital[data[0]], [Num(k.digitalReport), Num(data[0]), Num(data[1]), Stamp(now)])]
  {
    if |data| < 2 then Crash(MissingIndex)
    else if data[0] !in reg.digital then Crash(UnknownKey)
    else Deliver([Call(reg.digital[data[0]], [Num(k.digitalReport), Num(data[0]), Num(data[1]), Stamp(now)])])
  }

  /** `_analog_message`: the pin's callback receives `[AT_ANALOG, pin, value,
      time]` where value is the 16-bit number whose high and low bytes are
      `data[1]` and `data[2]`. */
  function AnalogMessage(k: Constants, reg: Registry, data: seq<Byte>, now: real): (r: Routed)
    ensures |data| < 3 ==> r == Crash(MissingIndex)
    ensures |data| >= 3 ==> (r.Deliver? <==> data[0] in reg.analog)
    ensures |data| >= 3 && data[0] !in reg.analog ==> r == Crash(UnknownKey)
    ensures r.Deliver? ==>
      && |r.events| == 1 && r.events[0].Call?
      && r.events[0].handler == reg.analog[data[0]] && |r.events[0].message| == 4
      && r.events[0].message[..2] == [Num(k.atAnalog), Num(data[0])]
      && r.events[0].message[3] == Stamp(now)
      && r.events[0].message[2].Num? && 0 <= r.events[0].message[2].n < 65536
      && Split16(r.events[0].message[2].n) == (data[1], data[2])
  {
    if |data| < 3 then Crash(MissingIndex)
    else if data[0] !in reg.analog then Crash(UnknownKey)
    else
      var value := Join16(data[1], data[2]);
      Deliver([Call(reg.analog[data[0]], [Num(k.atAnalog), Num(data[0]), Num(value), Stamp(now)])])
  }

  /** `_servo_unavailable`: always raises (after shutdown); the message
      reads the pin from `report[0]`. */
  function ServoUnavailableReport(data: seq<Byte>): (r: Routed)
    ensures r.Abort?
    ensures r.error == (if |data| >= 1 then ServoUnavailable else MissingIndex)
  {
    if |data| >= 1 then Abort(ServoUnavailable) else Abort(MissingIndex)
  }

  /** `_i2c_too_few` and `_i2c_too_many`: always raise (after shutdown); the
      message reads the port and the address from `data[0]` and `data[1]`. */
  function I2cByteCountReport(error: Error, data: seq<Byte>): (r: Routed)
    ensures r.Abort?
    ensures r.error == (if |data| >= 2 then error else MissingIndex)
  {
    if |data| >= 2 then Abort(error) else Abort(MissingIndex)
  }

  /** `_i2c_read_report`: the callback list is `[I2C_READ_REPORT] + data +
      [time]`, delivered to the second port's callback when the port byte
      `data[0]` is non-zero and to the first port's otherwise; an empty slot
      holds None, which is not callable. */
  function I2cReadReport(k: Constants, reg: Registry, data: seq<Byte>, now: real): (r: Routed)
    ensures |data| < 2 ==> r == Crash(MissingIndex)
    ensures |data| >= 2 ==> var slot := if data[0] != 0 then reg.i2c2 else reg.i2c;
      && (r.Deliver? <==> slot.Some?)
      && (slot.None? ==> r == Crash(NotCallable))
      && (slot.Some? ==> r.events == [Call(slot.value, [Num(k.i2cReadReport)] + Nums(data) + [Stamp(now)])])
  {
    if |data| < 2 then Crash(MissingIndex)
    else
      var slot := if data[0] != 0 then reg.i2c2 else reg.i2c;
      if slot.None? then Crash(NotCallable)
      else Deliver([Call(slot.value, [Num(k.i2cReadReport)] + Nums(data) + [Stamp(now)])])
  }

  /** `_sonar_distance_report`: the callback is looked up by the trigger pin
      `report[0]` and receives `[SONAR_DISTANCE, trigger pin, distance,
      time]`, the distance rebuilt from two bytes high byte first. */
  function SonarDistance(k: Constants, reg: Registry, report: seq<Byte>, now: real): (r: Routed)
    ensures |report| == 0 ==> r == Crash(MissingIndex)
    ensures |report| >= 1 && report[0] !in reg.sonar ==> r == Crash(UnknownKey)
    ensures 1 <= |report| < 3 && report[0] in reg.sonar ==> r == Crash(MissingIndex)
    ensures r.Deliver? <==> |report| >= 3 && report[0] in reg.sonar
    ensures r.Deliver? ==>
      && |r.events| == 1 && r.events[0].Call?
      && r.events[0].handler == reg.sonar[report[0]] && |r.events[0].message| == 4
      && r.events[0].message[..2] == [Num(k.sonarDistance), Num(report[0])]
      && r.events[0].message[3] == Stamp(now)
      && r.events[0].message[2].Num? && 0 <= r.events[0].message[2].n < 65536
      && Split16(r.events[0].message[2].n) == (report[1], report[2])
  {
    if |report| == 0 then Crash(MissingIndex)
    else if report[0] !in reg.sonar then Crash(UnknownKey)
    else if |report| < 3 then Crash(MissingIndex)
    else
      var distance := Join16(report[1], report[2]);
      Deliver([Call(reg.sonar[report[0]], [Num(k.sonarDistance), Num(report[0]), Num(distance), Stamp(now)])])
  }

  /** `_dht_report`: a non-zero sub-type is an error report carrying an error
      code; sub-type zero carries humidity in `data[2:6]` and temperature in
      `data[6:]`, each unpacked as a little-endian float, which needs exactly
      four bytes. Both go to the callback registered for the pin `data[1]`. */
  function DhtReport(k: Constants, reg: Registry, data: seq<Byte>, now: real): (r: Routed)
    ensures |data| < 2 ==> r == Crash(MissingIndex)
    ensures r.Deliver? ==>
      && |data| >= 2 && data[1] in reg.dht && |r.events| == 1
      && r.events[0].Call? && r.events[0].handler == reg.dht[data[1]]
    ensures |data| >= 2 && data[0] != 0 && data[1] !in reg.dht ==> r == Crash(UnknownKey)
    ensures |data| == 2 && data[0] != 0 && data[1] in reg.dht ==> r == Crash(MissingIndex)
    ensures |data| >= 2 && data[0] == 0 && |data| != 10 ==> r == Crash(BadFloat)
    ensures |data| == 10 && data[0] == 0 && data[1] !in reg.dht ==> r == Crash(UnknownKey)
    ensures |data| >= 2 && data[0] != 0 ==>
      && (r.Deliver? <==> data[1] in reg.dht && |data| >= 3)
      && (r.Deliver? ==>
            r.events[0].message == [Num(k.dhtReport), Num(data[0]), Num(data[1]), Num(data[2]), Stamp(now)])
    ensures |data| >= 2 && data[0] == 0 ==>
      && (r.Deliver? <==> data[1] in reg.dht && |data| == 10)
      && (data[1] in reg.dht && |data| != 10 ==> r == Crash(BadFloat))
      && (r.Deliver? ==>
            r.events[0].message == [Num(k.dhtReport), Num(0), Num(data[1]), Float32(data[2..6]), Float32(data[6..]), Stamp(now)])
  {
    if |data| < 2 then Crash(MissingIndex)
    else if data[0] != 0 then
      if data[1] !in reg.dht then Crash(UnknownKey)
      else if |data| < 3 then Crash(MissingIndex)
      else Deliver([Call(reg.dht[data[1]], [Num(k.dhtReport), Num(data[0]), Num(data[1]), Num(data[2]), Stamp(now)])])
    else
      if |data| != 10 then Crash(BadFloat)
      else if data[1] !in reg.dht then Crash(UnknownKey)
      else Deliver([Call(reg.dht[data[1]],
                         [Num(k.dhtReport), Num(0), Num(data[1]), Float32(data[2..6]), Float32(data[6..]), Stamp(now)])])
  }

  /** The handler the dispatch table selected, applied to the payload. */
  function Handle(kind: ReportKind, k: Constants, reg: Registry, data: seq<Byte>, now: real): (r: Routed)
    ensures r.Abort? <==> kind == ServoFailure || kind == I2cShort || kind == I2cLong
    ensures r.Deliver? ==> |r.events| <= 1
  {
    match kind
    case LoopBack => LoopData(reg, data)
    case Debug => DebugData(data)
    case Digital => DigitalMessage(k, reg, data, now)
    case Analog => AnalogMessage(k, reg, data, now)
    case ServoFailure => ServoUnavailableReport(data)
    case I2cData => I2cReadReport(k, reg, data, now)
    case I2cShort => I2cByteCountReport(I2cTooFewBytes, data)
    case I2cLong => I2cByteCountReport(I2cTooManyBytes, data)
    case Sonar => SonarDistance(k, reg, data, now)
    case Dht => DhtReport(k, reg, data, now)
  }

  /** One packet of `_arduino_report_dispatcher`: `packet[0]` selects the
      handler in `report_dispatch`, which receives `packet[1:]`. Each packet
      invokes at most one callback. */
  function Route(k: Constants, reg: Registry, packet: seq<Byte>, now: real): (r: Routed)
    ensures packet == [] ==> r == Crash(MissingIndex)
    ensures packet != [] && packet[0] !in DispatchTable(k) ==> r == Crash(UnknownKey)
    ensures r.Deliver? ==> |r.events| <= 1
  {
    if packet == [] then Crash(MissingIndex)
    else if packet[0] !in DispatchTable(k) then Crash(UnknownKey)
    else Handle(DispatchTable(k)[packet[0]], k, reg, packet[1..], now)
  }

  /** Every report type of `report_dispatch` reaches its own built-in
      handler, which receives the rest of the packet. */
  lemma RouteSelects(k: Constants, reg: Registry, i: nat, packet: seq<Byte>, now: real)
    requires k.Valid() && i < |Entries(k)|
    requires packet != [] && packet[0] == Entries(k)[i].0
    ensures Route(k, reg, packet, now) == Handle(Entries(k)[i].1, k, reg, packet[1..], now)
  {
    assert packet[0] in DispatchTable(k) && DispatchTable(k)[packet[0]] == Entries(k)[i].1;
  }

  /** Why a run of the dispatcher ended: the shutdown flag, no complete packet
      left to read (the real reader would wait), a handler's deliberate
      RuntimeError, or an exception escaping a handler. */
  datatype Stop = Flagged | Starved | Fatal(error: Error) | Crashed(error: Error)

  datatype Run = Run(events: seq<Event>, stop: Stop)

  /** The handler result of each packet, the i-th handled at time `clock(n + i)`. */
  function Routes(k: Constants, reg: Registry, packets: seq<seq<Byte>>, clock: nat -> real, n: nat): (rs: seq<Routed>)
    ensures |rs| == |packets|
    ensures forall i :: 0 <= i < |packets| ==> rs[i] == Route(k, reg, packets[i], clock(n + i))
  {
    seq(|packets|, i requires 0 <= i < |packets| => Route(k, reg, packets[i], clock(n + i)))
  }

  /** The dispatcher's loop over handler results: each delivered packet's
      events follow the previous one's, and the first handler that raises
      ends the run. */
  function Collect(outcomes: seq<Routed>): (run: Run)
    ensures run.stop != Flagged
  {
    if outcomes == [] then Run([], Starved)
    else
      match outcomes[0]
      case Deliver(es) =>
        var rest := Collect(outcomes[1..]);
        Run(es + rest.events, rest.stop)
      case Abort(e) => Run([], Fatal(e))
      case Crash(e) => Run([], Crashed(e))
  }

  /** The dispatcher over a sequence of packets, the n-th of which is handled
      at time `clock(n)`: packets are handled strictly in order and each
      packet invokes at most one callback. */
  function RunFrames(k: Constants, reg: Registry, packets: seq<seq<Byte>>, clock: nat -> real, n: nat): (run: Run)
    ensures |run.events| <= |packets|
    ensures run.stop != Flagged
  {
    var rs := Routes(k, reg, packets, clock, n);
    CollectBound(rs);
    Collect(rs)
  }

  /** Each delivered result carries at most one callback, so a run has no
      more events than results. */
  lemma {:induction false} CollectBound(outcomes: seq<Routed>)
    requires forall i :: 0 <= i < |outcomes| ==> outcomes[i].Deliver? ==> |outcomes[i].events| <= 1
    ensures |Collect(outcomes).events| <= |outcomes|
  {
    if outcomes != [] && outcomes[0].Deliver? {
      CollectBound(outcomes[1..]);
    }
  }

  /** No handler among the first `j` results raised. */
  predicate DeliveredBefore(outcomes: seq<Routed>, j: int)
    requires 0 <= j <= |outcomes|
  {
    forall i :: 0 <= i < j ==> outcomes[i].Deliver?
  }

  /** The run ends at the first packet whose handler raises, with that
      handler's error, after the events of every packet before it; when no
      handler raises, the dispatcher waits for more input. */
  lemma {:induction false} CollectStops(outcomes: seq<Routed>)
    ensures DeliveredBefore(outcomes, |outcomes|) <==> Collect(outcomes).stop == Starved
    ensures forall j :: 0 <= j < |outcomes| && outcomes[j].Abort? && DeliveredBefore(outcomes, j) ==>
      Collect(outcomes).stop == Fatal(outcomes[j].error)
    ensures forall j :: 0 <= j < |outcomes| && outcomes[j].Crash? && DeliveredBefore(outcomes, j) ==>
      Collect(outcomes).stop == Crashed(outcomes[j].error)
  {
    if outcomes != [] {
      CollectStops(outcomes[1..]);
      assert forall i :: 1 <= i < |outcomes| ==> outcomes[i] == outcomes[1..][i - 1];
    }
  }

  /** Processing is sequential: when no handler for the results in `a`
      raises, collecting `a + b` yields a's events followed by b's. */
  lemma {:induction false} CollectAppend(a: seq<Routed>, b: seq<Routed>)
    requires Collect(a).stop == Starved
    ensures Collect(a + b) == Run(Collect(a).events + Collect(b).events, Collect(b).stop)
  {
    if a == [] {
      assert a + b == b;
    } else {
      var ab := a + b;
      assert ab[0] == a[0] && ab[1..] == a[1..] + b;
      assert a[0].Deliver?;
      var es := a[0].events;
      CollectAppend(a[1..], b);
      assert Collect(ab) == Run(es + Collect(a[1..] + b).events, Collect(a[1..] + b).stop);
      assert Collect(a).events == es + Collect(a[1..]).events;
    }
  }

  lemma RoutesAppend(k: Constants, reg: Registry, a: seq<seq<Byte>>, b: seq<seq<Byte>>, clock: nat -> real, n: nat)
    ensures Routes(k, reg, a + b, clock, n) == Routes(k, reg, a, clock, n) + Routes(k, reg, b, clock, n + |a|)
  {
    var ab, ra, rb := Routes(k, reg, a + b, clock, n), Routes(k, reg, a, clock, n), Routes(k, reg, b, clock, n + |a|);
    forall i | 0 <= i < |a + b|
      ensures ab[i] == (ra + rb)[i]
    {
      if i < |a| {
        assert (a + b)[i] == a[i];
        assert (ra + rb)[i] == ra[i];
      } else {
        var j := i - |a|;
        assert (a + b)[i] == b[j];
        assert (ra + rb)[i] == rb[j];
        assert n + i == n + |a| + j;
      }
    }
    assert |ab| == |ra + rb|;
  }

  /** Processing is sequential: when every packet of `a` is handled without
      error, running `a + b` yields a's events followed by b's, b starting at
      the clock reading after a's last packet. */
  lemma RunFramesAppend(k: Constants, reg: Registry, a: seq<seq<Byte>>, b: seq<seq<Byte>>,
                        clock: nat -> real, n: nat)
    requires RunFrames(k, reg, a, clock, n).stop == Starved
    ensures RunFrames(k, reg, a + b, clock, n)
      == Run(RunFrames(k, reg, a, clock, n).events + RunFrames(k, reg, b, clock, n + |a|).events,
             RunFrames(k, reg, b, clock, n + |a|).stop)
  {
    RoutesAppend(k, reg, a, b, clock, n);
    CollectAppend(Routes(k, reg, a, clock, n), Routes(k, reg, b, clock, n + |a|));
  }

  /** One more result after a run that is still waiting: a delivery appends
      its events, and a handler that raises ends the run there with the
      events so far, whatever follows. */
  lemma CollectNext(a: seq<Routed>, r: Routed, b: seq<Routed>)
    requires Collect(a).stop == Starved
    ensures r.Deliver? ==> Collect(a + [r]) == Run(Collect(a).events + r.events, Starved)
    ensures r.Abort? ==> Collect(a + ([r] + b)) == Run(Collect(a).events, Fatal(r.error))
    ensures r.Crash? ==> Collect(a + ([r] + b)) == Run(Collect(a).events, Crashed(r.error))
  {
    CollectAppend(a, [r]);
    CollectAppend(a, [r] + b);
    assert ([r] + b)[0] == r;
    assert [r][1..] == [];
    assert Collect(a).events + [] == Collect(a).events;
  }

  /** The handler result of a single packet handled at time `clock(n)`. */
  lemma RoutesOne(k: Constants, reg: Registry, packet: seq<Byte>, clock: nat -> real, n: nat)
    ensures Routes(k, reg, [packet], clock, n) == [Route(k, reg, packet, clock(n))]
  {
    assert Routes(k, reg, [packet], clock, n)[0] == Route(k, reg, packet, clock(n + 0));
  }

  /** A delivered packet after a run that is still waiting appends its
      events; the packet after `done` is handled at time `clock(|done|)`. */
  lemma RunFramesDeliver(k: Constants, reg: Registry, done: seq<seq<Byte>>, packet: seq<Byte>,
                         clock: nat -> real, r: Routed)
    requires RunFrames(k, reg, done, clock, 0).stop == Starved
    requires r == Route(k, reg, packet, clock(|done|)) && r.Deliver?
    ensures RunFrames(k, reg, done + [packet], clock, 0)
         == Run(RunFrames(k, reg, done, clock, 0).events + r.events, Starved)
  {
    RoutesAppend(k, reg, done, [packet], clock, 0);
    RoutesOne(k, reg, packet, clock, |done|);
    CollectNext(Routes(k, reg, done, clock, 0), r, []);
  }

  /** A packet whose handler raises, after a run that is still waiting,
      ends the run with that error, whatever follows it. */
  lemma RunFramesRaise(k: Constants, reg: Registry, done: seq<seq<Byte>>, packet: seq<Byte>,
                       rest: seq<seq<Byte>>, clock: nat -> real, r: Routed)
    requires RunFrames(k, reg, done, clock, 0).stop == Starved
    requires r == Route(k, reg, packet, clock(|done|)) && !r.Deliver?
    ensures RunFrames(k, reg, done + ([packet] + rest), clock, 0)
         == Run(RunFrames(k, reg, done, clock, 0).events, if r.Abort? then Fatal(r.error) else Crashed(r.error))
  {
    var head, tail := Routes(k, reg, done, clock, 0), Routes(k, reg, rest, clock, |done| + 1);
    RoutesSplit(k, reg, done, packet, rest, clock);
    CollectNext(head, r, tail);
  }

  /** The results of the packets before, at and after one packet. */
  lemma RoutesSplit(k: Constants, reg: Registry, done: seq<seq<Byte>>, packet: seq<Byte>,
                    rest: seq<seq<Byte>>, clock: nat -> real)
    ensures Routes(k, reg, done + ([packet] + rest), clock, 0)
         == Routes(k, reg, done, clock, 0) + ([Route(k, reg, packet, clock(|done|))] + Routes(k, reg, rest, clock, |done| + 1))
  {
    RoutesAppend(k, reg, done, [packet] + rest, clock, 0);
    RoutesAppend(k, reg, [packet], rest, clock, |done|);
    RoutesOne(k, reg, packet, clock, |done|);
  }

  /** One read of the dispatcher after the packets `done`, all delivered:
      no complete packet ends the run waiting; a packet whose handler raises
      ends it with that error; a delivered packet joins `done`. */
  lemma DispatcherStep(k: Constants, reg: Registry, input: seq<Byte>, clock: nat -> real,
                       done: seq<seq<Byte>>, rest: seq<Byte>, delivered: seq<Event>)
    requires Deframe(input) == done + Deframe(rest)
    requires RunFrames(k, reg, done, clock, 0) == Run(delivered, Starved)
    ensures NextFrame(rest).Incomplete? ==> RunFrames(k, reg, Deframe(input), clock, 0) == Run(delivered, Starved)
    ensures NextFrame(rest).Packet? ==>
      var packet := NextFrame(rest).body;
      var r := Route(k, reg, packet, clock(|done|));
      && (r.Abort? ==> RunFrames(k, reg, Deframe(input), clock, 0) == Run(delivered, Fatal(r.error)))
      && (r.Crash? ==> RunFrames(k, reg, Deframe(input), clock, 0) == Run(delivered, Crashed(r.error)))
      && (r.Deliver? ==>
            && Deframe(input) == done + [packet] + Deframe(NextFrame(rest).rest)
            && RunFrames(k, reg, done + [packet], clock, 0) == Run(delivered + r.events, Starved))
  {
    match NextFrame(rest)
    case Incomplete =>
      assert done + Deframe(rest) == done;
    case Packet(packet, remaining) =>
      assert Deframe(rest) == [packet] + Deframe(remaining);
      assert done + ([packet] + Deframe(remaining)) == done + [packet] + Deframe(remaining);
      var r := Route(k, reg, packet, clock(|done|));
      if r.Deliver? {
        RunFramesDeliver(k, reg, done, packet, clock, r);
      } else {
        RunFramesRaise(k, reg, done, packet, Deframe(remaining), clock, r);
      }
  }

  /** The read loop of `_arduino_report_dispatcher`: a length byte, then
      that many bytes, then the handler the report type selects, until no
      complete packet is left or a handler raises. */
  method Dispatcher(k: Constants, reg: Registry, input: seq<Byte>, clock: nat -> real) returns (run: Run)
    ensures run == RunFrames(k, reg, Deframe(input), clock, 0)
  {
    var rest := input;
    var n: nat := 0;
    var delivered: seq<Event> := [];
    ghost var done: seq<seq<Byte>> := [];
    while true
      invariant Deframe(input) == done + Deframe(rest)
      invariant n == |done|
      invariant RunFrames(k, reg, done, clock, 0) == Run(delivered, Starved)
      decreases |rest|
    {
      DispatcherStep(k, reg, input, clock, done, rest, delivered);
      match NextFrame(rest)
      case Incomplete =>
        return Run(delivered, Starved);
      case Packet(packet, remaining) =>
        match Route(k, reg, packet, clock(n))
        case Abort(e) =>
          return Run(delivered, Fatal(e));
        case Crash(e) =>
          return Run(delivered, Crashed(e));
        case Deliver(es) =>
          delivered := delivered + es;
          done := done + [packet];
          rest := remaining;
          n := n + 1;
    }
  }

  /** An analog report as the board frames it: length 4, the report type,
      the pin, then the value's high and low bytes. */
  function AnalogReportFrame(k: Constants, pin: Byte, hi: Byte, lo: Byte): (f: seq<Byte>)
    requires k.Valid()
    ensures WellFormed(f) && f[1..] == [k.analogReport, pin, hi, lo]
  {
    assert IsByte(k.ReportTypes()[3]);
    [4, k.analogReport, pin, hi, lo]
  }

  function AnalogReportFrames(k: Constants, samples: seq<(Byte, Byte, Byte)>): (fs: seq<seq<Byte>>)
    requires k.Valid()
    ensures |fs| == |samples|
  {
    seq(|samples|, i requires 0 <= i < |samples| => AnalogReportFrame(k, samples[i].0, samples[i].1, samples[i].2))
  }

  /** An analog report for a registered pin invokes that pin's callback with
      the value its two bytes encode. */
  lemma AnalogRouted(k: Constants, reg: Registry, pin: Byte, hi: Byte, lo: Byte, now: real)
    requires k.Valid()
    requires pin in reg.analog
    ensures Route(k, reg, AnalogReportFrame(k, pin, hi, lo)[1..], now)
      == Deliver([Call(reg.analog[pin], [Num(k.atAnalog), Num(pin), Num(Join16(hi, lo)), Stamp(now)])])
  {
    assert Entries(k)[3] == (k.analogReport, Analog);
    assert DispatchTable(k)[k.analogReport] == Analog;
    assert AnalogReportFrame(k, pin, hi, lo)[1..][1..] == [pin, hi, lo];
  }

  /** Results that each deliver one event collect into those events, in order,
      and leave the dispatcher waiting. */
  lemma {:induction false} CollectSingles(outcomes: seq<Routed>)
    requires forall i :: 0 <= i < |outcomes| ==> outcomes[i].Deliver? && |outcomes[i].events| == 1
    ensures Collect(outcomes).stop == Starved && |Collect(outcomes).events| == |outcomes|
    ensures forall i :: 0 <= i < |outcomes| ==> Collect(outcomes).events[i] == outcomes[i].events[0]
  {
    if outcomes != [] {
      CollectSingles(outcomes[1..]);
    }
  }

  /** A stream of analog reports for registered pins is delivered one callback
      per report, in arrival order, each with its pin's callback and the
      16-bit value rebuilt from the report's two bytes; then the dispatcher
      waits for more input. */
  lemma AnalogReportsDelivered(k: Constants, reg: Registry, samples: seq<(Byte, Byte, Byte)>,
                               clock: nat -> real)
    requires k.Valid()
    requires forall i :: 0 <= i < |samples| ==> samples[i].0 in reg.analog
    ensures var run := RunFrames(k, reg, Deframe(Flatten(AnalogReportFrames(k, samples))), clock, 0);
      && run.stop == Starved && |run.events| == |samples|
      && forall i :: 0 <= i < |samples| ==> run.events[i] == Call(reg.analog[samples[i].0],
           [Num(k.atAnalog), Num(samples[i].0), Num(Join16(samples[i].1, samples[i].2)), Stamp(clock(i))])
  {
    var frames := AnalogReportFrames(k, samples);
    DeframeFlatten(frames);
    var bodies := Deframe(Flatten(frames));
    var outcomes := Routes(k, reg, bodies, clock, 0);
    forall i | 0 <= i < |samples|
      ensures outcomes[i] == Deliver([Call(reg.analog[samples[i].0],
        [Num(k.atAnalog), Num(samples[i].0), Num(Join16(samples[i].1, samples[i].2)), Stamp(clock(i))])])
    {
      var (pin, hi, lo) := samples[i];
      assert bodies[i] == AnalogReportFrame(k, pin, hi, lo)[1..];
      AnalogRouted(k, reg, pin, hi, lo, clock(i));
    }
    CollectSingles(outcomes);
  }
}
