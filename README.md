# Telemetrix AIO protocol engine in Dafny

This project models the client side of the Telemetrix protocol as
implemented by the `TelemetrixAIO` class of `telemetrix_aio/telemetrix_aio.py`:
the host talks to a Telemetrix4Arduino sketch over a serial port or a TCP
socket, sends length-prefixed commands, and runs a dispatcher task that
reads length-prefixed reports and hands each one to the handler selected by
its report type, which in turn invokes the user's callback.

The model is organised as the program is:

- `wire.dfy` (module `Wire`): bytes, the length-prefixed framing of
  `_send_command` and of the dispatcher's reader, and the 16-bit
  split/join used by several commands and reports.
- `protocol.dfy` (module `Protocol`): the protocol constants (held
  abstractly, with the validity conditions the code relies on), the errors
  the client raises, and the `report_dispatch` table.
- `commands.dfy` (module `Commands`): how the command lists are built.
- `reports.dfy` (module `Reports`): the report handlers, the routing of one
  packet, and the dispatcher loop as an imperative method proved against
  a pure description of a whole run.
- `discovery.dfy` (module `Discovery`): how `_find_arduino` picks the board
  out of the replies to ARE_U_THERE.
- `session.dfy` (module `Session`): the client's state and every public
  and private operation as a function from the old state to the new state
  and the outcome (`Pass` or `Fail(error)`), with the invariant those
  operations keep.
- `client.dfy` (module `Client`): the class `TelemetrixAio`, whose fields
  are the object's fields and whose methods update them in place; each
  method is proved to do exactly what the matching `Session` function says.

The protocol's numeric codes are not fixed in the model: a client carries a
`Constants` value and every property holds for any choice in which the
codes are bytes and the report types and pin states are distinct. Frames
written to the board are recorded in the state as `(link, bytes)` pairs,
and callback invocations as `Call(handler, items)` events; callbacks
themselves are opaque identifiers.

Where the documentation of the library and the code disagree, the model
follows the code:

- A DHT or sonar device is refused once the count reaches the maximum
  less one (`count < MAX - 1` is the guard), so at most `MAX - 1` devices
  of each kind can be registered.
- `shutdown` does not check whether it already ran: each call sets the
  flag and writes STOP_ALL_REPORTS again (`Session.ShutdownRepeats`).
- `shutdown` is not always silent: on a TCP link before the dispatcher task
  exists, `self.the_task.cancel()` raises AttributeError, which the
  `except (RuntimeError, SerialException)` clause does not catch.
- A firmware reply of one to three bytes raises IndexError (only an empty
  reply is the RuntimeError for a timeout).
- The digital callback list starts with DIGITAL_REPORT, the report type.
- When a raise is guarded by `shutdown_on_exception`, `shutdown` runs
  first; an AttributeError it raises then replaces the intended error.

## Model

`Wire.Deframe` and `Session.Send` are plain definitions with no row of
their own: what the reader returns is stated by `Wire.DeframeFlatten`,
`Wire.NextFrame` and `Reports.DispatcherStep`, and what a send does by
`Session.SendOutcome` and `Session.Written`.

| member | source | states |
|---|---|---|
| Wire.Encode | telemetrix_aio/telemetrix_aio.py:1120-1123 | a frame exists exactly when the command is shorter than 256 and every element is a byte; the frame's first byte counts the rest, which is the command |
| Wire.NextFrame | telemetrix_aio/telemetrix_aio.py:919-931 | a packet is read exactly when the length byte and that many following bytes are present, and the stream is the length, the packet and the rest |
| Wire.DeframeFlatten | telemetrix_aio/telemetrix_aio.py:914-931 | reading a stream of well-formed frames back yields each frame's body, in order and no more (framing is undone by the reader) |
| Wire.Split16 | telemetrix_aio/telemetrix_aio.py:353-354 | the high and low parts rebuild the value; the low part is always a byte, and the high part is a byte exactly for values in 0..65535 |
| Wire.Join16 | telemetrix_aio/telemetrix_aio.py:972-972 | two bytes join to a value in 0..65535 whose quotient and remainder by 256 are those bytes |
| Wire.ToBytes2Big | telemetrix_aio/telemetrix_aio.py:712-713 | `to_bytes(2, 'big')` succeeds exactly for 0..65535 (OverflowError otherwise) and its two bytes rebuild the value |
| Protocol.TableOf | telemetrix_aio/telemetrix_aio.py:142-154 | the dictionary built by successive updates has exactly the entries' keys |
| Protocol.TableOfLookup | telemetrix_aio/telemetrix_aio.py:142-154 | with distinct keys every key finds the handler it was added with |
| Protocol.DispatchTable | telemetrix_aio/telemetrix_aio.py:142-154 | `report_dispatch` has exactly the ten report types as keys and, for valid constants, each selects its own built-in handler |
| Commands.AnalogWriteCommand | telemetrix_aio/telemetrix_aio.py:353-355 | four elements: opcode, pin and two parts that rebuild the value; all bytes exactly when the pin is a byte and the value fits 16 bits |
| Commands.SetPinModeCommand | telemetrix_aio/telemetrix_aio.py:780-798 | a command exists exactly for the four pin states; it starts with opcode, pin, state; inputs add reporting-enabled, output adds nothing, analog adds the differential's high and low byte parts (`Split16`) before the flag; every element is a byte exactly when the pin is, and for analog the differential fits 16 bits |
| Commands.ServoAttachCommand | telemetrix_aio/telemetrix_aio.py:712-716 | exists exactly when both pulse widths fit 16 bits; six elements, opcode and pin then two byte pairs that rebuild the two widths |
| Commands.I2cReadCommand | telemetrix_aio/telemetrix_aio.py:477-488 | six elements: opcode, address, register (0 when absent), count, the stop flag as 1 when stopping and 0 otherwise, port |
| Commands.I2cWriteCommand | telemetrix_aio/telemetrix_aio.py:515-518 | the header opcode, argument count, address, port, followed by exactly the arguments in order |
| Reports.LoopData | telemetrix_aio/telemetrix_aio.py:944-951 | the loop-back callback, when set, is called once with the data; nothing else happens |
| Reports.DebugData | telemetrix_aio/telemetrix_aio.py:953-961 | needs three bytes (IndexError otherwise); produces one debug line with the device id and the 16-bit value bytes 1 and 2 encode |
| Reports.DigitalMessage | telemetrix_aio/telemetrix_aio.py:1023-1037 | needs two bytes; delivers exactly when the pin has a callback (KeyError otherwise), calling it with report type, pin, value and time |
| Reports.AnalogMessage | telemetrix_aio/telemetrix_aio.py:963-979 | needs three bytes; delivers exactly when the pin has a callback (KeyError otherwise), with the 16-bit value rebuilt from its two bytes |
| Reports.ServoUnavailableReport | telemetrix_aio/telemetrix_aio.py:1039-1047 | always ends the dispatcher with the servo error (IndexError when the pin byte is missing) |
| Reports.I2cByteCountReport | telemetrix_aio/telemetrix_aio.py:1074-1092 | always ends the dispatcher with the too-few or too-many error (IndexError when the two bytes are missing) |
| Reports.I2cReadReport | telemetrix_aio/telemetrix_aio.py:1049-1072 | the port byte chooses the i2c or i2c2 callback; an empty slot is a TypeError; otherwise the callback receives the report type, every data byte and the time |
| Reports.SonarDistance | telemetrix_aio/telemetrix_aio.py:1094-1109 | an empty report is IndexError, an unregistered trigger pin KeyError, a registered pin with fewer than three bytes IndexError; otherwise the callback gets report type, pin, the 16-bit distance (high byte first) and time |
| Reports.DhtReport | telemetrix_aio/telemetrix_aio.py:981-1021 | needs two bytes (IndexError); an error report is KeyError for an unregistered pin, IndexError without the error byte, and otherwise calls the pin's callback with the error code; a data report is struct.error unless exactly ten bytes (checked before the lookup), then KeyError for an unregistered pin, else the callback gets the two four-byte float fields |
| Reports.Handle | telemetrix_aio/telemetrix_aio.py:1039-1092 | only the servo-unavailable and the two i2c byte-count handlers end the dispatcher with a guarded RuntimeError, and always do; every other handler delivers or crashes, and a delivering handler invokes at most one callback |
| Reports.Route | telemetrix_aio/telemetrix_aio.py:933-937 | an empty packet is IndexError, an unknown report type KeyError, and a delivering handler invokes at most one callback |
| Reports.RouteSelects | telemetrix_aio/telemetrix_aio.py:933-937 | a packet whose first byte is one of the ten report types reaches that type's own built-in handler, which receives the rest of the packet |
| Reports.Collect | telemetrix_aio/telemetrix_aio.py:914-938 | a run over handler results never ends on the shutdown flag (that check is outside a run); its stop and events are characterised by `Reports.CollectStops`, `Reports.CollectAppend` and `Reports.CollectNext` |
| Reports.RunFrames | telemetrix_aio/telemetrix_aio.py:914-938 | a run over the packets invokes at most one callback per packet and never stops on the shutdown flag |
| Reports.CollectBound | telemetrix_aio/telemetrix_aio.py:914-938 | handlers that call at most one callback produce at most as many events as packets |
| Reports.CollectStops | telemetrix_aio/telemetrix_aio.py:914-938 | the run drains its input exactly when every handler delivered, and the first raising handler decides the stop and its error |
| Reports.CollectAppend | telemetrix_aio/telemetrix_aio.py:914-938 | running two batches of packets one after the other is running them together |
| Reports.RoutesAppend | telemetrix_aio/telemetrix_aio.py:914-938 | routing two batches keeps the clock readings numbered across them |
| Reports.RunFramesAppend | telemetrix_aio/telemetrix_aio.py:914-938 | a run that drained its packets continues with the next batch's run |
| Reports.CollectNext | telemetrix_aio/telemetrix_aio.py:933-937 | after a drained prefix, a delivering packet adds its events and a raising one stops the run with its error, whatever follows |
| Reports.RoutesOne | telemetrix_aio/telemetrix_aio.py:933-937 | one packet is routed with the clock reading at its position |
| Reports.RunFramesDeliver | telemetrix_aio/telemetrix_aio.py:933-938 | one more delivered packet extends the run's events by that packet's events |
| Reports.RunFramesRaise | telemetrix_aio/telemetrix_aio.py:933-937 | a packet whose handler raises ends the run there, whatever packets follow |
| Reports.RoutesSplit | telemetrix_aio/telemetrix_aio.py:914-938 | routing before, at and after one packet keeps each packet's clock reading |
| Reports.DispatcherStep | telemetrix_aio/telemetrix_aio.py:919-937 | reading one more packet either ends the input or extends the run over the packets read so far |
| Reports.Dispatcher | telemetrix_aio/telemetrix_aio.py:914-938 | the loop's result is the run over all packets the input frames, with the events in order and the first failure as the stop |
| Reports.AnalogReportFrame | telemetrix_aio/telemetrix_aio.py:963-979 | an analog report frame is well formed and carries report type, pin and the two value bytes |
| Reports.AnalogReportFrames | telemetrix_aio/telemetrix_aio.py:963-979 | one frame per sample |
| Reports.AnalogRouted | telemetrix_aio/telemetrix_aio.py:963-979 | an analog report for a registered pin calls that pin's callback with the 16-bit value |
| Reports.CollectSingles | telemetrix_aio/telemetrix_aio.py:914-938 | when every packet delivers one call, the run drains and its events are those calls in packet order |
| Reports.AnalogReportsDelivered | telemetrix_aio/telemetrix_aio.py:914-979 | a stream of analog reports for registered pins is read to its end and delivers one call per report, in order, each with its pin's callback and value |
| Discovery.Select | telemetrix_aio/telemetrix_aio.py:283-299 | the search stops at the first port whose reply names the instance (Found), or at a short reply (IndexError), after passing every earlier port; NotFound exactly when every port was passed |
| Discovery.SelectAt | telemetrix_aio/telemetrix_aio.py:283-299 | a reply that is not passed over, after ports that were, ends the search at that port |
| Session.SendOutcome | telemetrix_aio/telemetrix_aio.py:1111-1128 | a send succeeds exactly when the frame can be built and a transport exists; ValueError is checked before AttributeError |
| Session.Written | telemetrix_aio/telemetrix_aio.py:1111-1128 | a successful send writes one well-formed frame to the current link; a failed one writes nothing |
| Session.SendKeepsInv | telemetrix_aio/telemetrix_aio.py:1111-1128 | sending keeps the client invariant |
| Session.StopLog | telemetrix_aio/telemetrix_aio.py:829-840 | shutdown writes one STOP_ALL_REPORTS frame to the link when there is one, and nothing otherwise |
| Session.Shutdown | telemetrix_aio/telemetrix_aio.py:823-850 | sets the flag, writes STOP_ALL_REPORTS, closes the serial port or cancels the task; only a TCP link without a task raises (AttributeError) |
| Session.ShutdownKeepsInv | telemetrix_aio/telemetrix_aio.py:823-850 | shutdown keeps the client invariant |
| Session.ShutdownRepeats | telemetrix_aio/telemetrix_aio.py:823-835 | a second shutdown on a serial link writes STOP_ALL_REPORTS again and succeeds |
| Session.Raise | telemetrix_aio/telemetrix_aio.py:553-555 | a guarded raise fails with the error, except that when configured to shut down on a TCP link without a task, shutdown's AttributeError replaces it; when configured it sets the flag, writes STOP_ALL_REPORTS and closes the serial port or cancels the task; nothing else in the state changes, and unconfigured it changes nothing |
| Session.RaiseKeepsInv | telemetrix_aio/telemetrix_aio.py:553-555 | raising keeps the client invariant |
| Session.SetPinModeI2c | telemetrix_aio/telemetrix_aio.py:644-673 | afterwards the port is active and the other port unchanged; an already active port changes nothing; otherwise I2C_BEGIN is sent for the port |
| Session.SetPinModeI2cIdempotent | telemetrix_aio/telemetrix_aio.py:658-673 | activating a port twice is activating it once |
| Session.I2cReadRequest | telemetrix_aio/telemetrix_aio.py:435-489 | succeeds only for an active port with a callback; an inactive port or a missing callback raises; otherwise the callback is stored for the port and the read command sent |
| Session.I2cReadRequestKeepsInv | telemetrix_aio/telemetrix_aio.py:435-489 | a read request keeps the invariant, in particular that callbacks are held only for active ports |
| Session.I2cReadNeedsActivation | telemetrix_aio/telemetrix_aio.py:455-470 | a read request on a port never activated fails and stores no callback |
| Session.I2cWrite | telemetrix_aio/telemetrix_aio.py:491-520 | an inactive port raises; otherwise the header and the arguments are sent, which succeeds only for fewer than 252 arguments |
| Session.LoopBack | telemetrix_aio/telemetrix_aio.py:522-540 | a missing callback raises; otherwise the callback is stored and the character's code sent, the outcome being the send's own (ValueError for a code above 255, AttributeError without a link) |
| Session.SetAnalogScanInterval | telemetrix_aio/telemetrix_aio.py:542-555 | an interval in 0..255 is sent as is, with the send's own outcome (AttributeError without a link); any other is a guarded raise |
| Session.SetPinMode | telemetrix_aio/telemetrix_aio.py:747-798 | a non-output mode without a callback raises; otherwise the callback is registered by pin and then either the mode command is sent, changing nothing but the two callback tables and the frame log, or an unknown state is a guarded raise after registration; success needs a known pin state |
| Session.Register | telemetrix_aio/telemetrix_aio.py:765-778 | registration changes only the digital and analog callback tables, and none for output |
| Session.SetPinModeKeepsInv | telemetrix_aio/telemetrix_aio.py:747-798 | setting a pin mode keeps the client invariant |
| Session.SetPinModeDht | telemetrix_aio/telemetrix_aio.py:675-698 | a missing callback raises; below MAX_DHTS - 1 the count grows by one, the callback is stored and DHT_NEW sent; at or above it the request is refused |
| Session.SetPinModeSonar | telemetrix_aio/telemetrix_aio.py:719-745 | a missing callback raises; below MAX_SONARS - 1 the count grows by one, the callback is stored and SONAR_NEW sent; at or above it the request is refused |
| Session.SetPinModeServo | telemetrix_aio/telemetrix_aio.py:700-717 | pulse widths outside 16 bits raise OverflowError before anything is sent; otherwise the attach command is sent |
| Session.ProbedAt | telemetrix_aio/telemetrix_aio.py:283-299 | a search that stops at port j has probed exactly j + 1 ports |
| Session.ProbeFrame | telemetrix_aio/telemetrix_aio.py:286-288 | the ARE_U_THERE probe always goes through and writes exactly one frame to that port |
| Session.ProbingNext | telemetrix_aio/telemetrix_aio.py:283-288 | probing one more port sends ARE_U_THERE to it after the earlier ports |
| Session.ProbesSnoc | telemetrix_aio/telemetrix_aio.py:283-288 | the probes to n ports are the probes to n - 1 ports and one more |
| Session.ProbingLog | telemetrix_aio/telemetrix_aio.py:283-299 | after probing n ports the log has grown by exactly their probes, the link is the last port probed, and nothing else changed |
| Session.StartReporting | telemetrix_aio/telemetrix_aio.py:207-231 | succeeds exactly when the firmware reply has four bytes; then ENABLE_ALL_REPORTS is sent, the task started and RESET sent; an empty reply is the timeout error and a short one IndexError |
| Session.StartReportingKeepsInv | telemetrix_aio/telemetrix_aio.py:207-231 | starting the reporting keeps the client invariant |
| Session.ProbingStep | telemetrix_aio/telemetrix_aio.py:283-288 | opening the next port and sending ARE_U_THERE is one more probing step and keeps the invariant |
| Session.ProbingKeepsInv | telemetrix_aio/telemetrix_aio.py:283-299 | probing any number of ports keeps the client invariant |
| Session.FindArduino | telemetrix_aio/telemetrix_aio.py:242-299 | the selected port decides: found goes on to start reporting on it, a short reply is IndexError, none is a raise; success means the board was found, the link is that port and the task runs |
| Session.FindArduinoKeepsInv | telemetrix_aio/telemetrix_aio.py:242-299 | discovery keeps the client invariant |
| Session.StartAio | telemetrix_aio/telemetrix_aio.py:162-231 | TCP goes straight to the firmware handshake, discovery probes first; success means the task runs and the firmware was read |
| Session.StartAioKeepsInv | telemetrix_aio/telemetrix_aio.py:162-231 | start-up keeps the client invariant |
| Session.Dispatch | telemetrix_aio/telemetrix_aio.py:901-938 | a set flag stops at once; otherwise the run's events are appended; after a handler's guarded error, when configured, the flag is set, STOP_ALL_REPORTS written and the serial port closed or the task cancelled, and nothing else changes; otherwise only the events change |
| Session.DispatchKeepsInv | telemetrix_aio/telemetrix_aio.py:901-938 | running the dispatcher keeps the client invariant |
| Session.EventsKeepInv | telemetrix_aio/telemetrix_aio.py:914-938 | invoking callbacks does not affect the invariant |
| Session.ShutdownStopsDispatch | telemetrix_aio/telemetrix_aio.py:914-916 | after shutdown the dispatcher stops without reading anything |
| Session.DhtCountBounded | telemetrix_aio/telemetrix_aio.py:689-698 | any sequence of DHT requests keeps the count at most MAX_DHTS - 1 and never below where it was |
| Client.TelemetrixAio.constructor | telemetrix_aio/telemetrix_aio.py:106-154 | a new client has no link, no callbacks, no devices, no task, and satisfies the invariant |
| Client.TelemetrixAio.SendCommand | telemetrix_aio/telemetrix_aio.py:1111-1128 | writes the frame in place exactly as `Session.Send` describes and keeps the invariant |
| Client.TelemetrixAio.Shutdown | telemetrix_aio/telemetrix_aio.py:823-850 | updates the fields exactly as `Session.Shutdown` describes and keeps the invariant |
| Client.TelemetrixAio.StopReports | telemetrix_aio/telemetrix_aio.py:829-840 | sets the flag and writes STOP_ALL_REPORTS to the link, changing nothing else |
| Client.TelemetrixAio.CloseLink | telemetrix_aio/telemetrix_aio.py:836-850 | closes the serial port or cancels the task and changes nothing else; a TCP link without a task raises AttributeError |
| Client.TelemetrixAio.Raise | telemetrix_aio/telemetrix_aio.py:553-555 | performs a guarded raise as `Session.Raise` describes |
| Client.TelemetrixAio.AnalogWrite | telemetrix_aio/telemetrix_aio.py:344-356 | sends the analog write command and keeps the invariant |
| Client.TelemetrixAio.DigitalWrite | telemetrix_aio/telemetrix_aio.py:358-368 | sends DIGITAL_WRITE with pin and value and keeps the invariant |
| Client.TelemetrixAio.I2cReadRequest | telemetrix_aio/telemetrix_aio.py:435-489 | performs `Session.I2cReadRequest` in place |
| Client.TelemetrixAio.I2cRead | telemetrix_aio/telemetrix_aio.py:370-399 | a missing callback raises; otherwise a read request that stops the transmission |
| Client.TelemetrixAio.I2cReadRestartTransmission | telemetrix_aio/telemetrix_aio.py:401-433 | a missing callback raises; otherwise a read request without a stop |
| Client.TelemetrixAio.I2cWrite | telemetrix_aio/telemetrix_aio.py:491-520 | performs `Session.I2cWrite` in place, building the command in a loop |
| Client.TelemetrixAio.LoopBack | telemetrix_aio/telemetrix_aio.py:522-540 | performs `Session.LoopBack` in place |
| Client.TelemetrixAio.SetAnalogScanInterval | telemetrix_aio/telemetrix_aio.py:542-555 | performs `Session.SetAnalogScanInterval` in place |
| Client.TelemetrixAio.SetPinMode | telemetrix_aio/telemetrix_aio.py:747-798 | performs `Session.SetPinMode` in place |
| Client.TelemetrixAio.SetPinModeAnalogInput | telemetrix_aio/telemetrix_aio.py:557-582 | sets analog mode with the differential and the callback |
| Client.TelemetrixAio.SetPinModeAnalogOutput | telemetrix_aio/telemetrix_aio.py:584-593 | sets output mode with no callback |
| Client.TelemetrixAio.SetPinModeDigitalInput | telemetrix_aio/telemetrix_aio.py:595-610 | sets input mode with the callback |
| Client.TelemetrixAio.SetPinModeDigitalInputPullup | telemetrix_aio/telemetrix_aio.py:612-632 | sets pull-up input mode with the callback |
| Client.TelemetrixAio.SetPinModeDigitalOutput | telemetrix_aio/telemetrix_aio.py:634-641 | sets output mode with no callback |
| Client.TelemetrixAio.SetPinModeI2c | telemetrix_aio/telemetrix_aio.py:644-673 | performs `Session.SetPinModeI2c` in place |
| Client.TelemetrixAio.SetPinModeDht | telemetrix_aio/telemetrix_aio.py:675-698 | performs `Session.SetPinModeDht` in place |
| Client.TelemetrixAio.SetPinModeServo | telemetrix_aio/telemetrix_aio.py:700-717 | performs `Session.SetPinModeServo` in place |
| Client.TelemetrixAio.SetPinModeSonar | telemetrix_aio/telemetrix_aio.py:719-745 | performs `Session.SetPinModeSonar` in place |
| Client.TelemetrixAio.StartReporting | telemetrix_aio/telemetrix_aio.py:207-231 | performs `Session.StartReporting` in place |
| Client.TelemetrixAio.AskPort | telemetrix_aio/telemetrix_aio.py:283-288 | opens the next port and sends it ARE_U_THERE: one more probing step |
| Client.TelemetrixAio.AskPorts | telemetrix_aio/telemetrix_aio.py:281-299 | the loop finds the port `Discovery.Select` picks and has probed exactly the ports up to it |
| Client.TelemetrixAio.FindArduino | telemetrix_aio/telemetrix_aio.py:242-299 | performs `Session.FindArduino` in place |
| Client.TelemetrixAio.StartAio | telemetrix_aio/telemetrix_aio.py:162-231 | performs `Session.StartAio` in place |
| Client.TelemetrixAio.ReportDispatcher | telemetrix_aio/telemetrix_aio.py:901-938 | runs the dispatcher over the input in place as `Session.Dispatch` describes |

## Left out

- Asynchronous scheduling: every `await` is taken to complete in order, and
  `asyncio.sleep` / `time.sleep` pauses are not modelled. The dispatcher
  runs when `ReportDispatcher` is called rather than interleaved with
  commands.
- The serial and socket transports and `serial.tools.list_ports`: the
  ports that opened are represented only by their replies to ARE_U_THERE,
  in the order they are tried, and the bytes the board sends are an input
  sequence. Ports that fail to open are therefore not modelled.
- Reading from a closed stream: the dispatcher's input simply runs out
  (`Starved`); the program would wait for more bytes. The
  `except TypeError: continue` around the length read is not modelled.
- `_manual_open` (a COM port given to the constructor) is not part of this
  model; `start_aio` is modelled for discovery and for TCP only.
- The time stamps come from `time.time()`: the model takes the clock as a
  parameter giving the reading for the n-th packet.
- DHT humidity and temperature are kept as their four little-endian bytes,
  not decoded as IEEE floats.
- `reset_input_buffer`, the actual closing of the serial port, and
  `loop.stop()` under `close_loop_on_shutdown` leave only the `closed` and
  `taskCancelled` flags; writes after a close are not refused.
- `KeyboardInterrupt` handling, the informational prints (the port-search
  messages and the firmware version printout at
  telemetrix_aio/telemetrix_aio.py:220-221; the debug-print report is
  modelled as a `DebugLine` event) and `autostart` (the constructor does
  not call `start_aio` in the model).
- The Python-version guard at the start of `__init__`
  (telemetrix_aio/telemetrix_aio.py:79-86): the interpreter version is
  outside the model, which describes a client that was constructed.
- Callbacks are opaque identifiers that are assumed callable; what a
  callback does is not modelled.
- `servo_detach`, `servo_write`, `disable_all_reporting`,
  `disable_analog_reporting`, `disable_digital_reporting`,
  `enable_analog_reporting` and `enable_digital_reporting` are not
  modelled: each builds a fixed-shape command and calls `_send_command`,
  which is modelled.
- Session.LoopBack: the start character is a Dafny `char`, so the
  TypeError that `ord()` raises, before the callback is stored, for an
  argument that is not a single character is not modelled.
- Python's default arguments (`min_pulse=544`, `max_pulse=2400`,
  `differential=0`, `i2c_port=0`, `register=None` and the like): every
  operation of the model takes all of its arguments explicitly.
- `Session.Dispatch`: a handler that raises outside the guarded
  `shutdown_on_exception` path (IndexError, KeyError, TypeError) ends the
  run as `Crashed` and does not shut down, as in the code; what asyncio
  then does with the failed task is not modelled.
