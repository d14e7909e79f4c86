/** The protocol's vocabulary: the codes of `PrivateConstants`, the errors the
    client raises, and the table that maps a report type to its handler. */
module Protocol {
  import opened Wire

  /** The values of `PrivateConstants` that the client uses. Their numeric
      values are not part of this model, so every client carries one such
      value and the properties hold for any choice that is `Valid()`. */
  datatype Constants = Constants(
    // command opcodes
    loopCommand: int, setPinMode: int, digitalWrite: int, analogWrite: int,
    getFirmwareVersion: int, areYouThere: int, servoAttach: int,
    i2cBegin: int, i2cRead: int, i2cWrite: int, sonarNew: int, dhtNew: int,
    stopAllReports: int, setAnalogScanningInterval: int,
    enableAllReports: int, reset: int,
    // report types (the loop-back report reuses `loopCommand`)
    debugPrint: int, digitalReport: int, analogReport: int, servoUnavailable: int,
    i2cReadReport: int, i2cTooFewBytes: int, i2cTooManyBytes: int,
    sonarDistance: int, dhtReport: int,
    // pin states
    atInput: int, atOutput: int, atInputPullup: int, atAnalog: int,
    // device limits
    maxDhts: int, maxSonars: int)
  {
    function Opcodes(): seq<int> {
      [loopCommand, setPinMode, digitalWrite, analogWrite, getFirmwareVersion,
       areYouThere, servoAttach, i2cBegin, i2cRead, i2cWrite, sonarNew, dhtNew,
       stopAllReports, setAnalogScanningInterval, enableAllReports, reset]
    }

    /** The keys of `report_dispatch`, in the order the constructor adds them. */
    function ReportTypes(): seq<int> {
      [loopCommand, debugPrint, digitalReport, analogReport, servoUnavailable,
       i2cReadReport, i2cTooFewBytes, i2cTooManyBytes, sonarDistance, dhtReport]
    }

    function PinStates(): seq<int> {
      [atInput, atOutput, atInputPullup, atAnalog]
    }

    /** Every code travels as one byte; report types and pin states are
        told apart by value. */
    predicate Valid() {
      && AllBytes(Opcodes()) && AllBytes(ReportTypes()) && AllBytes(PinStates())
      && Distinct(ReportTypes()) && Distinct(PinStates())
    }
  }

  predicate Distinct(s: seq<int>) {
    forall i, j :: 0 <= i < j < |s| ==> s[i] != s[j]
  }

  /** What the Python code raises, named by its cause. */
  datatype Error =
    | CallbackRequired      // RuntimeError: a callback must be specified
    | I2cPortInactive       // RuntimeError: set_pin_mode i2c never called for the port
    | TooManyDevices        // RuntimeError: maximum number of DHTs / sonars exceeded
    | IntervalOutOfRange    // RuntimeError: analog interval must be between 0 and 255
    | UnknownPinState       // RuntimeError: unknown pin state
    | NoArduinoFound        // RuntimeError: no Arduino found
    | FirmwareTimeout       // RuntimeError: firmware version retrieval timed out
    | ServoUnavailable      // RuntimeError: servo attach failed
    | I2cTooFewBytes        // RuntimeError: i2c too few bytes received
    | I2cTooManyBytes       // RuntimeError: i2c too many bytes received
    | NotAByte              // ValueError from bytes()
    | Overflow              // OverflowError from int.to_bytes
    | NoTransport           // AttributeError: no serial port or socket yet
    | NoTask                // AttributeError: cancel() on a dispatcher task never created
    | MissingIndex          // IndexError: a report or reply shorter than read
    | UnknownKey            // KeyError: no dispatch entry or no callback for the key
    | NotCallable           // TypeError: the i2c callback slot holds None
    | BadFloat              // struct.error: '<f' needs exactly four bytes

  datatype Outcome = Pass | Fail(error: Error)

  /** The built-in handlers of `report_dispatch`. */
  datatype ReportKind =
    | LoopBack | Debug | Digital | Analog | ServoFailure
    | I2cData | I2cShort | I2cLong | Sonar | Dht

  /** The entries of `report_dispatch`, in the order the constructor adds them. */
  function Entries(k: Constants): seq<(int, ReportKind)> {
    [(k.loopCommand, LoopBack), (k.debugPrint, Debug),
     (k.digitalReport, Digital), (k.analogReport, Analog),
     (k.servoUnavailable, ServoFailure), (k.i2cReadReport, I2cData),
     (k.i2cTooFewBytes, I2cShort), (k.i2cTooManyBytes, I2cLong),
     (k.sonarDistance, Sonar), (k.dhtReport, Dht)]
  }

  /** A dictionary filled by one `update` per entry, in order: a later entry
      replaces an earlier one with the same key. */
  function TableOf(entries: seq<(int, ReportKind)>): (table: map<int, ReportKind>)
    ensures table.Keys == set i | 0 <= i < |entries| :: entries[i].0
  {
    if entries == [] then map[]
    else
      var last := entries[|entries| - 1];
      var init := entries[..|entries| - 1];
      var t := TableOf(init)[last.0 := last.1];
      assert (set i | 0 <= i < |entries| :: entries[i].0)
          == (set i | 0 <= i < |init| :: init[i].0) + {last.0} by {
        forall i | 0 <= i < |init|
          ensures init[i].0 in (set i | 0 <= i < |entries| :: entries[i].0)
        {
          assert init[i] == entries[i];
        }
      }
      t
  }

  /** With pairwise distinct keys, every key finds the handler it was added with. */
  lemma {:induction false} TableOfLookup(entries: seq<(int, ReportKind)>, i: nat)
    requires forall a, b :: 0 <= a < b < |entries| ==> entries[a].0 != entries[b].0
    requires i < |entries|
    ensures entries[i].0 in TableOf(entries) && TableOf(entries)[entries[i].0] == entries[i].1
  {
    var n := |entries| - 1;
    if i < n {
      var init := entries[..n];
      TableOfLookup(init, i);
      assert init[i] == entries[i];
      assert entries[i].0 != entries[n].0;
    }
  }

  /** `report_dispatch`: each report code of a valid set of constants selects
      its own built-in handler, and no other code has an entry. */
  function DispatchTable(k: Constants): (table: map<int, ReportKind>)
    ensures table.Keys == set i | 0 <= i < |k.ReportTypes()| :: k.ReportTypes()[i]
    ensures k.Valid() ==> forall i :: 0 <= i < |Entries(k)| ==>
      Entries(k)[i].0 in table && table[Entries(k)[i].0] == Entries(k)[i].1
  {
    var entries := Entries(k);
    assert forall i :: 0 <= i < |entries| ==> entries[i].0 == k.ReportTypes()[i];
    assert (set i | 0 <= i < |entries| :: entries[i].0)
        == (set i | 0 <= i < |k.ReportTypes()| :: k.ReportTypes()[i]);
    assert k.Valid() ==> forall i :: 0 <= i < |entries| ==>
        entries[i].0 in TableOf(entries) && TableOf(entries)[entries[i].0] == entries[i].1 by {
      if k.Valid() {
        forall i | 0 <= i < |entries|
          ensures entries[i].0 in TableOf(entries) && TableOf(entries)[entries[i].0] == entries[i].1
        {
          TableOfLookup(entries, i);
        }
      }
    }
    TableOf(entries)
  }
}
