/**
 * The five request handlers of app.py over an in-memory copy of the two
 * tables. The store holds the sensor table as a sequence in insertion order
 * and the command table as a map keyed on the unique device id; each
 * handler takes its already-decoded request and returns a status and a JSON
 * payload. Row ids come from counters, as an auto-increment key assigns
 * them; the clock is the caller's `now`.
 */
module Service {
  import opened Wrappers
  import opened Records
  import Queries
  import CommandRelay

  /** The checks of app.py:48-55: a JSON body whose `device_id` is truthy and whose two measures are present. */
  predicate IngestionAccepted(body: Body<DataRequest>) {
    body.Json? && Truthy(body.fields.deviceId) && body.fields.temperature.Some? && body.fields.humidity.Some?
  }

  /** The checks of app.py:100-106: a JSON body whose `device_id` and `command` are both truthy. */
  predicate ControlAccepted(body: Body<ControlRequest>) {
    body.Json? && Truthy(body.fields.deviceId) && Truthy(body.fields.command)
  }

  class Store {
    /** The sensor table, in insertion order. */
    var readings: seq<Reading>
    /** The id the next stored reading receives. */
    var nextReadingId: nat
    /** The command table, at most one row per device. */
    var commands: CommandTable
    /** The id the next created command row receives. */
    var nextCommandId: nat

    /**
     * Reading ids increase along the table and stay below the counter, every
     * stored reading names a device, and the command table is well-formed.
     */
    ghost predicate Valid()
      reads this
    {
      && 1 <= nextReadingId
      && 1 <= nextCommandId
      && (forall i :: 0 <= i < |readings| ==> 1 <= readings[i].id < nextReadingId && readings[i].deviceId != "")
      && (forall i, j :: 0 <= i < j < |readings| ==> readings[i].id < readings[j].id)
      && CommandRelay.WellFormed(commands, nextCommandId)
    }

    /** Both tables empty, as `db.create_all()` leaves a fresh database. */
    constructor ()
      ensures Valid()
      ensures readings == [] && commands == map[]
    {
      readings := [];
      nextReadingId := 1;
      commands := map[];
      nextCommandId := 1;
    }

    /**
     * `receive_sensor_data` (app.py:47-62): a body that is not JSON, or lacks
     * a truthy `device_id` or a present temperature or humidity, is refused
     * with 400 and nothing changes; a temperature or humidity of 0 is present.
     * Otherwise exactly one reading is appended, with the next id, the given
     * fields and the time `now`, and everything else stays as it was.
     */
    method ReceiveSensorData(body: Body<DataRequest>, now: nat) returns (resp: Response)
      requires Valid()
      modifies this
      ensures Valid()
      ensures commands == old(commands) && nextCommandId == old(nextCommandId)
      ensures body.NotJson? ==> resp == Response(BadRequest, Message(MsgNotJson))
      ensures body.Json? && !IngestionAccepted(body) ==> resp == Response(BadRequest, Message(MsgInvalidData))
      ensures !IngestionAccepted(body) ==> readings == old(readings) && nextReadingId == old(nextReadingId)
      ensures IngestionAccepted(body) ==>
        && resp == Response(Ok, Message(MsgDataReceived))
        && readings == old(readings) + [Reading(old(nextReadingId), body.fields.deviceId.value,
                                                body.fields.temperature.value, body.fields.humidity.value, now)]
        && nextReadingId == old(nextReadingId) + 1
    {
      if !body.Json? {
        return Response(BadRequest, Message(MsgNotJson));
      }
      var data := body.fields;
      if !(Truthy(data.deviceId) && data.temperature.Some? && data.humidity.Some?) {
        return Response(BadRequest, Message(MsgInvalidData));
      }
      var row := Reading(nextReadingId, data.deviceId.value, data.temperature.value, data.humidity.value, now);
      readings := readings + [row];
      nextReadingId := nextReadingId + 1;
      resp := Response(Ok, Message(MsgDataReceived));
    }

    /**
     * `get_commands` (app.py:66-80): a missing or empty `device_id` is refused
     * with 400; otherwise the answer is 200 with the device's pending
     * command, or null, and never an error. Nothing is modified, so polling
     * again returns the same answer.
     */
    method GetCommands(deviceId: Option<string>) returns (resp: Response)
      ensures !Truthy(deviceId) ==> resp == Response(BadRequest, Message(MsgDeviceIdRequired))
      ensures Truthy(deviceId) ==> resp == Response(Ok, Command(CommandRelay.Poll(commands, deviceId.value)))
    {
      if !Truthy(deviceId) {
        return Response(BadRequest, Message(MsgDeviceIdRequired));
      }
      var d := deviceId.value;
      if d in commands && Truthy(commands[d].command) {
        resp := Response(Ok, Command(commands[d].command));
      } else {
        resp := Response(Ok, Command(None));
      }
    }

    /**
     * `get_latest_data` (app.py:84-88): 404 exactly when the device has no
     * reading; otherwise 200 with a reading of the device that is at least as
     * new as every other reading of it.
     */
    method GetLatestData(deviceId: string) returns (resp: Response)
      ensures resp.status == NotFound <==> forall x :: x in readings ==> x.deviceId != deviceId
      ensures resp.status == NotFound ==> resp.payload == Message(MsgNoData)
      ensures resp.status != NotFound ==> resp.status == Ok && resp.payload.Record?
      ensures resp.payload.Record? ==>
        && resp.payload.reading in readings
        && resp.payload.reading.deviceId == deviceId
        && forall x :: x in readings && x.deviceId == deviceId ==> x.timestamp <= resp.payload.reading.timestamp
    {
      var latest := Queries.Latest(readings, deviceId);
      if latest.Some? {
        resp := Response(Ok, Record(latest.value));
      } else {
        resp := Response(NotFound, Message(MsgNoData));
      }
    }

    /**
     * `get_historical_data` (app.py:92-95): always 200, with the device's
     * readings when it has at most 100 and otherwise 100 of them, newest
     * first, none left out newer than one returned (an empty list when the
     * device has none).
     */
    method GetHistoricalData(deviceId: string) returns (resp: Response)
      ensures resp.status == Ok && resp.payload.ReadingList?
      ensures resp.payload.readings == Queries.History(readings, deviceId)
      ensures var h := resp.payload.readings;
        && multiset(h) <= multiset(Queries.ForDevice(readings, deviceId))
        && (|Queries.ForDevice(readings, deviceId)| <= Queries.HistoryLimit ==>
              multiset(h) == multiset(Queries.ForDevice(readings, deviceId)))
        && |h| == (if |Queries.ForDevice(readings, deviceId)| <= Queries.HistoryLimit
                   then |Queries.ForDevice(readings, deviceId)| else Queries.HistoryLimit)
        && (forall i :: 0 <= i < |h| ==> h[i].deviceId == deviceId && h[i] in readings)
        && Queries.NewestFirst(h)
        && (forall x, y :: x in readings && x.deviceId == deviceId && x !in h && y in h ==> x.timestamp <= y.timestamp)
        && (forall x, y :: x in multiset(Queries.ForDevice(readings, deviceId)) - multiset(h) && y in h ==> x.timestamp <= y.timestamp)
      ensures (forall x :: x in readings ==> x.deviceId != deviceId) <==> resp.payload.readings == []
    {
      var h := Queries.History(readings, deviceId);
      Queries.HistoryFromTable(readings, deviceId);
      Queries.HistoryOmitsOnlyOlder(readings, deviceId);
      Queries.HistoryEmptyIffNoReading(readings, deviceId);
      resp := Response(Ok, ReadingList(h));
    }

    /**
     * `send_control_command` (app.py:99-117): a body that is not JSON, or
     * lacks a truthy `device_id` or `command`, is refused with 400 and
     * nothing changes. Otherwise the device's row is upserted: an existing
     * row keeps its id and takes the new command, a missing one is created
     * with the next id; every other row is unchanged.
     */
    method SendControlCommand(body: Body<ControlRequest>) returns (resp: Response)
      requires Valid()
      modifies this
      ensures Valid()
      ensures readings == old(readings) && nextReadingId == old(nextReadingId)
      ensures body.NotJson? ==> resp == Response(BadRequest, Message(MsgNotJson))
      ensures body.Json? && !ControlAccepted(body) ==> resp == Response(BadRequest, Message(MsgCommandRequired))
      ensures !ControlAccepted(body) ==> commands == old(commands) && nextCommandId == old(nextCommandId)
      ensures ControlAccepted(body) ==>
        var d, c := body.fields.deviceId.value, body.fields.command.value;
        && resp == Response(Ok, Message(MsgCommandSet))
        && commands == CommandRelay.Upsert(old(commands), d, c, old(nextCommandId))
        && nextCommandId == if d in old(commands) then old(nextCommandId) else old(nextCommandId) + 1
    {
      if !body.Json? {
        return Response(BadRequest, Message(MsgNotJson));
      }
      var data := body.fields;
      if !(Truthy(data.deviceId) && Truthy(data.command)) {
        return Response(BadRequest, Message(MsgCommandRequired));
      }
      var d, c := data.deviceId.value, data.command.value;
      ghost var upserted := CommandRelay.Upsert(commands, d, c, nextCommandId);
      CommandRelay.UpsertWellFormed(commands, nextCommandId, d, c);
      if d in commands {
        commands := commands[d := commands[d].(command := Some(c))];
      } else {
        commands := commands[d := CommandEntry(nextCommandId, Some(c))];
        nextCommandId := nextCommandId + 1;
      }
      assert commands == upserted;
      resp := Response(Ok, Message(MsgCommandSet));
    }
  }

  /**
   * A client of the store: a device reports twice, the second time with zero
   * measures, then once with an empty device id; the dashboard reads the
   * latest reading. Everything asserted follows from the contracts alone.
   */
  method ExampleReadings() {
    var store := new Store();
    var r := store.ReceiveSensorData(Json(DataRequest(Some("t1"), Some(24.5), Some(60.0))), 1000);
    assert r.status == Ok;
    r := store.ReceiveSensorData(Json(DataRequest(Some("t1"), Some(0.0), Some(0.0))), 1001);
    assert r.status == Ok;
    r := store.ReceiveSensorData(Json(DataRequest(Some(""), Some(1.0), Some(1.0))), 1002);
    assert r == Response(BadRequest, Message(MsgInvalidData));
    assert |store.readings| == 2;

    var latest := store.GetLatestData("t1");
    assert store.readings[1] in store.readings && store.readings[1].deviceId == "t1";
    assert latest.payload.Record? && latest.payload.reading.timestamp >= 1001;
    assert latest.payload.reading == store.readings[1];
    assert latest.payload.reading.temperature == 0.0;
    var none := store.GetLatestData("t2");
    assert none == Response(NotFound, Message(MsgNoData));
  }

  /**
   * A client of the relay: the dashboard sets a command and the device polls
   * twice, receiving it both times; an unknown device receives null.
   */
  method ExampleCommands() {
    var store := new Store();
    var r := store.SendControlCommand(Json(ControlRequest(Some("t1"), Some("fan_on"))));
    assert r.status == Ok;
    var first := store.GetCommands(Some("t1"));
    var second := store.GetCommands(Some("t1"));
    assert first == second == Response(Ok, Command(Some("fan_on")));
    assert store.commands.Keys == {"t1"};
    var unknown := store.GetCommands(Some("unknown"));
    assert unknown == Response(Ok, Command(None));
    var missing := store.GetCommands(None);
    assert missing.status == BadRequest;
    r := store.SendControlCommand(Json(ControlRequest(Some("t1"), None)));
    assert r == Response(BadRequest, Message(MsgCommandRequired));
    var third := store.GetCommands(Some("t1"));
    assert third == first;
  }
}
