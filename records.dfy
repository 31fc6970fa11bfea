/**
 * The two tables of the service and the shapes of its requests and responses
 * (app.py:16-36 and the bodies the handlers read and return).
 *
 * Temperature and humidity are kept as `real`: the handlers only test whether
 * they are present. Timestamps are naturals supplied by the caller in place
 * of the database's `datetime.utcnow` default.
 */
module Records {
  import opened Wrappers

  /** A row of the sensor table (app.py:16-21); `to_dict` (app.py:23-30) returns these fields. */
  datatype Reading = Reading(id: nat, deviceId: string, temperature: real, humidity: real, timestamp: nat)

  /** The row of the command table for one device (app.py:32-35), without its `updated_at` clock column. */
  datatype CommandEntry = CommandEntry(id: nat, command: Option<string>)

  /** The command table: `device_id` is unique (app.py:34), so it is the key. */
  type CommandTable = map<string, CommandEntry>

  /** A request body: either not JSON at all, or a decoded JSON object. */
  datatype Body<T> = NotJson | Json(fields: T)

  /** The fields the ingestion endpoint reads; `None` is a field that is absent or JSON null. */
  datatype DataRequest = DataRequest(deviceId: Option<string>, temperature: Option<real>, humidity: Option<real>)

  /** The fields the control endpoint reads. */
  datatype ControlRequest = ControlRequest(deviceId: Option<string>, command: Option<string>)

  /** What the handlers encode as JSON. */
  datatype Payload =
    | Message(text: string)
    | Command(command: Option<string>)
    | Record(reading: Reading)
    | ReadingList(readings: seq<Reading>)

  datatype Response = Response(status: nat, payload: Payload)

  const Ok: nat := 200
  const BadRequest: nat := 400
  const NotFound: nat := 404

  const MsgDataReceived: string := "Data received successfully"
  const MsgInvalidData: string := "Invalid data"
  const MsgNotJson: string := "Request must be JSON"
  const MsgDeviceIdRequired: string := "device_id is required"
  const MsgNoData: string := "No data found for this device"
  const MsgCommandRequired: string := "device_id and command are required"
  const MsgCommandSet: string := "Command set successfully"

  /** Python truthiness of a string field: present, not null, not empty. */
  predicate Truthy(s: Option<string>) {
    s.Some? && s.value != ""
  }
}
