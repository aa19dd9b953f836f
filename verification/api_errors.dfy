/** The failures of the query engine, and the InvalidUsage exception that
    the API raises for a bad request (restapi.py). */
module ApiErrors {
  import opened Wrappers
  import opened Json

  /** Why a query has no result. InvalidRequest is `raise InvalidUsage(message)`,
      a 400 response; the other three are exceptions the source does not
      catch (a missing key, or None where a datetime or number is needed). */
  datatype Error =
    | InvalidRequest(message: string)
    | MalformedRecord(key: string)
    | MalformedObservation(index: nat)
    | MissingWeather(key: string)

  /** The class-level status_code of InvalidUsage. */
  const DefaultStatusCode := 400

  const BadTimestampsMessage := "Error parsing timestamp parameters"
  const BadTimestampMessage := "Error parsing timestamp parameter"
  const BadTemperatureMessage := "Invalid temperature parameter"
  const ReversedTemperaturesMessage := "First temp must be less than or equal to second"

  /** The exception object: a message, an HTTP status and an optional payload
      of extra fields for the error body. */
  class InvalidUsage {
    var message: string
    var statusCode: int
    var payload: Option<Object>

    /** The status is 400 unless one is given. */
    constructor (message: string, statusCode: Option<int>, payload: Option<Object>)
      ensures this.message == message && this.payload == payload
      ensures this.statusCode == if statusCode.Some? then statusCode.value else DefaultStatusCode
    {
      this.message := message;
      this.statusCode := DefaultStatusCode;
      if statusCode.Some? {
        this.statusCode := statusCode.value;
      }
      this.payload := payload;
    }

    /** The error body: the payload's entries plus "message", which takes
        precedence over a payload entry of that name. */
    method ToDict() returns (rv: Object)
      ensures forall k :: k in rv <==> k == "message" || (payload.Some? && k in payload.value)
      ensures rv["message"] == Str(message)
      ensures forall k :: payload.Some? && k in payload.value && k != "message" ==> rv[k] == payload.value[k]
    {
      rv := if payload.Some? then payload.value else map[];
      rv := rv["message" := Str(message)];
    }
  }

  /** `raise InvalidUsage(message)`: the exception an InvalidRequest stands
      for, with the default status 400 and no payload. */
  method Raise(message: string) returns (u: InvalidUsage)
    ensures fresh(u)
    ensures u.message == message && u.statusCode == 400 && u.payload.None?
  {
    u := new InvalidUsage(message, None, None);
  }
}
