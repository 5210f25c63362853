/** Optional values, the failures a request can end in, and the HTTP status each one
    reaches the client with. */
module Outcomes {

  datatype Option<T> = None | Some(value: T)

  /** Why a request produces no result.  Every failure but the last is an exception
      that escapes the route function, which Flask turns into a server error. */
  datatype Error =
    | EmptyDataset          // the grouped station query returned no row, so `[0][0]` fails
    | InvalidDate           // a stored date does not split into three integers naming a real day
    | DateOverflow          // stepping back a year leaves the calendar's range (year 1 .. 9999)
    | NoTemperatureEntries  // `min` of an empty temperature list raised ValueError

  datatype Result<T> = Ok(value: T) | Err(error: Error)

  /** The body's `error` text of the one failure the routes answer deliberately. */
  const NoEntriesMessage: string := "There are no temperature entries for this date range."

  /** The HTTP status a failure is answered with. */
  function Status(e: Error): (code: nat)
    ensures code == 404 <==> e == NoTemperatureEntries
    ensures code == 404 || code == 500
  {
    if e == NoTemperatureEntries then 404 else 500
  }

  /** The `error` field of the JSON body, present only for the deliberate 404. */
  function ErrorText(e: Error): (text: Option<string>)
    ensures text.Some? <==> Status(e) == 404
    ensures text.Some? ==> text.value == NoEntriesMessage
  {
    if e == NoTemperatureEntries then Some(NoEntriesMessage) else None
  }
}
