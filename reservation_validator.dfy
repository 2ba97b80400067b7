/** ReservationValidator: the two stateless checks a booking must pass. */
module ReservationValidator {
  import opened Errors
  import Reservations

  const StartBeforeEndReason: string := "Start time must be before end time"
  const OverlapReason: string := "Court is already reserved during the selected time period"

  /**
   * validateStartBeforeEnd: returns nothing when start is strictly before
   * end; equal or reversed times fail BAD_REQUEST.
   */
  function ValidateStartBeforeEnd(start: int, end: int): (r: Result<()>)
    ensures r.Ok? <==> start < end
    ensures r.Err? ==> r.error == ResponseStatus(BadRequest, StartBeforeEndReason) && Code(r.error.status) == 400
  {
    if !(start < end) then Err(ResponseStatus(BadRequest, StartBeforeEndReason)) else Ok(())
  }

  /** throwIfOverlapsExist: returns nothing exactly when the list is empty; otherwise CONFLICT (409). */
  function ThrowIfOverlapsExist(overlaps: seq<Reservations.Reservation>): (r: Result<()>)
    ensures r.Ok? <==> overlaps == []
    ensures r.Err? ==> r.error == ResponseStatus(Conflict, OverlapReason) && Code(r.error.status) == 409
  {
    if overlaps != [] then Err(ResponseStatus(Conflict, OverlapReason)) else Ok(())
  }
}
