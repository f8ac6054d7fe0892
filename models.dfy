/**
 * The records the controllers exchange: the two entity types of the store, the controller's
 * request and response DTOs, and the HTTP results an action can produce.
 */
module Models {
  import opened Wrappers

  /** An agent of the roster or of the agent table. Its Tickets navigation collection is
      not represented: a ticket names its agent instead. */
  datatype Agent = Agent(id: int, email: string, password: string, displayName: string)

  /** A logged ticket action. Time is a local wall-clock instant in whole seconds. */
  datatype Ticket = Ticket(
    id: int,
    ticketNumber: Option<string>,
    agent: Option<Agent>,
    action: Option<string>,
    description: Option<string>,
    time: int)

  datatype CreateTicketDto = CreateTicketDto(
    ticketNumber: Option<string>, agentId: int, action: Option<string>, description: Option<string>)

  datatype UpdateTicketDto = UpdateTicketDto(
    ticketNumber: Option<string>, action: Option<string>, description: Option<string>)

  /** What the API returns for a ticket; also the row object the dashboard keeps. */
  datatype TicketDto = TicketDto(
    id: int, ticketNumber: string, action: Option<string>, description: Option<string>, time: int)

  /** The action results the controllers produce. ServerError stands for an exception the
      action does not catch, which the host answers with status 500. */
  datatype Response<T> =
    | Ok(value: T)
    | Created(value: T)
    | NoContent
    | BadRequest(error: string)
    | NotFound
    | Unauthorized(error: string)
    | ServerError

  /** ToDto: the ticket as the API shows it; a missing number is shown as "". */
  function ToDto(t: Ticket): (d: TicketDto)
    ensures d.id == t.id && d.time == t.time
    ensures d.action == t.action && d.description == t.description
    ensures d.ticketNumber == (if t.ticketNumber.Some? then t.ticketNumber.value else "")
  {
    TicketDto(t.id, if t.ticketNumber.Some? then t.ticketNumber.value else "", t.action, t.description, t.time)
  }

  /** ToDto applied to every row, in order. */
  function ToDtos(ts: seq<Ticket>): (ds: seq<TicketDto>)
    ensures |ds| == |ts| && forall i :: 0 <= i < |ts| ==> ds[i] == ToDto(ts[i])
  {
    if ts == [] then [] else [ToDto(ts[0])] + ToDtos(ts[1..])
  }
}
