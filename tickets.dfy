/**
 * The ticket controller over an in-memory store: the ticket table and the agent table of the
 * database context, and the read-only agent roster loaded at start-up. Listing a day (Mine)
 * and fetching one ticket (GetById) are queries; creating, editing and deleting tickets, and
 * copying a roster agent into the agent table, change the tables in place.
 */
module Tickets {
  import opened Wrappers
  import opened Text
  import opened Calendar
  import opened Sequences
  import opened Models

  const MineArgumentsRequired: string := "agentId and date (YYYY-MM-DD) are required."
  const TicketNumberRequired: string := "TicketNumber is required."
  const AgentIdRequired: string := "AgentId is required."

  function AgentNotFound(agentId: int): string {
    "Agent " + IntToDecimal(agentId) + " not found."
  }

  // ---------------------------------------------------------------- the day window

  /** The ticket is owned by agentId and stamped inside the half-open window [start, end). */
  predicate OnDay(t: Ticket, agentId: int, start: int, end: int) {
    t.agent.Some? && t.agent.value.id == agentId && start <= t.time < end
  }

  function TicketTime(t: Ticket): int { t.time }

  /** The Where clause of Mine: the tickets on the day, in table order. Every ticket on the
      day is kept as often as it occurs, every other one is dropped. */
  function SelectDay(tickets: seq<Ticket>, agentId: int, start: int, end: int): (rows: seq<Ticket>)
    ensures forall t :: multiset(rows)[t] == if OnDay(t, agentId, start, end) then multiset(tickets)[t] else 0
    ensures forall i :: 0 <= i < |rows| ==> OnDay(rows[i], agentId, start, end)
  {
    if tickets == [] then []
    else
      var rest := SelectDay(tickets[1..], agentId, start, end);
      assert tickets == [tickets[0]] + tickets[1..];
      if OnDay(tickets[0], agentId, start, end) then [tickets[0]] + rest else rest
  }

  /** The rows Mine lists: the day's tickets, newest first, ties in table order. */
  function DayListing(tickets: seq<Ticket>, agentId: int, start: int, end: int): (rows: seq<Ticket>)
    ensures IsNewestFirst(rows, TicketTime)
    ensures forall t :: multiset(rows)[t] == if OnDay(t, agentId, start, end) then multiset(tickets)[t] else 0
    ensures forall i :: 0 <= i < |rows| ==> OnDay(rows[i], agentId, start, end)
    ensures forall k :: StampedAt(rows, TicketTime, k) == StampedAt(SelectDay(tickets, agentId, start, end), TicketTime, k)
  {
    var selected := SelectDay(tickets, agentId, start, end);
    var rows := NewestFirst(selected, TicketTime);
    assert forall i :: 0 <= i < |rows| ==> rows[i] in multiset(selected);
    rows
  }

  /** The DTOs Mine answers with for the day that starts at start: the agent's tickets of
      that day, newest first. */
  function DayRows(tickets: seq<Ticket>, agentId: int, start: int): (rows: seq<TicketDto>)
    ensures forall i, j :: 0 <= i < j < |rows| ==> rows[i].time >= rows[j].time
    ensures forall i :: 0 <= i < |rows| ==> start <= rows[i].time < start + SecondsPerDay
  {
    var listing := DayListing(tickets, agentId, start, start + SecondsPerDay);
    assert forall i, j :: 0 <= i < j < |listing| ==> TicketTime(listing[i]) >= TicketTime(listing[j]);
    ToDtos(listing)
  }

  /** Every ticket of the agent stamped inside the day is among that day's rows. */
  lemma {:induction false} DayRowsShowTicket(tickets: seq<Ticket>, t: Ticket, start: int)
    requires t in tickets && t.agent.Some? && start <= t.time < start + SecondsPerDay
    ensures ToDto(t) in DayRows(tickets, t.agent.value.id, start)
  {
    var rows := DayListing(tickets, t.agent.value.id, start, start + SecondsPerDay);
    assert t in multiset(tickets);
    assert t in multiset(rows);
    var i :| 0 <= i < |rows| && rows[i] == t;
    assert ToDtos(rows)[i] == ToDto(t);
  }

  /** A ticket added to the table with a fresh id shows up exactly once in its day's listing. */
  lemma {:induction false} AddedTicketListedOnce(tickets: seq<Ticket>, t: Ticket, start: int)
    requires forall i :: 0 <= i < |tickets| ==> tickets[i].id != t.id
    requires t.agent.Some? && start <= t.time < start + SecondsPerDay
    ensures multiset(DayListing(tickets + [t], t.agent.value.id, start, start + SecondsPerDay))[t] == 1
  {
    assert t !in multiset(tickets);
    assert multiset(tickets + [t]) == multiset(tickets) + multiset{t};
  }

  /** A ticket is listed on at most one date: different dates have disjoint windows. */
  lemma {:induction false} ListedOnOneDateOnly(tickets: seq<Ticket>, agentId: int, ymd1: string, ymd2: string, t: Ticket)
    requires DayStartLocal(ymd1).Success? && DayStartLocal(ymd2).Success?
    requires ParseYmd(ymd1).value != ParseYmd(ymd2).value
    ensures var s1, s2 := DayStartLocal(ymd1).value, DayStartLocal(ymd2).value;
            !(t in DayListing(tickets, agentId, s1, s1 + SecondsPerDay) && t in DayListing(tickets, agentId, s2, s2 + SecondsPerDay))
  {
    DayWindowsDisjoint(ParseYmd(ymd1).value, ParseYmd(ymd2).value);
  }

  /** A ticket stamped exactly at a local midnight belongs to the day that midnight starts,
      not to the day before it. */
  lemma {:induction false} MidnightStartsItsDay(t: Ticket, d: Date)
    requires IsValidDate(d) && d != Date(9999, 12, 31) && t.agent.Some?
    requires t.time == Midnight(NextDate(d))
    ensures !OnDay(t, t.agent.value.id, Midnight(d), Midnight(d) + SecondsPerDay)
    ensures OnDay(t, t.agent.value.id, Midnight(NextDate(d)), Midnight(NextDate(d)) + SecondsPerDay)
  {
    DayEndIsNextDayStart(d);
  }

  // ---------------------------------------------------------------- agent resolution

  /** Each agent of the table is stored under its own id (the primary key). */
  ghost predicate AgentsKeyed(agents: map<int, Agent>) {
    forall k :: k in agents ==> agents[k].id == k
  }

  function AgentHasId(id: int): Agent -> bool {
    (a: Agent) => a.id == id
  }

  /** The agent EnsureAgentInDbAsync produces: the table's agent when there is one, otherwise
      the first roster agent with that id, otherwise none. */
  function ResolveAgent(agents: map<int, Agent>, roster: seq<Agent>, id: int): (r: Option<Agent>)
    requires AgentsKeyed(agents)
    ensures r.Some? ==> r.value.id == id
    ensures id in agents ==> r == Some(agents[id])
    ensures id !in agents ==> (r.None? <==> forall i :: 0 <= i < |roster| ==> roster[i].id != id)
    ensures id !in agents && r.Some? ==>
      exists i :: 0 <= i < |roster| && roster[i] == r.value && forall j :: 0 <= j < i ==> roster[j].id != id
  {
    if id in agents then Some(agents[id])
    else
      match FirstIndex(roster, AgentHasId(id))
      case None => None
      case Some(i) => Some(roster[i])
  }

  function TicketHasId(id: int): Ticket -> bool {
    (t: Ticket) => t.id == id
  }

  /** The table without its row at index i; the rows before it keep their places and the
      rows after it move up by one. */
  function RemoveAt(tickets: seq<Ticket>, i: int): (rest: seq<Ticket>)
    requires 0 <= i < |tickets|
    ensures |rest| == |tickets| - 1
    ensures forall k :: 0 <= k < i ==> rest[k] == tickets[k]
    ensures forall k :: i <= k < |rest| ==> rest[k] == tickets[k + 1]
  {
    tickets[..i] + tickets[i + 1..]
  }

  /** Ticket ids are positive, distinct and below nextId; agents are keyed by id; a
      ticket's agent is the one stored in the agent table. */
  ghost predicate StoreValid(tickets: seq<Ticket>, agents: map<int, Agent>, nextId: int) {
    && nextId >= 1
    && AgentsKeyed(agents)
    && (forall i :: 0 <= i < |tickets| ==> 1 <= tickets[i].id < nextId)
    && (forall i, j :: 0 <= i < j < |tickets| ==> tickets[i].id != tickets[j].id)
    && (forall i :: 0 <= i < |tickets| && tickets[i].agent.Some? ==>
          tickets[i].agent.value.id in agents && agents[tickets[i].agent.value.id] == tickets[i].agent.value)
  }

  /** Appending a ticket that takes the next id and whose agent is in the table keeps the
      store valid once the id counter moves past it. */
  lemma {:induction false} AppendKeepsStoreValid(tickets: seq<Ticket>, agents: map<int, Agent>, nextId: int, t: Ticket)
    requires StoreValid(tickets, agents, nextId)
    requires t.id == nextId && t.agent.Some? && t.agent.value.id in agents && agents[t.agent.value.id] == t.agent.value
    ensures StoreValid(tickets + [t], agents, nextId + 1)
  {
    var ts := tickets + [t];
    forall i | 0 <= i < |ts| ensures 1 <= ts[i].id < nextId + 1 {
      if i < |tickets| { assert ts[i] == tickets[i]; }
    }
    forall i, j | 0 <= i < j < |ts| ensures ts[i].id != ts[j].id {
      assert ts[i] == tickets[i];
      if j < |tickets| { assert ts[j] == tickets[j]; }
    }
    forall i | 0 <= i < |ts| && ts[i].agent.Some?
      ensures ts[i].agent.value.id in agents && agents[ts[i].agent.value.id] == ts[i].agent.value
    {
      if i < |tickets| { assert ts[i] == tickets[i]; }
    }
  }

  // ---------------------------------------------------------------- the controller

  class TicketsController {
    var tickets: seq<Ticket>
    var agents: map<int, Agent>
    /** The id the store gives the next ticket it inserts. */
    var nextId: int
    const roster: seq<Agent>

    ghost predicate Valid()
      reads this
    {
      StoreValid(tickets, agents, nextId)
    }

    /** A controller over an empty database and the given roster. */
    constructor (roster: seq<Agent>)
      ensures Valid()
      ensures tickets == [] && agents == map[] && this.roster == roster
    {
      tickets := [];
      agents := map[];
      nextId := 1;
      this.roster := roster;
    }

    /** GET mine: the agent's tickets on the given local date, newest first. Missing
        arguments are rejected before the store is read; a date that does not parse, or whose
        end falls past the calendar, makes the action throw. */
    function Mine(agentId: int, date: Option<string>): (r: Response<seq<TicketDto>>)
      reads this
      ensures r.BadRequest? <==> agentId <= 0 || IsNullOrWhiteSpace(date)
      ensures r.BadRequest? ==> r.error == MineArgumentsRequired
      ensures r.ServerError? <==> !r.BadRequest? && DayEndLocal(date.value).Failure?
      ensures r.Ok? || r.BadRequest? || r.ServerError?
      ensures r.Ok? ==> r.value == DayRows(tickets, agentId, DayStartLocal(date.value).value)
    {
      if agentId <= 0 || IsNullOrWhiteSpace(date) then BadRequest(MineArgumentsRequired)
      else
        match DayStartLocal(date.value)
        case Failure(_) => ServerError
        case Success(start) =>
          match DayEndLocal(date.value)
          case Failure(_) => ServerError
          // end is start + SecondsPerDay, the close of the window DayRows selects
          case Success(end) => Ok(DayRows(tickets, agentId, start))
    }

    /** GET {id}: the ticket with that id, or NotFound. */
    function GetById(id: int): (r: Response<TicketDto>)
      reads this
      ensures r.NotFound? <==> forall i :: 0 <= i < |tickets| ==> tickets[i].id != id
      ensures r.Ok? || r.NotFound?
      ensures r.Ok? ==> exists i :: 0 <= i < |tickets| && tickets[i].id == id && r.value == ToDto(tickets[i])
    {
      match FirstIndex(tickets, TicketHasId(id))
      case None => NotFound
      case Some(i) => Ok(ToDto(tickets[i]))
    }

    /** EnsureAgentInDbAsync: the table's agent if present; otherwise a copy of the first
        roster agent with that id, inserted into the table; otherwise none, table unchanged. */
    method EnsureAgentInDb(agentId: int) returns (agent: Option<Agent>)
      requires Valid()
      modifies this`agents
      ensures Valid()
      ensures agent == ResolveAgent(old(agents), roster, agentId)
      ensures agentId in old(agents) ==> agents == old(agents)
      ensures agentId !in old(agents) && agent.Some? ==> agents == old(agents)[agentId := agent.value]
      ensures agent.None? ==> agents == old(agents)
      ensures agent.Some? ==> agentId in agents && agents[agentId] == agent.value
    {
      if agentId in agents {
        return Some(agents[agentId]);
      }
      var found := FirstIndex(roster, AgentHasId(agentId));
      if found.None? {
        return None;
      }
      var fromJson := roster[found.value];
      var copy := Agent(fromJson.id, fromJson.email, fromJson.password, fromJson.displayName);
      agents := agents[copy.id := copy];
      return Some(copy);
    }

    /** POST: validate, resolve the agent, insert a ticket stamped with now. */
    method Create(dto: CreateTicketDto, now: int) returns (r: Response<TicketDto>)
      requires Valid()
      modifies this
      ensures Valid()
      ensures IsNullOrWhiteSpace(dto.ticketNumber) ==> r == BadRequest(TicketNumberRequired)
      ensures !IsNullOrWhiteSpace(dto.ticketNumber) && dto.agentId <= 0 ==> r == BadRequest(AgentIdRequired)
      ensures !IsNullOrWhiteSpace(dto.ticketNumber) && dto.agentId > 0 && ResolveAgent(old(agents), roster, dto.agentId).None?
              ==> r == BadRequest(AgentNotFound(dto.agentId))
      ensures r.Created? <==>
              !IsNullOrWhiteSpace(dto.ticketNumber) && dto.agentId > 0 && ResolveAgent(old(agents), roster, dto.agentId).Some?
      ensures !r.Created? ==> tickets == old(tickets) && agents == old(agents) && nextId == old(nextId)
      ensures r.Created? ==>
        var agent := ResolveAgent(old(agents), roster, dto.agentId).value;
        var t := Ticket(old(nextId), Some(Trim(DotNet, dto.ticketNumber.value)), Some(agent),
                        TrimNullable(dto.action), TrimNullable(dto.description), now);
        && tickets == old(tickets) + [t]
        && agents == old(agents)[dto.agentId := agent]
        && nextId == old(nextId) + 1
        && r.value == ToDto(t)
      ensures r.Created? ==> r.value.ticketNumber != "" && IsTrimmed(DotNet, r.value.ticketNumber)
      ensures r.Created? ==> forall i :: 0 <= i < |old(tickets)| ==> old(tickets)[i].id != r.value.id
    {
      if IsNullOrWhiteSpace(dto.ticketNumber) {
        return BadRequest(TicketNumberRequired);
      }
      if dto.agentId <= 0 {
        return BadRequest(AgentIdRequired);
      }
      var agent := EnsureAgentInDb(dto.agentId);
      if agent.None? {
        return BadRequest(AgentNotFound(dto.agentId));
      }
      var t := Ticket(0, Some(Trim(DotNet, dto.ticketNumber.value)), agent,
                      TrimNullable(dto.action), TrimNullable(dto.description), now);
      t := Insert(t);
      return Created(ToDto(t));
    }

    /** Tickets.Add then SaveChangesAsync: the store gives the new row the next id and
        appends it. */
    method Insert(t: Ticket) returns (saved: Ticket)
      requires Valid()
      requires t.agent.Some? && t.agent.value.id in agents && agents[t.agent.value.id] == t.agent.value
      modifies this`tickets, this`nextId
      ensures Valid()
      ensures saved == t.(id := old(nextId))
      ensures tickets == old(tickets) + [saved] && nextId == old(nextId) + 1
    {
      saved := t.(id := nextId);
      AppendKeepsStoreValid(tickets, agents, nextId, saved);
      tickets := tickets + [saved];
      nextId := nextId + 1;
    }

    /** PUT {id}: overwrite number, action and description; the time, the agent and every
        other ticket stay as they were. */
    method Update(id: int, dto: UpdateTicketDto) returns (r: Response<()>)
      requires Valid()
      modifies this`tickets
      ensures Valid()
      ensures r == BadRequest(TicketNumberRequired) <==> IsNullOrWhiteSpace(dto.ticketNumber)
      ensures r == NotFound <==>
        !IsNullOrWhiteSpace(dto.ticketNumber) && (forall i :: 0 <= i < |old(tickets)| ==> old(tickets)[i].id != id)
      ensures r == NoContent || r == NotFound || r == BadRequest(TicketNumberRequired)
      ensures r != NoContent ==> tickets == old(tickets)
      ensures r == NoContent ==>
        exists i :: 0 <= i < |old(tickets)| && old(tickets)[i].id == id &&
          tickets == old(tickets)[i := old(tickets)[i].(
            ticketNumber := Some(Trim(DotNet, dto.ticketNumber.value)),
            action := TrimNullable(dto.action),
            description := TrimNullable(dto.description))]
      ensures |tickets| == |old(tickets)|
      ensures forall i :: 0 <= i < |tickets| ==>
        tickets[i].id == old(tickets)[i].id && tickets[i].agent == old(tickets)[i].agent && tickets[i].time == old(tickets)[i].time
    {
      if IsNullOrWhiteSpace(dto.ticketNumber) {
        return BadRequest(TicketNumberRequired);
      }
      var found := FirstIndex(tickets, TicketHasId(id));
      if found.None? {
        return NotFound;
      }
      var i := found.value;
      var t := tickets[i];
      t := t.(ticketNumber := Some(Trim(DotNet, dto.ticketNumber.value)));
      t := t.(action := TrimNullable(dto.action));
      t := t.(description := TrimNullable(dto.description));
      tickets := tickets[i := t];
      return NoContent;
    }

    /** DELETE {id}: remove that ticket, or answer NotFound. Afterwards no ticket has the id,
        so deleting it again answers NotFound. */
    method Delete(id: int) returns (r: Response<()>)
      requires Valid()
      modifies this`tickets
      ensures Valid()
      ensures r == NotFound <==> forall i :: 0 <= i < |old(tickets)| ==> old(tickets)[i].id != id
      ensures r == NotFound || r == NoContent
      ensures r == NotFound ==> tickets == old(tickets)
      ensures r == NoContent ==>
        exists i :: 0 <= i < |old(tickets)| && old(tickets)[i].id == id && tickets == RemoveAt(old(tickets), i)
      ensures forall i :: 0 <= i < |tickets| ==> tickets[i].id != id
      ensures GetById(id) == NotFound
    {
      var found := FirstIndex(tickets, TicketHasId(id));
      if found.None? {
        return NotFound;
      }
      tickets := RemoveAt(tickets, found.value);
      return NoContent;
    }
  }
}
