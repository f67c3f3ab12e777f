/** The map-veto history of a match (src/democracy.rs). */
module Democracy {
  import opened Wrappers

  datatype PickBan = PickBan(guid: string, status: string, random: bool, round: nat, selectedBy: string)

  /** One voting sequence of the payload (`Sequence` in the source). */
  datatype Sequence = Sequence(entityType: string, voteType: string, entities: seq<PickBan>)

  datatype Payload = Payload(matchId: string, tickets: seq<Sequence>)

  datatype Response = Response(payload: Payload)

  datatype Democracy = Democracy(matchId: string, mapVeto: seq<PickBan>)

  predicate IsMapTicket(t: Sequence) {
    t.entityType == "map"
  }

  /** `into_iter().find(|seq| seq.entity_type == "map")`: the index of the first map ticket. */
  function FindMapTicket(tickets: seq<Sequence>): (r: Option<nat>)
    ensures r.Some? ==> r.value < |tickets| && IsMapTicket(tickets[r.value])
    ensures r.Some? ==> forall j :: 0 <= j < r.value ==> !IsMapTicket(tickets[j])
    ensures r.None? ==> forall j :: 0 <= j < |tickets| ==> !IsMapTicket(tickets[j])
  {
    if tickets == [] then None
    else if IsMapTicket(tickets[0]) then Some(0)
    else match FindMapTicket(tickets[1..])
      case Some(i) => Some(i + 1)
      case None => None
  }

  /** `.map(|seq| seq.entities).unwrap_or_default()`: the first map ticket's entities, or nothing. */
  function MapVeto(tickets: seq<Sequence>): (v: seq<PickBan>)
    ensures (exists i :: 0 <= i < |tickets| && IsMapTicket(tickets[i])
                         && (forall j :: 0 <= j < i ==> !IsMapTicket(tickets[j]))
                         && v == tickets[i].entities)
            || ((forall j :: 0 <= j < |tickets| ==> !IsMapTicket(tickets[j])) && v == [])
  {
    match FindMapTicket(tickets)
    case Some(i) => tickets[i].entities
    case None => []
  }

  /** `Into<Democracy> for Response`. */
  function DemocracyFromResponse(resp: Response): (d: Democracy)
    ensures d.matchId == resp.payload.matchId
    ensures d.mapVeto == MapVeto(resp.payload.tickets)
  {
    Democracy(resp.payload.matchId, MapVeto(resp.payload.tickets))
  }

  /** A leading ticket of another kind is skipped. */
  lemma MapVetoTail(tickets: seq<Sequence>)
    requires tickets != [] && !IsMapTicket(tickets[0])
    ensures MapVeto(tickets) == MapVeto(tickets[1..])
  {
    match FindMapTicket(tickets[1..])
    case Some(i) => assert tickets[i + 1] == tickets[1..][i];
    case None =>
  }

  /** Tickets after the first map ticket never change the veto. */
  lemma {:induction false} MapVetoIgnoresLaterTickets(tickets: seq<Sequence>, later: seq<Sequence>)
    requires exists i :: 0 <= i < |tickets| && IsMapTicket(tickets[i])
    ensures MapVeto(tickets + later) == MapVeto(tickets)
  {
    if !IsMapTicket(tickets[0]) {
      assert (tickets + later)[1..] == tickets[1..] + later;
      var i :| 0 <= i < |tickets| && IsMapTicket(tickets[i]);
      assert IsMapTicket(tickets[1..][i - 1]);
      MapVetoIgnoresLaterTickets(tickets[1..], later);
      MapVetoTail(tickets);
      MapVetoTail(tickets + later);
    }
  }

  /** Tickets of other kinds in front never change the veto. */
  lemma {:induction false} MapVetoSkipsOtherTickets(others: seq<Sequence>, tickets: seq<Sequence>)
    requires forall j :: 0 <= j < |others| ==> !IsMapTicket(others[j])
    ensures MapVeto(others + tickets) == MapVeto(tickets)
  {
    if others != [] {
      assert (others + tickets)[1..] == others[1..] + tickets;
      MapVetoSkipsOtherTickets(others[1..], tickets);
      MapVetoTail(others + tickets);
    } else {
      assert others + tickets == tickets;
    }
  }
}
