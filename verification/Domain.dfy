/**
 The canonical event shared by the phone, the wire and the server, with the eleven
 payload shapes.  Free text that no modelled code reads (notes, reasons) is absent.
 */
module Domain {
  import opened Results

  datatype CellStatus = InProgress | Searched | NeedsResearch
  datatype SurvivorStatus = Trapped | Accessible | Extricated | Deceased
  datatype Triage = Red | Yellow | Green | Black
  datatype TeamStatus = Active | Standby | OutOfService

  datatype Payload =
    | IncidentDeclared(startedAt: int)
    | GridGenerated(rows: nat, cols: nat)
    | TeamRegistered(registeredTeam: int, callsign: string, registeredAgency: int)
    | DeviceEnrolled(enrolledDevice: int)
    | AssignmentIssued(assignmentId: int, holder: int, cellIds: seq<int>)
    | AssignmentRevoked(assignmentId: int)
    | CellStatusReported(cellIndex: int, status: CellStatus)
    | SurvivorReported(cellIndex: int, personCount: int, survivorStatus: SurvivorStatus,
                       triage: Option<Triage>, relLat: Option<int>, relLon: Option<int>)
    | ResourceDeltaReported(itemId: int, qtyDelta: int)
    | PositionReported(lat: int, lon: int, positionCell: Option<int>)
    | TeamStatusReported(teamStatus: TeamStatus)
  {
    /** Permanent numeric codes, the same on both sides. */
    function TypeCode(): (code: int)
      ensures 1 <= code <= 11
    {
      match this
      case IncidentDeclared(_) => 1
      case GridGenerated(_, _) => 2
      case TeamRegistered(_, _, _) => 3
      case DeviceEnrolled(_) => 4
      case AssignmentIssued(_, _, _) => 5
      case AssignmentRevoked(_) => 6
      case CellStatusReported(_, _) => 7
      case SurvivorReported(_, _, _, _, _, _) => 8
      case ResourceDeltaReported(_, _) => 9
      case PositionReported(_, _, _) => 10
      case TeamStatusReported(_) => 11
    }

    /** The four types that have an SMS layout. */
    predicate SmsEligible() {
      CellStatusReported? || SurvivorReported? || ResourceDeltaReported? || TeamStatusReported?
    }

    /** Exactly one type is CRITICAL. */
    predicate Critical() {
      SurvivorReported?
    }

    /** The `cell_index` field of the payload, where the type has one. */
    function ReportedCell(): Option<int> {
      if CellStatusReported? || SurvivorReported? then Some(cellIndex)
      else if PositionReported? then positionCell
      else None
    }
  }

  type SmsPayload = p: Payload | p.SmsEligible() witness TeamStatusReported(Active)

  /** `(device_id, seq)`: the identity of an event everywhere. */
  datatype Key = Key(device: int, seqNo: int)

  /** What the author of an event sets.  `tDev` is in milliseconds. */
  datatype Event = Event(device: int, seqNo: int, payload: Payload, entityId: int, tDev: int,
                         responder: int, team: int, agency: int, incident: int, schema: int)
  {
    function Id(): Key {
      Key(device, seqNo)
    }
  }

  /** Whole seconds of a millisecond clock: division of a long, truncating toward zero. */
  function Seconds(ms: int): int {
    if ms >= 0 then ms / 1000 else -((-ms) / 1000)
  }

  /** The part below a second is dropped, on either side of zero. */
  lemma SecondsExact(ms: int)
    ensures ms >= 0 ==> 1_000 * Seconds(ms) <= ms < 1_000 * Seconds(ms) + 1_000
    ensures ms < 0 ==> 1_000 * Seconds(ms) - 1_000 < ms <= 1_000 * Seconds(ms)
  {
  }

  const SERVER_DEVICE_ID := 0
  const MAX_DEVICE_ID := 4095
  const MAX_RESPONDER_ID := 1023
  const MAX_TEAM_ID := 255
  const MAX_AGENCY_ID := 15
  const MAX_SEQ := 1_048_575
  const MAX_CELLS := 8191
  const MAX_CELL_INDEX := MAX_CELLS - 1
}
