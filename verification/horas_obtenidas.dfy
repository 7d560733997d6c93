/** The earned-hours issuing rule: attending an event of any category other
    than Comida credits every attendee with a fixed number of hours. The
    records a call creates are modelled by the payloads it writes, in
    attendee order. */
module HorasObtenidas {
  import opened Wrappers
  import opened AppwriteConfig
  import opened EventCategories

  /** Hours credited per attendee of an hours-generating event. */
  const HOURS_PER_EVENT: int := 3
  const MISSING_COLLECTION_MESSAGE := "Falta NEXT_PUBLIC_APPWRITE_HORASOBTENIDAS_COLLECTION_ID"

  datatype HorasObtenidasPayload = HorasObtenidasPayload(
    user: string,
    numeroHoras: int,
    causa: string,
    fechaObtencion: string)

  datatype CreateHorasObtenidasInput = CreateHorasObtenidasInput(
    attendees: seq<string>,
    eventType: EventCategory,
    causa: string,
    fechaObtencion: string)

  /** Every category generates hours except the one named "Comida". */
  function IsHoursGeneratingEvent(eventType: EventCategory): (r: bool)
    ensures r <==> Name(eventType) != "Comida"
  {
    eventType != Comida
  }

  /** Exactly three of the four categories generate hours. */
  lemma ThreeCategoriesGenerateHours()
    ensures forall c: EventCategory :: !IsHoursGeneratingEvent(c) <==> c == Comida
    ensures |set c: EventCategory | c in EVENT_CATEGORIES && IsHoursGeneratingEvent(c)| == 3
  {
    CategoriesEnumerated();
    var generating := set c: EventCategory | c in EVENT_CATEGORIES && IsHoursGeneratingEvent(c);
    assert generating == {TalleresDeTarde, Cena, VisitaTuristica};
  }

  /** Configuration guard: the shared client check first, then the
      earned-hours collection id. */
  function EnsureHorasObtenidasConfig(config: Config): (r: Outcome<ConfigurationError>)
    ensures r.Pass? <==> config.appwriteClientError.None? && IsSet(config.horasObtenidasCollectionId)
    ensures config.appwriteClientError.Some? ==>
      r == Fail(ConfigurationError(config.appwriteClientError.value))
    ensures config.appwriteClientError.None? && !IsSet(config.horasObtenidasCollectionId) ==>
      r == Fail(ConfigurationError(MISSING_COLLECTION_MESSAGE))
  {
    if config.appwriteClientError.Some? then Fail(ConfigurationError(config.appwriteClientError.value))
    else if !IsSet(config.horasObtenidasCollectionId) then Fail(ConfigurationError(MISSING_COLLECTION_MESSAGE))
    else Pass
  }

  /** One payload per attendee, in attendee order. */
  function AttendeePayloads(attendees: seq<string>, causa: string, fechaObtencion: string): (r: seq<HorasObtenidasPayload>)
    ensures |r| == |attendees|
    ensures forall i :: 0 <= i < |r| ==>
      r[i] == HorasObtenidasPayload(attendees[i], HOURS_PER_EVENT, causa, fechaObtencion)
  {
    if attendees == [] then []
    else
      var first := HorasObtenidasPayload(attendees[0], HOURS_PER_EVENT, causa, fechaObtencion);
      [first] + AttendeePayloads(attendees[1..], causa, fechaObtencion)
  }

  /** The payloads written for an event: none for a Comida event (returned
      before the configuration is checked); otherwise a configuration error,
      or one payload per attendee. */
  function CreateHorasObtenidasForAttendees(config: Config, input: CreateHorasObtenidasInput): (r: Result<seq<HorasObtenidasPayload>, ConfigurationError>)
    ensures input.eventType == Comida ==> r == Success([])
    ensures input.eventType != Comida ==>
      (r.Failure? <==> EnsureHorasObtenidasConfig(config).Fail?)
    ensures r.Failure? ==> r.error == EnsureHorasObtenidasConfig(config).error
    ensures input.eventType != Comida && r.Success? ==>
      && |r.value| == |input.attendees|
      && forall i :: 0 <= i < |r.value| ==>
        && r.value[i].user == input.attendees[i]
        && r.value[i].numeroHoras == HOURS_PER_EVENT
        && r.value[i].causa == input.causa
        && r.value[i].fechaObtencion == input.fechaObtencion
  {
    if !IsHoursGeneratingEvent(input.eventType) then Success([])
    else match EnsureHorasObtenidasConfig(config)
      case Fail(e) => Failure(e)
      case Pass => Success(AttendeePayloads(input.attendees, input.causa, input.fechaObtencion))
  }

  /** A Comida event gives the same empty result whatever the configuration. */
  lemma ComidaIgnoresConfig(config1: Config, config2: Config, input: CreateHorasObtenidasInput)
    requires input.eventType == Comida
    ensures CreateHorasObtenidasForAttendees(config1, input) == CreateHorasObtenidasForAttendees(config2, input)
  {
  }

  /** The users credited, in order. */
  function Users(payloads: seq<HorasObtenidasPayload>): (r: seq<string>)
    ensures |r| == |payloads|
  {
    if payloads == [] then [] else [payloads[0].user] + Users(payloads[1..])
  }

  /** Total hours credited by a list of payloads. */
  function TotalHours(payloads: seq<HorasObtenidasPayload>): int
  {
    if payloads == [] then 0 else payloads[0].numeroHoras + TotalHours(payloads[1..])
  }

  /** Reading the users back from the payloads gives the attendee list, and
      the credit totals three hours per attendee. */
  lemma {:induction false} PayloadsRoundTrip(attendees: seq<string>, causa: string, fechaObtencion: string)
    ensures Users(AttendeePayloads(attendees, causa, fechaObtencion)) == attendees
    ensures TotalHours(AttendeePayloads(attendees, causa, fechaObtencion)) == HOURS_PER_EVENT * |attendees|
  {
    if attendees != [] {
      var r := AttendeePayloads(attendees, causa, fechaObtencion);
      assert r[1..] == AttendeePayloads(attendees[1..], causa, fechaObtencion);
      PayloadsRoundTrip(attendees[1..], causa, fechaObtencion);
    }
  }

  /** Issuing for two groups of attendees one after the other gives the same
      payloads as issuing for them together. */
  lemma PayloadsAppend(a: seq<string>, b: seq<string>, causa: string, fechaObtencion: string)
    ensures AttendeePayloads(a + b, causa, fechaObtencion)
      == AttendeePayloads(a, causa, fechaObtencion) + AttendeePayloads(b, causa, fechaObtencion)
  {
  }
}
