/**
 * The launch endpoints' decisions: which status and body a request to add or
 * to abort a launch receives.
 */
module LaunchesController {
  import opened Wrappers
  import opened Launches

  const MISSING_PROPERTY: string := "Missing required launch property"
  const INVALID_DATE: string := "Invalid launch date"
  const LAUNCH_NOT_FOUND: string := "Launch not found"

  /**
   * The JSON body of a request to add a launch; any of the four required
   * properties may be absent, and `others` holds every other property the
   * client sent, by name.
   */
  datatype LaunchRequest = LaunchRequest(
    mission: Option<string>,
    rocket: Option<string>,
    launchDate: Option<string>,
    target: Option<string>,
    others: map<string, string>)

  /** The request body once `launchDate` has been replaced by the parsed date. */
  datatype AcceptedLaunch = AcceptedLaunch(
    mission: string,
    rocket: string,
    launchDate: Timestamp,
    target: string,
    others: map<string, string>)

  datatype ResponseBody =
    | ErrorMessage(error: string)
    | CreatedLaunch(launch: AcceptedLaunch)
    | AbortResult(aborted: bool)

  datatype Response = Response(status: int, body: ResponseBody)

  /** A property is truthy when it is present and not the empty string. */
  predicate Truthy(property: Option<string>)
  {
    property.Some? && property.value != ""
  }

  predicate HasRequiredProperties(request: LaunchRequest)
  {
    Truthy(request.mission) && Truthy(request.rocket) && Truthy(request.launchDate) && Truthy(request.target)
  }

  /**
   * `POST /launches`. `parseDate` stands for `new Date(...)`: `None` is the
   * invalid date.
   */
  function HttpAddNewLaunch(request: LaunchRequest, parseDate: string -> Option<Timestamp>): (response: Response)
    ensures response.status == 400 || response.status == 201
    // a falsy required property is reported first, whatever the date
    ensures response == Response(400, ErrorMessage(MISSING_PROPERTY)) <==> !HasRequiredProperties(request)
    ensures response == Response(400, ErrorMessage(INVALID_DATE)) <==>
      HasRequiredProperties(request) && parseDate(request.launchDate.value).None?
    // a complete request with a valid date is echoed back whole, with the parsed date
    ensures response.status == 201 <==>
      HasRequiredProperties(request) && parseDate(request.launchDate.value).Some?
    ensures response.status == 201 ==>
      && response.body.CreatedLaunch?
      && response.body.launch.mission == request.mission.value
      && response.body.launch.rocket == request.rocket.value
      && response.body.launch.target == request.target.value
      && Some(response.body.launch.launchDate) == parseDate(request.launchDate.value)
      && response.body.launch.others == request.others
  {
    if !HasRequiredProperties(request) then
      Response(400, ErrorMessage(MISSING_PROPERTY))
    else
      match parseDate(request.launchDate.value)
      case None => Response(400, ErrorMessage(INVALID_DATE))
      case Some(date) =>
        Response(201, CreatedLaunch(AcceptedLaunch(request.mission.value, request.rocket.value, date,
                                                   request.target.value, request.others)))
  }

  /** A request without a date is missing a property, even when its other properties are fine. */
  lemma MissingDateIsMissingProperty(mission: string, rocket: string, target: string, others: map<string, string>,
                                     parseDate: string -> Option<Timestamp>)
    ensures HttpAddNewLaunch(LaunchRequest(Some(mission), Some(rocket), None, Some(target), others), parseDate)
         == Response(400, ErrorMessage(MISSING_PROPERTY))
  {
  }

  /** A complete request whose date does not parse is an invalid date. */
  lemma UnparseableDateIsInvalid(parseDate: string -> Option<Timestamp>)
    requires parseDate("Uoop!").None?
    ensures HttpAddNewLaunch(LaunchRequest(Some("USS Enterprise"), Some("NCC 1701-D"), Some("Uoop!"), Some("Kepler-186 f"), map[]), parseDate)
         == Response(400, ErrorMessage(INVALID_DATE))
  {
  }

  /** A complete request with a parseable date is created, keeping mission, rocket and target. */
  lemma CompleteRequestIsCreated(parseDate: string -> Option<Timestamp>, date: Timestamp)
    requires parseDate("January 4, 2028") == Some(date)
    ensures HttpAddNewLaunch(LaunchRequest(Some("USS Enterprise"), Some("NCC 1701-D"), Some("January 4, 2028"), Some("Kepler-186 f"), map[]), parseDate)
         == Response(201, CreatedLaunch(AcceptedLaunch("USS Enterprise", "NCC 1701-D", date, "Kepler-186 f", map[])))
  {
  }

  /**
   * `DELETE /launches/:id`: an unknown flight number is not found and nothing is
   * aborted; a known one is aborted and the response carries whether the record changed.
   */
  method HttpAbortLaunch(store: LaunchStore, launchId: int) returns (response: Response)
    requires store.Valid()
    modifies store
    ensures store.Valid()
    ensures launchId !in old(store.launches) ==>
      response == Response(404, ErrorMessage(LAUNCH_NOT_FOUND)) && store.launches == old(store.launches)
    ensures launchId in old(store.launches) ==>
      && response == Response(200, AbortResult(AbortModifies(old(store.launches), launchId)))
      && store.launches == AbortedStore(old(store.launches), launchId)
  {
    var present := store.ExistsLaunchWithId(launchId);
    if !present {
      return Response(404, ErrorMessage(LAUNCH_NOT_FOUND));
    }
    var aborted := store.AbortLaunchById(launchId);
    response := Response(200, AbortResult(aborted));
  }
}
