/** The IP location lookup: the configuration check, the classification of
    the remote API's answer, and the priority rule that turns province,
    city and country into one display string. The HTTP request, the clock
    and JSON decoding are reduced to their outcome, a `Reply`. */
module GeoIp {
  import opened Wrappers
  import opened Text

  /** What every failed lookup shows: "未知" ("unknown"). */
  const UnknownLocation := "未知"

  datatype LookupError =
    | NotConfigured
    | RequestNotBuilt
    | NetworkError
    | BadStatus(status: int)
    | ReadFailed
    | ApiKeyError
    | ParseFailed
    | BusinessError(code: int, message: string)
    | NoLocation

  /** How the body decodes. `KeyErrorShape`: it decodes without error as the
      key-error structure (whose `data` is a string), which is tried first;
      `Unparsable`: it decodes as neither; `Located`: the normal response. */
  datatype Body =
    | KeyErrorShape
    | Unparsable
    | Located(code: int, message: string, country: string, province: string, city: string)

  /** The outcome of building and sending the request; `body` is `None` when
      reading the body fails. */
  datatype Reply =
    | Unbuildable
    | NetworkFailure
    | Answered(status: int, body: Option<Body>)

  const StatusOK := 200
  const BusinessOK := 200

  /** The location priority: "province city" when both are present and
      differ, else the city, else the province, else the country. */
  function FormatLocation(country: string, province: string, city: string): (r: Option<string>)
    ensures r.None? <==> country == "" && province == "" && city == ""
    ensures r.Some? ==> |r.value| > 0
    ensures city != "" ==> r.Some? && HasSuffix(r.value, city)
    ensures province != "" ==> r.Some? && (HasPrefix(r.value, province) || r.value == city)
    ensures province != "" && city != "" && province != city ==> r == Some(province + " " + city)
    ensures city != "" && (province == "" || province == city) ==> r == Some(city)
    ensures city == "" && province != "" ==> r == Some(province)
    ensures city == "" && province == "" && country != "" ==> r == Some(country)
  {
    if province != "" && city != "" && province != city then
      var both := province + " " + city;
      assert both[|both| - |city|..] == city;
      assert both[..|province|] == province;
      Some(both)
    else if city != "" then
      Some(city)
    else if province != "" then
      Some(province)
    else if country != "" then
      Some(country)
    else
      None
  }

  /** `lookupViaAPI`: the first failing step decides the error. */
  function LookupViaAPI(reply: Reply): (r: Result<string, LookupError>)
    ensures reply.Unbuildable? ==> r == Failure(RequestNotBuilt)
    ensures reply.NetworkFailure? ==> r == Failure(NetworkError)
    ensures reply.Answered? && reply.status != StatusOK ==> r == Failure(BadStatus(reply.status))
    ensures r.Success? <==>
      reply.Answered? && reply.status == StatusOK && reply.body.Some? && reply.body.value.Located?
      && reply.body.value.code == BusinessOK
      && !(reply.body.value.country == "" && reply.body.value.province == "" && reply.body.value.city == "")
    ensures r.Success? ==>
      r.value == FormatLocation(reply.body.value.country, reply.body.value.province, reply.body.value.city).value
    ensures reply.Answered? && reply.status == StatusOK ==>
      && (reply.body.None? ==> r == Failure(ReadFailed))
      && (reply.body == Some(KeyErrorShape) ==> r == Failure(ApiKeyError))
      && (reply.body == Some(Unparsable) ==> r == Failure(ParseFailed))
      && (reply.body.Some? && reply.body.value.Located? && reply.body.value.code != BusinessOK ==>
            r == Failure(BusinessError(reply.body.value.code, reply.body.value.message)))
      && (reply.body.Some? && reply.body.value.Located? && reply.body.value.code == BusinessOK
          && reply.body.value.country == "" && reply.body.value.province == "" && reply.body.value.city == "" ==>
            r == Failure(NoLocation))
    ensures r.Failure? && r.error.BusinessError? ==>
      reply.Answered? && reply.body.Some? && reply.body.value.Located?
      && r.error == BusinessError(reply.body.value.code, reply.body.value.message)
      && r.error.code != BusinessOK
  {
    match reply
    case Unbuildable => Failure(RequestNotBuilt)
    case NetworkFailure => Failure(NetworkError)
    case Answered(status, body) =>
      if status != StatusOK then Failure(BadStatus(status))
      else match body
        case None => Failure(ReadFailed)
        case Some(KeyErrorShape) => Failure(ApiKeyError)
        case Some(Unparsable) => Failure(ParseFailed)
        case Some(Located(code, message, country, province, city)) =>
          if code != BusinessOK then Failure(BusinessError(code, message))
          else match FormatLocation(country, province, city)
            case None => Failure(NoLocation)
            case Some(location) => Success(location)
  }

  /** `Lookup`: without both the API address and its token no request is
      made; any failure shows "未知" together with the error. */
  function Lookup(apiUrl: string, apiToken: string, reply: Reply): (r: (string, Option<LookupError>))
    ensures apiUrl == "" || apiToken == "" ==> r == (UnknownLocation, Some(NotConfigured))
    ensures r.1.Some? <==> apiUrl == "" || apiToken == "" || LookupViaAPI(reply).Failure?
    ensures r.1.Some? ==> r.0 == UnknownLocation
    ensures r.1.None? ==> r.0 == LookupViaAPI(reply).value && |r.0| > 0
    ensures apiUrl != "" && apiToken != "" && LookupViaAPI(reply).Failure? ==>
      r == (UnknownLocation, Some(LookupViaAPI(reply).error))
  {
    if apiUrl == "" || apiToken == "" then
      (UnknownLocation, Some(NotConfigured))
    else
      match LookupViaAPI(reply)
      case Failure(e) => (UnknownLocation, Some(e))
      case Success(location) => (location, None)
  }

  /** The configuration check comes before any use of the reply. */
  lemma NotConfiguredIgnoresReply(apiUrl: string, apiToken: string, a: Reply, b: Reply)
    requires apiUrl == "" || apiToken == ""
    ensures Lookup(apiUrl, apiToken, a) == Lookup(apiUrl, apiToken, b)
  {
  }

  /** A successful lookup names the most specific place the API reported:
      the city when there is one, which a duplicated province does not
      repeat. */
  lemma SuccessNamesCity(apiUrl: string, apiToken: string, country: string, province: string, city: string)
    requires apiUrl != "" && apiToken != "" && city != ""
    ensures var r := Lookup(apiUrl, apiToken, Answered(StatusOK, Some(Located(BusinessOK, "", country, province, city))));
      r.1.None? && HasSuffix(r.0, city) && (province == city ==> r.0 == city)
  {
  }
}
