/**
 * `fetch_coordinates` (preprocess.py:20-46): ask the geocoding service for
 * one address and hand back its latitude and longitude.
 *
 * Nominatim's `geocode` is a parameter: a function from the address text and
 * the timeout to the answer one call gives.  `fetch_coordinates` calls it
 * through geopy's `RateLimiter` (preprocess.py:18), whose defaults retry a
 * `GeocoderServiceError` (a timeout included) and then swallow it into `None`.
 * Any other exception reaches the handlers of `fetch_coordinates`, which call
 * `st.error`; `st` is never imported in preprocess.py, so the handler raises
 * `NameError` instead of returning `None`.
 */
module Geocoding {
  import opened Wrappers
  import opened Text

  /** What one call of Nominatim's `geocode` does: a location, no location,
      or an exception. */
  datatype GeoAnswer =
    | Found(latitude: real, longitude: real)
    | NotFound
    | TimedOut        // GeocoderTimedOut
    | ServiceError    // any other GeocoderServiceError
    | Failed          // any exception outside the GeocoderServiceError family

  /** A geocoder: address and timeout in seconds to an answer. */
  type Geocoder = (string, nat) -> GeoAnswer

  /** What a call of `fetch_coordinates` comes to: a pair of coordinates,
      `None`, or a `NameError` escaping from an error handler. */
  datatype Fetched =
    | Coordinates(latitude: real, longitude: real)
    | NoCoordinates
    | NameErrorRaised

  /** The timeout passed to every geocoder call (preprocess.py:28). */
  const TimeoutSeconds: nat := 10

  /** `RateLimiter`'s default `max_retries`: attempts after the first. */
  const MaxRetries: nat := 2

  /** The argument of `fetch_coordinates` as the model sees it: the text of
      a `str`, or `None` for anything that is not a `str` (None, NaN, a
      number, a Series). */
  type Address = Option<string>

  /** The guard at preprocess.py:22: a `str` that is not blank. */
  predicate ValidAddress(address: Address) {
    address.Some? && Strip(address.value) != []
  }

  /** The exceptions `RateLimiter` retries: `GeocoderServiceError`, of which
      `GeocoderTimedOut` is a subclass. */
  predicate Retried(a: GeoAnswer) {
    a.TimedOut? || a.ServiceError?
  }

  /** The call `geocode(address, timeout=10)` through
      `RateLimiter(geolocator.geocode, min_delay_seconds=1)` with `retries`
      attempts left: a retried exception is tried again and, on the last
      attempt, swallowed into `return_value_on_exception=None`; any other
      answer is handed on. */
  function Limited(geocode: Geocoder, address: string, timeout: nat, retries: nat): (a: GeoAnswer)
    ensures !Retried(a)
    ensures !Retried(geocode(address, timeout)) ==> a == geocode(address, timeout)
    ensures Retried(geocode(address, timeout)) ==> a == NotFound
    decreases retries
  {
    var answer := geocode(address, timeout);
    if !Retried(answer) then answer
    else if retries == 0 then NotFound
    else Limited(geocode, address, timeout, retries - 1)
  }

  /** `fetch_coordinates(address)`: coordinates exactly when the service
      found the address, a `NameError` exactly when it raised something the
      limiter does not retry, and `None` otherwise. */
  function FetchCoordinates(address: Address, geocode: Geocoder): (r: Fetched)
    ensures r.Coordinates? <==> ValidAddress(address) && geocode(address.value, TimeoutSeconds).Found?
    ensures r.Coordinates? ==>
      && r.latitude == geocode(address.value, TimeoutSeconds).latitude
      && r.longitude == geocode(address.value, TimeoutSeconds).longitude
    ensures r.NameErrorRaised? <==> ValidAddress(address) && geocode(address.value, TimeoutSeconds).Failed?
    ensures r.NoCoordinates? <==>
      !ValidAddress(address) || geocode(address.value, TimeoutSeconds).NotFound? || Retried(geocode(address.value, TimeoutSeconds))
  {
    if !ValidAddress(address) then NoCoordinates
    else
      match Limited(geocode, address.value, TimeoutSeconds, MaxRetries)
      case Found(lat, lon) => Coordinates(lat, lon)
      case NotFound => NoCoordinates
      case _ => NameErrorRaised
  }

  /** An address is valid exactly when it is a `str` holding at least one
      character that is not whitespace. */
  lemma ValidIffNotBlank(address: Address)
    ensures ValidAddress(address) <==>
      address.Some? && exists i :: 0 <= i < |address.value| && !IsSpace(address.value[i])
  {
    if address.Some? {
      StripEmptyIffBlank(address.value);
    }
  }

  /** An invalid address never reaches the geocoder: the answer is the same
      whatever the service would have said. */
  lemma InvalidNeverAsks(address: Address, g1: Geocoder, g2: Geocoder)
    requires !ValidAddress(address)
    ensures FetchCoordinates(address, g1) == FetchCoordinates(address, g2) == NoCoordinates
  {
  }

  /** A valid address is looked up by its own, unstripped text: two
      geocoders that agree on it give the same result. */
  lemma ValidDependsOnAnswer(address: Address, g1: Geocoder, g2: Geocoder)
    requires ValidAddress(address)
    requires g1(address.value, TimeoutSeconds) == g2(address.value, TimeoutSeconds)
    ensures FetchCoordinates(address, g1) == FetchCoordinates(address, g2)
  {
  }

  /** A blank string is rejected before any lookup. */
  lemma BlankRejected(s: string, g: Geocoder)
    requires forall i :: 0 <= i < |s| ==> IsSpace(s[i])
    ensures FetchCoordinates(Some(s), g) == NoCoordinates
  {
    StripEmptyIffBlank(s);
  }
}
