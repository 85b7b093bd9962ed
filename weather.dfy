/** `get_weather`: a process-wide table from location to the weather payload
    fetched for it. The HTTP request and the JSON decoding are one oracle
    that either yields a payload or fails. */
module Weather {
  import opened Wrappers

  /** A decoded JSON document, kept as it was received. */
  datatype Json =
    | JNull
    | JBool(b: bool)
    | JNumber(n: real)
    | JString(s: string)
    | JArray(items: seq<Json>)
    | JObject(fields: seq<(string, Json)>)

  /** What `requests.get(...).json()` gives for a location: a decoded body,
      whatever the HTTP status, or an exception. */
  datatype FetchOutcome = Fetched(data: Json) | FetchFailed(reason: string)

  /** One lookup on the table `cache`, given what the fetch would give:
      the value returned and the table afterwards. The fetch outcome is
      consulted only on a miss. */
  function Lookup(cache: map<string, Json>, location: string, outcome: FetchOutcome)
    : (Option<Json>, map<string, Json>)
  {
    if location in cache then (Some(cache[location]), cache)
    else match outcome
      case Fetched(data) => (Some(data), cache[location := data])
      case FetchFailed(_) => (None, cache)
  }

  /** A lookup never removes or overwrites an entry; it adds at most the
      looked-up location, and only with the value it returns. */
  lemma LookupOnlyAdds(cache: map<string, Json>, location: string, outcome: FetchOutcome)
    ensures var (r, cache') := Lookup(cache, location, outcome);
      && (forall k | k in cache :: k in cache' && cache'[k] == cache[k])
      && (forall k | k in cache' && k !in cache :: k == location && r == Some(cache'[k]))
  {
  }

  /** Once a lookup has returned a value, every later lookup of the same
      location returns that value without a fetch, whatever the network
      would say, and leaves the table as it is. */
  lemma LookupThenHit(cache: map<string, Json>, location: string, first: FetchOutcome, later: FetchOutcome)
    requires Lookup(cache, location, first).0.Some?
    ensures var (r, cache') := Lookup(cache, location, first);
      Lookup(cache', location, later) == (r, cache')
  {
  }

  /** A failed fetch returns None and leaves the table as it was. */
  lemma LookupFailure(cache: map<string, Json>, location: string, reason: string)
    ensures Lookup(cache, location, FetchFailed(reason)).0 == None <==> location !in cache
    ensures Lookup(cache, location, FetchFailed(reason)).1 == cache
  {
  }

  /** The table `weather_cache`, with a log of the requests sent. */
  class WeatherCache {
    var entries: map<string, Json>
    ghost var requests: seq<string>

    /** Every cached value came from a request for its location. */
    ghost predicate Valid()
      reads this
    {
      forall loc | loc in entries :: loc in requests
    }

    constructor ()
      ensures Valid() && entries == map[] && requests == []
    {
      entries := map[];
      requests := [];
    }

    /** `get_weather(location)`, with `fetch` standing for the network. */
    method GetWeather(location: string, fetch: string -> FetchOutcome) returns (r: Option<Json>)
      requires Valid()
      modifies this
      ensures Valid()
      ensures (r, entries) == Lookup(old(entries), location, fetch(location))
      ensures location in old(entries) ==> r == Some(old(entries)[location]) && requests == old(requests)
      ensures location !in old(entries) ==> requests == old(requests) + [location]
    {
      if location in entries {
        return Some(entries[location]);
      }
      requests := requests + [location];
      var outcome := fetch(location);
      match outcome {
        case Fetched(data) =>
          entries := entries[location := data];
          return Some(data);
        case FetchFailed(_) =>
          return None;
      }
    }
  }

  /** Looking up one location twice sends one request when the first
      lookup succeeds, and two when it fails. */
  method LookupTwice(cache: WeatherCache, location: string, fetch: string -> FetchOutcome)
    requires cache.Valid() && location !in cache.entries
    modifies cache
    ensures |cache.requests| == |old(cache.requests)| + if fetch(location).Fetched? then 1 else 2
  {
    var first := cache.GetWeather(location, fetch);
    var second := cache.GetWeather(location, fetch);
  }
}
