/** The values the service hands back: the simplified asteroid record it
    returns to clients, and the two kinds of exception it lets escape. */
module ServiceTypes {
  import opened JsonNode

  /** The `AsteroidResponseDTO` record: name, average diameter in km,
      relative speed in km/h, the date the entry is filed under, and the
      body it approaches. */
  datatype AsteroidResponse = AsteroidResponse(
    name: string,
    diameter: real,
    speed: real,
    date: string,
    planet: string)

  /** A `NasaApiException` thrown by the service itself, carrying its
      message, or a `NullPointerException` from dereferencing a lookup that
      answered null; `at` is the chain of lookups up to the one that did. */
  datatype Failure =
    | NasaApiException(message: string)
    | NullPointerException(at: seq<Step>)

  const DaysMessage: string := "The 'days' parameter must be between 1 and 7."
  const ParseMessage: string := "Error parsing the NASA API response."
}
