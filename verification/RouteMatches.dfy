/** What a route says of a request. */
module RouteMatches {

  datatype RouteMatchResult<+A> =
    | PathNotMatched
    | MethodNotMatched
    | RouteMatched(call: A)
}
