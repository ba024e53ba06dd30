/** What a trace search asks for, and what counts as a match. */
module Query {
  import opened Trace

  const DEFAULT_LIMIT := 20
  const MAX_LIMIT := 1000

  datatype Query = Query(
    service: Text,
    operation: Text,
    minDuration: Int64,
    maxDuration: Int64,
    start: Option<Int64>,
    end: Option<Int64>,
    limit: int)
  {
    predicate Valid() {
      && !(operation != [] && service == [])
      && minDuration >= 0 && maxDuration >= 0
      && !(maxDuration > 0 && maxDuration < minDuration)
      && !(start.Some? && end.Some? && end.value < start.value)
      && 0 <= limit <= MAX_LIMIT
    }

    function Limit(): int {
      if limit == 0 then DEFAULT_LIMIT else limit
    }

    predicate HasSpanPredicate() {
      service != [] || minDuration > 0 || maxDuration > 0
    }

    predicate MatchesSpan(s: Span) {
      && (service != [] ==> s.service == service)
      && (operation != [] ==> s.name == operation)
      && s.Duration() >= minDuration
      && (maxDuration > 0 ==> s.Duration() <= maxDuration)
    }

    predicate Overlaps(from: int, to: int) {
      && (start.Some? ==> to >= start.value)
      && (end.Some? ==> from <= end.value)
    }
  }
}
