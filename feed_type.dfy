/**
 * The `FeedType` enumeration and its URL converter: `to_python` reads a path
 * segment into the enumeration, `to_url` writes a member back as its value.
 * The converter is registered under the name `feed_type`; the feed route's
 * plain `<feed_type>` segment does not use it.
 */
module FeedTypes {
  import opened Wrappers

  datatype FeedType = Atom | Rss

  /** What werkzeug's `ValidationError` makes of a segment: the route does not match. */
  datatype ConversionError = ValidationError

  /** The enumeration value of each member (`FeedType.X.value`). */
  function Value(t: FeedType): string
  {
    match t
    case Atom => "atom"
    case Rss => "rss"
  }

  /** `FeedTypeConverter.to_python`: `FeedType(value)`, the lookup of a member by value. */
  function ToPython(segment: string): (r: Result<FeedType, ConversionError>)
    ensures r.Ok? <==> segment == "atom" || segment == "rss"
    ensures segment == "atom" ==> r == Ok(Atom)
    ensures segment == "rss" ==> r == Ok(Rss)
  {
    if segment == Value(Atom) then Ok(Atom)
    else if segment == Value(Rss) then Ok(Rss)
    else Err(ValidationError)
  }

  /** `FeedTypeConverter.to_url`: one of the two accepted segments, which reads back as the member. */
  function ToUrl(t: FeedType): (r: string)
    ensures r == "atom" || r == "rss"
    ensures ToPython(r) == Ok(t)
  {
    Value(t)
  }

  /** `@unique`: no two members share a value. */
  lemma ValuesDistinct(a: FeedType, b: FeedType)
    requires Value(a) == Value(b)
    ensures a == b
  {
  }

  /** Writing back an accepted segment gives the segment. */
  lemma SegmentRoundTrip(segment: string)
    requires ToPython(segment).Ok?
    ensures ToUrl(ToPython(segment).value) == segment
  {
  }
}
