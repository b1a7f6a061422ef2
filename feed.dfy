/**
 * The two upcoming-events endpoints: `upcoming_events` returns the selection
 * itself (serialised as JSON), `upcoming_events_feed` turns it into one feed
 * entry per event inside an Atom or RSS envelope. The XML text is produced by
 * the feed library and is not modelled; the model keeps the fields the route
 * sets and the envelope it asks for.
 */
module Feed {
  import opened Wrappers
  import opened Sequences
  import opened Decimal
  import opened Calendar
  import opened Window
  import opened Selector

  datatype Entry = Entry(id: string, title: string, link: string, description: string)

  datatype Link = Link(href: string, rel: string)

  datatype Envelope = Atom | Rss

  /** What the feed generator holds when it is rendered. */
  datatype FeedDoc = FeedDoc(
    id: string,
    title: string,
    description: string,
    links: seq<Link>,
    logo: string,
    language: string,
    entries: seq<Entry>)

  /** Answer of the feed route: the client error, or an XML body with status 200. */
  datatype FeedResponse =
    | ApiError(status: int)
    | Xml(status: int, contentType: string, envelope: Envelope, doc: FeedDoc)

  const FeedTitle := "Upcoming Events"
  const FeedDescription := "List of upcoming Pebble related events all around the world!"
  const FeedLogo := "https://rebble.io/images/favicon.ico"
  const FeedLanguage := "en"
  const EventsPath := "/community/events"
  const AnchorPrefix := "/community/events/#event-"

  /** The stable per-event URL used as both the entry id and its link. */
  function EventUrl(developerUrl: string, id: nat): (u: string)
    ensures var p := developerUrl + AnchorPrefix; |p| < |u| && u[..|p|] == p && AllDigits(u[|p|..])
    ensures var p := developerUrl + AnchorPrefix; DigitsValue(u[|p|..]) == id
  {
    assert (developerUrl + AnchorPrefix + NatToString(id))[|developerUrl + AnchorPrefix|..] == NatToString(id);
    developerUrl + AnchorPrefix + NatToString(id)
  }

  /** The f-string `"Where? {location_text}.\nWhen? {start_date} - {end_date}.\n\n{description}"`. */
  function Synopsis(e: Event): string
  {
    "Where? " + e.locationText + ".\nWhen? " + IsoFormat(e.startDate) + " - " + IsoFormat(e.endDate)
      + ".\n\n" + e.description
  }

  /** The feed entry of one event: the per-event URL as id and link, the title, the synopsis. */
  function EntryFor(developerUrl: string, e: Event): (r: Entry)
    ensures r.id == r.link && r.title == e.title && r.description == Synopsis(e)
    ensures var p := developerUrl + AnchorPrefix;
            && |p| < |r.id| && r.id[..|p|] == p
            && AllDigits(r.id[|p|..]) && DigitsValue(r.id[|p|..]) == e.id
  {
    var url := EventUrl(developerUrl, e.id);
    Entry(url, e.title, url, Synopsis(e))
  }

  /** Only the exact text `rss` selects the RSS envelope; every other feed type gets Atom. */
  function EnvelopeFor(feedType: string): (env: Envelope)
    ensures env == Rss <==> feedType == "rss"
  {
    if feedType == "rss" then Rss else Atom
  }

  function ContentType(env: Envelope): (t: string)
    ensures t == (if env == Rss then "application/rss+xml" else "application/atom+xml")
  {
    match env
    case Rss => "application/rss+xml"
    case Atom => "application/atom+xml"
  }

  /** Distinct event ids give distinct entry ids (and links). */
  lemma EventUrlInjective(developerUrl: string, a: nat, b: nat)
    requires EventUrl(developerUrl, a) == EventUrl(developerUrl, b)
    ensures a == b
  {
    var p := developerUrl + AnchorPrefix;
    var u := EventUrl(developerUrl, a);
    assert u[|p|..] == NatToString(a);
    assert EventUrl(developerUrl, b)[|p|..] == NatToString(b);
  }

  /** The synopsis opens with the location and closes with the description. */
  lemma SynopsisFrame(e: Event)
    ensures var head := "Where? " + e.locationText + ".\nWhen? ";
            && |head| <= |Synopsis(e)| && Synopsis(e)[..|head|] == head
    ensures var tail := ".\n\n" + e.description;
            && |tail| <= |Synopsis(e)| && Synopsis(e)[|Synopsis(e)| - |tail|..] == tail
  {
    var head := "Where? " + e.locationText + ".\nWhen? ";
    var middle := IsoFormat(e.startDate) + " - " + IsoFormat(e.endDate);
    var tail := ".\n\n" + e.description;
    Frame(head, middle, tail);
    assert Synopsis(e) == head + middle + tail;
  }

  /** The first and the last part of a three-part concatenation. */
  lemma Frame(x: string, y: string, z: string)
    ensures (x + y + z)[..|x|] == x
    ensures (x + y + z)[|x + y|..] == z
  {
  }

  /** The start and end dates stand verbatim, as ISO text, at fixed places of the synopsis. */
  lemma SynopsisDates(e: Event)
    ensures var at := |"Where? "| + |e.locationText| + |".\nWhen? "|;
            && ParseIso(Synopsis(e)[at..at + 10]) == Some(e.startDate)
            && ParseIso(Synopsis(e)[at + 13..at + 23]) == Some(e.endDate)
  {
    IsoRoundTrip(e.startDate);
    IsoRoundTrip(e.endDate);
    SynopsisText(e);
  }

  /** Where the ISO texts of the two dates stand in the synopsis. */
  lemma SynopsisText(e: Event)
    ensures var at := |"Where? "| + |e.locationText| + |".\nWhen? "|;
            && at + 23 <= |Synopsis(e)|
            && Synopsis(e)[at..at + 10] == IsoFormat(e.startDate)
            && Synopsis(e)[at + 13..at + 23] == IsoFormat(e.endDate)
  {
    DatesAt("Where? " + e.locationText + ".\nWhen? ", IsoFormat(e.startDate), IsoFormat(e.endDate), e.description);
  }

  /** The two ten-character dates of a synopsis-shaped text, found by their offsets. */
  lemma DatesAt(pre: string, start: string, end: string, post: string)
    requires |start| == 10 && |end| == 10
    ensures var s := pre + start + " - " + end + ".\n\n" + post;
            && |pre| + 23 <= |s|
            && s[|pre|..|pre| + 10] == start
            && s[|pre| + 13..|pre| + 23] == end
  {
    var s1 := pre + start;
    var s2 := s1 + " - ";
    var s3 := s2 + end;
    var s4 := s3 + ".\n\n";
    var at := |pre|;
    assert s1[at..at + 10] == start;
    InPrefix(s1, " - ", at, at + 10);
    InPrefix(s2, end, at, at + 10);
    InPrefix(s3, ".\n\n", at, at + 10);
    InPrefix(s4, post, at, at + 10);
    assert s3[at + 13..at + 23] == end;
    InPrefix(s3, ".\n\n", at + 13, at + 23);
    InPrefix(s4, post, at + 13, at + 23);
  }

  /** A slice within the first part of a concatenation is a slice of that part. */
  lemma InPrefix(x: string, y: string, i: nat, j: nat)
    requires i <= j <= |x|
    ensures (x + y)[i..j] == x[i..j]
  {
  }

  /** The feed generator, whose setters and `add_entry` the route calls one after another. */
  class FeedGenerator {
    var id: string
    var title: string
    var description: string
    var links: seq<Link>
    var logo: string
    var language: string
    var entries: seq<Entry>

    constructor ()
      ensures id == "" && title == "" && description == "" && logo == "" && language == ""
      ensures links == [] && entries == []
    {
      id, title, description, logo, language := "", "", "", "", "";
      links, entries := [], [];
    }

    function Doc(): FeedDoc
      reads this
    {
      FeedDoc(id, title, description, links, logo, language, entries)
    }

    /** `feed.link(href=..., rel=...)`: links accumulate in call order. */
    method AddLink(l: Link)
      modifies this
      ensures links == old(links) + [l]
      ensures id == old(id) && title == old(title) && description == old(description)
      ensures logo == old(logo) && language == old(language) && entries == old(entries)
    {
      links := links + [l];
    }

    /**
     * `feed.add_entry()` followed by the entry's setters. Its default
     * `order='prepend'` puts the new entry in front of the earlier ones.
     */
    method AddEntry(e: Entry)
      modifies this
      ensures entries == [e] + old(entries)
      ensures id == old(id) && title == old(title) && description == old(description)
      ensures links == old(links) && logo == old(logo) && language == old(language)
    {
      entries := [e] + entries;
    }
  }

  /** `upcoming_events`: the selection for the parsed window, or the client error. */
  function UpcomingEvents(store: seq<Event>, today: ValidDate, args: QueryArgs): (r: Result<seq<Event>, int>)
    ensures r.Err? <==> ParseWindow(today, args).Err?
    ensures r.Err? ==> r.error == InvalidArgsStatus
    ensures r.Ok? ==> forall i :: 0 <= i < |r.value| ==> r.value[i].approved
    ensures r.Ok? ==> forall i :: 0 <= i < |r.value| ==>
              LessEq(r.value[i].startDate, ParseWindow(today, args).value.end)
              && LessEq(ParseWindow(today, args).value.start, r.value[i].endDate)
    ensures r.Ok? ==> SortedByStart(r.value)
    ensures r.Ok? ==> r.value == Select(store, ParseWindow(today, args).value)
  {
    match ParseWindow(today, args)
    case Err(status) => Err(status)
    case Ok(w) => Ok(Select(store, w))
  }

  /** The feed-level setter calls of `upcoming_events_feed`, before any entry is added. */
  method NewChannel(developerUrl: string, feedUrl: string) returns (feed: FeedGenerator)
    ensures fresh(feed)
    ensures feed.id == developerUrl + EventsPath && feed.title == FeedTitle
    ensures feed.description == FeedDescription && feed.logo == FeedLogo && feed.language == FeedLanguage
    ensures feed.links == [Link(feedUrl, "alternate"), Link(feedUrl, "self")]
    ensures feed.entries == []
  {
    feed := new FeedGenerator();
    feed.id := developerUrl + EventsPath;
    feed.title := FeedTitle;
    feed.description := FeedDescription;
    feed.AddLink(Link(feedUrl, "alternate"));
    feed.logo := FeedLogo;
    feed.AddLink(Link(feedUrl, "self"));
    feed.language := FeedLanguage;
  }

  /**
   * `upcoming_events_feed`. `feedUrl` is what the router builds for this route
   * and feed type (`url_for(..., _external=True)`). Since every `add_entry`
   * prepends, the generator holds the selected events last one first.
   */
  method UpcomingEventsFeed(
    store: seq<Event>, today: ValidDate, developerUrl: string, feedUrl: string,
    feedType: string, args: QueryArgs)
    returns (resp: FeedResponse)
    ensures ParseWindow(today, args).Err? ==> resp == ApiError(InvalidArgsStatus)
    ensures ParseWindow(today, args).Ok? ==>
              && resp.Xml? && resp.status == 200
              && resp.envelope == EnvelopeFor(feedType)
              && resp.contentType == ContentType(resp.envelope)
    ensures resp.Xml? ==>
              && resp.doc.id == developerUrl + EventsPath
              && resp.doc.title == FeedTitle && resp.doc.description == FeedDescription
              && resp.doc.links == [Link(feedUrl, "alternate"), Link(feedUrl, "self")]
              && resp.doc.logo == FeedLogo && resp.doc.language == FeedLanguage
    ensures ParseWindow(today, args).Ok? ==>
              var selected := Select(store, ParseWindow(today, args).value);
              && |resp.doc.entries| == |selected|
              && forall i :: 0 <= i < |selected| ==>
                   resp.doc.entries[i] == EntryFor(developerUrl, selected[|selected| - 1 - i])
  {
    var window := ParseWindow(today, args);
    if window.Err? {
      return ApiError(InvalidArgsStatus);
    }
    var feed := NewChannel(developerUrl, feedUrl);

    var selected := Select(store, window.value);
    var toEntry := (e: Event) => EntryFor(developerUrl, e);
    AddEntries(feed, toEntry, selected);
    forall i | 0 <= i < |selected|
      ensures feed.entries[i] == EntryFor(developerUrl, selected[|selected| - 1 - i])
    {
      ReversedMap(toEntry, selected, i);
    }

    var envelope := EnvelopeFor(feedType);
    resp := Xml(200, ContentType(envelope), envelope, feed.Doc());
  }

  /**
   * The loop of `upcoming_events_feed`: one `add_entry` per selected event, in
   * selection order, the entry made from the event by `toEntry`.
   */
  method AddEntries(feed: FeedGenerator, toEntry: Event -> Entry, selected: seq<Event>)
    modifies feed
    requires feed.entries == []
    ensures feed.entries == Reversed(Map(toEntry, selected))
    ensures feed.id == old(feed.id) && feed.title == old(feed.title) && feed.description == old(feed.description)
    ensures feed.links == old(feed.links) && feed.logo == old(feed.logo) && feed.language == old(feed.language)
  {
    for i := 0 to |selected|
      invariant feed.entries == Reversed(Map(toEntry, selected[..i]))
      invariant feed.id == old(feed.id) && feed.title == old(feed.title) && feed.description == old(feed.description)
      invariant feed.links == old(feed.links) && feed.logo == old(feed.logo) && feed.language == old(feed.language)
    {
      assert selected[..i + 1] == selected[..i] + [selected[i]];
      MapSnoc(toEntry, selected[..i], selected[i]);
      ReversedSnoc(Map(toEntry, selected[..i]), toEntry(selected[i]));
      feed.AddEntry(toEntry(selected[i]));
    }
    assert selected[..|selected|] == selected;
  }
}
