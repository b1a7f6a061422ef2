/**
 * The static export of events: `generate_events` puts every event in the
 * bucket of each calendar month its dates touch, under a `YYYY-MM` key, and
 * `IsoEncoder` writes dates as ISO 8601 text.
 *
 * The month step of the shipped loop does not do what the loop is evidently
 * for (see `ShippedMonths` and `RestartStep`): for an event whose dates lie in
 * two or more months it raises AttributeError, because it reads
 * `event.start_date` from a dict. `GenerateEvents` models the intended
 * walk: December is followed by January of the next year, any other month
 * by the next month of the same year, and the walk stops at the end month.
 */
module Bucketing {
  import opened Wrappers
  import opened Decimal
  import opened Calendar
  import opened ValidateYaml

  datatype YearMonth = YearMonth(year: int, month: int)

  predicate ValidMonth(ym: YearMonth)
  {
    1 <= ym.year <= 9999 && 1 <= ym.month <= 12
  }

  /** Position of a month on the calendar; consecutive months differ by one. */
  function Index(ym: YearMonth): int
  {
    MonthNumber(ym.year, ym.month)
  }

  lemma IndexInjective(a: YearMonth, b: YearMonth)
    requires 1 <= a.month <= 12 && 1 <= b.month <= 12
    ensures Index(a) == Index(b) <==> a == b
  {
  }

  function MonthOf(d: ValidDate): (ym: YearMonth)
    ensures ValidMonth(ym)
  {
    YearMonth(d.year, d.month)
  }

  /** The intended month step. */
  function NextMonth(ym: YearMonth): (n: YearMonth)
    requires 1 <= ym.month <= 12
    ensures 1 <= n.month <= 12
    ensures Index(n) == Index(ym) + 1
  {
    if ym.month == 12 then YearMonth(ym.year + 1, 1) else YearMonth(ym.year, ym.month + 1)
  }

  /** `'%04d-%02d' % (year, month)`. */
  function MonthKey(ym: YearMonth): (k: string)
    requires ValidMonth(ym)
    ensures |k| == 7 && k[4] == '-' && AllDigits(k[..4]) && AllDigits(k[5..])
  {
    Pad(ym.year, 4) + "-" + Pad(ym.month, 2)
  }

  /** A bucket key is four year digits, a dash and two month digits. */
  lemma MonthKeyShape(ym: YearMonth)
    requires ValidMonth(ym)
    ensures var k := MonthKey(ym);
            && |k| == 7 && k[4] == '-' && AllDigits(k[..4]) && AllDigits(k[5..])
            && DigitsValue(k[..4]) == ym.year && DigitsValue(k[5..]) == ym.month
  {
    var k := MonthKey(ym);
    assert k[..4] == Pad(ym.year, 4);
    assert k[5..] == Pad(ym.month, 2);
  }

  /** Different months have different keys, so no two months share a bucket. */
  lemma MonthKeyInjective(a: YearMonth, b: YearMonth)
    requires ValidMonth(a) && ValidMonth(b) && MonthKey(a) == MonthKey(b)
    ensures a == b
  {
    MonthKeyShape(a);
    MonthKeyShape(b);
  }

  /** An exported event: a record with both dates, the end month not before the start month. */
  predicate HasSpan(e: Record)
  {
    && Lookup(e, "start_date").Some? && Lookup(e, "start_date").value.DateValue?
    && Lookup(e, "end_date").Some? && Lookup(e, "end_date").value.DateValue?
    && Index(MonthOf(Lookup(e, "start_date").value.date)) <= Index(MonthOf(Lookup(e, "end_date").value.date))
  }

  function FirstMonth(e: Record): (ym: YearMonth)
    requires HasSpan(e)
    ensures ValidMonth(ym)
  {
    MonthOf(Lookup(e, "start_date").value.date)
  }

  function LastMonth(e: Record): (ym: YearMonth)
    requires HasSpan(e)
    ensures ValidMonth(ym)
    ensures Index(FirstMonth(e)) <= Index(ym)
  {
    MonthOf(Lookup(e, "end_date").value.date)
  }

  /** The event's dates touch the month. */
  predicate Touches(e: Record, ym: YearMonth)
    requires HasSpan(e)
  {
    Index(FirstMonth(e)) <= Index(ym) <= Index(LastMonth(e))
  }

  predicate AllHaveSpans(events: seq<Record>)
  {
    forall i :: 0 <= i < |events| ==> HasSpan(events[i])
  }

  /** The events touching a month, in input order: what its bucket is meant to hold. */
  function Covering(events: seq<Record>, ym: YearMonth): (r: seq<Record>)
    requires AllHaveSpans(events)
  {
    if events == [] then []
    else
      var e := events[|events| - 1];
      Covering(events[..|events| - 1], ym) + (if Touches(e, ym) then [e] else [])
  }

  /** The bucket under a key, `[]` before the key is first used. */
  function Get(out: map<string, seq<Record>>, k: string): seq<Record>
  {
    if k in out then out[k] else []
  }

  /** `if not key in output: output[key] = []` followed by `output[key].append(event)`. */
  function Append(out: map<string, seq<Record>>, k: string, e: Record): (r: map<string, seq<Record>>)
    ensures r.Keys == out.Keys + {k}
    ensures r[k] == Get(out, k) + [e]
    ensures forall k' | k' in out && k' != k :: r[k'] == out[k']
  {
    out[k := Get(out, k) + [e]]
  }

  /** What the intended inner loop does for one event: append it to every month from `cur` to `last`. */
  function AddSpan(out: map<string, seq<Record>>, e: Record, cur: YearMonth, last: YearMonth): map<string, seq<Record>>
    requires ValidMonth(cur) && ValidMonth(last) && Index(cur) <= Index(last)
    decreases Index(last) - Index(cur)
  {
    var grown := Append(out, MonthKey(cur), e);
    if cur == last then grown
    else
      IndexInjective(cur, last);
      AddSpan(grown, e, NextMonth(cur), last)
  }

  /** The dictionary `generate_events` is meant to build, event after event. */
  function Bucketed(events: seq<Record>): (out: map<string, seq<Record>>)
    requires AllHaveSpans(events)
    ensures forall k | k in out :: out[k] != [] && exists ym :: ValidMonth(ym) && k == MonthKey(ym)
  {
    if events == [] then map[]
    else
      var init := events[..|events| - 1];
      var e := events[|events| - 1];
      assert AllHaveSpans(init);
      var before := Bucketed(init);
      var result := AddSpan(before, e, FirstMonth(e), LastMonth(e));
      AddSpanKeys(before, e, FirstMonth(e), LastMonth(e));
      assert forall k | k in result :: result[k] != [] && exists ym :: ValidMonth(ym) && k == MonthKey(ym) by {
        forall k | k in result ensures result[k] != [] && exists ym :: ValidMonth(ym) && k == MonthKey(ym) {
          if k in before {
            assert |result[k]| >= |before[k]|;
          }
        }
      }
      result
  }

  /** One step of the walk: append to the current month, then walk on from the next month. */
  lemma AddSpanStep(out: map<string, seq<Record>>, e: Record, cur: YearMonth, last: YearMonth)
    requires ValidMonth(cur) && ValidMonth(last) && Index(cur) < Index(last)
    ensures ValidMonth(NextMonth(cur))
    ensures AddSpan(out, e, cur, last) == AddSpan(Append(out, MonthKey(cur), e), e, NextMonth(cur), last)
  {
  }

  /** One event's walk adds it exactly to the buckets of the months from `cur` to `last`. */
  lemma {:induction false} AddSpanGet(out: map<string, seq<Record>>, e: Record, cur: YearMonth, last: YearMonth, ym: YearMonth)
    requires ValidMonth(cur) && ValidMonth(last) && Index(cur) <= Index(last) && ValidMonth(ym)
    ensures Get(AddSpan(out, e, cur, last), MonthKey(ym))
              == Get(out, MonthKey(ym)) + (if Index(cur) <= Index(ym) <= Index(last) then [e] else [])
    decreases Index(last) - Index(cur)
  {
    var grown := Append(out, MonthKey(cur), e);
    IndexInjective(ym, cur);
    if ym != cur {
      if MonthKey(ym) == MonthKey(cur) {
        MonthKeyInjective(ym, cur);
      }
      assert Get(grown, MonthKey(ym)) == Get(out, MonthKey(ym));
    }
    IndexInjective(cur, last);
    if cur != last {
      AddSpanStep(out, e, cur, last);
      AddSpanGet(grown, e, NextMonth(cur), last, ym);
    }
  }

  /** The walk keeps every existing key and adds only keys of months from `cur` to `last`, each with a non-empty bucket. */
  lemma {:induction false} AddSpanKeys(out: map<string, seq<Record>>, e: Record, cur: YearMonth, last: YearMonth)
    requires ValidMonth(cur) && ValidMonth(last) && Index(cur) <= Index(last)
    ensures forall k | k in out :: k in AddSpan(out, e, cur, last)
    ensures forall k | k in AddSpan(out, e, cur, last) && k !in out ::
              AddSpan(out, e, cur, last)[k] != [] &&
              exists ym :: ValidMonth(ym) && Index(cur) <= Index(ym) <= Index(last) && k == MonthKey(ym)
    ensures forall k | k in out :: |AddSpan(out, e, cur, last)[k]| >= |out[k]|
    decreases Index(last) - Index(cur)
  {
    var grown := Append(out, MonthKey(cur), e);
    IndexInjective(cur, last);
    if cur != last {
      var next := NextMonth(cur);
      AddSpanStep(out, e, cur, last);
      AddSpanKeys(grown, e, next, last);
      var result := AddSpan(grown, e, next, last);
      forall k | k in result && k !in out
        ensures result[k] != [] && exists ym :: ValidMonth(ym) && Index(cur) <= Index(ym) <= Index(last) && k == MonthKey(ym)
      {
        if k !in grown {
          var ym :| ValidMonth(ym) && Index(next) <= Index(ym) <= Index(last) && k == MonthKey(ym);
        } else {
          assert k == MonthKey(cur);
          assert |result[k]| >= |grown[k]|;
        }
      }
      forall k | k in out ensures |result[k]| >= |out[k]| {
        assert |grown[k]| >= |out[k]|;
      }
    }
  }

  /** Every bucket holds exactly the events touching its month, in input order. */
  lemma {:induction false} BucketedContents(events: seq<Record>)
    requires AllHaveSpans(events)
    ensures forall ym | ValidMonth(ym) :: Get(Bucketed(events), MonthKey(ym)) == Covering(events, ym)
  {
    if events != [] {
      var init := events[..|events| - 1];
      var e := events[|events| - 1];
      assert AllHaveSpans(init);
      BucketedContents(init);
      forall ym | ValidMonth(ym) ensures Get(Bucketed(events), MonthKey(ym)) == Covering(events, ym) {
        AddSpanGet(Bucketed(init), e, FirstMonth(e), LastMonth(e), ym);
      }
    }
  }

  /** A month has a bucket exactly when some event touches it. */
  lemma BucketKeys(events: seq<Record>, ym: YearMonth)
    requires AllHaveSpans(events) && ValidMonth(ym)
    ensures MonthKey(ym) in Bucketed(events) <==> Covering(events, ym) != []
    ensures MonthKey(ym) in Bucketed(events) ==> Bucketed(events)[MonthKey(ym)] == Covering(events, ym)
  {
    BucketedContents(events);
  }

  /** The bucket of a month holds only events touching that month, all of them, and no more entries than the input has. */
  lemma {:induction false} CoveringMembers(events: seq<Record>, ym: YearMonth)
    requires AllHaveSpans(events)
    ensures forall x | x in Covering(events, ym) :: x in events && Touches(x, ym)
    ensures forall i | 0 <= i < |events| && Touches(events[i], ym) :: events[i] in Covering(events, ym)
    ensures |Covering(events, ym)| <= |events|
  {
    if events != [] {
      var init := events[..|events| - 1];
      CoveringMembers(init, ym);
      forall i | 0 <= i < |events| - 1 ensures events[i] == init[i] { }
    }
  }

  /** Later events only extend buckets: what is in a bucket is never removed or reordered. */
  lemma {:induction false} CoveringGrows(events: seq<Record>, n: nat, ym: YearMonth)
    requires AllHaveSpans(events) && n <= |events|
    ensures AllHaveSpans(events[..n])
    ensures Covering(events[..n], ym) <= Covering(events, ym)
  {
    assert AllHaveSpans(events[..n]);
    if n < |events| {
      var init := events[..|events| - 1];
      assert init[..n] == events[..n];
      CoveringGrows(init, n, ym);
    } else {
      assert events[..n] == events;
    }
  }

  /** An event within one month lands in that month's bucket only. */
  lemma SingleMonthEvent(events: seq<Record>, e: Record, ym: YearMonth)
    requires AllHaveSpans(events) && HasSpan(e) && ValidMonth(ym)
    requires FirstMonth(e) == LastMonth(e)
    ensures AllHaveSpans(events + [e])
    ensures Get(Bucketed(events + [e]), MonthKey(ym))
              == Get(Bucketed(events), MonthKey(ym)) + (if ym == FirstMonth(e) then [e] else [])
  {
    var all := events + [e];
    assert AllHaveSpans(all);
    assert all[..|all| - 1] == events;
    AddSpanGet(Bucketed(events), e, FirstMonth(e), LastMonth(e), ym);
    if Index(ym) == Index(FirstMonth(e)) {
      IndexInjective(ym, FirstMonth(e));
    }
  }

  /**
   * `generate_events` with the intended month step, on the loaded document
   * (`None` for an empty file). The `sorted(...)` call of `generate_events` discards
   * its result, so the events are bucketed in input order.
   */
  method GenerateEvents(doc: Option<seq<Record>>) returns (output: map<string, seq<Record>>)
    requires doc.Some? ==> AllHaveSpans(doc.value)
    ensures doc.None? ==> output == map[]
    ensures doc.Some? ==> output == Bucketed(doc.value)
  {
    output := map[];
    if doc.Some? && doc.value != [] {
      var events := doc.value;
      for i := 0 to |events|
        invariant AllHaveSpans(events[..i])
        invariant output == Bucketed(events[..i])
      {
        BucketedStep(events, i);
        output := AddEvent(output, events[i]);
      }
      assert events[..|events|] == events;
    }
  }

  /** The buckets of one more event: its walk over the buckets of the events before it. */
  lemma BucketedStep(events: seq<Record>, i: nat)
    requires AllHaveSpans(events) && i < |events|
    ensures AllHaveSpans(events[..i]) && AllHaveSpans(events[..i + 1]) && HasSpan(events[i])
    ensures Bucketed(events[..i + 1])
              == AddSpan(Bucketed(events[..i]), events[i], FirstMonth(events[i]), LastMonth(events[i]))
  {
    assert events[..i + 1][..i] == events[..i];
    assert AllHaveSpans(events[..i + 1]);
  }

  /** The inner loop of `generate_events`: one event, every month of its span. */
  method AddEvent(start: map<string, seq<Record>>, event: Record) returns (output: map<string, seq<Record>>)
    requires HasSpan(event)
    ensures output == AddSpan(start, event, FirstMonth(event), LastMonth(event))
  {
    output := start;
    var current := FirstMonth(event);
    var endMonth := LastMonth(event);
    ghost var target := AddSpan(start, event, current, endMonth);
    while true
      invariant ValidMonth(current) && ValidMonth(endMonth) && Index(current) <= Index(endMonth)
      invariant AddSpan(output, event, current, endMonth) == target
      decreases Index(endMonth) - Index(current)
    {
      var key := MonthKey(current);
      ghost var prev := output;
      var bucket := if key in output then output[key] else [];
      output := output[key := bucket + [event]];
      if current == endMonth {
        break;
      }
      IndexInjective(current, endMonth);
      AddSpanStep(prev, event, current, endMonth);
      current := NextMonth(current);
    }
  }

  /** How the shipped step ends: the attribute lookup on a dict event raises. */
  datatype Crash = AttributeError

  /**
   * The shipped loop for one event: it appends to the start month's bucket and
   * stops if that is the end month; otherwise its next step reads
   * `event.start_date`, which raises AttributeError on the dict the YAML loader gives.
   */
  function ShippedMonths(e: Record): (r: Result<seq<YearMonth>, Crash>)
    requires HasSpan(e)
    ensures r.Err? <==> exists ym :: ValidMonth(ym) && Touches(e, ym) && ym != FirstMonth(e)
  {
    if FirstMonth(e) == LastMonth(e) then
      assert forall ym | ValidMonth(ym) && Touches(e, ym) :: ym == FirstMonth(e) by {
        forall ym | ValidMonth(ym) && Touches(e, ym) ensures ym == FirstMonth(e) {
          IndexInjective(ym, FirstMonth(e));
        }
      }
      Ok([FirstMonth(e)])
    else
      assert Touches(e, LastMonth(e));
      Err(AttributeError)
  }

  /**
   * The shipped step if the attribute lookups worked: `current_month == 12`
   * compares a list with an int and is never true, so the step always
   * produces the month after the start month, never the month after `current`.
   */
  function RestartStep(e: Record, current: YearMonth): (n: YearMonth)
    requires HasSpan(e)
    ensures FirstMonth(e).month < 12 ==> n == NextMonth(FirstMonth(e))
    ensures FirstMonth(e).month == 12 ==> !ValidMonth(n)
  {
    YearMonth(FirstMonth(e).year, FirstMonth(e).month + 1)
  }

  /** The shipped and the intended walks agree exactly on the events within one month. */
  lemma ShippedAgreesOnSingleMonth(e: Record)
    requires HasSpan(e)
    ensures ShippedMonths(e).Ok? <==> FirstMonth(e) == LastMonth(e)
    ensures ShippedMonths(e).Ok? ==> forall ym | ValidMonth(ym) :: ym in ShippedMonths(e).value <==> Touches(e, ym)
  {
    forall ym | ValidMonth(ym) && Touches(e, ym) && FirstMonth(e) == LastMonth(e) ensures ym == FirstMonth(e) {
      IndexInjective(ym, FirstMonth(e));
    }
  }

  /** Even with the attribute lookups fixed the walk would stall: two steps land where one does. */
  lemma RestartStepStalls(e: Record, current: YearMonth)
    requires HasSpan(e)
    ensures RestartStep(e, RestartStep(e, current)) == RestartStep(e, current)
    ensures FirstMonth(e).month == 12 ==> !ValidMonth(RestartStep(e, current))
  {
  }

  /** The event of 20 December 2023 to 5 February 2024. */
  function WinterEvent(): (e: Record)
    ensures HasSpan(e)
  {
    [("start_date", DateValue(Date(2023, 12, 20))), ("end_date", DateValue(Date(2024, 2, 5)))]
  }

  /** The shipped code raises on it; the intended walk puts it in December, January and February. */
  lemma WinterEventBuckets(ym: YearMonth)
    requires ValidMonth(ym)
    ensures ShippedMonths(WinterEvent()) == Err(AttributeError)
    ensures MonthKey(ym) in Bucketed([WinterEvent()]) <==>
              ym == YearMonth(2023, 12) || ym == YearMonth(2024, 1) || ym == YearMonth(2024, 2)
  {
    var e := WinterEvent();
    assert FirstMonth(e) == YearMonth(2023, 12) && LastMonth(e) == YearMonth(2024, 2);
    BucketKeys([e], ym);
    assert [e][..0] == [];
    assert Covering([e], ym) == (if Touches(e, ym) then [e] else []);
    IndexInjective(ym, YearMonth(2023, 12));
    IndexInjective(ym, YearMonth(2024, 1));
    IndexInjective(ym, YearMonth(2024, 2));
  }

  /** `IsoEncoder.default`: dates become ISO text; anything else goes to the base encoder, which raises. */
  datatype EncodeError = TypeError

  function IsoEncode(v: Value): (r: Result<string, EncodeError>)
    ensures r.Ok? <==> v.DateValue?
    ensures r.Ok? ==> |r.value| == 10 && ParseIso(r.value) == Some(v.date)
  {
    match v
    case DateValue(d) => IsoRoundTrip(d); Ok(IsoFormat(d))
    case _ => Err(TypeError)
  }
}
