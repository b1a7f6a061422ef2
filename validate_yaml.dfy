/**
 * The checks of the YAML dataset validator: each record is checked rule by
 * rule and the first failing rule ends the run with `sys.exit`. Some records
 * make the checks themselves fail with a KeyError instead; those crashes are
 * kept apart from the deliberate exits.
 */
module ValidateYaml {
  import opened Wrappers
  import opened Calendar

  /** A YAML scalar as `yaml.safe_load` produces it, tagged by its Python type. */
  datatype Value = Str(s: string) | DateValue(date: ValidDate) | Bool(b: bool) | Float(x: real) | Int(i: int)

  datatype Kind = StrKind | DateKind | BoolKind | FloatKind | IntKind

  /** `type(value)`. `bool` and `int` are different types here, and so are `int` and `float`. */
  function KindOf(v: Value): Kind
  {
    match v
    case Str(_) => StrKind
    case DateValue(_) => DateKind
    case Bool(_) => BoolKind
    case Float(_) => FloatKind
    case Int(_) => IntKind
  }

  /** The `TYPES` table. A key it lacks (`None`) makes `TYPES[key]` raise KeyError. */
  const TYPES: map<string, Kind> := map[
    "title" := StrKind,
    "description" := StrKind,
    "website" := StrKind,
    "type" := StrKind,
    "start_date" := DateKind,
    "end_date" := DateKind,
    "all_day" := BoolKind,
    "location" := StrKind,
    "latitude" := FloatKind,
    "longitude" := FloatKind]

  function Types(key: string): Option<Kind>
  {
    if key in TYPES then Some(TYPES[key]) else None
  }

  /** No key occurs twice, as in the dict `safe_load` builds. */
  predicate DistinctKeys(r: seq<(string, Value)>)
  {
    forall i, j :: 0 <= i < j < |r| ==> r[i].0 != r[j].0
  }

  /** A YAML mapping, its entries in document order (the order `for key in record` visits them). */
  type Record = r: seq<(string, Value)> | DistinctKeys(r) witness []

  /** `record[key]` when `key in record`. */
  function Lookup(r: Record, key: string): (v: Option<Value>)
    ensures v.None? <==> forall i :: 0 <= i < |r| ==> r[i].0 != key
  {
    if r == [] then None
    else if r[0].0 == key then Some(r[0].1)
    else Lookup(r[1..], key)
  }

  /** Every entry's value is what `record[key]` gives for its key. */
  lemma {:induction false} LookupAt(r: Record, i: nat)
    requires i < |r|
    ensures Lookup(r, r[i].0) == Some(r[i].1)
  {
    if i > 0 {
      assert r[0].0 != r[i].0;
      assert r[1..][i - 1] == r[i];
      LookupAt(r[1..], i - 1);
    }
  }

  predicate Has(r: Record, key: string)
  {
    Lookup(r, key).Some?
  }

  /** Why a record was refused with `sys.exit`. */
  datatype Reason =
    | MissingKey(key: string)
    | WrongType(key: string)
    | UnknownEventType(given: string)
    | EndBeforeStart
    | OutOfBounds(key: string)

  /** The end of checking one record: accepted, refused on purpose, or crashed on a KeyError. */
  datatype Outcome = Accepted | Exit(reason: Reason) | KeyError(key: string)

  const EventKeys: seq<string> := ["title", "description", "type", "start_date", "end_date"]
  const LocationKeys: seq<string> := ["title", "description", "website", "location", "latitude", "longitude"]
  const EventTypes: seq<string> := ["Hackathon", "Meetup", "Party", "Other"]
  const Coordinates: seq<string> := ["latitude", "longitude"]
  const MinCoordinate: real := -180.0
  const MaxCoordinate: real := 180.0

  /** The first key of `keys` that the record lacks. */
  function FirstMissing(keys: seq<string>, r: Record): (m: Option<string>)
    ensures m.None? <==> forall i :: 0 <= i < |keys| ==> Has(r, keys[i])
    ensures m.Some? ==> exists i :: 0 <= i < |keys| && keys[i] == m.value && !Has(r, keys[i])
                          && forall j :: 0 <= j < i ==> Has(r, keys[j])
  {
    if keys == [] then None
    else if !Has(r, keys[0]) then Some(keys[0])
    else
      var m := FirstMissing(keys[1..], r);
      assert m.Some? ==> exists i :: 0 <= i < |keys| && keys[i] == m.value && !Has(r, keys[i])
                          && forall j :: 0 <= j < i ==> Has(r, keys[j]) by {
        if m.Some? {
          var i :| 0 <= i < |keys| - 1 && keys[1..][i] == m.value && !Has(r, keys[1..][i])
                   && forall j :: 0 <= j < i ==> Has(r, keys[1..][j]);
          assert keys[i + 1] == m.value && forall j :: 0 <= j < i + 1 ==> Has(r, keys[j]);
        }
      }
      m
  }

  /** The entry's value has exactly the type `TYPES` gives its key. */
  predicate Typed(p: (string, Value))
  {
    Types(p.0) == Some(KindOf(p.1))
  }

  predicate WellTyped(r: Record)
  {
    forall i :: 0 <= i < |r| ==> Typed(r[i])
  }

  /** What the type check does with an entry that fails it: `TYPES[key]` either raises or differs. */
  function TypeFailure(p: (string, Value)): Outcome
  {
    if Types(p.0).None? then KeyError(p.0) else Exit(WrongType(p.0))
  }

  /** `for key in record: if type(record[key]) != TYPES[key]: sys.exit(...)`. */
  function CheckTypes(r: Record): (o: Outcome)
    ensures o == Accepted <==> WellTyped(r)
    ensures o != Accepted ==> exists i :: 0 <= i < |r| && !Typed(r[i]) && o == TypeFailure(r[i])
                                && forall j :: 0 <= j < i ==> Typed(r[j])
  {
    if r == [] then Accepted
    else if !Typed(r[0]) then TypeFailure(r[0])
    else
      var o := CheckTypes(r[1..]);
      assert o != Accepted ==> exists i :: 0 <= i < |r| && !Typed(r[i]) && o == TypeFailure(r[i])
                                 && forall j :: 0 <= j < i ==> Typed(r[j]) by {
        if o != Accepted {
          var i :| 0 <= i < |r| - 1 && !Typed(r[1..][i]) && o == TypeFailure(r[1..][i])
                   && forall j :: 0 <= j < i ==> Typed(r[1..][j]);
          assert r[i + 1] == r[1..][i] && forall j :: 0 <= j < i + 1 ==> Typed(r[j]);
        }
      }
      o
  }

  predicate InBounds(v: Option<Value>)
  {
    v.Some? && v.value.Float? && MinCoordinate <= v.value.x <= MaxCoordinate
  }

  predicate FloatsWherePresent(keys: seq<string>, r: Record)
  {
    forall i :: 0 <= i < |keys| ==> Lookup(r, keys[i]).None? || Lookup(r, keys[i]).value.Float?
  }

  /**
   * `for key in keys: if record[key] < -180 or record[key] > 180: sys.exit(...)`.
   * The values are floats once the type check has passed; a missing key raises KeyError.
   */
  function CheckBounds(keys: seq<string>, r: Record): (o: Outcome)
    requires FloatsWherePresent(keys, r)
    ensures o == Accepted <==> forall i :: 0 <= i < |keys| ==> InBounds(Lookup(r, keys[i]))
    ensures o.KeyError? ==> o.key in keys && !Has(r, o.key)
    ensures o.Exit? ==> o.reason.OutOfBounds? && o.reason.key in keys
                        && Has(r, o.reason.key) && !InBounds(Lookup(r, o.reason.key))
    ensures o != Accepted ==> exists i :: 0 <= i < |keys| && (o == KeyError(keys[i]) || o == Exit(OutOfBounds(keys[i])))
                                         && forall j :: 0 <= j < i ==> InBounds(Lookup(r, keys[j]))
  {
    if keys == [] then Accepted
    else
      match Lookup(r, keys[0])
      case None => KeyError(keys[0])
      case Some(v) =>
        if v.x < MinCoordinate || v.x > MaxCoordinate then Exit(OutOfBounds(keys[0]))
        else
          assert FloatsWherePresent(keys[1..], r) by {
            forall i | 0 <= i < |keys| - 1 ensures Lookup(r, keys[1..][i]).None? || Lookup(r, keys[1..][i]).value.Float? {
              assert keys[1..][i] == keys[i + 1];
            }
          }
          var o := CheckBounds(keys[1..], r);
          assert o == Accepted ==> forall i :: 0 <= i < |keys| ==> InBounds(Lookup(r, keys[i])) by {
            if o == Accepted {
              forall i | 0 <= i < |keys| ensures InBounds(Lookup(r, keys[i])) {
                if i > 0 { assert keys[i] == keys[1..][i - 1]; }
              }
            }
          }
          assert o != Accepted ==> exists i :: 0 <= i < |keys| && (o == KeyError(keys[i]) || o == Exit(OutOfBounds(keys[i])))
                                               && forall j :: 0 <= j < i ==> InBounds(Lookup(r, keys[j])) by {
            if o != Accepted {
              var k :| 0 <= k < |keys| - 1 && (o == KeyError(keys[1..][k]) || o == Exit(OutOfBounds(keys[1..][k])))
                       && forall j :: 0 <= j < k ==> InBounds(Lookup(r, keys[1..][j]));
              assert keys[k + 1] == keys[1..][k];
              forall j | 0 <= j < k + 1 ensures InBounds(Lookup(r, keys[j])) {
                if j > 0 { assert keys[j] == keys[1..][j - 1]; }
              }
            }
          }
          o
  }

  /** The event's `type` is one of the four allowed names. */
  predicate KnownEventType(v: Option<Value>)
  {
    v.Some? && v.value.Str? && v.value.s in EventTypes
  }

  /** Both dates are present and the end is not before the start. */
  predicate DatesInOrder(r: Record)
  {
    && Lookup(r, "start_date").Some? && Lookup(r, "start_date").value.DateValue?
    && Lookup(r, "end_date").Some? && Lookup(r, "end_date").value.DateValue?
    && LessEq(Lookup(r, "start_date").value.date, Lookup(r, "end_date").value.date)
  }

  /** In a record that passed the type check, the value under a key has the key's type. */
  lemma {:induction false} KindAt(r: Record, key: string, kind: Kind)
    requires WellTyped(r) && Has(r, key) && Types(key) == Some(kind)
    ensures KindOf(Lookup(r, key).value) == kind
  {
    if r[0].0 != key {
      assert WellTyped(r[1..]) by {
        forall i | 0 <= i < |r| - 1 ensures Typed(r[1..][i]) {
          assert r[1..][i] == r[i + 1];
        }
      }
      KindAt(r[1..], key, kind);
    }
  }

  lemma CoordinateKinds(r: Record)
    requires WellTyped(r)
    ensures FloatsWherePresent(Coordinates, r)
  {
    assert Coordinates[0] == "latitude" && Coordinates[1] == "longitude";
    if Has(r, "latitude") {
      KindAt(r, "latitude", FloatKind);
    }
    if Has(r, "longitude") {
      KindAt(r, "longitude", FloatKind);
    }
  }

  /** The required keys the later event checks read. */
  lemma RequiredEventKeys(r: Record)
    requires FirstMissing(EventKeys, r).None?
    ensures Has(r, "type") && Has(r, "start_date") && Has(r, "end_date")
  {
    assert EventKeys[2] == "type" && EventKeys[3] == "start_date" && EventKeys[4] == "end_date";
  }

  /** Once the keys and the types have passed, the event's `type` is text and its dates are dates. */
  lemma EventFieldKinds(r: Record)
    requires WellTyped(r)
    requires Has(r, "type") && Has(r, "start_date") && Has(r, "end_date")
    ensures Lookup(r, "type").value.Str?
    ensures Lookup(r, "start_date").value.DateValue?
    ensures Lookup(r, "end_date").value.DateValue?
    ensures FloatsWherePresent(Coordinates, r)
  {
    KindAt(r, "type", StrKind);
    KindAt(r, "start_date", DateKind);
    KindAt(r, "end_date", DateKind);
    CoordinateKinds(r);
  }

  /** Every failure of the type check names a present key whose value has another type, or no declared type. */
  lemma TypeFailureCause(r: Record)
    requires CheckTypes(r) != Accepted
    ensures var o := CheckTypes(r);
            || (o.KeyError? && Has(r, o.key) && Types(o.key).None?)
            || (o.Exit? && o.reason.WrongType? && Has(r, o.reason.key) && Types(o.reason.key).Some?
                && KindOf(Lookup(r, o.reason.key).value) != Types(o.reason.key).value)
  {
    var i :| 0 <= i < |r| && !Typed(r[i]) && CheckTypes(r) == TypeFailure(r[i]);
    LookupAt(r, i);
  }

  /** What each outcome of a record check says about the record. */
  predicate Explains(o: Outcome, keys: seq<string>, r: Record)
  {
    && (o.Exit? && o.reason.MissingKey? ==> o.reason.key in keys && !Has(r, o.reason.key))
    && (o.Exit? && o.reason.WrongType? ==>
          && Has(r, o.reason.key) && Types(o.reason.key).Some?
          && KindOf(Lookup(r, o.reason.key).value) != Types(o.reason.key).value)
    && (o.Exit? && o.reason.OutOfBounds? ==>
          o.reason.key in Coordinates && Has(r, o.reason.key) && !InBounds(Lookup(r, o.reason.key)))
    && (o.KeyError? ==> (Has(r, o.key) && Types(o.key).None?) || (o.key in Coordinates && !Has(r, o.key)))
  }

  /** `validate_event`: required keys, then types, then the event type, then the dates, then the coordinates. */
  function ValidateEvent(r: Record): (o: Outcome)
    ensures Explains(o, EventKeys, r)
    ensures o.Exit? && o.reason.UnknownEventType? ==>
              Lookup(r, "type") == Some(Str(o.reason.given)) && o.reason.given !in EventTypes
    ensures o.Exit? && o.reason.EndBeforeStart? ==>
              && Lookup(r, "start_date").Some? && Lookup(r, "start_date").value.DateValue?
              && Lookup(r, "end_date").Some? && Lookup(r, "end_date").value.DateValue?
              && !LessEq(Lookup(r, "start_date").value.date, Lookup(r, "end_date").value.date)
  {
    match FirstMissing(EventKeys, r)
    case Some(k) => Exit(MissingKey(k))
    case None =>
      var typed := CheckTypes(r);
      if typed != Accepted then TypeFailureCause(r); typed
      else
        RequiredEventKeys(r);
        EventFieldKinds(r);
        var kind := Lookup(r, "type").value.s;
        if kind !in EventTypes then Exit(UnknownEventType(kind))
        else if !LessEq(Lookup(r, "start_date").value.date, Lookup(r, "end_date").value.date) then Exit(EndBeforeStart)
        else CheckBounds(Coordinates, r)
  }

  /** `validate_location`: required keys, then types, then the coordinates. */
  function ValidateLocation(r: Record): (o: Outcome)
    ensures Explains(o, LocationKeys, r)
    ensures o.Exit? ==> o.reason.MissingKey? || o.reason.WrongType? || o.reason.OutOfBounds?
  {
    match FirstMissing(LocationKeys, r)
    case Some(k) => Exit(MissingKey(k))
    case None =>
      var typed := CheckTypes(r);
      if typed != Accepted then TypeFailureCause(r); typed
      else
        CoordinateKinds(r);
        CheckBounds(Coordinates, r)
  }

  /** The events `validate_event` accepts, stated rule by rule. */
  predicate ValidEvent(r: Record)
  {
    && (forall i :: 0 <= i < |EventKeys| ==> Has(r, EventKeys[i]))
    && WellTyped(r)
    && KnownEventType(Lookup(r, "type"))
    && DatesInOrder(r)
    && InBounds(Lookup(r, "latitude"))
    && InBounds(Lookup(r, "longitude"))
  }

  /** The locations `validate_location` accepts, stated rule by rule. */
  predicate ValidLocation(r: Record)
  {
    && (forall i :: 0 <= i < |LocationKeys| ==> Has(r, LocationKeys[i]))
    && WellTyped(r)
    && InBounds(Lookup(r, "latitude"))
    && InBounds(Lookup(r, "longitude"))
  }

  lemma EventAcceptedExactly(r: Record)
    ensures ValidateEvent(r) == Accepted <==> ValidEvent(r)
  {
    if FirstMissing(EventKeys, r).None? && CheckTypes(r) == Accepted {
      RequiredEventKeys(r);
      EventFieldKinds(r);
      assert Coordinates[0] == "latitude" && Coordinates[1] == "longitude";
    }
  }

  lemma LocationAcceptedExactly(r: Record)
    ensures ValidateLocation(r) == Accepted <==> ValidLocation(r)
  {
    if FirstMissing(LocationKeys, r).None? && CheckTypes(r) == Accepted {
      CoordinateKinds(r);
      assert Coordinates[0] == "latitude" && Coordinates[1] == "longitude";
    }
  }

  /** A missing required key is reported before anything else is looked at. */
  lemma MissingKeyReportedFirst(r: Record, i: nat)
    requires i < |EventKeys| && !Has(r, EventKeys[i])
    requires forall j :: 0 <= j < i ==> Has(r, EventKeys[j])
    ensures ValidateEvent(r) == Exit(MissingKey(EventKeys[i]))
  {
    var m := FirstMissing(EventKeys, r);
    var k :| 0 <= k < |EventKeys| && EventKeys[k] == m.value && !Has(r, EventKeys[k])
             && forall j :: 0 <= j < k ==> Has(r, EventKeys[j]);
    assert k == i;
  }

  /** With the required keys present, the first entry of the wrong type (or unknown key) decides. */
  lemma TypeFailureReportedSecond(r: Record, i: nat)
    requires forall j :: 0 <= j < |EventKeys| ==> Has(r, EventKeys[j])
    requires i < |r| && !Typed(r[i]) && forall j :: 0 <= j < i ==> Typed(r[j])
    ensures ValidateEvent(r) == TypeFailure(r[i])
  {
    var o := CheckTypes(r);
    var k :| 0 <= k < |r| && !Typed(r[k]) && o == TypeFailure(r[k]) && forall j :: 0 <= j < k ==> Typed(r[j]);
    assert k == i;
  }

  /** An end date before the start date is refused once keys, types and event type have passed. */
  lemma EndBeforeStartRefused(r: Record)
    requires forall j :: 0 <= j < |EventKeys| ==> Has(r, EventKeys[j])
    requires WellTyped(r) && KnownEventType(Lookup(r, "type"))
    requires Lookup(r, "start_date").Some? && Lookup(r, "start_date").value.DateValue?
    requires Lookup(r, "end_date").Some? && Lookup(r, "end_date").value.DateValue?
    requires !LessEq(Lookup(r, "start_date").value.date, Lookup(r, "end_date").value.date)
    ensures ValidateEvent(r) == Exit(EndBeforeStart)
  {
    RequiredEventKeys(r);
  }

  /** An unknown event type is refused once keys and types have passed, before the dates and coordinates are looked at. */
  lemma UnknownTypeReportedThird(r: Record)
    requires forall j :: 0 <= j < |EventKeys| ==> Has(r, EventKeys[j])
    requires WellTyped(r) && !KnownEventType(Lookup(r, "type"))
    requires Lookup(r, "type").Some? && Lookup(r, "type").value.Str?
    ensures ValidateEvent(r) == Exit(UnknownEventType(Lookup(r, "type").value.s))
  {
    RequiredEventKeys(r);
    EventFieldKinds(r);
  }

  /** The first coordinate out of bounds, in the order latitude then longitude, is the one reported. */
  lemma LatitudeCheckedFirst(r: Record)
    requires FloatsWherePresent(Coordinates, r)
    requires Has(r, "latitude") && !InBounds(Lookup(r, "latitude"))
    ensures CheckBounds(Coordinates, r) == Exit(OutOfBounds("latitude"))
  {
    assert Coordinates[0] == "latitude";
  }

  /** An otherwise valid event without a latitude makes the bounds check raise KeyError. */
  lemma MissingLatitudeCrashes(r: Record)
    requires forall j :: 0 <= j < |EventKeys| ==> Has(r, EventKeys[j])
    requires WellTyped(r) && KnownEventType(Lookup(r, "type")) && DatesInOrder(r)
    requires !Has(r, "latitude")
    ensures ValidateEvent(r) == KeyError("latitude")
  {
    RequiredEventKeys(r);
    EventFieldKinds(r);
    assert Coordinates[0] == "latitude";
  }

  /** `validate_events` on the loaded document: every event in turn until the first that fails. */
  method ValidateEvents(doc: Option<seq<Record>>) returns (o: Outcome)
    ensures o == Accepted <==> doc.None? || forall i :: 0 <= i < |doc.value| ==> ValidateEvent(doc.value[i]) == Accepted
    ensures o != Accepted ==> doc.Some? && (exists i :: 0 <= i < |doc.value| && o == ValidateEvent(doc.value[i])
                                             && forall j :: 0 <= j < i ==> ValidateEvent(doc.value[j]) == Accepted)
  {
    if doc.Some? && doc.value != [] {
      var events := doc.value;
      for i := 0 to |events|
        invariant forall j :: 0 <= j < i ==> ValidateEvent(events[j]) == Accepted
      {
        o := ValidateEvent(events[i]);
        if o != Accepted {
          assert 0 <= i < |doc.value| && o == ValidateEvent(doc.value[i]);
          return;
        }
      }
    }
    o := Accepted;
  }

  /** `validate_locations` on the loaded document. */
  method ValidateLocations(doc: Option<seq<Record>>) returns (o: Outcome)
    ensures o == Accepted <==> doc.None? || forall i :: 0 <= i < |doc.value| ==> ValidateLocation(doc.value[i]) == Accepted
    ensures o != Accepted ==> doc.Some? && (exists i :: 0 <= i < |doc.value| && o == ValidateLocation(doc.value[i])
                                             && forall j :: 0 <= j < i ==> ValidateLocation(doc.value[j]) == Accepted)
  {
    if doc.Some? && doc.value != [] {
      var locations := doc.value;
      for i := 0 to |locations|
        invariant forall j :: 0 <= j < i ==> ValidateLocation(locations[j]) == Accepted
      {
        o := ValidateLocation(locations[i]);
        if o != Accepted {
          assert 0 <= i < |doc.value| && o == ValidateLocation(doc.value[i]);
          return;
        }
      }
    }
    o := Accepted;
  }
}
