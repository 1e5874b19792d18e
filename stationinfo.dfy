/** `get_stationinfo`: the fold over the infoboxes of an article.  The name
    comes from the first infobox, the location from the first infobox that
    has one, the neighbouring stations are the union over all infoboxes, and
    the passenger figure is the largest candidate of any infobox (0 without
    candidates).  The first exception raised by any step ends the extraction. */
module StationInfo {
  import opened Results
  import opened PyStr
  import opened Infobox
  import opened Coordinates
  import opened Navigation
  import opened Passengers

  /** The infoboxes of an article (`table.infobox.bordered`), in document order. */
  type Infoboxes = seq<Rows>

  /** The dictionary `get_stationinfo` returns. */
  datatype StationRecord = StationRecord(
    name: Option<string>,
    lat: Option<real>,
    lng: Option<real>,
    passengers: int,
    nextUrls: set<string>)

  /** The local variables of `get_stationinfo` between two infoboxes. */
  datatype Progress = Progress(
    stationName: Option<string>,
    latitude: Option<real>,
    longitude: Option<real>,
    passengersList: seq<int>,
    nextUrls: set<string>)

  /** Lines 86-91. */
  const Start := Progress(None, None, None, [], {})

  /** Python's `max` on a non-empty list (line 124). */
  function Max(xs: seq<int>): (m: int)
    requires |xs| > 0
    ensures m in xs && forall x :: x in xs ==> x <= m
  {
    if |xs| == 1 then xs[0]
    else
      var rest := Max(xs[1..]);
      assert forall x :: x in xs ==> x == xs[0] || x in xs[1..];
      if xs[0] >= rest then xs[0] else rest
  }

  /** Lines 104-105: the name is taken from this infobox only while none is known. */
  function NameStep(name: Option<string>, rows: Rows): (r: Result<Option<string>>)
    ensures name.Some? ==> r == Ok(name)
    ensures name.None? ==> r == (if |rows| == 0 then Err(IndexError) else Ok(Some(rows[0].text)))
  {
    if name.Some? then Ok(name)
    else
      var title :- InfoboxTitle(rows);
      Ok(Some(title))
  }

  /** Lines 109-110: the location is looked for in this infobox only while the
      latitude is unknown. */
  function LocationStep(p: Progress, rows: Rows): (r: Result<LatLng>)
    ensures p.latitude.Some? ==> r == Ok(LatLng(p.latitude, p.longitude))
    ensures p.latitude.None? ==> r == Location(rows)
  {
    if p.latitude.Some? then Ok(LatLng(p.latitude, p.longitude)) else Location(rows)
  }

  /** One turn of the loop of lines 100-122. */
  function Step(p: Progress, rows: Rows): (r: Result<Progress>)
    ensures r.Ok? ==> r.value.nextUrls == p.nextUrls + NextUrls(rows)
    ensures r.Ok? ==> p.passengersList <= r.value.passengersList
  {
    var name :- NameStep(p.stationName, rows);
    var location :- LocationStep(p, rows);
    var counts :- CollectPassengers(p.passengersList, rows);
    Ok(Progress(name, location.latitude, location.longitude, counts, p.nextUrls + NextUrls(rows)))
  }

  /** The loop of lines 100-122 continued from `p` over `boxes`. */
  function AggregateFrom(p: Progress, boxes: Infoboxes): (r: Result<Progress>)
    ensures r.Ok? ==> p.nextUrls <= r.value.nextUrls && p.passengersList <= r.value.passengersList
    decreases |boxes|
  {
    if |boxes| == 0 then Ok(p)
    else
      var next :- Step(p, boxes[0]);
      AggregateFrom(next, boxes[1..])
  }

  /** What `get_stationinfo` returns, or the exception it raises. */
  function StationInfoOf(boxes: Infoboxes): (r: Result<StationRecord>)
    ensures |boxes| == 0 ==> r == Ok(StationRecord(None, None, None, 0, {}))
    ensures r.Ok? ==> r.value.passengers >= 0
    ensures r.Ok? ==> (r.value.lat.Some? <==> r.value.lng.Some?)
    ensures r.Ok? ==> forall u :: u in r.value.nextUrls ==> ArticlePrefix <= u
  {
    AggregateKeepsInvariant(Start, boxes);
    var p :- AggregateFrom(Start, boxes);
    var passengers := if p.passengersList != [] then Max(p.passengersList) else 0;
    Ok(StationRecord(p.stationName, p.latitude, p.longitude, passengers, p.nextUrls))
  }

  /** `get_stationinfo` (lines 86-136) on the infoboxes of the fetched article. */
  method GetStationInfo(boxes: Infoboxes) returns (r: Result<StationRecord>)
    ensures r == StationInfoOf(boxes)
  {
    var stationName: Option<string> := None;
    var latitude: Option<real> := None;
    var longitude: Option<real> := None;
    var passengersList: seq<int> := [];
    var nextUrls: set<string> := {};
    for k := 0 to |boxes|
      invariant AggregateFrom(Progress(stationName, latitude, longitude, passengersList, nextUrls), boxes[k..])
                == AggregateFrom(Start, boxes)
    {
      assert boxes[k..][1..] == boxes[k + 1..];
      var rows := boxes[k];
      ghost var before := Progress(stationName, latitude, longitude, passengersList, nextUrls);
      if stationName.None? {
        var title :- InfoboxTitle(rows);
        stationName := Some(title);
      }
      if latitude.None? {
        var location :- GetLocation(rows);
        latitude, longitude := location.latitude, location.longitude;
      }
      var urls := GetNextUrls(rows);
      nextUrls := nextUrls + urls;
      for j := 0 to |rows|
        invariant CollectPassengers(passengersList, rows[j..]) == CollectPassengers(before.passengersList, rows)
      {
        assert rows[j..][1..] == rows[j + 1..];
        if Contains(rows[j].text, PassengerMarker) {
          var count :- PassengerCount(rows[j].text);
          passengersList := passengersList + [count];
        }
      }
    }
    var passengers := if passengersList != [] then Max(passengersList) else 0;
    return Ok(StationRecord(stationName, latitude, longitude, passengers, nextUrls));
  }

  /** What holds of the local variables between infoboxes: latitude and
      longitude are known together, every candidate is a count of people, and
      every collected url is an article path. */
  predicate Invariant(p: Progress) {
    && (p.latitude.Some? <==> p.longitude.Some?)
    && (forall k :: 0 <= k < |p.passengersList| ==> p.passengersList[k] >= 0)
    && (forall u :: u in p.nextUrls ==> ArticlePrefix <= u)
  }

  /** Every turn of the loop keeps the invariant. */
  lemma StepKeepsInvariant(p: Progress, rows: Rows)
    requires Invariant(p) && Step(p, rows).Ok?
    ensures Invariant(Step(p, rows).value)
  {
    CollectPassengersNonNegative(p.passengersList, rows);
  }

  lemma {:induction false} AggregateKeepsInvariant(p: Progress, boxes: Infoboxes)
    requires Invariant(p)
    ensures AggregateFrom(p, boxes).Ok? ==> Invariant(AggregateFrom(p, boxes).value)
    decreases |boxes|
  {
    if |boxes| > 0 && Step(p, boxes[0]).Ok? {
      StepKeepsInvariant(p, boxes[0]);
      AggregateKeepsInvariant(Step(p, boxes[0]).value, boxes[1..]);
    }
  }

  /** Once known, the name is never replaced. */
  lemma {:induction false} NameKept(p: Progress, boxes: Infoboxes)
    requires p.stationName.Some? && AggregateFrom(p, boxes).Ok?
    ensures AggregateFrom(p, boxes).value.stationName == p.stationName
    decreases |boxes|
  {
    if |boxes| > 0 {
      NameKept(Step(p, boxes[0]).value, boxes[1..]);
    }
  }

  /** The name is the title of the first infobox; a first infobox without rows
      raises IndexError. */
  lemma NameFromFirstInfobox(boxes: Infoboxes)
    requires |boxes| > 0
    ensures |boxes[0]| == 0 ==> StationInfoOf(boxes) == Err(IndexError)
    ensures StationInfoOf(boxes).Ok? ==> StationInfoOf(boxes).value.name == Some(boxes[0][0].text)
  {
    if StationInfoOf(boxes).Ok? {
      NameKept(Step(Start, boxes[0]).value, boxes[1..]);
    }
  }

  /** Once the latitude is known, the location is never replaced. */
  lemma {:induction false} LocationKept(p: Progress, boxes: Infoboxes)
    requires p.latitude.Some? && AggregateFrom(p, boxes).Ok?
    ensures AggregateFrom(p, boxes).value.latitude == p.latitude
    ensures AggregateFrom(p, boxes).value.longitude == p.longitude
    decreases |boxes|
  {
    if |boxes| > 0 {
      LocationKept(Step(p, boxes[0]).value, boxes[1..]);
    }
  }

  /** Without a known latitude, the location is that of the first infobox that
      has one, and every infobox before it has none; when none has one, the
      location stays unknown. */
  lemma {:induction false} FirstLocationWins(p: Progress, boxes: Infoboxes)
    requires p.latitude.None? && AggregateFrom(p, boxes).Ok?
    ensures var q := AggregateFrom(p, boxes).value;
      if q.latitude.None? then
        forall k :: 0 <= k < |boxes| ==> Location(boxes[k]).Ok? && Location(boxes[k]).value.latitude.None?
      else
        exists k :: 0 <= k < |boxes| && Location(boxes[k]) == Ok(LatLng(q.latitude, q.longitude))
          && forall j :: 0 <= j < k ==> Location(boxes[j]).Ok? && Location(boxes[j]).value.latitude.None?
    decreases |boxes|
  {
    if |boxes| > 0 {
      var next := Step(p, boxes[0]).value;
      var q := AggregateFrom(p, boxes).value;
      if next.latitude.Some? {
        LocationKept(next, boxes[1..]);
        assert Location(boxes[0]) == Ok(LatLng(q.latitude, q.longitude));
      } else {
        FirstLocationWins(next, boxes[1..]);
        if q.latitude.Some? {
          var k :| 0 <= k < |boxes[1..]| && Location(boxes[1..][k]) == Ok(LatLng(q.latitude, q.longitude))
            && forall j :: 0 <= j < k ==> Location(boxes[1..][j]).Ok? && Location(boxes[1..][j]).value.latitude.None?;
          assert Location(boxes[k + 1]) == Ok(LatLng(q.latitude, q.longitude));
          forall j | 0 <= j < k + 1
            ensures Location(boxes[j]).Ok? && Location(boxes[j]).value.latitude.None?
          {
            if j > 0 {
              assert boxes[j] == boxes[1..][j - 1];
            }
          }
        } else {
          forall j | 0 <= j < |boxes|
            ensures Location(boxes[j]).Ok? && Location(boxes[j]).value.latitude.None?
          {
            if j > 0 {
              assert boxes[j] == boxes[1..][j - 1];
            }
          }
        }
      }
    }
  }

  /** The location of the record is that of the first infobox that has one;
      without one, the record has neither latitude nor longitude. */
  lemma LocationFromFirstLocatedInfobox(boxes: Infoboxes)
    requires StationInfoOf(boxes).Ok?
    ensures var s := StationInfoOf(boxes).value;
      if s.lat.None? then
        s.lng.None? && forall k :: 0 <= k < |boxes| ==> Location(boxes[k]) == Ok(NoLocation)
      else
        exists k :: 0 <= k < |boxes| && Location(boxes[k]) == Ok(LatLng(s.lat, s.lng))
          && forall j :: 0 <= j < k ==> Location(boxes[j]) == Ok(NoLocation)
  {
    FirstLocationWins(Start, boxes);
  }

  /** A url is collected exactly when it is collected from some infobox. */
  lemma {:induction false} AggregateUrls(p: Progress, boxes: Infoboxes, u: string)
    requires AggregateFrom(p, boxes).Ok?
    ensures u in AggregateFrom(p, boxes).value.nextUrls <==>
              u in p.nextUrls || exists k :: 0 <= k < |boxes| && u in NextUrls(boxes[k])
    decreases |boxes|
  {
    if |boxes| > 0 {
      AggregateUrls(Step(p, boxes[0]).value, boxes[1..], u);
      if exists k :: 0 <= k < |boxes| && u in NextUrls(boxes[k]) {
        var k :| 0 <= k < |boxes| && u in NextUrls(boxes[k]);
        if k > 0 {
          assert boxes[1..][k - 1] == boxes[k];
        }
      }
      if exists k :: 0 <= k < |boxes[1..]| && u in NextUrls(boxes[1..][k]) {
        var k :| 0 <= k < |boxes[1..]| && u in NextUrls(boxes[1..][k]);
        assert boxes[k + 1] == boxes[1..][k];
      }
    }
  }

  /** The links of the record are the union of the links of all infoboxes. */
  lemma UrlsUnion(boxes: Infoboxes, u: string)
    requires StationInfoOf(boxes).Ok?
    ensures u in StationInfoOf(boxes).value.nextUrls <==> exists k :: 0 <= k < |boxes| && u in NextUrls(boxes[k])
  {
    AggregateUrls(Start, boxes, u);
  }

  /** A figure is a candidate exactly when some passenger row of some infobox gives it. */
  predicate IsCandidate(boxes: Infoboxes, n: int) {
    exists k, i :: 0 <= k < |boxes| && 0 <= i < |boxes[k]| && IsPassengerRow(boxes[k][i])
      && PassengerCount(boxes[k][i].text) == Ok(n)
  }

  lemma {:induction false} AggregateCandidates(p: Progress, boxes: Infoboxes, n: int)
    requires AggregateFrom(p, boxes).Ok?
    ensures n in AggregateFrom(p, boxes).value.passengersList <==> n in p.passengersList || IsCandidate(boxes, n)
    decreases |boxes|
  {
    if |boxes| > 0 {
      var rows := boxes[0];
      var next := Step(p, rows).value;
      CollectPassengersValues(p.passengersList, rows, n);
      AggregateCandidates(next, boxes[1..], n);
      CandidateShift(boxes, n);
    }
  }

  /** A candidate of `boxes` comes from the first infobox or from the rest. */
  lemma CandidateShift(boxes: Infoboxes, n: int)
    requires |boxes| > 0
    ensures IsCandidate(boxes, n) <==>
      (exists i :: 0 <= i < |boxes[0]| && IsPassengerRow(boxes[0][i]) && PassengerCount(boxes[0][i].text) == Ok(n))
      || IsCandidate(boxes[1..], n)
  {
    if IsCandidate(boxes, n) {
      var k, i :| 0 <= k < |boxes| && 0 <= i < |boxes[k]| && IsPassengerRow(boxes[k][i])
        && PassengerCount(boxes[k][i].text) == Ok(n);
      if k > 0 {
        assert boxes[1..][k - 1] == boxes[k];
      }
    }
    if IsCandidate(boxes[1..], n) {
      var k, i :| 0 <= k < |boxes[1..]| && 0 <= i < |boxes[1..][k]| && IsPassengerRow(boxes[1..][k][i])
        && PassengerCount(boxes[1..][k][i].text) == Ok(n);
      assert boxes[k + 1] == boxes[1..][k];
    }
  }

  /** The passenger figure is the largest candidate of all infoboxes, or 0
      when there is none. */
  lemma PassengersAreMaximum(boxes: Infoboxes)
    requires StationInfoOf(boxes).Ok?
    ensures var m := StationInfoOf(boxes).value.passengers;
      && (forall n :: IsCandidate(boxes, n) ==> n <= m)
      && (IsCandidate(boxes, m) || (m == 0 && forall n :: !IsCandidate(boxes, n)))
  {
    var list := AggregateFrom(Start, boxes).value.passengersList;
    forall n
      ensures n in list <==> IsCandidate(boxes, n)
    {
      AggregateCandidates(Start, boxes, n);
    }
  }

  /** Every passenger row of the infobox has a figure. */
  predicate FiguresParse(rows: Rows) {
    forall i :: 0 <= i < |rows| && IsPassengerRow(rows[i]) ==> PassengerCount(rows[i].text).Ok?
  }

  /** Two infoboxes, the first titled but without coordinates, the second
      with them: the name comes from the first, the location from the second. */
  lemma NameFirstLocationFallsThrough(first: Rows, second: Rows, lat: real, lng: real)
    requires |first| > 0 && |second| > 0
    requires Location(first) == Ok(NoLocation) && Location(second) == Ok(LatLng(Some(lat), Some(lng)))
    requires FiguresParse(first) && FiguresParse(second)
    ensures StationInfoOf([first, second]).Ok?
    ensures StationInfoOf([first, second]).value.name == Some(first[0].text)
    ensures StationInfoOf([first, second]).value.lat == Some(lat)
    ensures StationInfoOf([first, second]).value.lng == Some(lng)
  {
    CollectPassengersOk([], first);
    var p1 := Step(Start, first).value;
    CollectPassengersOk(p1.passengersList, second);
    var p2 := Step(p1, second).value;
    assert [second][1..] == [];
    assert AggregateFrom(p1, [second]) == Ok(p2);
    assert [first, second][1..] == [second];
    assert AggregateFrom(Start, [first, second]) == Ok(p2);
  }
}
