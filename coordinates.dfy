/** The coordinates of a station: `dms2deg` and `_get_location`, which finds the
    row carrying the latitude marker 北緯 and cuts the degree, minute and second
    figures of latitude and longitude (marker 東経) out of its text. */
module Coordinates {
  import opened Results
  import opened PyStr
  import opened PyNum
  import opened Infobox

  const LatitudeMarker := "北緯"
  const LongitudeMarker := "東経"
  const DegreeMark := "度"
  const MinuteMark := "分"
  const SecondMark := "秒"

  /** `dms2deg`: degrees, minutes and seconds to decimal degrees. */
  function Dms2Deg(degree: real, minute: real, second: real): (deg: real)
    ensures minute == 0.0 && second == 0.0 ==> deg == degree
  {
    degree + minute / 60.0 + second / 3600.0
  }

  /** Whole degrees convert to themselves. */
  lemma Dms2DegWholeDegrees(d: real)
    ensures Dms2Deg(d, 0.0, 0.0) == d
  {
  }

  /** The conversion never decreases when one of its inputs grows, and strictly
      increases when one of them strictly grows. */
  lemma Dms2DegMonotone(d: real, m: real, s: real, d': real, m': real, s': real)
    requires d <= d' && m <= m' && s <= s'
    ensures Dms2Deg(d, m, s) <= Dms2Deg(d', m', s')
    ensures d < d' || m < m' || s < s' ==> Dms2Deg(d, m, s) < Dms2Deg(d', m', s')
  {
  }

  /** Latitude and longitude found so far; both absent or both present. */
  datatype LatLng = LatLng(latitude: Option<real>, longitude: Option<real>)

  const NoLocation := LatLng(None, None)

  predicate IsLatitudeRow(row: Row) {
    Contains(row.text, LatitudeMarker)
  }

  /** `text.split(marker)[1].split('秒')[0]`: the figures after the first marker,
      up to the next second mark. */
  function DmsText(text: string, marker: string): (r: Result<string>)
    ensures |marker| > 0 ==> (r.Ok? <==> Contains(text, marker))
    ensures r.Ok? ==> !Contains(r.value, SecondMark)
  {
    var afterMarker :- Segment(text, marker, 1);
    Ok(SplitHead(afterMarker, SecondMark))
  }

  /** Lines 40-43 (and 45-48): degrees before 度, minutes between 度 and 分,
      seconds after 分, each read by `float()`, then `dms2deg`. */
  function ParseDms(dms: string): (r: Result<real>)
    ensures !Contains(dms, DegreeMark) ==> r.Err?
    ensures Contains(dms, DegreeMark) && !Contains(Segment(dms, DegreeMark, 1).value, MinuteMark) ==> r.Err?
  {
    var degree :- ParseFloat(SplitHead(dms, DegreeMark));
    var afterDegree :- Segment(dms, DegreeMark, 1);
    var minute :- ParseFloat(SplitHead(afterDegree, MinuteMark));
    var secondText :- Segment(afterDegree, MinuteMark, 1);
    var second :- ParseFloat(secondText);
    Ok(Dms2Deg(degree, minute, second))
  }

  /** Lines 39-48 for one row: latitude after 北緯, then longitude after 東経. */
  function RowLocation(text: string): (r: Result<(real, real)>)
    ensures !Contains(text, LongitudeMarker) ==> r.Err?
  {
    var dmsLat :- DmsText(text, LatitudeMarker);
    var latitude :- ParseDms(dmsLat);
    var dmsLng :- DmsText(text, LongitudeMarker);
    var longitude :- ParseDms(dmsLng);
    Ok((latitude, longitude))
  }

  /** The loop of `_get_location` continued from `acc` over `rows`: every
      latitude row overwrites the location; a malformed one raises. */
  function LocationFrom(acc: LatLng, rows: Rows): (r: Result<LatLng>)
    ensures r.Ok? && (acc.latitude.Some? <==> acc.longitude.Some?) ==>
              (r.value.latitude.Some? <==> r.value.longitude.Some?)
    decreases |rows|
  {
    if |rows| == 0 then Ok(acc)
    else if !IsLatitudeRow(rows[0]) then LocationFrom(acc, rows[1..])
    else
      var coordinates :- RowLocation(rows[0].text);
      LocationFrom(LatLng(Some(coordinates.0), Some(coordinates.1)), rows[1..])
  }

  /** `_get_location`: what the loop yields from no location. */
  function Location(rows: Rows): (r: Result<LatLng>)
    ensures r.Ok? ==> (r.value.latitude.Some? <==> r.value.longitude.Some?)
  {
    LocationFrom(NoLocation, rows)
  }

  /** `_get_location` (lines 32-49). */
  method GetLocation(rows: Rows) returns (r: Result<LatLng>)
    ensures r == Location(rows)
    ensures r.Ok? ==> (r.value.latitude.Some? <==> r.value.longitude.Some?)
  {
    var latitude: Option<real> := None;
    var longitude: Option<real> := None;
    for i := 0 to |rows|
      invariant LocationFrom(LatLng(latitude, longitude), rows[i..]) == Location(rows)
    {
      assert rows[i..][1..] == rows[i + 1..];
      var text := rows[i].text;
      if !Contains(text, LatitudeMarker) {
        continue;
      }
      var dmsLat := DmsText(text, LatitudeMarker).value;
      var lat :- ParseDms(dmsLat);
      latitude := Some(lat);
      var dmsLng :- DmsText(text, LongitudeMarker);
      var lng :- ParseDms(dmsLng);
      longitude := Some(lng);
    }
    r := Ok(LatLng(latitude, longitude));
  }

  /** The rows of `rows` that carry the latitude marker, in order. */
  function LatitudeRows(rows: Rows): (r: Rows)
    ensures forall row :: row in r <==> row in rows && IsLatitudeRow(row)
  {
    if |rows| == 0 then []
    else (if IsLatitudeRow(rows[0]) then [rows[0]] else []) + LatitudeRows(rows[1..])
  }

  /** Rows without 北緯 never affect the result. */
  lemma {:induction false} LocationIgnoresOtherRows(acc: LatLng, rows: Rows)
    ensures LocationFrom(acc, rows) == LocationFrom(acc, LatitudeRows(rows))
    decreases |rows|
  {
    if |rows| > 0 {
      var rest := LatitudeRows(rows[1..]);
      if IsLatitudeRow(rows[0]) {
        assert LatitudeRows(rows) == [rows[0]] + rest;
        assert ([rows[0]] + rest)[1..] == rest;
        match RowLocation(rows[0].text)
        case Err(_) =>
        case Ok(c) =>
          LocationIgnoresOtherRows(LatLng(Some(c.0), Some(c.1)), rows[1..]);
      } else {
        assert LatitudeRows(rows) == rest;
        LocationIgnoresOtherRows(acc, rows[1..]);
      }
    }
  }

  /** The scan succeeds exactly when every latitude row is well formed. */
  lemma {:induction false} LocationOkIff(acc: LatLng, rows: Rows)
    ensures LocationFrom(acc, rows).Ok? <==>
              forall i :: 0 <= i < |rows| && IsLatitudeRow(rows[i]) ==> RowLocation(rows[i].text).Ok?
    decreases |rows|
  {
    if |rows| > 0 {
      var tail := rows[1..];
      assert forall i :: 1 <= i < |rows| ==> rows[i] == tail[i - 1];
      if IsLatitudeRow(rows[0]) {
        match RowLocation(rows[0].text)
        case Err(_) =>
          assert LocationFrom(acc, rows).Err?;
        case Ok(c) =>
          assert LocationFrom(acc, rows) == LocationFrom(LatLng(Some(c.0), Some(c.1)), tail);
          LocationOkIff(LatLng(Some(c.0), Some(c.1)), tail);
      } else {
        assert LocationFrom(acc, rows) == LocationFrom(acc, tail);
        LocationOkIff(acc, tail);
      }
    }
  }

  /** Without a latitude row the location found so far stays as it is. */
  lemma {:induction false} LocationWithoutLatitudeRows(acc: LatLng, rows: Rows)
    requires forall i :: 0 <= i < |rows| ==> !IsLatitudeRow(rows[i])
    ensures LocationFrom(acc, rows) == Ok(acc)
    decreases |rows|
  {
    if |rows| > 0 {
      LocationWithoutLatitudeRows(acc, rows[1..]);
    }
  }

  /** There is no `break`: when the scan succeeds, the last latitude row decides. */
  lemma {:induction false} LastLatitudeRowWins(acc: LatLng, rows: Rows, k: nat)
    requires k < |rows| && IsLatitudeRow(rows[k])
    requires forall j :: k < j < |rows| ==> !IsLatitudeRow(rows[j])
    requires LocationFrom(acc, rows).Ok?
    ensures RowLocation(rows[k].text).Ok?
    ensures LocationFrom(acc, rows).value ==
              LatLng(Some(RowLocation(rows[k].text).value.0), Some(RowLocation(rows[k].text).value.1))
    decreases |rows|
  {
    if k == 0 {
      var c := RowLocation(rows[0].text).value;
      LocationWithoutLatitudeRows(LatLng(Some(c.0), Some(c.1)), rows[1..]);
    } else if IsLatitudeRow(rows[0]) {
      var c := RowLocation(rows[0].text).value;
      LastLatitudeRowWins(LatLng(Some(c.0), Some(c.1)), rows[1..], k - 1);
    } else {
      LastLatitudeRowWins(acc, rows[1..], k - 1);
    }
  }

  /** An angle as an infobox writes it, `31度36分5.39`: whole degrees, whole
      minutes, and seconds with the digits `fraction` after the point. */
  datatype Angle = Angle(degree: nat, minute: nat, second: nat, fraction: string)

  predicate ValidAngle(a: Angle) {
    AllDigits(a.fraction)
  }

  function AngleText(a: Angle): string {
    NatToString(a.degree) + DegreeMark + NatToString(a.minute) + MinuteMark + DecimalText(a.second, a.fraction)
  }

  function AngleValue(a: Angle): real
    requires ValidAngle(a)
  {
    Dms2Deg(a.degree as real, a.minute as real,
            a.second as real + DigitsValue(a.fraction) as real / Pow10(|a.fraction|) as real)
  }

  /** Digits and decimal points only. */
  predicate FigureChars(s: string) {
    forall i :: 0 <= i < |s| ==> IsDigit(s[i]) || s[i] == '.'
  }

  lemma DecimalTextChars(w: nat, frac: string)
    requires AllDigits(frac)
    ensures FigureChars(DecimalText(w, frac))
  {
    var ws := NatToString(w);
    if frac != "" {
      assert forall i :: 0 <= i < |ws| ==> (ws + "." + frac)[i] == ws[i];
      assert forall i :: |ws| < i < |ws| + 1 + |frac| ==> (ws + "." + frac)[i] == frac[i - |ws| - 1];
    }
  }

  /** Where the splits of lines 40-43 fall in a written angle. */
  lemma AngleTextPieces(a: Angle)
    requires ValidAngle(a)
    ensures SplitHead(AngleText(a), DegreeMark) == NatToString(a.degree)
    ensures Segment(AngleText(a), DegreeMark, 1) == Ok(NatToString(a.minute) + MinuteMark + DecimalText(a.second, a.fraction))
    ensures SplitHead(NatToString(a.minute) + MinuteMark + DecimalText(a.second, a.fraction), MinuteMark) == NatToString(a.minute)
    ensures Segment(NatToString(a.minute) + MinuteMark + DecimalText(a.second, a.fraction), MinuteMark, 1) == Ok(DecimalText(a.second, a.fraction))
  {
    var d, m := NatToString(a.degree), NatToString(a.minute);
    var sec := DecimalText(a.second, a.fraction);
    DecimalTextChars(a.second, a.fraction);
    FigureMarks(d);
    FigureMarks(m);
    FigureMarks(sec);
    assert AngleText(a) == d + DegreeMark + (m + MinuteMark + sec);
    DegreePieces(d, m, sec);
    MinutePieces(m, sec);
  }

  /** Figures hold neither the degree mark nor the minute mark. */
  lemma FigureMarks(s: string)
    requires FigureChars(s)
    ensures NoCharOf(s, DegreeMark) && NoCharOf(s, MinuteMark)
  {
  }

  /** The degree mark splits `d度m分sec` after the degrees. */
  lemma DegreePieces(d: string, m: string, sec: string)
    requires NoCharOf(d, DegreeMark) && NoCharOf(m, DegreeMark) && NoCharOf(sec, DegreeMark)
    ensures SplitHead(d + DegreeMark + (m + MinuteMark + sec), DegreeMark) == d
    ensures Segment(d + DegreeMark + (m + MinuteMark + sec), DegreeMark, 1) == Ok(m + MinuteMark + sec)
  {
    var rest := m + MinuteMark + sec;
    SplitAfter(d + DegreeMark + rest, DegreeMark, d, rest);
    assert NoCharOf(rest, DegreeMark) by {
      assert forall i :: 0 <= i < |rest| ==>
        rest[i] == (if i < |m| then m[i] else if i == |m| then '分' else sec[i - |m| - 1]);
    }
    SplitNothing(rest, DegreeMark);
  }

  /** The minute mark splits `m分sec` after the minutes. */
  lemma MinutePieces(m: string, sec: string)
    requires NoCharOf(m, MinuteMark) && NoCharOf(sec, MinuteMark)
    ensures SplitHead(m + MinuteMark + sec, MinuteMark) == m
    ensures Segment(m + MinuteMark + sec, MinuteMark, 1) == Ok(sec)
  {
    SplitAfter(m + MinuteMark + sec, MinuteMark, m, sec);
    SplitNothing(sec, MinuteMark);
  }

  /** `ParseDms` once the three figures are cut out and each is read. */
  lemma ParseDmsOfPieces(dms: string, rest: string, x: real, y: real, z: real)
    requires Segment(dms, DegreeMark, 1) == Ok(rest)
    requires ParseFloat(SplitHead(dms, DegreeMark)) == Ok(x)
    requires ParseFloat(SplitHead(rest, MinuteMark)) == Ok(y)
    requires Segment(rest, MinuteMark, 1).Ok? && ParseFloat(Segment(rest, MinuteMark, 1).value) == Ok(z)
    ensures ParseDms(dms) == Ok(Dms2Deg(x, y, z))
  {
  }

  /** The figures of an angle are cut apart and read back exactly (lines 40-43). */
  lemma ParseDmsRoundTrip(a: Angle)
    requires ValidAngle(a)
    ensures ParseDms(AngleText(a)) == Ok(AngleValue(a))
  {
    var seconds := DecimalValue(NatToString(a.second), a.fraction);
    assert ParseDms(AngleText(a)) == Ok(Dms2Deg(a.degree as real, a.minute as real, seconds)) by {
      var d, m := NatToString(a.degree), NatToString(a.minute);
      var sec := DecimalText(a.second, a.fraction);
      DecimalTextChars(a.second, a.fraction);
      FigureMarks(d);
      FigureMarks(m);
      FigureMarks(sec);
      ParseWholeText(a.degree);
      ParseWholeText(a.minute);
      ParseFloatRoundTrip(a.second, a.fraction);
      ParseDmsOfText(d, m, sec, a.degree as real, a.minute as real, seconds);
    }
    assert AngleValue(a) == Dms2Deg(a.degree as real, a.minute as real, seconds) by {
      ParseFloatRoundTrip(a.second, a.fraction);
    }
  }

  /** `ParseDms` of `d度m分sec` once each figure is read. */
  lemma ParseDmsOfText(d: string, m: string, sec: string, x: real, y: real, z: real)
    requires NoCharOf(d, DegreeMark) && NoCharOf(m, DegreeMark) && NoCharOf(sec, DegreeMark)
    requires NoCharOf(m, MinuteMark) && NoCharOf(sec, MinuteMark)
    requires ParseFloat(d) == Ok(x) && ParseFloat(m) == Ok(y) && ParseFloat(sec) == Ok(z)
    ensures ParseDms(d + DegreeMark + m + MinuteMark + sec) == Ok(Dms2Deg(x, y, z))
  {
    var rest := m + MinuteMark + sec;
    SeqAssoc4(d, DegreeMark, m, MinuteMark, sec);
    DegreePieces(d, m, sec);
    MinutePieces(m, sec);
    ParseDmsOfPieces(d + DegreeMark + rest, rest, x, y, z);
  }

  /** The text of a coordinate row: an optional caption, then latitude and longitude. */
  function LocationRowText(caption: string, lat: Angle, lng: Angle): string {
    caption + LatitudeMarker + AngleText(lat) + "秒 東経" + AngleText(lng) + SecondMark
  }

  /** Where the splits of lines 39 and 44 fall in a written coordinate row. */
  lemma LocationRowPieces(caption: string, lat: Angle, lng: Angle)
    requires ValidAngle(lat) && ValidAngle(lng)
    requires NoCharOf(caption, LatitudeMarker) && NoCharOf(caption, LongitudeMarker)
    ensures DmsText(LocationRowText(caption, lat, lng), LatitudeMarker) == Ok(AngleText(lat))
    ensures DmsText(LocationRowText(caption, lat, lng), LongitudeMarker) == Ok(AngleText(lng))
  {
    AngleTextChars(lat);
    AngleTextChars(lng);
    LatitudePiece(caption, AngleText(lat), AngleText(lng));
    LongitudePiece(caption, AngleText(lat), AngleText(lng));
  }

  lemma LatitudePiece(caption: string, a: string, b: string)
    requires NoCharOf(caption, LatitudeMarker)
    requires NoCharOf(a, LatitudeMarker) && NoCharOf(a, SecondMark) && NoCharOf(b, LatitudeMarker)
    ensures DmsText(caption + LatitudeMarker + a + "秒 東経" + b + SecondMark, LatitudeMarker) == Ok(a)
  {
    var row := caption + LatitudeMarker + a + "秒 東経" + b + SecondMark;
    var tail := a + "秒 東経" + b + "秒";
    assert row == caption + LatitudeMarker + tail by {
      SeqAssoc4(caption + LatitudeMarker, a, "秒 東経", b, "秒");
    }
    SplitAfter(row, LatitudeMarker, caption, tail);
    NoCharOfConcat(a, "秒 東経", LatitudeMarker);
    NoCharOfConcat(a + "秒 東経", b, LatitudeMarker);
    NoCharOfConcat(a + "秒 東経" + b, "秒", LatitudeMarker);
    SplitNothing(tail, LatitudeMarker);
    assert tail == a + SecondMark + (" 東経" + b + "秒");
    SplitAfter(tail, SecondMark, a, " 東経" + b + "秒");
  }

  lemma LongitudePiece(caption: string, a: string, b: string)
    requires NoCharOf(caption, LongitudeMarker)
    requires NoCharOf(a, LongitudeMarker) && NoCharOf(b, LongitudeMarker) && NoCharOf(b, SecondMark)
    ensures DmsText(caption + LatitudeMarker + a + "秒 東経" + b + SecondMark, LongitudeMarker) == Ok(b)
  {
    var row := caption + LatitudeMarker + a + "秒 東経" + b + SecondMark;
    var head := caption + "北緯" + a + "秒 ";
    var post := b + "秒";
    assert row == head + LongitudeMarker + post by {
      assert "秒 東経" == "秒 " + "東経";
      SeqAssoc4(caption + "北緯" + a, "秒 ", "東経", b, "秒");
    }
    NoCharOfConcat(caption, "北緯", LongitudeMarker);
    NoCharOfConcat(caption + "北緯", a, LongitudeMarker);
    NoCharOfConcat(caption + "北緯" + a, "秒 ", LongitudeMarker);
    SplitAfter(row, LongitudeMarker, head, post);
    NoCharOfConcat(b, "秒", LongitudeMarker);
    SplitNothing(post, LongitudeMarker);
    assert post == b + SecondMark + "";
    SplitAfter(post, SecondMark, b, "");
  }

  /** `RowLocation` once both angles are cut out and each is read. */
  lemma RowLocationOfPieces(text: string, a: string, b: string, x: real, y: real)
    requires DmsText(text, LatitudeMarker) == Ok(a) && ParseDms(a) == Ok(x)
    requires DmsText(text, LongitudeMarker) == Ok(b) && ParseDms(b) == Ok(y)
    ensures RowLocation(text) == Ok((x, y))
  {
  }

  /** A well-formed coordinate row yields exactly the angles written in it (lines 39-48). */
  lemma RowLocationRoundTrip(caption: string, lat: Angle, lng: Angle)
    requires ValidAngle(lat) && ValidAngle(lng)
    requires NoCharOf(caption, LatitudeMarker) && NoCharOf(caption, LongitudeMarker)
    ensures RowLocation(LocationRowText(caption, lat, lng)) == Ok((AngleValue(lat), AngleValue(lng)))
  {
    LocationRowPieces(caption, lat, lng);
    ParseDmsRoundTrip(lat);
    ParseDmsRoundTrip(lng);
    RowLocationOfPieces(LocationRowText(caption, lat, lng), AngleText(lat), AngleText(lng),
                        AngleValue(lat), AngleValue(lng));
  }

  /** A written angle holds none of the characters of the row markers and the second mark. */
  lemma AngleTextChars(a: Angle)
    requires ValidAngle(a)
    ensures NoCharOf(AngleText(a), LatitudeMarker) && NoCharOf(AngleText(a), LongitudeMarker)
    ensures NoCharOf(AngleText(a), SecondMark)
  {
    var d, m := NatToString(a.degree), NatToString(a.minute);
    var sec := DecimalText(a.second, a.fraction);
    DecimalTextChars(a.second, a.fraction);
    var t := AngleText(a);
    assert forall i :: 0 <= i < |t| ==>
      t[i] == (if i < |d| then d[i] else if i == |d| then '度'
               else if i < |d| + 1 + |m| then m[i - |d| - 1]
               else if i == |d| + 1 + |m| then '分' else sec[i - |d| - |m| - 2]);
  }

  /** Regrouping a concatenation of five pieces. */
  lemma SeqAssoc4(p: string, q: string, r: string, s: string, t: string)
    ensures p + q + r + s + t == p + (q + r + s + t)
    ensures p + q + r + s + t == (p + q) + r + (s + t)
    ensures p + q + r + s + t == p + q + (r + s + t)
  {
  }

  lemma NoCharOfConcat(a: string, b: string, chars: string)
    requires NoCharOf(a, chars) && NoCharOf(b, chars)
    ensures NoCharOf(a + b, chars)
  {
  }

  /** The coordinate row of Kagoshima station, whose decimal degrees are about
      31.601497 and 130.563114. */
  lemma KagoshimaText()
    ensures "" + LatitudeMarker + "31度36分5.39" + "秒 東経" + "130度33分47.21" + SecondMark
            == "北緯31度36分5.39秒 東経130度33分47.21秒"
  {
  }

  lemma KagoshimaStationRow()
    ensures RowLocation("北緯31度36分5.39秒 東経130度33分47.21秒") ==
              Ok((Dms2Deg(31.0, 36.0, 5.39), Dms2Deg(130.0, 33.0, 47.21)))
    ensures 31.601497 - 0.000001 < Dms2Deg(31.0, 36.0, 5.39) < 31.601497 + 0.000001
    ensures 130.563114 - 0.000001 < Dms2Deg(130.0, 33.0, 47.21) < 130.563114 + 0.000001
  {
    var lat, lng := Angle(31, 36, 5, "39"), Angle(130, 33, 47, "21");
    KagoshimaLatitude();
    KagoshimaLongitude();
    RowLocationRoundTrip("", lat, lng);
    assert LocationRowText("", lat, lng) == "" + LatitudeMarker + "31度36分5.39" + "秒 東経" + "130度33分47.21" + SecondMark;
    KagoshimaText();
  }

  lemma KagoshimaLatitude()
    ensures ValidAngle(Angle(31, 36, 5, "39"))
    ensures AngleText(Angle(31, 36, 5, "39")) == "31度36分5.39"
    ensures AngleValue(Angle(31, 36, 5, "39")) == Dms2Deg(31.0, 36.0, 5.39)
  {
    assert NatToString(31) == "31" && NatToString(36) == "36" && NatToString(5) == "5";
    assert Pow10(2) == 100;
    assert DigitsValue("39") == 39 by { assert "39"[..1] == "3"; }
  }

  lemma KagoshimaLongitude()
    ensures ValidAngle(Angle(130, 33, 47, "21"))
    ensures AngleText(Angle(130, 33, 47, "21")) == "130度33分47.21"
    ensures AngleValue(Angle(130, 33, 47, "21")) == Dms2Deg(130.0, 33.0, 47.21)
  {
    assert NatToString(13) == "13";
    assert NatToString(130) == "130" && NatToString(33) == "33" && NatToString(47) == "47";
    assert Pow10(2) == 100;
    assert DigitsValue("21") == 21 by { assert "21"[..1] == "2"; }
  }

}
