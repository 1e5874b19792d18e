/** The passenger figures of an infobox (lines 120-122 of get_stationinfo.py):
    every row whose text mentions 人員 contributes the number formed by the
    digits of its text before the first 人/日. */
module Passengers {
  import opened Results
  import opened PyStr
  import opened PyNum
  import opened Infobox

  const PassengerMarker := "人員"
  const PerDayMark := "人/日"

  predicate IsPassengerRow(row: Row) {
    Contains(row.text, PassengerMarker)
  }

  /** `int(re.sub('\D', '', text.split('人/日')[0]))`: the digits before the
      first 人/日 read as one number; without any digit there, `int('')`
      raises ValueError. */
  function PassengerCount(text: string): (r: Result<int>)
    ensures r.Ok? <==> exists i :: 0 <= i < |SplitHead(text, PerDayMark)| && IsDigit(SplitHead(text, PerDayMark)[i])
    ensures r.Ok? ==> r.value == DigitsValue(RemoveNonDigits(SplitHead(text, PerDayMark))) as int
    ensures r.Err? ==> r.error == ValueError
  {
    PyInt(RemoveNonDigits(SplitHead(text, PerDayMark)))
  }

  /** The inner loop of lines 120-122 continued from the candidates `counts`
      collected so far: each passenger row appends its figure, and a row
      whose figure does not parse raises. */
  function CollectPassengers(counts: seq<int>, rows: Rows): (r: Result<seq<int>>)
    ensures r.Ok? ==> counts <= r.value
    decreases |rows|
  {
    if |rows| == 0 then Ok(counts)
    else if !IsPassengerRow(rows[0]) then CollectPassengers(counts, rows[1..])
    else
      var n :- PassengerCount(rows[0].text);
      CollectPassengers(counts + [n], rows[1..])
  }

  /** Collecting succeeds exactly when every passenger row has a digit before 人/日. */
  lemma {:induction false} CollectPassengersOk(counts: seq<int>, rows: Rows)
    ensures CollectPassengers(counts, rows).Ok? <==>
              forall i :: 0 <= i < |rows| && IsPassengerRow(rows[i]) ==> PassengerCount(rows[i].text).Ok?
    decreases |rows|
  {
    if |rows| > 0 {
      var tail := rows[1..];
      assert forall i :: 1 <= i < |rows| ==> rows[i] == tail[i - 1];
      if !IsPassengerRow(rows[0]) {
        CollectPassengersOk(counts, tail);
      } else if PassengerCount(rows[0].text).Ok? {
        CollectPassengersOk(counts + [PassengerCount(rows[0].text).value], tail);
      }
    }
  }

  /** What collecting appends: the figure of every passenger row, and nothing else. */
  lemma {:induction false} CollectPassengersValues(counts: seq<int>, rows: Rows, n: int)
    requires CollectPassengers(counts, rows).Ok?
    ensures n in CollectPassengers(counts, rows).value <==>
              n in counts || exists i :: 0 <= i < |rows| && IsPassengerRow(rows[i]) && PassengerCount(rows[i].text) == Ok(n)
    decreases |rows|
  {
    if |rows| > 0 {
      var tail := rows[1..];
      assert forall i :: 1 <= i < |rows| ==> rows[i] == tail[i - 1];
      if !IsPassengerRow(rows[0]) {
        CollectPassengersValues(counts, tail, n);
        PassengerWitnessShift(rows, n);
      } else {
        var c := PassengerCount(rows[0].text).value;
        CollectPassengersValues(counts + [c], tail, n);
        PassengerWitnessShift(rows, n);
      }
    }
  }

  /** A passenger row of `rows` giving `n` is the first row or one of the rest. */
  lemma PassengerWitnessShift(rows: Rows, n: int)
    requires |rows| > 0
    ensures (exists i :: 0 <= i < |rows| && IsPassengerRow(rows[i]) && PassengerCount(rows[i].text) == Ok(n)) <==>
            (IsPassengerRow(rows[0]) && PassengerCount(rows[0].text) == Ok(n)) ||
            (exists i :: 0 <= i < |rows[1..]| && IsPassengerRow(rows[1..][i]) && PassengerCount(rows[1..][i].text) == Ok(n))
  {
    if exists i :: 0 <= i < |rows[1..]| && IsPassengerRow(rows[1..][i]) && PassengerCount(rows[1..][i].text) == Ok(n) {
      var i :| 0 <= i < |rows[1..]| && IsPassengerRow(rows[1..][i]) && PassengerCount(rows[1..][i].text) == Ok(n);
      assert rows[i + 1] == rows[1..][i];
    }
    if exists i :: 0 <= i < |rows| && IsPassengerRow(rows[i]) && PassengerCount(rows[i].text) == Ok(n) {
      var i :| 0 <= i < |rows| && IsPassengerRow(rows[i]) && PassengerCount(rows[i].text) == Ok(n);
      if i > 0 {
        assert rows[1..][i - 1] == rows[i];
      }
    }
  }

  /** Every figure is a count of people: never negative. */
  lemma {:induction false} CollectPassengersNonNegative(counts: seq<int>, rows: Rows)
    requires forall k :: 0 <= k < |counts| ==> counts[k] >= 0
    requires CollectPassengers(counts, rows).Ok?
    ensures forall k :: 0 <= k < |CollectPassengers(counts, rows).value| ==> CollectPassengers(counts, rows).value[k] >= 0
    decreases |rows|
  {
    if |rows| > 0 {
      if IsPassengerRow(rows[0]) {
        var next := counts + [PassengerCount(rows[0].text).value];
        CollectPassengersNonNegative(next, rows[1..]);
      } else {
        CollectPassengersNonNegative(counts, rows[1..]);
      }
    }
  }

  /** In a text without a slash (the middle character of 人/日) before a 人/日,
      that 人/日 is the first. */
  lemma FirstPerDay(head: string, rest: string)
    requires forall i :: 0 <= i < |head| ==> head[i] != '/'
    ensures IndexOf(head + PerDayMark + rest, PerDayMark) == Some(|head|)
  {
    var text := head + PerDayMark + rest;
    assert OccursAt(text, PerDayMark, |head|) by {
      assert text[|head|..|head| + |PerDayMark|] == PerDayMark;
    }
    forall j: nat | j < |head|
      ensures !OccursAt(text, PerDayMark, j)
    {
      if j + |PerDayMark| <= |text| {
        assert text[j + 1] != '/' by {
          if j + 1 < |head| {
            assert text[j + 1] == head[j + 1];
          } else {
            assert text[j + 1] == PerDayMark[0];
          }
        }
        assert text[j..j + |PerDayMark|][1] == text[j + 1];
      }
    }
  }

  /** The figure is read from all the text before the first 人/日. */
  lemma PassengerCountBefore(head: string, rest: string)
    requires forall i :: 0 <= i < |head| ==> head[i] != '/'
    ensures PassengerCount(head + PerDayMark + rest) == PyInt(RemoveNonDigits(head))
  {
    PerDayHead(head, rest);
  }

  lemma PerDayHead(head: string, rest: string)
    requires forall i :: 0 <= i < |head| ==> head[i] != '/'
    ensures SplitHead(head + PerDayMark + rest, PerDayMark) == head
  {
    var text := head + PerDayMark + rest;
    FirstPerDay(head, rest);
    SplitHeadAt(text, PerDayMark, |head|);
    assert text[..|head|] == head;
  }

  /** A passenger row written as a caption without digits, then a figure whose
      digits spell `n` (thousands separators allowed), then 人/日, counts `n`
      people. */
  lemma PassengerCountRoundTrip(caption: string, figure: string, rest: string, n: nat)
    requires forall i :: 0 <= i < |caption + figure| ==> (caption + figure)[i] != '/'
    requires forall i :: 0 <= i < |caption| ==> !IsDigit(caption[i])
    requires RemoveNonDigits(figure) == NatToString(n)
    ensures PassengerCount(caption + figure + PerDayMark + rest) == Ok(n)
  {
    PassengerCountBefore(caption + figure, rest);
    RemoveNonDigitsConcat(caption, figure);
    RemoveNonDigitsExtremes(caption);
    assert RemoveNonDigits(caption + figure) == NatToString(n);
    NatToStringRoundTrip(n);
  }

  /** The passenger row of Kagoshima station. */
  lemma KagoshimaPassengers()
    ensures PassengerCount("乗車人員 1,597人/日") == Ok(1597)
  {
    KagoshimaRowText();
    Digits1597();
    PassengerCountRoundTrip("乗車人員 ", "1,597", "", 1597);
  }

  lemma KagoshimaRowText()
    ensures "乗車人員 1,597人/日" == "乗車人員 " + "1,597" + PerDayMark + ""
    ensures forall i :: 0 <= i < |"乗車人員 " + "1,597"| ==> ("乗車人員 " + "1,597")[i] != '/'
    ensures forall i :: 0 <= i < |"乗車人員 "| ==> !IsDigit("乗車人員 "[i])
    ensures RemoveNonDigits("1,597") == "1597"
  {
    assert "乗車人員 " + "1,597" == "乗車人員 1,597";
  }

  lemma Digits1597()
    ensures NatToString(1597) == "1597"
  {
    assert NatToString(1) == "1";
    assert NatToString(15) == "15";
    assert NatToString(159) == "159";
  }

  /** Every digit before 人/日 is taken, those of the caption included: the
      digits of the caption come in front of those of the figure. */
  lemma CaptionDigitsAreTaken(caption: string, figure: string, rest: string)
    requires forall i :: 0 <= i < |caption + figure| ==> (caption + figure)[i] != '/'
    ensures PassengerCount(caption + figure + PerDayMark + rest) == PyInt(RemoveNonDigits(caption) + RemoveNonDigits(figure))
  {
    PassengerCountBefore(caption + figure, rest);
    RemoveNonDigitsConcat(caption, figure);
  }

  /** A caption counting days (`1日`, one day) puts its digit in front of the figure. */
  lemma DailyCaption()
    ensures PassengerCount("1日人員 5人/日") == Ok(15)
  {
    DailyCaptionText();
    CaptionDigitsAreTaken("1日人員 ", "5", "");
  }

  lemma DailyCaptionText()
    ensures "1日人員 5人/日" == "1日人員 " + "5" + PerDayMark + ""
    ensures forall i :: 0 <= i < |"1日人員 " + "5"| ==> ("1日人員 " + "5")[i] != '/'
    ensures RemoveNonDigits("1日人員 ") + RemoveNonDigits("5") == "15"
    ensures PyInt("15") == Ok(15)
  {
    DailyCaptionSplit();
    DailyCaptionDigits();
    Int15();
  }

  lemma DailyCaptionSplit()
    ensures "1日人員 5人/日" == "1日人員 " + "5" + PerDayMark + ""
    ensures forall i :: 0 <= i < |"1日人員 " + "5"| ==> ("1日人員 " + "5")[i] != '/'
  {
    assert "1日人員 " + "5" == "1日人員 5";
  }

  lemma DailyCaptionDigits()
    ensures RemoveNonDigits("1日人員 ") + RemoveNonDigits("5") == "15"
  {
    assert "1日人員 " == "1" + "日人員 ";
    RemoveNonDigitsConcat("1", "日人員 ");
    RemoveNonDigitsExtremes("日人員 ");
  }

  lemma Int15()
    ensures PyInt("15") == Ok(15)
  {
    assert AllDigits("15");
    assert DigitsValue("15") == 15 by {
      assert "15"[..1] == "1";
    }
  }
}
