/** The percentages of the machine bar in views/english/savings.ejs: largest-remainder rounding, and the
    rounded corners of the bar's segments. Percentages are exact reals. */
module Rounding {

  predicate IsShare(p: seq<real>) {
    |p| == 3 && p[0] >= 0.0 && p[1] >= 0.0 && p[2] >= 0.0
  }

  function Sum(p: seq<real>): real
    requires |p| == 3
  {
    p[0] + p[1] + p[2]
  }

  function Total(r: seq<int>): int
    requires |r| == 3
  {
    r[0] + r[1] + r[2]
  }

  function FloorSum(p: seq<real>): int
    requires |p| == 3
  {
    p[0].Floor + p[1].Floor + p[2].Floor
  }

  function Fraction(x: real): real {
    x - x.Floor as real
  }

  /** The percentages as the page computes them; nothing is divided when the total is 0. */
  function Percentages(off: real, stop: real, running: real, total: real): seq<real> {
    if total == 0.0 then [total, total, total]
    else [off / total * 100.0, stop / total * 100.0, running / total * 100.0]
  }

  /** `a` has the first largest fraction of p, and `b` the first largest of the others. */
  ghost predicate Largest(p: seq<real>, a: int, b: int) {
    && 0 <= a < |p| && 0 <= b < |p| && a != b
    && (forall i :: 0 <= i < |p| ==> Fraction(p[i]) <= Fraction(p[a]))
    && (forall i :: 0 <= i < a ==> Fraction(p[i]) < Fraction(p[a]))
    && (forall i :: 0 <= i < |p| && i != a ==> Fraction(p[i]) <= Fraction(p[b]))
    && (forall i :: 0 <= i < b && i != a ==> Fraction(p[i]) < Fraction(p[b]))
  }

  /** The floors of p, with one more at the largest fraction when 1 is missing to 100, and at the two
      largest when 2 are. */
  ghost predicate IsRounding(p: seq<real>, r: seq<int>) {
    && |p| == |r| == 3
    && exists a, b :: Largest(p, a, b) && Raised(p, r, a, b)
  }

  ghost predicate Raised(p: seq<real>, r: seq<int>, a: int, b: int)
    requires |p| == |r| == 3
  {
    var missing := 100 - FloorSum(p);
    forall i :: 0 <= i < 3 ==>
      r[i] == p[i].Floor + if (i == a && (missing == 1 || missing == 2)) || (i == b && missing == 2) then 1 else 0
  }

  method RoundedPercentages(percentages: seq<real>) returns (convertedPercentage: seq<int>)
    requires |percentages| == 3
    ensures IsRounding(percentages, convertedPercentage)
  {
    var convertedDecimal: seq<real> := [];
    convertedPercentage := [];
    var max1Deci, max2Deci, sum := 0, -1, 0;
    for index := 0 to 3
      invariant |convertedDecimal| == |convertedPercentage| == index
      invariant forall i :: 0 <= i < index ==>
                  convertedPercentage[i] == percentages[i].Floor && convertedDecimal[i] == Fraction(percentages[i])
      invariant 0 <= max1Deci < 3 && (index > 0 ==> max1Deci < index)
      invariant index == 0 ==> max1Deci == 0
      invariant forall i :: 0 <= i < index ==> convertedDecimal[i] <= convertedDecimal[max1Deci]
      invariant forall i :: 0 <= i < max1Deci ==> convertedDecimal[i] < convertedDecimal[max1Deci]
      invariant sum == (if index > 0 then percentages[0].Floor else 0) + (if index > 1 then percentages[1].Floor else 0)
                       + (if index > 2 then percentages[2].Floor else 0)
    {
      var intNum := percentages[index].Floor;
      var decimalNum := percentages[index] - intNum as real;
      convertedDecimal := convertedDecimal + [decimalNum];
      convertedPercentage := convertedPercentage + [intNum];
      if convertedDecimal[max1Deci] < decimalNum {
        max1Deci := index;
      }
      sum := sum + intNum;
    }
    for index := 0 to 3
      invariant -1 <= max2Deci < index && max2Deci != max1Deci
      invariant max2Deci == -1 ==> index == 0 || (index == 1 && max1Deci == 0)
      invariant max2Deci != -1 ==>
                  forall i :: 0 <= i < index && i != max1Deci ==> convertedDecimal[i] <= convertedDecimal[max2Deci]
      invariant forall i :: 0 <= i < max2Deci && i != max1Deci ==> convertedDecimal[i] < convertedDecimal[max2Deci]
    {
      var deci := convertedDecimal[index];
      if max1Deci != index {
        if max2Deci == -1 {
          max2Deci := index;
        } else if convertedDecimal[max2Deci] < deci {
          max2Deci := index;
        }
      }
    }
    assert max2Deci != -1;
    assert Largest(percentages, max1Deci, max2Deci);
    if 100 - sum == 2 {
      convertedPercentage := convertedPercentage[max1Deci := convertedPercentage[max1Deci] + 1];
      convertedPercentage := convertedPercentage[max2Deci := convertedPercentage[max2Deci] + 1];
    } else if 100 - sum == 1 {
      convertedPercentage := convertedPercentage[max1Deci := convertedPercentage[max1Deci] + 1];
    }
    assert Raised(percentages, convertedPercentage, max1Deci, max2Deci);
  }

  // ----- What rounding promises

  lemma FractionBounds(x: real)
    ensures 0.0 <= Fraction(x) < 1.0
  {}

  /** The fractions add up to what the floors miss. */
  lemma Missing(p: seq<real>)
    requires |p| == 3 && Sum(p) == 100.0
    ensures var missing := 100 - FloorSum(p);
            missing as real == Fraction(p[0]) + Fraction(p[1]) + Fraction(p[2]) && 0 <= missing <= 2
  {
    FractionBounds(p[0]);
    FractionBounds(p[1]);
    FractionBounds(p[2]);
  }

  lemma RoundingIsNear(p: seq<real>, r: seq<int>, a: int, b: int, i: int)
    requires |p| == |r| == 3 && Sum(p) == 100.0 && Largest(p, a, b) && Raised(p, r, a, b) && 0 <= i < 3
    ensures r[i] as real - 1.0 < p[i] < r[i] as real + 1.0
    ensures p[i] >= 0.0 ==> r[i] >= 0
  {
    FractionBounds(p[i]);
    if r[i] != p[i].Floor { RaisedHasFraction(p, r, a, b, i); }
  }

  lemma RoundingTotal(p: seq<real>, r: seq<int>, a: int, b: int)
    requires |p| == |r| == 3 && Sum(p) == 100.0 && Largest(p, a, b) && Raised(p, r, a, b)
    ensures Total(r) == 100
  {
    Missing(p);
  }

  lemma TiesGoToTheFirst(p: seq<real>, r: seq<int>, a: int, b: int, i: int, j: int)
    requires |p| == |r| == 3 && Largest(p, a, b) && Raised(p, r, a, b)
    requires 0 <= i < j < 3 && p[i] == p[j]
    ensures r[j] <= r[i] <= r[j] + 1
  {}

  /** Shares of 100 are rounded to integers that add up to 100, each by less than 1; a larger share is not
      rounded below a smaller one, and of two equal ones the first gets the larger number. */
  lemma RoundingIsFair(p: seq<real>, r: seq<int>)
    requires IsShare(p) && Sum(p) == 100.0 && IsRounding(p, r)
    ensures Total(r) == 100
    ensures forall i :: 0 <= i < 3 ==> r[i] as real - 1.0 < p[i] < r[i] as real + 1.0 && 0 <= r[i] <= 100
    ensures forall i, j :: 0 <= i < 3 && 0 <= j < 3 && p[i] < p[j] ==> r[i] <= r[j]
    ensures forall i, j :: 0 <= i < j < 3 && p[i] == p[j] ==> r[j] <= r[i] <= r[j] + 1
  {
    hide Raised;
    var a, b :| Largest(p, a, b) && Raised(p, r, a, b);
    RoundingTotal(p, r, a, b);
    RoundingIsNear(p, r, a, b, 0);
    RoundingIsNear(p, r, a, b, 1);
    RoundingIsNear(p, r, a, b, 2);
    forall i, j | 0 <= i < 3 && 0 <= j < 3 && p[i] < p[j]
      ensures r[i] <= r[j]
    {
      OrderIsKept(p, r, a, b, i, j);
    }
    forall i, j | 0 <= i < j < 3 && p[i] == p[j]
      ensures r[j] <= r[i] <= r[j] + 1
    {
      TiesGoToTheFirst(p, r, a, b, i, j);
    }
  }

  /** Whether the equal shares i < j of p, next to the third share k, are raised together or not at all: 1 is
      missing and k gets it, or 2 are missing and k gets none; the first place wins a tie of fractions. */
  predicate TieIsKept(p: seq<real>, i: int, j: int)
    requires |p| == 3 && 0 <= i < j < 3
  {
    var k, missing := 3 - i - j, 100 - FloorSum(p);
    var f, g := Fraction(p[i]), Fraction(p[k]);
    || missing == 0
    || (missing == 1 && (g > f || (g == f && k < i)))
    || (missing == 2 && (g < f || (g == f && k > j)))
  }

  /** Exactly when two equal shares are rounded to equal numbers. */
  lemma TiesExactly(p: seq<real>, r: seq<int>, i: int, j: int)
    requires |p| == 3 && Sum(p) == 100.0 && IsRounding(p, r)
    requires 0 <= i < j < 3 && p[i] == p[j]
    ensures r[i] == r[j] <==> TieIsKept(p, i, j)
    ensures r[i] != r[j] ==> r[i] == r[j] + 1
  {
    hide Sum;
    var a, b :| Largest(p, a, b) && Raised(p, r, a, b);
    Missing(p);
    assert p[i].Floor == p[j].Floor;
  }

  /** Three equal shares of 100 never look equal. */
  lemma ThirdsAreUneven(p: seq<real>, r: seq<int>)
    requires p == [100.0 / 3.0, 100.0 / 3.0, 100.0 / 3.0] && IsRounding(p, r)
    ensures r == [34, 33, 33]
  {
    assert p[0].Floor == 33 && FloorSum(p) == 99;
    TiesExactly(p, r, 0, 1);
    TiesExactly(p, r, 1, 2);
    var a, b :| Largest(p, a, b) && Raised(p, r, a, b);
  }

  lemma RaisedHasFraction(p: seq<real>, r: seq<int>, a: int, b: int, i: int)
    requires |p| == |r| == 3 && Sum(p) == 100.0 && Largest(p, a, b) && Raised(p, r, a, b)
    requires 0 <= i < 3 && r[i] != p[i].Floor
    ensures Fraction(p[i]) > 0.0
  {
    Missing(p);
    FractionBounds(p[a]);
    FractionBounds(p[b]);
    FractionBounds(p[3 - a - b]);
  }

  lemma OrderIsKept(p: seq<real>, r: seq<int>, a: int, b: int, i: int, j: int)
    requires |p| == |r| == 3 && Largest(p, a, b) && Raised(p, r, a, b)
    requires 0 <= i < 3 && 0 <= j < 3 && p[i] < p[j]
    ensures r[i] <= r[j]
  {
    assert p[i].Floor <= p[j].Floor;
    if p[i].Floor == p[j].Floor {
      assert Fraction(p[i]) < Fraction(p[j]);
    }
  }

  function Abs(x: real): real {
    if x < 0.0 then -x else x
  }

  function Error(p: seq<real>, r: seq<int>): real
    requires |p| == |r| == 3
  {
    Abs(r[0] as real - p[0]) + Abs(r[1] as real - p[1]) + Abs(r[2] as real - p[2])
  }

  /** Equal sums: one part's error is made good by the others. */
  lemma ErrorAtLeast(p: seq<real>, q: seq<int>, i: int)
    requires |p| == |q| == 3 && Sum(p) == Total(q) as real && 0 <= i < 3
    ensures Error(p, q) >= 2.0 * Abs(q[i] as real - p[i])
  {
    var x, y, z := q[0] as real - p[0], q[1] as real - p[1], q[2] as real - p[2];
    assert x + y + z == 0.0;
  }

  lemma ErrorOfRounding(p: seq<real>, r: seq<int>, a: int, b: int)
    requires |p| == |r| == 3 && Sum(p) == 100.0 && Largest(p, a, b) && Raised(p, r, a, b)
    ensures var missing := 100 - FloorSum(p);
            && (missing == 0 ==> Error(p, r) == 0.0)
            && (missing == 1 ==> Error(p, r) == 2.0 * (1.0 - Fraction(p[a])))
            && (missing == 2 ==> Error(p, r) == 2.0 * Fraction(p[3 - a - b]))
  {
    Missing(p);
    FractionBounds(p[0]);
    FractionBounds(p[1]);
    FractionBounds(p[2]);
  }

  lemma OneMissing(p: seq<real>, q: seq<int>, a: int, b: int)
    requires |p| == |q| == 3 && Sum(p) == 100.0 && Total(q) == 100 && Largest(p, a, b)
    requires FloorSum(p) == 99
    ensures Error(p, q) >= 2.0 * (1.0 - Fraction(p[a]))
  {
    var i := if q[0] > p[0].Floor then 0 else if q[1] > p[1].Floor then 1 else 2;
    assert q[i] >= p[i].Floor + 1;
    assert Fraction(p[i]) <= Fraction(p[a]);
    ErrorAtLeast(p, q, i);
  }

  lemma TwoMissing(p: seq<real>, q: seq<int>, a: int, b: int)
    requires |p| == |q| == 3 && Sum(p) == 100.0 && Total(q) == 100 && Largest(p, a, b)
    requires FloorSum(p) == 98
    ensures Error(p, q) >= 2.0 * Fraction(p[3 - a - b])
  {
    var i := if q[0] <= p[0].Floor then 0 else if q[1] <= p[1].Floor then 1 else 2;
    assert q[i] <= p[i].Floor;
    assert Fraction(p[3 - a - b]) <= Fraction(p[i]);
    ErrorAtLeast(p, q, i);
  }

  /** No other integers with sum 100 are closer to the shares in total. */
  lemma RoundingIsClosest(p: seq<real>, r: seq<int>, q: seq<int>)
    requires IsShare(p) && Sum(p) == 100.0 && IsRounding(p, r)
    requires |q| == 3 && Total(q) == 100
    ensures Error(p, r) <= Error(p, q)
  {
    var a, b :| Largest(p, a, b) && Raised(p, r, a, b);
    var missing := 100 - FloorSum(p);
    Missing(p);
    ErrorOfRounding(p, r, a, b);
    if missing == 1 {
      OneMissing(p, q, a, b);
    } else if missing == 2 {
      TwoMissing(p, q, a, b);
    }
  }

  lemma TotalExactly(p: seq<real>, r: seq<int>)
    requires IsRounding(p, r)
    ensures Total(r) == 100 <==> 98 <= FloorSum(p) <= 100
  {
    var a, b :| Largest(p, a, b) && Raised(p, r, a, b);
  }

  /** On the page the three numbers shown add up to 100 exactly when their floors miss at most 2, which they do
      whenever the total is that of the parts; without a total they are all 0. */
  lemma ShownPercentages(off: real, stop: real, running: real, total: real, r: seq<int>)
    requires IsRounding(Percentages(off, stop, running, total), r)
    ensures Total(r) == 100 <==> 98 <= FloorSum(Percentages(off, stop, running, total)) <= 100
    ensures off >= 0.0 && stop >= 0.0 && running >= 0.0 && total == off + stop + running > 0.0 ==> Total(r) == 100
    ensures total == 0.0 ==> r == [0, 0, 0]
  {
    var p := Percentages(off, stop, running, total);
    TotalExactly(p, r);
    if total == 0.0 {
      assert p[0].Floor == p[1].Floor == p[2].Floor == 0;
      var a, b :| Largest(p, a, b) && Raised(p, r, a, b);
    } else if off >= 0.0 && stop >= 0.0 && running >= 0.0 && total == off + stop + running {
      PercentagesAreShares(off, stop, running, total);
      RoundingIsFair(p, r);
    }
  }

  lemma PercentagesAreShares(off: real, stop: real, running: real, total: real)
    requires off >= 0.0 && stop >= 0.0 && running >= 0.0 && total == off + stop + running > 0.0
    ensures IsShare(Percentages(off, stop, running, total))
    ensures Sum(Percentages(off, stop, running, total)) == 100.0
  {
    QuotientTimes(off, total);
    QuotientTimes(stop, total);
    QuotientTimes(running, total);
    SharesAddUp(off / total, stop / total, running / total, off, stop, running, total);
  }

  lemma QuotientTimes(part: real, total: real)
    requires total > 0.0 && part >= 0.0
    ensures part / total * total == part && part / total >= 0.0
  {}

  lemma SharesAddUp(x: real, y: real, z: real, off: real, stop: real, running: real, total: real)
    requires total == off + stop + running > 0.0
    requires x * total == off && y * total == stop && z * total == running
    ensures x + y + z == 1.0
  {
    var rest := x + y + z - 1.0;
    assert rest * total == x * total + y * total + z * total - total == 0.0;
  }

  /** The first number is that of the time off, the second that of the stops, the third that of the running time: each
      is within 1 of its share. */
  lemma NumbersAreInOrder(off: real, stop: real, running: real, total: real, r: seq<int>)
    requires off >= 0.0 && stop >= 0.0 && running >= 0.0 && total == off + stop + running > 0.0
    requires IsRounding(Percentages(off, stop, running, total), r)
    ensures r[0] as real - 1.0 < off / total * 100.0 < r[0] as real + 1.0
    ensures r[1] as real - 1.0 < stop / total * 100.0 < r[1] as real + 1.0
    ensures r[2] as real - 1.0 < running / total * 100.0 < r[2] as real + 1.0
  {
    PercentagesAreShares(off, stop, running, total);
    RoundingIsFair(Percentages(off, stop, running, total), r);
  }

  // ----- The corners of the bar

  const ROUND := "20px"
  const ROUND_LEFT := "20px 0px 0px 20px"
  const ROUND_RIGHT := "0px 20px 20px 0px"
  const SQUARE := "0px"

  function OffRadius(r: seq<int>): string
    requires |r| == 3
  {
    if r[0] == 100 then ROUND else ROUND_LEFT
  }

  function StopRadius(r: seq<int>): string
    requires |r| == 3
  {
    if r[1] == 100 then ROUND
    else if r[0] == 0 then ROUND_LEFT
    else if r[2] == 0 then ROUND_RIGHT
    else SQUARE
  }

  function RunRadius(r: seq<int>): string
    requires |r| == 3
  {
    if r[2] == 100 then ROUND else ROUND_RIGHT
  }

  function Radius(r: seq<int>, i: int): string
    requires |r| == 3 && 0 <= i < 3
  {
    if i == 0 then OffRadius(r) else if i == 1 then StopRadius(r) else RunRadius(r)
  }

  /** How a segment should look that is the first or the last visible one of the bar. */
  function Corners(isFirst: bool, isLast: bool): string {
    if isFirst && isLast then "20px"
    else if isFirst then "20px 0px 0px 20px"
    else if isLast then "0px 20px 20px 0px"
    else "0px"
  }

  /** A visible segment is rounded to the left exactly when no visible one precedes it, and to the right
      exactly when none follows, for integer widths that add up to 100. */
  lemma BarIsRoundedAtItsEnds(r: seq<int>, i: int)
    requires |r| == 3 && r[0] >= 0 && r[1] >= 0 && r[2] >= 0 && Total(r) == 100
    requires 0 <= i < 3 && r[i] > 0
    ensures Radius(r, i) == Corners(forall j :: 0 <= j < i ==> r[j] == 0, forall j :: i < j < 3 ==> r[j] == 0)
  {
    assert (forall j :: 0 <= j < i ==> r[j] == 0) <==> (i > 0 ==> r[0] == 0) && (i > 1 ==> r[1] == 0);
    assert (forall j :: i < j < 3 ==> r[j] == 0) <==> (i < 2 ==> r[2] == 0) && (i < 1 ==> r[1] == 0);
  }
}
