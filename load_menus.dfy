/**
 * The menu parser of src/loadmenus.ts: dispatch on the dining-hall code, and
 * the segmentation of the flattened PDF text of the NRH hall into one dinner
 * listing per weekday.
 */
module LoadMenus {
  import opened Wrappers
  import opened JsSplit
  import opened CaseSplit

  /** The day names scanned, in order; SATURDAY only bounds FRIDAY's section. */
  const Days: seq<string> := ["MONDAY", "TUESDAY", "WEDNESDAY", "THURSDAY", "FRIDAY", "SATURDAY"]

  const Dinner: string := "DINNER"
  const Specials: string := "SPECIALS"
  /** A letter-spaced "LEGEND" heading as the text extractor renders it. */
  const Legend: string := "L E G E N D"
  /** A heading run into the word before it by the text extractor. */
  const GrillArtifact: string := "forGRILL ITEMS SANDWICHES"

  /** The markers that bound a day's dinner text. */
  const MealMarkers: seq<string> := [Dinner, Specials, Legend, GrillArtifact]

  /** The record built for a weekday; the code gives it the single field `dinners`. */
  datatype Menu = Menu(dinners: seq<string>)

  /**
   * Calling `.split` on `undefined`: the `[1]` piece of a split was missing
   * because `marker` does not occur, while handling `day`.
   */
  datatype ParseError = UndefinedSegment(day: string, marker: string)

  lemma DayNameNonEmpty(i: nat)
    requires i < |Days|
    ensures |Days[i]| > 0
  {
  }

  /**
   * Day `i`'s section: after the first occurrence of its name, up to the
   * second occurrence of its name or the first occurrence of the next day's
   * name, whichever comes first.
   */
  function DaySection(text: string, i: nat): (r: Result<string, ParseError>)
    requires i < |Days| - 1
    ensures r.Failure? <==> !Contains(text, Days[i])
    ensures r.Failure? ==> r.error == UndefinedSegment(Days[i], Days[i])
    ensures r.Success? ==>
      PieceAfter(text, r.value, IndexOf(text, Days[i]).value + |Days[i]|, [Days[i], Days[i + 1]])
  {
    var day, next := Days[i], Days[i + 1];
    DayNameNonEmpty(i);
    DayNameNonEmpty(i + 1);
    match Second(text, day)
    case None => Failure(UndefinedSegment(day, day))
    case Some(after) =>
      SecondThenHead(text, day, next);
      Success(Head(after, next))
  }

  /**
   * The dinner text of a day section: after the first "DINNER", cut before
   * the next "DINNER", "SPECIALS", "L E G E N D" or the grill heading.
   */
  function DinnerText(day: string, section: string): (r: Result<string, ParseError>)
    ensures r.Failure? <==> !Contains(section, Dinner)
    ensures r.Failure? ==> r.error == UndefinedSegment(day, Dinner)
    ensures r.Success? ==>
      PieceAfter(section, r.value, IndexOf(section, Dinner).value + |Dinner|, MealMarkers)
  {
    match Second(section, Dinner)
    case None => Failure(UndefinedSegment(day, Dinner))
    case Some(after) =>
      SecondThenThreeHeads(section, Dinner, Specials, Legend, GrillArtifact);
      Success(Head(Head(Head(after, Specials), Legend), GrillArtifact))
  }

  /** Weekday `i` parses: its name occurs in the text and "DINNER" in its section. */
  predicate DayHasDinner(text: string, i: nat)
    requires i < |Days| - 1
  {
    Contains(text, Days[i]) && Contains(DaySection(text, i).value, Dinner)
  }

  /** The menu of weekday `i`: its dinner text cut into items. */
  function DayMenu(text: string, i: nat): (r: Result<Menu, ParseError>)
    requires i < |Days| - 1
    ensures r.Success? <==> DayHasDinner(text, i)
    ensures r.Failure? ==> r.error.day == Days[i]
    ensures r.Failure? ==> (r.error.marker == Days[i] <==> !Contains(text, Days[i]))
    ensures r.Failure? ==> (r.error.marker == Dinner <==> Contains(text, Days[i]))
    ensures r.Success? ==>
      r.value.dinners == SplitItems(DinnerText(Days[i], DaySection(text, i).value).value)
  {
    var section :- DaySection(text, i);
    var dinner :- DinnerText(Days[i], section);
    Success(Menu(SplitItems(dinner)))
  }

  /**
   * The items of a parsed day concatenate back to its dinner text, which is
   * a piece of that day's section, hence of the whole text, holding no meal
   * marker and neither the day's name nor the next day's.
   */
  lemma DinnersComeFromSection(text: string, i: nat)
    requires i < |Days| - 1 && DayHasDinner(text, i)
    ensures
      var section := DaySection(text, i).value;
      var d := Concat(DayMenu(text, i).value.dinners);
      d == DinnerText(Days[i], section).value
      && Contains(section, d) && Contains(text, d)
      && FreeOf(d, MealMarkers) && FreeOf(d, [Days[i], Days[i + 1]])
  {
    var day, next := Days[i], Days[i + 1];
    var section := DaySection(text, i).value;
    var dinner := DinnerText(day, section).value;
    var start := IndexOf(text, day).value + |day|;
    var inner := IndexOf(section, Dinner).value + |Dinner|;
    assert OccursAt(text, section, start) && FreeOf(section, [day, next]);
    assert OccursAt(section, dinner, inner);
    OccursWithin(text, section, dinner, start, inner);
    FreeOfPart(section, dinner, inner, [day, next]);
    assert Concat(DayMenu(text, i).value.dinners) == dinner;
  }

  /** The value `days.map` gives slot `i`: nothing for SATURDAY, else the day's menu. */
  function Slot(text: string, i: nat): (r: Result<Option<Menu>, ParseError>)
    requires i < |Days|
    ensures i == |Days| - 1 ==> r == Success(None)
    ensures i < |Days| - 1 ==> (r.Success? <==> DayHasDinner(text, i))
    ensures i < |Days| - 1 && r.Success? ==> r.value == Some(DayMenu(text, i).value)
    ensures i < |Days| - 1 && r.Failure? ==> r.error == DayMenu(text, i).error
  {
    if Days[i] == "SATURDAY" then Success(None)
    else
      match DayMenu(text, i)
      case Failure(e) => Failure(e)
      case Success(m) => Success(Some(m))
  }

  /** What each slot of `days.map` holds, in terms of the day it stands for. */
  lemma SlotsFollowDays(text: string, slots: seq<Result<Option<Menu>, ParseError>>)
    requires |slots| == |Days| && forall i :: 0 <= i < |Days| ==> slots[i] == Slot(text, i)
    ensures slots[5] == Success(None)
    ensures forall i :: 0 <= i < |Days| - 1 ==> (slots[i].Success? <==> DayHasDinner(text, i))
    ensures forall i :: 0 <= i < |Days| - 1 ==> (slots[i].Success? <==> DayMenu(text, i).Success?)
    ensures forall i :: 0 <= i < |Days| - 1 && slots[i].Success? ==> slots[i].value == Some(DayMenu(text, i).value)
    ensures forall i :: 0 <= i < |Days| - 1 && slots[i].Failure? ==> DayMenu(text, i) == Failure(slots[i].error)
  {
    forall i | 0 <= i < |Days| - 1
      ensures slots[i].Success? <==> DayHasDinner(text, i)
      ensures slots[i].Success? <==> DayMenu(text, i).Success?
      ensures slots[i].Success? ==> slots[i].value == Some(DayMenu(text, i).value)
      ensures slots[i].Failure? ==> DayMenu(text, i) == Failure(slots[i].error)
    {
      assert slots[i] == Slot(text, i);
    }
  }

  /** The slot results of `days.map`, one per day name, in order. */
  function Slots(text: string): (r: seq<Result<Option<Menu>, ParseError>>)
    ensures |r| == |Days| && forall i :: 0 <= i < |Days| ==> r[i] == Slot(text, i)
  {
    seq(|Days|, i requires 0 <= i < |Days| => Slot(text, i))
  }

  /**
   * The outcome of `days.map` over slot results computed left to right: the
   * values in order, or the first failure, which aborts the map.
   */
  function Collect<T(==), E(==)>(results: seq<Result<T, E>>): (r: Result<seq<T>, E>)
    ensures r.Success? <==> forall j :: 0 <= j < |results| ==> results[j].Success?
    ensures r.Success? ==>
      |r.value| == |results| && forall j :: 0 <= j < |results| ==> results[j] == Success(r.value[j])
    ensures r.Failure? ==>
      exists j :: 0 <= j < |results| && results[j] == Failure(r.error)
        && forall j' :: 0 <= j' < j ==> results[j'].Success?
  {
    if |results| == 0 then Success([])
    else
      match results[0]
      case Failure(e) => Failure(e)
      case Success(v) =>
        var tail := results[1..];
        match Collect(tail)
        case Failure(e) =>
          var j :| 0 <= j < |tail| && tail[j] == Failure(e)
            && forall j' :: 0 <= j' < j ==> tail[j'].Success?;
          assert results[j + 1] == tail[j];
          Failure(e)
        case Success(rest) => Success([v] + rest)
  }

  /**
   * `parseNrhMenuText`: six slots MONDAY..SATURDAY with SATURDAY always
   * empty; it succeeds exactly when every weekday name occurs and its section
   * holds "DINNER", and then slot `i` holds day `i`'s menu.
   */
  function ParseNrhMenuText(text: string): (r: Result<seq<Option<Menu>>, ParseError>)
    ensures r.Success? <==> forall i :: 0 <= i < |Days| - 1 ==> DayHasDinner(text, i)
    ensures r.Success? ==> |r.value| == |Days| == 6 && r.value[5] == None
    ensures r.Success? ==> forall i :: 0 <= i < |Days| - 1 ==> r.value[i] == Some(DayMenu(text, i).value)
  {
    SlotsFollowDays(text, Slots(text));
    Collect(Slots(text))
  }

  /**
   * A failed parse reports the first weekday, in calendar order, whose name
   * or whose "DINNER" is missing.
   */
  lemma FirstFailingDay(text: string)
    requires ParseNrhMenuText(text).Failure?
    ensures
      var e := ParseNrhMenuText(text).error;
      exists i :: 0 <= i < |Days| - 1 && DayMenu(text, i) == Failure(e)
        && forall j :: 0 <= j < i ==> DayMenu(text, j).Success?
  {
    var slots := Slots(text);
    var e := ParseNrhMenuText(text).error;
    assert Collect(slots) == Failure(e);
    var j :| 0 <= j < |slots| && slots[j] == Failure(e)
      && forall j' :: 0 <= j' < j ==> slots[j'].Success?;
    assert slots[j] == Slot(text, j);
    assert j < |Days| - 1;
    forall j' | 0 <= j' < j ensures DayMenu(text, j').Success? {
      assert slots[j'] == Slot(text, j');
    }
  }

  /**
   * When weekday `i` is the first that does not parse, the parse fails with
   * that day's name and the marker that is missing: the day's own name if it
   * does not occur, otherwise "DINNER".
   */
  lemma {:induction false} FailureNamesFirstBadDay(text: string, i: nat)
    requires i < |Days| - 1 && !DayHasDinner(text, i)
    requires forall j :: 0 <= j < i ==> DayHasDinner(text, j)
    ensures ParseNrhMenuText(text)
      == Failure(UndefinedSegment(Days[i], if Contains(text, Days[i]) then Dinner else Days[i]))
  {
    var r := ParseNrhMenuText(text);
    assert r.Failure?;
    FirstFailingDay(text);
    var k :| 0 <= k < |Days| - 1 && DayMenu(text, k) == Failure(r.error)
      && forall j :: 0 <= j < k ==> DayMenu(text, j).Success?;
    assert !DayHasDinner(text, k) && DayMenu(text, i).Failure?;
    assert k == i;
    var e := DayMenu(text, i).error;
    assert e.day == Days[i];
    if Contains(text, Days[i]) {
      assert e.marker == Dinner;
    } else {
      assert e.marker == Days[i];
    }
  }

  /** Text without "MONDAY" (the empty text, say) fails on MONDAY's name. */
  lemma MissingMondayFails(text: string)
    requires !Contains(text, "MONDAY")
    ensures ParseNrhMenuText(text) == Failure(UndefinedSegment("MONDAY", "MONDAY"))
  {
    assert !DayHasDinner(text, 0);
    FailureNamesFirstBadDay(text, 0);
  }

  /** `parseMenuText`: only the code "nrh" is parsed; any other code gives no menus. */
  function ParseMenuText(text: string, res: string): (r: Result<seq<Option<Menu>>, ParseError>)
    ensures res != "nrh" ==> r == Success([])
    ensures res == "nrh" ==> r == ParseNrhMenuText(text)
  {
    match res
    case "nrh" => ParseNrhMenuText(text)
    case _ => Success([])
  }
}
