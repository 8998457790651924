/**
 The two text transformations the itinerary page applies: linking each point
 of interest in the generated itinerary to a web search, and cutting the
 itinerary into per-day sections for display.
 */
module Itinerary {
  import opened JsString

  /** The token the itinerary is cut on. */
  const DayMarker := "Day"

  // ---------------------------------------------------------------------------
  // Day sections
  // ---------------------------------------------------------------------------

  /** The sections the page shows: the parts of the split with the preamble
      before the first marker dropped, or, when there is no marker, the whole
      text labelled as day "1". */
  function DaySections(itinerary: string): (days: seq<string>)
    ensures |days| >= 1
    ensures !Contains(itinerary, DayMarker) ==> days == ["1" + itinerary]
  {
    var parts := Split(itinerary, DayMarker);
    if |parts| > 1 then parts[1..] else ["1" + parts[0]]
  }

  /** `itinerary.split('Day')`, then `shift()` when there is more than one
      part, else `days[0] = "1" + days[0]`. */
  method SplitDays(itinerary: string) returns (days: seq<string>)
    ensures days == DaySections(itinerary)
  {
    days := SplitOn(itinerary, DayMarker);
    if |days| > 1 {
      days := days[1..];
    } else {
      days := days[0 := "1" + days[0]];
    }
  }

  /** With a marker first found at `i`: one section per non-overlapping
      marker, the preamble `itinerary[..i]` is what was dropped, the kept
      sections joined with the marker give back everything after the first
      marker, and no section contains the marker. */
  lemma DaysWithMarker(itinerary: string, i: nat)
    requires FirstFrom(itinerary, DayMarker, 0, i)
    ensures |DaySections(itinerary)| == CountFrom(itinerary, DayMarker, 0)
    ensures itinerary[..i] + DayMarker + Join(DaySections(itinerary), DayMarker) == itinerary
    ensures forall k :: 0 <= k < |DaySections(itinerary)| ==> !Contains(DaySections(itinerary)[k], DayMarker)
  {
    var rest := i + |DayMarker|;
    assert IndexOf(itinerary, DayMarker, 0) == Some(i);
    assert DaySections(itinerary) == SplitFrom(itinerary, DayMarker, rest);
    SplitCountFrom(itinerary, DayMarker, rest);
    SplitJoinFrom(itinerary, DayMarker, rest);
    SplitFromPartsFree(itinerary, DayMarker, rest);
    assert itinerary == itinerary[..i] + itinerary[i..rest] + itinerary[rest..];
  }

  /** The marker's first letter does not recur in it, so any text without
      the marker can stand between two markers without being cut inside. */
  lemma MarkerSeparable(p: string)
    requires !Contains(p, DayMarker)
    ensures Separable(p, DayMarker)
  {
    assert DayMarker[1..] == "ay";
  }

  /** The converse: a preamble and sections that do not contain the marker,
      put together with the marker, are cut back into exactly those sections. */
  lemma SectionsFromDays(preamble: string, days: seq<string>)
    requires |days| >= 1 && !Contains(preamble, DayMarker)
    requires forall k :: 0 <= k < |days| ==> !Contains(days[k], DayMarker)
    ensures DaySections(preamble + DayMarker + Join(days, DayMarker)) == days
  {
    var parts := [preamble] + days;
    assert parts[1..] == days;
    forall k | 0 <= k < |parts| ensures Separable(parts[k], DayMarker) {
      MarkerSeparable(parts[k]);
    }
    JoinSplit(parts, DayMarker);
  }

  /** "PreambleDay 1: textDay 2: text" shows as " 1: text" and " 2: text". */
  lemma SectionsExample()
    ensures DaySections("PreambleDay 1: textDay 2: text") == [" 1: text", " 2: text"]
  {
    var days := [" 1: text", " 2: text"];
    assert Join(days, DayMarker) == " 1: textDay 2: text";
    assert "Preamble" + DayMarker + " 1: textDay 2: text" == "PreambleDay 1: textDay 2: text";
    WithoutFirstChar("Preamble", DayMarker);
    WithoutFirstChar(days[0], DayMarker);
    WithoutFirstChar(days[1], DayMarker);
    SectionsFromDays("Preamble", days);
  }

  /** What the results area shows: nothing while the itinerary is empty,
      otherwise one block per section, the section behind "Day ". */
  function Rendered(itinerary: string): (blocks: seq<string>)
    ensures itinerary == "" ==> blocks == []
    ensures itinerary != "" ==> |blocks| == |DaySections(itinerary)|
    ensures forall k :: 0 <= k < |blocks| ==>
      |blocks[k]| >= 4 && blocks[k][..4] == "Day " && blocks[k][4..] == DaySections(itinerary)[k]
  {
    if itinerary == "" then []
    else
      var days := DaySections(itinerary);
      seq(|days|, k requires 0 <= k < |days| => "Day " + days[k])
  }

  /** A non-empty itinerary without a marker is shown as the single block
      "Day 1" followed by the whole text. */
  lemma RenderedWithoutMarker(itinerary: string)
    requires itinerary != "" && !Contains(itinerary, DayMarker)
    ensures Rendered(itinerary) == ["Day 1" + itinerary]
  {
    var blocks := Rendered(itinerary);
    assert blocks[0] == blocks[0][..4] + blocks[0][4..];
    assert "Day " + ("1" + itinerary) == "Day 1" + itinerary;
  }

  // ---------------------------------------------------------------------------
  // Point-of-interest links
  // ---------------------------------------------------------------------------

  /** The Markdown link that replaces a point of interest: the point is the
      link text, the target a web search for the point, a space and the city,
      passed through `enc` (encodeURIComponent). */
  function LinkFor(point: string, city: string, enc: string -> string): (link: string)
    ensures |link| >= |point| + 2 && link[..|point| + 2] == "[" + point + "]"
    ensures '$' !in point && '$' !in enc(point + " " + city) ==> '$' !in link
  {
    var target := "(https://www.google.com/search?q=" + enc(point + " " + city) + ")";
    assert ("[" + point + "]" + target)[..|point| + 2] == "[" + point + "]";
    "[" + point + "]" + target
  }

  /** One step: `text.replace(point, LinkFor(point, ...))`. */
  function LinkStep(text: string, point: string, city: string, enc: string -> string): (r: string)
    ensures !Contains(text, point) ==> r == text
  {
    ReplaceFirst(text, point, LinkFor(point, city, enc))
  }

  /** `text` after `step` has been applied once per point, in array order,
      each time to the running result of the previous steps. */
  function FoldPoints(text: string, points: seq<string>, step: (string, string) -> string): string
    decreases |points|
  {
    if points == [] then text
    else step(FoldPoints(text, points[..|points| - 1], step), points[|points| - 1])
  }

  /** The text after linking every point in array order. */
  function LinkAll(text: string, points: seq<string>, city: string, enc: string -> string): (r: string)
    ensures points == [] ==> r == text
  {
    FoldPoints(text, points, (running, point) => LinkStep(running, point, city, enc))
  }

  /** The loop of `hitAPI`: reassign the running itinerary once per point. */
  method LinkPoints(itinerary: string, points: seq<string>, city: string, enc: string -> string)
    returns (linked: string)
    ensures linked == LinkAll(itinerary, points, city, enc)
  {
    linked := itinerary;
    for n := 0 to |points|
      invariant linked == LinkAll(itinerary, points[..n], city, enc)
    {
      assert points[..n + 1][..n] == points[..n];
      linked := LinkStep(linked, points[n], city, enc);
    }
    assert points[..|points|] == points;
  }

  /** Folding one list of points and then another is folding their
      concatenation: every step works on the running result. */
  lemma {:induction false} FoldPointsAppend(text: string, xs: seq<string>, ys: seq<string>, step: (string, string) -> string)
    ensures FoldPoints(text, xs + ys, step) == FoldPoints(FoldPoints(text, xs, step), ys, step)
    decreases |ys|
  {
    if ys == [] {
      assert xs + ys == xs;
    } else {
      var all := xs + ys;
      assert all[..|all| - 1] == xs + ys[..|ys| - 1] && all[|all| - 1] == ys[|ys| - 1];
      FoldPointsAppend(text, xs, ys[..|ys| - 1], step);
    }
  }

  /** Points none of which occurs in the text leave it as it is. */
  lemma {:induction false} LinkAllAbsent(text: string, points: seq<string>, city: string, enc: string -> string)
    requires forall k :: 0 <= k < |points| ==> !Contains(text, points[k])
    ensures LinkAll(text, points, city, enc) == text
    decreases |points|
  {
    if points != [] {
      var init := points[..|points| - 1];
      assert forall k :: 0 <= k < |init| ==> init[k] == points[k];
      LinkAllAbsent(text, init, city, enc);
    }
  }

  /** The first point is replaced in the original text and every later point
      in the result of that: a left fold of single steps. */
  lemma LinkAllFirstStep(text: string, point: string, rest: seq<string>, city: string, enc: string -> string)
    ensures LinkAll(text, [point] + rest, city, enc) == LinkAll(LinkStep(text, point, city, enc), rest, city, enc)
  {
    var step := (running, point) => LinkStep(running, point, city, enc);
    FoldPointsAppend(text, [point], rest, step);
    assert [point][..0] == [];
    assert FoldPoints(text, [point], step) == LinkStep(text, point, city, enc);
  }

  /** A step whose point first occurs at `i` keeps the text before and after
      that occurrence verbatim and puts the link in its place, provided
      neither the point nor its encoded search text contains `$`. */
  lemma LinkStepAt(text: string, point: string, city: string, enc: string -> string, i: nat)
    requires FirstFrom(text, point, 0, i)
    requires '$' !in point && '$' !in enc(point + " " + city)
    ensures LinkStep(text, point, city, enc) == text[..i] + LinkFor(point, city, enc) + text[i + |point|..]
  {
  }

  /** An empty point matches at the very start: the link is put in front. */
  lemma LinkStepEmptyPoint(text: string, city: string, enc: string -> string)
    requires '$' !in enc(" " + city)
    ensures LinkStep(text, "", city, enc) == LinkFor("", city, enc) + text
  {
    var link := LinkFor("", city, enc);
    assert "" + " " + city == " " + city;
    assert '$' !in "[" && '$' !in "](https://www.google.com/search?q=" && '$' !in ")";
    assert '$' !in link;
  }

  /** A point that first shows up after a prefix without its first letter
      (as "Eiffel Tower" in "Visit Eiffel Tower today") becomes a link there;
      prefix and suffix stay as they were. */
  lemma LinkAfterPrefix(prefix: string, point: string, suffix: string, city: string, enc: string -> string)
    requires point != [] && point[0] !in prefix
    requires '$' !in point && '$' !in enc(point + " " + city)
    ensures LinkStep(prefix + point + suffix, point, city, enc) == prefix + LinkFor(point, city, enc) + suffix
  {
    var text := prefix + point + suffix;
    assert forall j :: 0 <= j < |prefix| ==> text[j] == prefix[j];
    NoOccurrenceIn(text, point, 0, |prefix|);
    assert text[|prefix|..|prefix| + |point|] == point;
    assert FirstFrom(text, point, 0, |prefix|);
    LinkStepAt(text, point, city, enc, |prefix|);
    assert text[..|prefix|] == prefix && text[|prefix| + |point|..] == suffix;
  }
}
