/**
 * `_split_title_place`: the body of a schedule line is cut at the first venue
 * indicator. What comes before it is the title, what comes from it on is the
 * place.
 */
module TitlePlace {
  import opened Wrappers
  import opened Chars

  /** `[\wÄÖÜäöüß.\- ]`, a character of a saint's name after `St. `. */
  predicate IsNameChar(c: char) {
    IsWordChar(c) || c == 'Ä' || c == 'Ö' || c == 'Ü' || c == 'ä' || c == 'ö' || c == 'ü' || c == 'ß'
    || c == '.' || c == '-' || c == ' '
  }

  /**
   * `(Kathedrale|Kirche|Kapelle|St\.\s[\wÄÖÜäöüß.\- ]+)[^,]*` matches at
   * position i. The trailing `[^,]*` may match nothing and the `+` needs only
   * one character, so a match starts at i exactly when one of the
   * alternatives' fixed prefixes stands there.
   */
  predicate IndicatorAt(s: string, i: nat) {
    || LiteralAt(s, i, "Kathedrale")
    || LiteralAt(s, i, "Kirche")
    || LiteralAt(s, i, "Kapelle")
    || (LiteralAt(s, i, "St.") && i + 4 < |s| && IsSpace(s[i + 3]) && IsNameChar(s[i + 4]))
  }

  /** An indicator starts with the capital of `Kathedrale`, `Kirche`, `Kapelle` or `St.`. */
  lemma IndicatorInitial(s: string, i: nat)
    requires IndicatorAt(s, i)
    ensures i < |s| && (s[i] == 'K' || s[i] == 'S')
  {
    if LiteralAt(s, i, "Kathedrale") {
      assert s[i] == s[i..i + 10][0];
    } else if LiteralAt(s, i, "Kirche") {
      assert s[i] == s[i..i + 6][0];
    } else if LiteralAt(s, i, "Kapelle") {
      assert s[i] == s[i..i + 7][0];
    } else {
      assert s[i] == s[i..i + 3][0];
    }
  }

  /** The characters `strip(" -–,")` removes from the title. */
  predicate IsTitleTrim(c: char) { c == ' ' || c == '-' || c == '–' || c == ',' }

  /** The characters `strip(" )")` removes from the place. */
  predicate IsPlaceTrim(c: char) { c == ' ' || c == ')' }

  /** The result of `_split_title_place`: a title and, when a venue was found, a place. */
  datatype Split = Split(title: string, place: Option<string>)

  /** Where `re.search` finds the indicator: its leftmost match. */
  function FirstIndicator(s: string): (r: Option<nat>)
    ensures r.Some? ==> r.value < |s| && IndicatorAt(s, r.value) && forall j :: 0 <= j < r.value ==> !IndicatorAt(s, j)
    ensures r.None? ==> forall j :: 0 <= j < |s| ==> !IndicatorAt(s, j)
  {
    var p := (i: nat) => IndicatorAt(s, i);
    assert forall i :: 0 <= i <= |s| ==> (p(i) <==> IndicatorAt(s, i));
    FirstFrom(0, |s|, p)
  }

  /** `_split_title_place(after)`. */
  function SplitTitlePlace(after: string): (r: Split)
    ensures r.place.None? <==> forall j :: 0 <= j < |after| ==> !IndicatorAt(after, j)
    ensures r.place.None? ==> r.title == Strip(after, IsSpace)
    ensures r.place.Some? ==> r.title != [] && r.place.value != []
                              && (r.place.value[0] == 'K' || r.place.value[0] == 'S')
  {
    match FirstIndicator(after)
    case None => Split(Strip(after, IsSpace), None)
    case Some(i) =>
      var title := Strip(after[..i], IsTitleTrim);
      var place := Strip(after[i..], IsPlaceTrim);
      PlaceKeepsIndicator(after, i);
      Split(if title == [] then "Messe" else title, Some(place))
  }

  /**
   * When the leftmost indicator starts at i, the title is the text before i
   * stripped of ` -–,` (or "Messe" when nothing is left), and the place is
   * the text from i on stripped of ` )`: it begins with the indicator.
   */
  lemma SplitAtFirstIndicator(after: string, i: nat)
    requires i < |after| && IndicatorAt(after, i)
    requires forall j :: 0 <= j < i ==> !IndicatorAt(after, j)
    ensures var r := SplitTitlePlace(after);
            && r.place == Some(Strip(after[i..], IsPlaceTrim))
            && r.title == (if Strip(after[..i], IsTitleTrim) == [] then "Messe" else Strip(after[..i], IsTitleTrim))
  {
    var f := FirstIndicator(after);
    assert f == Some(i);
    PlaceKeepsIndicator(after, i);
  }

  /** Stripping ` )` leaves the indicator's capital in front of the place. */
  lemma PlaceKeepsIndicator(after: string, i: nat)
    requires i < |after| && IndicatorAt(after, i)
    ensures var place := Strip(after[i..], IsPlaceTrim);
            && place != [] && (place[0] == 'K' || place[0] == 'S')
            && place == after[i..|after| - TrailingCount(after[i..], IsPlaceTrim)]
  {
    IndicatorInitial(after, i);
    var t := after[i..];
    assert t[0] == after[i];
    assert Span(t, 0, IsPlaceTrim) == 0;
  }
}
