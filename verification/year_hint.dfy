/**
 * `_year_hint`: the year of the first standalone `20xx` token of the bulletin
 * text, or the current year when there is none. The current year is a
 * parameter here; the script reads it from the clock.
 */
module YearHint {
  import opened Wrappers
  import opened Chars

  /** `\b(20\d{2})\b` matches at position i of the text. */
  predicate YearTokenAt(text: string, i: nat) {
    && i + 4 <= |text|
    && text[i] == '2' && text[i + 1] == '0' && IsDigit(text[i + 2]) && IsDigit(text[i + 3])
    && IsBoundary(text, i) && IsBoundary(text, i + 4)
  }

  /** `int()` of the token at position i. */
  function TokenValue(text: string, i: nat): (v: nat)
    requires YearTokenAt(text, i)
    ensures 2000 <= v <= 2099
    ensures v == 2000 + 10 * DigitValue(text[i + 2]) + DigitValue(text[i + 3])
  {
    var s := text[i..i + 4];
    assert DigitsValue(s[..1]) == 2 by { assert s[..1][..0] == []; }
    assert DigitsValue(s[..2]) == 20 by { assert s[..2][..1] == s[..1]; }
    assert DigitsValue(s[..3]) == 200 + DigitValue(s[2]) by { assert s[..3][..2] == s[..2]; }
    assert s[..4][..3] == s[..3] && s[..4] == s;
    DigitsValue(s)
  }

  /** `_year_hint(text)`: `re.findall` lists the tokens from left to right and the first one is taken. */
  function YearHint(text: string, currentYear: int): (y: int)
    ensures (exists i :: 0 <= i <= |text| && YearTokenAt(text, i)) ==> 2000 <= y <= 2099
    ensures (forall i :: 0 <= i <= |text| ==> !YearTokenAt(text, i)) ==> y == currentYear
  {
    var p := (i: nat) => YearTokenAt(text, i);
    assert forall i :: 0 <= i <= |text| ==> (p(i) <==> YearTokenAt(text, i));
    match FirstFrom(0, |text|, p)
    case Some(i) => TokenValue(text, i)
    case None => currentYear
  }

  /** When the text holds a token, the hint is the value of the leftmost one. */
  lemma YearHintIsFirstToken(text: string, currentYear: int, i: nat)
    requires i <= |text| && YearTokenAt(text, i)
    requires forall j :: 0 <= j < i ==> !YearTokenAt(text, j)
    ensures YearHint(text, currentYear) == TokenValue(text, i)
  {
    var p := (k: nat) => YearTokenAt(text, k);
    assert forall k :: 0 <= k <= |text| ==> (p(k) <==> YearTokenAt(text, k));
    var r := FirstFrom(0, |text|, p);
    assert r.Some? && r.value == i;
  }
}
