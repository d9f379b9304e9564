/**
 * `MESSE_KEYWORDS`, the pattern `\b(Messe|Hl\.\s*Messe|Eucharistiefeier)\b`
 * under `re.IGNORECASE`, and the truth value of its `search`.
 */
module Keywords {
  import opened Wrappers
  import opened Chars

  /**
   * The pattern matches s from i to j: a word boundary, one of the three
   * alternatives (with any whitespace between `Hl.` and `Messe`), and a word
   * boundary again.
   */
  predicate KeywordMatch(s: string, i: nat, j: nat) {
    && i <= j <= |s| && IsBoundary(s, i) && IsBoundary(s, j)
    && (|| (j == i + 5 && LiteralAtIgnoreCase(s, i, "Messe"))
        || (&& LiteralAtIgnoreCase(s, i, "Hl.") && i + 8 <= j && LiteralAtIgnoreCase(s, j - 5, "Messe")
            && forall k :: i + 3 <= k < j - 5 ==> IsSpace(s[k]))
        || (j == i + 16 && LiteralAtIgnoreCase(s, i, "Eucharistiefeier")))
  }

  /** `Hl\.\s*Messe` after the boundary at i: the greedy `\s*` stops at the `M`. */
  function HlMesseEnd(s: string, i: nat): (r: Option<nat>)
    requires i <= |s|
    ensures r.Some? ==> i + 8 <= r.value <= |s| && LiteralAtIgnoreCase(s, i, "Hl.")
                        && LiteralAtIgnoreCase(s, r.value - 5, "Messe")
                        && (forall k :: i + 3 <= k < r.value - 5 ==> IsSpace(s[k])) && IsBoundary(s, r.value)
  {
    if LiteralAtIgnoreCase(s, i, "Hl.") then
      var k := Span(s, i + 3, IsSpace);
      if LiteralAtIgnoreCase(s, k, "Messe") && IsBoundary(s, k + 5) then Some(k + 5) else None
    else None
  }

  /** The end of the match at i, trying the alternatives in the pattern's order. */
  function KeywordEnd(s: string, i: nat): (r: Option<nat>)
    requires i <= |s|
    ensures r.Some? ==> KeywordMatch(s, i, r.value)
  {
    if !IsBoundary(s, i) then None
    else if LiteralAtIgnoreCase(s, i, "Messe") && IsBoundary(s, i + 5) then Some(i + 5)
    else if HlMesseEnd(s, i).Some? then HlMesseEnd(s, i)
    else if LiteralAtIgnoreCase(s, i, "Eucharistiefeier") && IsBoundary(s, i + 16) then Some(i + 16)
    else None
  }

  /** The greedy `\s*` after `Hl.` stops where `Messe` begins, so it finds every `Hl.\s*Messe` match. */
  lemma HlMesseEndComplete(s: string, i: nat, j: nat)
    requires i + 8 <= j <= |s| && LiteralAtIgnoreCase(s, i, "Hl.") && LiteralAtIgnoreCase(s, j - 5, "Messe")
    requires forall k :: i + 3 <= k < j - 5 ==> IsSpace(s[k])
    requires IsBoundary(s, j)
    ensures HlMesseEnd(s, i) == Some(j)
  {
    assert MatchesIgnoreCase(s[j - 5], "Messe"[0]);
    SpanOver(s, i + 3, j - 5 - (i + 3), IsSpace);
  }

  /** Any match at i is found: the alternatives are tried in turn and each succeeds where it matches. */
  lemma KeywordEndComplete(s: string, i: nat, j: nat)
    requires KeywordMatch(s, i, j)
    ensures KeywordEnd(s, i).Some?
  {
    if j == i + 5 && LiteralAtIgnoreCase(s, i, "Messe") {
    } else if && LiteralAtIgnoreCase(s, i, "Hl.") && i + 8 <= j && LiteralAtIgnoreCase(s, j - 5, "Messe")
              && forall k :: i + 3 <= k < j - 5 ==> IsSpace(s[k])
    {
      HlMesseEndComplete(s, i, j);
    } else {
      assert j == i + 16 && LiteralAtIgnoreCase(s, i, "Eucharistiefeier");
    }
  }

  /** `MESSE_KEYWORDS.search(s)` finds a match. */
  function HasKeyword(s: string): (r: bool)
    ensures r <==> exists i, j :: KeywordMatch(s, i, j)
  {
    var p := (i: nat) => i <= |s| && KeywordEnd(s, i).Some?;
    assert forall i :: 0 <= i <= |s| ==> (p(i) <==> KeywordEnd(s, i).Some?);
    KeywordSearch(s, p);
    FirstFrom(0, |s|, p).Some?
  }

  /** The search by positions finds a start exactly when the text holds a match. */
  lemma KeywordSearch(s: string, p: nat -> bool)
    requires forall i :: 0 <= i <= |s| ==> (p(i) <==> KeywordEnd(s, i).Some?)
    ensures FirstFrom(0, |s|, p).Some? <==> exists i, j :: KeywordMatch(s, i, j)
  {
    var r := FirstFrom(0, |s|, p);
    if r.Some? {
      var e := KeywordEnd(s, r.value);
      assert KeywordMatch(s, r.value, e.value);
    } else if exists i, j :: KeywordMatch(s, i, j) {
      var i, j :| KeywordMatch(s, i, j);
      KeywordEndComplete(s, i, j);
    }
  }
}
