/** The optional value used for absent regex groups, absent places and failed lookups. */
module Wrappers {
  datatype Option<+T> = None | Some(value: T)
}

/** Regrouping a concatenation, stated once for any element type. */
module Seqs {
  lemma AppendAssoc<T>(a: seq<T>, b: seq<T>, c: seq<T>)
    ensures a + (b + c) == (a + b) + c
  {
  }

  lemma SplitLast<T>(xs: seq<T>)
    requires xs != []
    ensures xs == xs[..|xs| - 1] + [xs[|xs| - 1]]
  {
  }

  /** f applied to each element of xs, in order. */
  function Map<A, B>(f: A -> B, xs: seq<A>): (ys: seq<B>)
    ensures |ys| == |xs|
    ensures forall k :: 0 <= k < |xs| ==> ys[k] == f(xs[k])
  {
    if xs == [] then [] else Map(f, xs[..|xs| - 1]) + [f(xs[|xs| - 1])]
  }

  /** The pieces of ls written one after another. */
  function Concat<T>(ls: seq<seq<T>>): seq<T> {
    if ls == [] then [] else ls[0] + Concat(ls[1..])
  }

  /** Appending one more piece appends it to the concatenation. */
  lemma {:induction false} ConcatSnoc<T>(ls: seq<seq<T>>, x: seq<T>)
    ensures Concat(ls + [x]) == Concat(ls) + x
    decreases |ls|
  {
    if ls == [] {
      assert [x][1..] == [];
    } else {
      assert (ls + [x])[1..] == ls[1..] + [x];
      ConcatSnoc(ls[1..], x);
      AppendAssoc(ls[0], Concat(ls[1..]), x);
    }
  }
}

/**
 * Character classes of Python's `re` module (str patterns) and of `str` methods,
 * plus the scanning and stripping helpers every other module builds on.
 */
module Chars {
  import opened Wrappers

  /** `str.isspace()`; the same set is what `\s` matches in a str pattern. */
  predicate IsSpace(c: char) {
    ('\U{9}' <= c <= '\U{D}') || ('\U{1C}' <= c <= '\U{20}') || c == '\U{85}' || c == '\U{A0}'
    || c == '\U{1680}' || ('\U{2000}' <= c <= '\U{200A}') || c == '\U{2028}' || c == '\U{2029}'
    || c == '\U{202F}' || c == '\U{205F}' || c == '\U{3000}'
  }

  /** The characters at which `str.splitlines()` ends a line. */
  predicate IsLineBreak(c: char) {
    c == '\n' || c == '\r' || c == '\U{B}' || c == '\U{C}' || ('\U{1C}' <= c <= '\U{1E}')
    || c == '\U{85}' || c == '\U{2028}' || c == '\U{2029}'
  }

  predicate IsLineChar(c: char) { !IsLineBreak(c) }

  /** `\d`, restricted to ASCII digits. */
  predicate IsDigit(c: char) { '0' <= c <= '9' }

  predicate IsAsciiLetter(c: char) { ('a' <= c <= 'z') || ('A' <= c <= 'Z') }

  /**
   * `\w`: letters, digits and the underscore. Covered are ASCII, the letters and
   * digits of Latin-1, and the four characters that case-insensitive matching
   * folds onto ASCII letters (dotless i, dotted capital I, long s, Kelvin sign).
   */
  predicate IsWordChar(c: char) {
    IsAsciiLetter(c) || IsDigit(c) || c == '_'
    || c == '\U{AA}' || c == '\U{B2}' || c == '\U{B3}' || c == '\U{B5}' || c == '\U{B9}' || c == '\U{BA}'
    || ('\U{BC}' <= c <= '\U{BE}')
    || ('\U{C0}' <= c <= '\U{FF}' && c != '\U{D7}' && c != '\U{F7}')
    || c == '\U{130}' || c == '\U{131}' || c == '\U{17F}' || c == '\U{212A}'
  }

  /** `\b` at position i of s. */
  predicate IsBoundary(s: string, i: nat)
    requires i <= |s|
  {
    (i > 0 && IsWordChar(s[i - 1])) != (i < |s| && IsWordChar(s[i]))
  }

  /** Lower-cases an ASCII letter; other characters are returned as they are. */
  function AsciiLower(c: char): (r: char)
    ensures IsAsciiLetter(c) ==> 'a' <= r <= 'z'
    ensures !IsAsciiLetter(c) ==> r == c
  {
    if 'A' <= c <= 'Z' then (c as int + 32) as char else c
  }

  /**
   * Whether c matches the pattern character p under `re.IGNORECASE`, for the
   * ASCII pattern characters used here: ASCII case, and the Unicode characters
   * that Python's `re` treats as equal to `i`, `s` and `k`.
   */
  predicate MatchesIgnoreCase(c: char, p: char) {
    if IsAsciiLetter(p) then
      AsciiLower(c) == AsciiLower(p)
      || (AsciiLower(p) == 'i' && (c == '\U{130}' || c == '\U{131}'))
      || (AsciiLower(p) == 's' && c == '\U{17F}')
      || (AsciiLower(p) == 'k' && c == '\U{212A}')
    else c == p
  }

  /** s holds the literal w at position i (case-sensitive). */
  predicate LiteralAt(s: string, i: nat, w: string) {
    i + |w| <= |s| && s[i..i + |w|] == w
  }

  /** s holds the literal w at position i, compared as `re.IGNORECASE` does. */
  predicate LiteralAtIgnoreCase(s: string, i: nat, w: string) {
    i + |w| <= |s| && forall k :: 0 <= k < |w| ==> MatchesIgnoreCase(s[i + k], w[k])
  }

  predicate AllDigits(s: string) { forall k :: 0 <= k < |s| ==> IsDigit(s[k]) }

  predicate AllSpace(s: string) { forall k :: 0 <= k < |s| ==> IsSpace(s[k]) }

  function DigitValue(c: char): (v: nat)
    requires IsDigit(c)
    ensures v < 10
  {
    c as int - '0' as int
  }

  function Pow10(n: nat): (p: nat)
    ensures p >= 1
  {
    if n == 0 then 1 else 10 * Pow10(n - 1)
  }

  /** `int(s)` for a string of ASCII digits (leading zeros allowed). */
  function DigitsValue(s: string): (v: nat)
    requires AllDigits(s)
    ensures v < Pow10(|s|)
  {
    if s == [] then 0 else DigitsValue(s[..|s| - 1]) * 10 + DigitValue(s[|s| - 1])
  }

  /**
   * The end of the longest run of characters satisfying p that starts at i:
   * every character in between satisfies p, the one at the end does not.
   */
  function Span(s: string, i: nat, p: char -> bool): (j: nat)
    requires i <= |s|
    ensures i <= j <= |s|
    ensures forall k :: i <= k < j ==> p(s[k])
    ensures j < |s| ==> !p(s[j])
    decreases |s| - i
  {
    if i < |s| && p(s[i]) then Span(s, i + 1, p) else i
  }

  /** Span stops exactly after a run that the next character ends. */
  lemma SpanOver(s: string, i: nat, n: nat, p: char -> bool)
    requires i + n <= |s|
    requires forall k :: i <= k < i + n ==> p(s[k])
    requires i + n == |s| || !p(s[i + n])
    ensures Span(s, i, p) == i + n
  {
  }

  /** Number of trailing characters of s that satisfy p. */
  function TrailingCount(s: string, p: char -> bool): (n: nat)
    ensures n <= |s|
    ensures forall k :: |s| - n <= k < |s| ==> p(s[k])
    ensures n < |s| ==> !p(s[|s| - 1 - n])
  {
    if s != [] && p(s[|s| - 1]) then 1 + TrailingCount(s[..|s| - 1], p) else 0
  }

  /**
   * Python's `s.strip(chars)`: drops every leading and every trailing character
   * satisfying drop, and nothing else.
   */
  function Strip(s: string, drop: char -> bool): (r: string)
    ensures |r| <= |s|
    ensures r == [] || (!drop(r[0]) && !drop(r[|r| - 1]))
    ensures r == [] <==> forall k :: 0 <= k < |s| ==> drop(s[k])
    ensures r != [] ==> Span(s, 0, drop) + |r| + TrailingCount(s, drop) == |s|
    ensures r != [] ==> r == s[Span(s, 0, drop)..Span(s, 0, drop) + |r|]
  {
    var a := Span(s, 0, drop);
    if a == |s| then []
    else
      var n := TrailingCount(s, drop);
      s[a..|s| - n]
  }

  /** The least position from i up to n that satisfies p. */
  function FirstFrom(i: nat, n: nat, p: nat -> bool): (r: Option<nat>)
    requires i <= n
    ensures r.Some? ==> i <= r.value <= n && p(r.value) && forall j :: i <= j < r.value ==> !p(j)
    ensures r.None? ==> forall j :: i <= j <= n ==> !p(j)
    decreases n - i
  {
    if p(i) then Some(i)
    else if i == n then None
    else FirstFrom(i + 1, n, p)
  }

  /** The ASCII digit of value v. */
  function DigitChar(v: nat): (c: char)
    requires v < 10
    ensures IsDigit(c) && DigitValue(c) == v
  {
    ('0' as int + v) as char
  }

  /** n written in decimal with exactly w digits, zero-padded on the left (`f"{n:0{w}d}"`). */
  function Pad(n: nat, w: nat): (s: string)
    requires n < Pow10(w)
    ensures |s| == w && AllDigits(s)
  {
    if w == 0 then []
    else Pad(n / 10, w - 1) + [DigitChar(n % 10)]
  }

  /** Reading back a padded number gives the number. */
  lemma {:induction false} PadValue(n: nat, w: nat)
    requires n < Pow10(w)
    ensures DigitsValue(Pad(n, w)) == n
  {
    if w > 0 {
      var s := Pad(n, w);
      PadValue(n / 10, w - 1);
      assert s[..w - 1] == Pad(n / 10, w - 1);
    }
  }
}
