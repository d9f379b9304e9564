/**
 * The text normaliser `_norm`: three rewrites applied in order to the text
 * extracted from one bulletin, and the assembly of the whole bulletin text.
 */
module Normalizer {
  import opened Chars
  import opened Seqs

  const SoftHyphen: char := '\U{AD}'

  predicate IsBlank(c: char) { c == ' ' || c == '\t' }

  predicate IsNonBlank(c: char) { !IsBlank(c) }

  /** Number of occurrences of c in s. */
  function Occurrences(s: string, c: char): nat {
    if s == [] then 0 else Occurrences(s[..|s| - 1], c) + (if s[|s| - 1] == c then 1 else 0)
  }

  /** The characters of s that are not blanks, in order. */
  function NonBlanks(s: string): string {
    if s == [] then [] else NonBlanks(s[..|s| - 1]) + (if IsBlank(s[|s| - 1]) then [] else [s[|s| - 1]])
  }

  /** The characters of s other than c, in order. */
  function Without(s: string, c: char): string {
    if s == [] then [] else Without(s[..|s| - 1], c) + (if s[|s| - 1] == c then [] else [s[|s| - 1]])
  }

  /** Positions i with s[i] == '-' and s[i + 1] == '\n'. */
  function HyphenBreaks(s: string): nat {
    if |s| < 2 then 0
    else HyphenBreaks(s[..|s| - 1]) + (if s[|s| - 2] == '-' && s[|s| - 1] == '\n' then 1 else 0)
  }

  lemma {:induction false} OccurrencesAppend(a: string, b: string, c: char)
    ensures Occurrences(a + b, c) == Occurrences(a, c) + Occurrences(b, c)
    decreases |b|
  {
    if b == [] {
      assert a + b == a;
    } else {
      assert (a + b)[..|a + b| - 1] == a + b[..|b| - 1];
      OccurrencesAppend(a, b[..|b| - 1], c);
    }
  }

  lemma {:induction false} NonBlanksAppend(a: string, b: string)
    ensures NonBlanks(a + b) == NonBlanks(a) + NonBlanks(b)
    decreases |b|
  {
    if b == [] {
      assert a + b == a;
    } else {
      assert (a + b)[..|a + b| - 1] == a + b[..|b| - 1];
      NonBlanksAppend(a, b[..|b| - 1]);
    }
  }

  lemma {:induction false} WithoutAppend(a: string, b: string, c: char)
    ensures Without(a + b, c) == Without(a, c) + Without(b, c)
    decreases |b|
  {
    if b == [] {
      assert a + b == a;
    } else {
      assert (a + b)[..|a + b| - 1] == a + b[..|b| - 1];
      WithoutAppend(a, b[..|b| - 1], c);
    }
  }

  /** Filtering from the front gives the same characters as the definition, which filters from the back. */
  lemma WithoutFront(s: string, c: char)
    requires s != []
    ensures Without(s, c) == (if s[0] == c then [] else [s[0]]) + Without(s[1..], c)
  {
    assert s == [s[0]] + s[1..];
    WithoutAppend([s[0]], s[1..], c);
    assert [s[0]][..0] == [];
  }

  /** Counting from the front gives the same number as the definition, which counts from the back. */
  lemma {:induction false} HyphenBreaksFront(s: string)
    requires |s| >= 2
    ensures HyphenBreaks(s) == (if s[0] == '-' && s[1] == '\n' then 1 else 0) + HyphenBreaks(s[1..])
    decreases |s|
  {
    if |s| > 2 {
      HyphenBreaksFront(s[..|s| - 1]);
      assert s[..|s| - 1][1..] == s[1..][..|s[1..]| - 1];
    } else {
      assert s[1..][..0] == [];
    }
  }

  /** Step 1: `t.replace("­", "")`, every other character kept in its order. */
  function DeleteSoftHyphens(t: string): (r: string)
    ensures r == Without(t, SoftHyphen)
    ensures multiset(r) == multiset(t)[SoftHyphen := 0]
    ensures |r| <= |t|
  {
    if t == [] then []
    else
      var rest := DeleteSoftHyphens(t[1..]);
      assert t == [t[0]] + t[1..];
      WithoutFront(t, SoftHyphen);
      if t[0] == SoftHyphen then rest else [t[0]] + rest
  }

  /**
   * Step 2: `re.sub(r"-\n", "", t)`, one left-to-right pass removing each
   * hyphen that stands immediately before a newline, together with the newline.
   */
  function JoinHyphenBreaks(t: string): (r: string)
    ensures multiset(r) <= multiset(t)
    ensures |r| == |t| - 2 * HyphenBreaks(t)
    ensures Occurrences(r, '\n') == Occurrences(t, '\n') - HyphenBreaks(t)
    decreases |t|
  {
    if |t| >= 2 && t[0] == '-' && t[1] == '\n' then
      var r := JoinHyphenBreaks(t[2..]);
      DropHyphenBreak(t);
      r
    else if t == [] then []
    else
      var r := JoinHyphenBreaks(t[1..]);
      KeepFirst(t, r);
      [t[0]] + r
  }

  /** Position i of s is the hyphen or the newline of a hyphen-newline pair. */
  predicate InPair(s: string, i: nat)
    requires i < |s|
  {
    (s[i] == '-' && i + 1 < |s| && s[i + 1] == '\n') || (s[i] == '\n' && i > 0 && s[i - 1] == '-')
  }

  /** The characters of s from position i on that belong to no hyphen-newline pair, in order. */
  function Unpaired(s: string, i: nat): string
    requires i <= |s|
    decreases |s| - i
  {
    if i == |s| then [] else (if InPair(s, i) then [] else [s[i]]) + Unpaired(s, i + 1)
  }

  /**
   * The left-to-right pass removes exactly the characters that belong to a
   * hyphen-newline pair and keeps every other character in its order.
   */
  lemma JoinHyphenBreaksUnpaired(t: string)
    ensures JoinHyphenBreaks(t) == Unpaired(t, 0)
  {
    assert t[0..] == t;
    JoinFrom(t, 0);
  }

  /** The pass restarted at position i, where no pair ends. */
  lemma {:induction false} JoinFrom(t: string, i: nat)
    requires i <= |t|
    requires i == |t| || i == 0 || !(t[i - 1] == '-' && t[i] == '\n')
    ensures JoinHyphenBreaks(t[i..]) == Unpaired(t, i)
    decreases |t| - i
  {
    if i == |t| {
      assert t[i..] == [];
    } else if t[i] == '-' && i + 1 < |t| && t[i + 1] == '\n' {
      PairStep(t, i);
      JoinFrom(t, i + 2);
    } else {
      KeepStep(t, i);
      JoinFrom(t, i + 1);
    }
  }

  /** A pair at position i is skipped by the pass and by the reference alike. */
  lemma PairStep(t: string, i: nat)
    requires i + 1 < |t| && t[i] == '-' && t[i + 1] == '\n'
    ensures JoinHyphenBreaks(t[i..]) == JoinHyphenBreaks(t[i + 2..])
    ensures Unpaired(t, i) == Unpaired(t, i + 2)
  {
    var u := t[i..];
    assert u[0] == '-' && u[1] == '\n' && u[2..] == t[i + 2..];
    assert InPair(t, i) && InPair(t, i + 1);
    assert Unpaired(t, i + 1) == Unpaired(t, i + 2);
  }

  /** A character at position i that begins no pair and ends none is kept by both. */
  lemma KeepStep(t: string, i: nat)
    requires i < |t| && !(t[i] == '-' && i + 1 < |t| && t[i + 1] == '\n')
    requires i == 0 || !(t[i - 1] == '-' && t[i] == '\n')
    ensures JoinHyphenBreaks(t[i..]) == [t[i]] + JoinHyphenBreaks(t[i + 1..])
    ensures Unpaired(t, i) == [t[i]] + Unpaired(t, i + 1)
  {
    var u := t[i..];
    assert u[0] == t[i] && u[1..] == t[i + 1..];
    assert !(|u| >= 2 && u[0] == '-' && u[1] == '\n');
    assert !InPair(t, i);
  }

  /** Removing a leading hyphen-newline pair removes one pair and one newline. */
  lemma DropHyphenBreak(t: string)
    requires |t| >= 2 && t[0] == '-' && t[1] == '\n'
    ensures multiset(t[2..]) <= multiset(t)
    ensures HyphenBreaks(t) == 1 + HyphenBreaks(t[2..])
    ensures Occurrences(t, '\n') == 1 + Occurrences(t[2..], '\n')
  {
    PairBreaks(t);
    PairNewline(t);
  }

  lemma PairBreaks(t: string)
    requires |t| >= 2 && t[0] == '-' && t[1] == '\n'
    ensures HyphenBreaks(t) == 1 + HyphenBreaks(t[2..])
  {
    HyphenBreaksFront(t);
    assert t[1..][1..] == t[2..];
    if |t| >= 3 { HyphenBreaksFront(t[1..]); }
  }

  lemma PairNewline(t: string)
    requires |t| >= 2 && t[0] == '-' && t[1] == '\n'
    ensures multiset(t[2..]) <= multiset(t)
    ensures Occurrences(t, '\n') == 1 + Occurrences(t[2..], '\n')
  {
    assert t == "-\n" + t[2..];
    assert multiset(t) == multiset{'-', '\n'} + multiset(t[2..]);
    OccurrencesIsMultiplicity(t, '\n');
    OccurrencesIsMultiplicity(t[2..], '\n');
  }

  /**
   * Keeping the first character of a text that does not start with a
   * hyphen-newline pair keeps its pairs and its newline count.
   */
  lemma KeepFirst(t: string, r: string)
    requires t != [] && !(|t| >= 2 && t[0] == '-' && t[1] == '\n')
    ensures multiset([t[0]] + r) == multiset{t[0]} + multiset(r)
    ensures multiset(t) == multiset{t[0]} + multiset(t[1..])
    ensures HyphenBreaks(t) == HyphenBreaks(t[1..])
    ensures Occurrences([t[0]] + r, '\n') == Occurrences(r, '\n') + (if t[0] == '\n' then 1 else 0)
    ensures Occurrences(t, '\n') == Occurrences(t[1..], '\n') + (if t[0] == '\n' then 1 else 0)
  {
    if |t| >= 2 { HyphenBreaksFront(t); }
    assert t == [t[0]] + t[1..];
    OccurrencesAppend([t[0]], t[1..], '\n');
    OccurrencesAppend([t[0]], r, '\n');
    assert Occurrences([t[0]], '\n') == (if t[0] == '\n' then 1 else 0) by {
      assert [t[0]][..0] == [];
    }
  }

  /** The end of the run of blanks starting at position 0. */
  function BlankRun(t: string): (n: nat)
    ensures n <= |t|
    ensures forall k :: 0 <= k < n ==> IsBlank(t[k])
    ensures n < |t| ==> !IsBlank(t[n])
  {
    Span(t, 0, IsBlank)
  }

  /** Step 3: `re.sub(r"[ \t]+", " ", t)`, each maximal run of spaces and tabs becomes one space. */
  function CollapseBlanks(t: string): (r: string)
    ensures '\t' !in r
    ensures forall i, j :: 0 <= i && j == i + 1 < |r| ==> !(r[i] == ' ' && r[j] == ' ')
    ensures |r| <= |t|
    ensures NonBlanks(r) == NonBlanks(t)
    ensures forall c :: c in r ==> c in t || c == ' '
    ensures t != [] ==> r != [] && (IsBlank(t[0]) ==> r[0] == ' ') && (!IsBlank(t[0]) ==> r[0] == t[0])
    decreases |t|
  {
    if t == [] then []
    else if IsBlank(t[0]) then
      var n := BlankRun(t);
      var rest := CollapseBlanks(t[n..]);
      BlankRunNonBlanks(t, n, rest);
      [' '] + rest
    else
      var rest := CollapseBlanks(t[1..]);
      NonBlankFirst(t, rest);
      [t[0]] + rest
  }

  /**
   * The characters of t from position i on, with every blank that begins a
   * run of blanks replaced by one space and every other blank of the run dropped.
   */
  function Collapsed(t: string, i: nat): string
    requires i <= |t|
    decreases |t| - i
  {
    if i == |t| then []
    else if !IsBlank(t[i]) then [t[i]] + Collapsed(t, i + 1)
    else if i > 0 && IsBlank(t[i - 1]) then Collapsed(t, i + 1)
    else [' '] + Collapsed(t, i + 1)
  }

  /** Each maximal run of blanks becomes one space; everything else is kept in order. */
  lemma CollapseBlanksRuns(t: string)
    ensures CollapseBlanks(t) == Collapsed(t, 0)
  {
    assert t[0..] == t;
    CollapseFrom(t, 0);
  }

  /** Collapsing restarted at position i, where a run of blanks does not continue. */
  lemma {:induction false} CollapseFrom(t: string, i: nat)
    requires i <= |t|
    requires i == |t| || i == 0 || !IsBlank(t[i]) || !IsBlank(t[i - 1])
    ensures CollapseBlanks(t[i..]) == Collapsed(t, i)
    decreases |t| - i
  {
    if i == |t| {
      assert t[i..] == [];
    } else if IsBlank(t[i]) {
      var e := RunStep(t, i);
      LeadingRun(t, i);
      CollapseFrom(t, e);
    } else {
      CharStep(t, i);
      CollapseFrom(t, i + 1);
    }
  }

  /** A run of blanks starting at position i and ending at e becomes one space in both. */
  lemma RunStep(t: string, i: nat) returns (e: nat)
    requires i < |t| && IsBlank(t[i]) && (i == 0 || !IsBlank(t[i - 1]))
    ensures e == i + BlankRun(t[i..]) && (e < |t| ==> !IsBlank(t[e]))
    ensures Collapsed(t, i) == [' '] + Collapsed(t, e)
  {
    e := i + BlankRun(t[i..]);
    BlanksAt(t, i, e);
    InsideRun(t, i + 1, e);
  }

  lemma LeadingRun(t: string, i: nat)
    requires i < |t| && IsBlank(t[i])
    ensures CollapseBlanks(t[i..]) == [' '] + CollapseBlanks(t[i + BlankRun(t[i..])..])
  {
    var u := t[i..];
    assert u[0] == t[i];
    assert u[BlankRun(u)..] == t[i + BlankRun(u)..];
  }

  /** The blank run of the suffix at i, seen as positions of t. */
  lemma BlanksAt(t: string, i: nat, e: nat)
    requires i < |t| && e == i + BlankRun(t[i..])
    ensures forall k :: i <= k < e ==> IsBlank(t[k])
    ensures e < |t| ==> !IsBlank(t[e])
  {
    var u := t[i..];
    forall k | i <= k < e
      ensures IsBlank(t[k])
    {
      assert u[k - i] == t[k];
    }
    if e < |t| { assert u[e - i] == t[e]; }
  }

  /** A character that is not blank is kept by both. */
  lemma CharStep(t: string, i: nat)
    requires i < |t| && !IsBlank(t[i])
    ensures CollapseBlanks(t[i..]) == [t[i]] + CollapseBlanks(t[i + 1..])
    ensures Collapsed(t, i) == [t[i]] + Collapsed(t, i + 1)
  {
    var u := t[i..];
    assert u[0] == t[i] && u[1..] == t[i + 1..];
  }

  /** Blanks that continue a run add nothing. */
  lemma {:induction false} InsideRun(t: string, j: nat, e: nat)
    requires 0 < j <= e <= |t|
    requires forall k :: j - 1 <= k < e ==> IsBlank(t[k])
    ensures Collapsed(t, j) == Collapsed(t, e)
    decreases e - j
  {
    if j < e {
      InsideRun(t, j + 1, e);
    }
  }

  /** A run of blanks contributes nothing to the non-blank characters, and neither does the space replacing it. */
  lemma BlankRunNonBlanks(t: string, n: nat, rest: string)
    requires n <= |t| && forall k :: 0 <= k < n ==> IsBlank(t[k])
    ensures NonBlanks(t) == NonBlanks(t[n..])
    ensures NonBlanks([' '] + rest) == NonBlanks(rest)
  {
    assert t == t[..n] + t[n..];
    NonBlanksAppend(t[..n], t[n..]);
    NonBlanksAppend(" ", rest);
    AllBlankNonBlanks(t[..n]);
    assert NonBlanks(" ") == [] by { assert " "[..0] == []; }
  }

  /** A non-blank first character is kept in front of the non-blank characters. */
  lemma NonBlankFirst(t: string, rest: string)
    requires t != [] && !IsBlank(t[0])
    ensures NonBlanks(t) == [t[0]] + NonBlanks(t[1..])
    ensures NonBlanks([t[0]] + rest) == [t[0]] + NonBlanks(rest)
  {
    assert t == [t[0]] + t[1..];
    NonBlanksAppend([t[0]], t[1..]);
    NonBlanksAppend([t[0]], rest);
    assert NonBlanks([t[0]]) == [t[0]] by { assert [t[0]][..0] == []; }
  }

  lemma {:induction false} AllBlankNonBlanks(s: string)
    requires forall k :: 0 <= k < |s| ==> IsBlank(s[k])
    ensures NonBlanks(s) == []
    decreases |s|
  {
    if s != [] {
      AllBlankNonBlanks(s[..|s| - 1]);
    }
  }

  /** Blanks are not newlines, so dropping them keeps every newline. */
  lemma {:induction false} NonBlanksKeepNewlines(s: string)
    ensures Occurrences(NonBlanks(s), '\n') == Occurrences(s, '\n')
    decreases |s|
  {
    if s != [] {
      var last := s[|s| - 1];
      NonBlanksKeepNewlines(s[..|s| - 1]);
      OccurrencesAppend(NonBlanks(s[..|s| - 1]), if IsBlank(last) then [] else [last], '\n');
      assert Occurrences([last], '\n') == (if last == '\n' then 1 else 0) by {
        assert [last][..0] == [];
      }
    }
  }

  /**
   * `_norm`: the result holds no soft hyphen, no tab and no two adjacent
   * spaces, and is never longer than the input.
   */
  function Norm(t: string): (r: string)
    ensures SoftHyphen !in r
    ensures '\t' !in r
    ensures forall i, j :: 0 <= i && j == i + 1 < |r| ==> !(r[i] == ' ' && r[j] == ' ')
    ensures |r| <= |t|
  {
    var a := DeleteSoftHyphens(t);
    var b := JoinHyphenBreaks(a);
    assert SoftHyphen !in b by {
      assert multiset(b)[SoftHyphen] <= multiset(a)[SoftHyphen] == 0;
    }
    CollapseBlanks(b)
  }

  /**
   * `_norm` keeps every newline except those of the hyphen-newline pairs it
   * removes (counted after soft hyphens are gone).
   */
  lemma NormKeepsNewlines(t: string)
    ensures Occurrences(Norm(t), '\n')
         == Occurrences(t, '\n') - HyphenBreaks(DeleteSoftHyphens(t))
  {
    var a := DeleteSoftHyphens(t);
    var b := JoinHyphenBreaks(a);
    NonBlanksKeepNewlines(b);
    NonBlanksKeepNewlines(Norm(t));
    OccurrencesIsMultiplicity(t, '\n');
    OccurrencesIsMultiplicity(a, '\n');
  }

  lemma {:induction false} OccurrencesIsMultiplicity(s: string, c: char)
    ensures Occurrences(s, c) == multiset(s)[c]
    decreases |s|
  {
    if s != [] {
      OccurrencesIsMultiplicity(s[..|s| - 1], c);
      assert s == s[..|s| - 1] + [s[|s| - 1]];
    }
  }

  /** A text without hyphens keeps all of its newlines through `_norm`. */
  lemma NormWithoutHyphensKeepsNewlines(t: string)
    requires '-' !in t
    ensures Occurrences(Norm(t), '\n') == Occurrences(t, '\n')
  {
    NormKeepsNewlines(t);
    var a := DeleteSoftHyphens(t);
    assert '-' !in a by {
      assert multiset(a)['-'] == multiset(t)['-'] == 0;
    }
    NoHyphenNoBreaks(a);
  }

  lemma {:induction false} NoHyphenNoBreaks(s: string)
    requires '-' !in s
    ensures HyphenBreaks(s) == 0
    decreases |s|
  {
    if |s| >= 2 {
      NoHyphenNoBreaks(s[..|s| - 1]);
    }
  }

  /**
   * The bulletin text of `main`: for each downloaded document, a newline
   * followed by its normalised text.
   */
  function BulletinText(docs: seq<string>): (r: string)
    ensures SoftHyphen !in r && '\t' !in r
    ensures Occurrences(r, '\n') >= |docs|
  {
    if docs == [] then []
    else
      var prefix := BulletinText(docs[..|docs| - 1]);
      var piece := "\n" + Norm(docs[|docs| - 1]);
      OccurrencesAppend(prefix, piece, '\n');
      OccurrencesAppend("\n", Norm(docs[|docs| - 1]), '\n');
      assert Occurrences("\n", '\n') == 1 by { assert "\n"[..0] == []; }
      prefix + piece
  }

  /** The normalised text of one document behind a newline. */
  function Piece(doc: string): (p: string)
    ensures |p| > 0 && p[0] == '\n'
  {
    "\n" + Norm(doc)
  }

  /** The bulletin text is the documents' pieces written one after another, in the order of the documents. */
  lemma {:induction false} BulletinTextInOrder(docs: seq<string>)
    ensures BulletinText(docs) == Concat(Map(Piece, docs))
    decreases |docs|
  {
    if docs != [] {
      var front := docs[..|docs| - 1];
      BulletinTextInOrder(front);
      ConcatSnoc(Map(Piece, front), Piece(docs[|docs| - 1]));
    }
  }
}
