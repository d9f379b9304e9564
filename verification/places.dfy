/**
 * `_normalize_place` and `PLACE_NORMALIZE`: a venue is rewritten by running
 * `re.sub` (ignoring case) with each entry of the table, in the table's order.
 *
 * The five patterns are sequences of word boundaries, literals, optional
 * literals and `\s*` runs; they are matched here the way Python's backtracking
 * engine matches them: an optional part is tried first present, then absent,
 * and a `\s*` run is tried longest first, then one character shorter, and so
 * on.
 */
module Places {
  import opened Wrappers
  import opened Chars

  /** One piece of a pattern: `\b`, a literal, `(lit)?` or `lit?`, and `\s*`. */
  datatype Elem = Boundary | Lit(w: string) | OptLit(w: string) | Spaces

  type Pattern = seq<Elem>

  /** The number of characters any match of p consumes at least: its literals. */
  function MinLen(p: Pattern): nat {
    if p == [] then 0 else (if p[0].Lit? then |p[0].w| else 0) + MinLen(p[1..])
  }

  datatype Substitution = Substitution(pattern: Pattern, repl: string)

  /**
   * An entry of the table. Every pattern opens with `\b` and a non-empty
   * literal, so each of its matches consumes at least one character.
   */
  predicate Anchored(p: Pattern) { |p| >= 2 && p[0] == Boundary && p[1].Lit? && p[1].w != [] }

  type Rule = r: Substitution | Anchored(r.pattern) witness Substitution([Boundary, Lit("a")], "")

  lemma AnchoredMinLen(p: Pattern)
    requires Anchored(p)
    ensures MinLen(p) > 0
  {
    assert MinLen(p) == MinLen(p[1..]);
  }

  /**
   * What the pattern means: p matches s from i to j. Literals are compared
   * without regard to case, as `re.I` does.
   */
  predicate Matches(s: string, i: nat, p: Pattern, j: nat)
    decreases |p|, |s| - i
  {
    i <= |s| &&
    if p == [] then j == i
    else match p[0]
      case Boundary => IsBoundary(s, i) && Matches(s, i, p[1..], j)
      case Lit(w) => LiteralAtIgnoreCase(s, i, w) && Matches(s, i + |w|, p[1..], j)
      case OptLit(w) => (LiteralAtIgnoreCase(s, i, w) && Matches(s, i + |w|, p[1..], j)) || Matches(s, i, p[1..], j)
      case Spaces => Matches(s, i, p[1..], j) || (i < |s| && IsSpace(s[i]) && Matches(s, i + 1, p, j))
  }

  /** The end of the first match of p at i in the engine's order of attempts. */
  function MatchFrom(s: string, i: nat, p: Pattern): (r: Option<nat>)
    requires i <= |s|
    ensures r.Some? ==> i + MinLen(p) <= r.value <= |s|
    decreases |p|, |s| + 1
  {
    if p == [] then Some(i)
    else match p[0]
      case Boundary => if IsBoundary(s, i) then MatchFrom(s, i, p[1..]) else None
      case Lit(w) => if LiteralAtIgnoreCase(s, i, w) then MatchFrom(s, i + |w|, p[1..]) else None
      case OptLit(w) =>
        var present := if LiteralAtIgnoreCase(s, i, w) then MatchFrom(s, i + |w|, p[1..]) else None;
        if present.Some? then present else MatchFrom(s, i, p[1..])
      case Spaces => Backoff(s, i, Span(s, i, IsSpace), p[1..])
  }

  /** A `\s*` run from i that could reach k: the rest is tried after k, k - 1, ..., i. */
  function Backoff(s: string, i: nat, k: nat, rest: Pattern): (r: Option<nat>)
    requires i <= k <= |s|
    ensures r.Some? ==> i + MinLen(rest) <= r.value <= |s|
    decreases |rest| + 1, k
  {
    match MatchFrom(s, k, rest)
    case Some(j) => Some(j)
    case None => if k == i then None else Backoff(s, i, k - 1, rest)
  }

  /** Whitespace from i to k, then the rest of a `\s*` pattern: the whole pattern matches from i. */
  lemma {:induction false} SpacesThen(s: string, i: nat, k: nat, p: Pattern, j: nat)
    requires p != [] && p[0] == Spaces && i <= k <= |s|
    requires forall m :: i <= m < k ==> IsSpace(s[m])
    requires Matches(s, k, p[1..], j)
    ensures Matches(s, i, p, j)
    decreases k - i
  {
    if i < k {
      SpacesThen(s, i + 1, k, p, j);
    }
  }

  /** A match of a `\s*` pattern from i goes on from some k within the whitespace run at i. */
  lemma {:induction false} SpacesUnroll(s: string, i: nat, p: Pattern, j: nat) returns (k: nat)
    requires p != [] && p[0] == Spaces && Matches(s, i, p, j)
    ensures i <= k <= Span(s, i, IsSpace) && Matches(s, k, p[1..], j)
    decreases |s| - i
  {
    if Matches(s, i, p[1..], j) {
      k := i;
    } else {
      k := SpacesUnroll(s, i + 1, p, j);
    }
  }

  /** The engine only reports matches: MatchFrom is sound. */
  lemma {:induction false} MatchFromSound(s: string, i: nat, p: Pattern)
    requires i <= |s| && MatchFrom(s, i, p).Some?
    ensures Matches(s, i, p, MatchFrom(s, i, p).value)
    decreases |p|, |s| + 1
  {
    if p != [] {
      match p[0]
      case Boundary => MatchFromSound(s, i, p[1..]);
      case Lit(w) => MatchFromSound(s, i + |w|, p[1..]);
      case OptLit(w) =>
        if LiteralAtIgnoreCase(s, i, w) && MatchFrom(s, i + |w|, p[1..]).Some? {
          MatchFromSound(s, i + |w|, p[1..]);
        } else {
          MatchFromSound(s, i, p[1..]);
        }
      case Spaces => BackoffSound(s, i, Span(s, i, IsSpace), p);
    }
  }

  lemma {:induction false} BackoffSound(s: string, i: nat, k: nat, p: Pattern)
    requires p != [] && p[0] == Spaces && i <= k <= |s|
    requires forall m :: i <= m < k ==> IsSpace(s[m])
    requires Backoff(s, i, k, p[1..]).Some?
    ensures Matches(s, i, p, Backoff(s, i, k, p[1..]).value)
    decreases |p|, k
  {
    var j := Backoff(s, i, k, p[1..]).value;
    if MatchFrom(s, k, p[1..]).Some? {
      MatchFromSound(s, k, p[1..]);
      SpacesThen(s, i, k, p, j);
    } else {
      BackoffSound(s, i, k - 1, p);
    }
  }

  /** Backing off from k reaches every shorter run, so a start m that works is not missed. */
  lemma {:induction false} BackoffFinds(s: string, i: nat, k: nat, rest: Pattern, m: nat)
    requires i <= m <= k <= |s| && MatchFrom(s, m, rest).Some?
    ensures Backoff(s, i, k, rest).Some?
    decreases k
  {
    if MatchFrom(s, k, rest).None? {
      BackoffFinds(s, i, k - 1, rest, m);
    }
  }

  /** The engine misses no match: whenever p matches from i, MatchFrom finds a match. */
  lemma {:induction false} MatchFromComplete(s: string, i: nat, p: Pattern, j: nat)
    requires Matches(s, i, p, j)
    ensures MatchFrom(s, i, p).Some?
    decreases |p|
  {
    if p != [] {
      match p[0]
      case Boundary => MatchFromComplete(s, i, p[1..], j);
      case Lit(w) => MatchFromComplete(s, i + |w|, p[1..], j);
      case OptLit(w) =>
        if LiteralAtIgnoreCase(s, i, w) && Matches(s, i + |w|, p[1..], j) {
          MatchFromComplete(s, i + |w|, p[1..], j);
        } else {
          MatchFromComplete(s, i, p[1..], j);
        }
      case Spaces =>
        var k := SpacesUnroll(s, i, p, j);
        MatchFromComplete(s, k, p[1..], j);
        BackoffFinds(s, i, Span(s, i, IsSpace), p[1..], k);
    }
  }

  /**
   * `re.sub` from position q on: at each position the pattern is tried, a match
   * is replaced and the scan resumes after it, otherwise the character is kept.
   * Word boundaries are judged in the whole original string.
   */
  function SubFrom(s: string, q: nat, rule: Rule): (r: string)
    requires q <= |s|
    ensures (forall m :: q <= m <= |s| ==> MatchFrom(s, m, rule.pattern).None?) ==> r == s[q..]
    decreases |s| - q
  {
    AnchoredMinLen(rule.pattern);
    match MatchFrom(s, q, rule.pattern)
    case Some(e) => rule.repl + SubFrom(s, e, rule)
    case None => if q == |s| then [] else [s[q]] + SubFrom(s, q + 1, rule)
  }

  /** `re.sub(pattern, repl, s, flags=re.I)`. */
  function Sub(s: string, rule: Rule): (r: string)
    ensures (forall m :: 0 <= m <= |s| ==> MatchFrom(s, m, rule.pattern).None?) ==> r == s
  {
    SubFrom(s, 0, rule)
  }

  /** A position where the pattern does not match keeps its character. */
  lemma SubFromKeeps(s: string, q: nat, rule: Rule)
    requires q < |s| && MatchFrom(s, q, rule.pattern).None?
    ensures SubFrom(s, q, rule) == [s[q]] + SubFrom(s, q + 1, rule)
  {
  }

  /**
   * The text before the first match (from q on) is kept as it is, the match
   * becomes the replacement, and substitution resumes after the match.
   */
  lemma {:induction false} SubFromFirstMatch(s: string, q: nat, m: nat, e: nat, rule: Rule)
    requires q <= m <= |s| && MatchFrom(s, m, rule.pattern) == Some(e)
    requires forall n :: q <= n < m ==> MatchFrom(s, n, rule.pattern).None?
    ensures SubFrom(s, q, rule) == s[q..m] + (rule.repl + SubFrom(s, e, rule))
    decreases m - q
  {
    if q < m {
      SubFromFirstMatch(s, q + 1, m, e, rule);
      SubFromKeeps(s, q, rule);
      var rest := rule.repl + SubFrom(s, e, rule);
      assert s[q..m] == [s[q]] + s[q + 1..m];
      assert [s[q]] + (s[q + 1..m] + rest) == ([s[q]] + s[q + 1..m]) + rest;
    } else {
      assert s[q..m] == [];
    }
  }

  /** The rules applied one after another, the last rule of the list last. */
  function ApplyRules(s: string, rules: seq<Rule>): (r: string)
    decreases |rules|
  {
    if rules == [] then s else Sub(ApplyRules(s, rules[..|rules| - 1]), rules[|rules| - 1])
  }

  /** Applying a + b is applying a, then b to the result: the table is run in order. */
  lemma {:induction false} ApplyRulesConcat(s: string, a: seq<Rule>, b: seq<Rule>)
    ensures ApplyRules(s, a + b) == ApplyRules(ApplyRules(s, a), b)
    decreases |b|
  {
    if b == [] {
      assert a + b == a;
    } else {
      var b' := b[..|b| - 1];
      assert (a + b)[..|a + b| - 1] == a + b';
      ApplyRulesConcat(s, a, b');
    }
  }

  /** When no rule's pattern matches anywhere in s, the rules leave s unchanged. */
  lemma {:induction false} ApplyRulesNoMatch(s: string, rules: seq<Rule>)
    requires forall k, m :: 0 <= k < |rules| && 0 <= m <= |s| ==> MatchFrom(s, m, rules[k].pattern).None?
    ensures ApplyRules(s, rules) == s
    decreases |rules|
  {
    if rules != [] {
      ApplyRulesNoMatch(s, rules[..|rules| - 1]);
      var last := rules[|rules| - 1];
      assert forall m :: 0 <= m <= |s| ==> MatchFrom(s, m, last.pattern).None?;
    }
  }

  /** The loop of `_normalize_place`: `re.sub` with each rule in turn. */
  method ApplyAll(s: string, rules: seq<Rule>) returns (out: string)
    ensures out == ApplyRules(s, rules)
  {
    out := s;
    var k := 0;
    while k < |rules|
      invariant 0 <= k <= |rules|
      invariant out == ApplyRules(s, rules[..k])
    {
      assert rules[..k + 1][..k] == rules[..k];
      out := Sub(out, rules[k]);
      k := k + 1;
    }
    assert rules[..|rules|] == rules;
  }
}

/** The table `PLACE_NORMALIZE` and `_normalize_place` itself. */
module PlaceTable {
  import opened Wrappers
  import opened Places

  /** The entries of `PLACE_NORMALIZE`, one function each. */
  function KathedraleStUrsen(): Rule {
    Substitution([Boundary, Lit("Kathedrale"), Spaces, Lit("St"), OptLit("."), Spaces, Lit("Urs"), OptLit("en"), Boundary],
                 "Kathedrale St. Ursen, Solothurn")
  }

  function StMarien(): Rule {
    Substitution([Boundary, Lit("St"), OptLit("."), Spaces, Lit("Marien"), Boundary], "St. Marien, Solothurn")
  }

  function StNiklaus(): Rule {
    Substitution([Boundary, Lit("St"), OptLit("."), Spaces, Lit("Niklaus"), Boundary], "St. Niklaus, Solothurn")
  }

  function StEusebius(): Rule {
    Substitution([Boundary, Lit("St"), OptLit("."), Spaces, Lit("Eusebius"), Boundary], "St. Eusebius, Grenchen")
  }

  function StKlemenz(): Rule {
    Substitution([Boundary, Lit("St"), OptLit("."), Spaces, Lit("Klem"), OptLit("e"), Lit("nz"), Boundary],
                 "St. Klemenz, Bettlach")
  }

  /** `PLACE_NORMALIZE`, in the order of its entries. */
  const Rules: seq<Rule> := [KathedraleStUrsen(), StMarien(), StNiklaus(), StEusebius(), StKlemenz()]

  /** The venue `_normalize_place` returns for s. */
  function Normalized(s: Option<string>): Option<string> {
    if s.None? || s.value == [] then s else Some(ApplyRules(s.value, Rules))
  }

  /**
   * `_normalize_place(s)`: None and the empty string come back as they are;
   * any other venue is run through the table, entry by entry.
   */
  method NormalizePlace(s: Option<string>) returns (r: Option<string>)
    ensures s.None? || s.value == [] ==> r == s
    ensures s.Some? && s.value != [] ==> r == Some(ApplyRules(s.value, Rules))
  {
    if s.None? || s.value == [] {
      return s;
    }
    var out := ApplyAll(s.value, Rules);
    return Some(out);
  }
}
