/** The three per-name searches of the dependency detector, each
    case-insensitive (src/dependency.py:25-29, 38):
      quoted    `#"\s*NAME\s*"`
      bare word `\bNAME\b`
      call      `\bNAME\s*\(`
    NAME is `re.escape(name)`, so every character of the name is matched
    literally (ignoring case). Each pattern is stated as "matches at start
    position s", with the regex's choices as existential witnesses, and
    `Search` is `re.search`: the leftmost start where the pattern matches. */
module Patterns {
  import opened Options
  import opened Text

  /** `\b` at position `i`: the characters on either side differ in being
      word characters, with the ends of the text counting as non-word. */
  predicate WordBoundary(t: string, i: nat)
    requires i <= |t|
  {
    (i > 0 && IsWordChar(t[i - 1])) != (i < |t| && IsWordChar(t[i]))
  }

  /** `#"\s*NAME\s*"` matches at `s` with `a` spaces before the name and
      `b` spaces after it. */
  predicate QuotedWith(t: string, name: string, s: nat, a: nat, b: nat) {
    var n := s + 2 + a;
    var e := n + |name| + b;
    e < |t| && t[s] == '#' && t[s + 1] == '"'
    && AllSpace(t, s + 2, n) && MatchCIAt(t, n, name) && AllSpace(t, n + |name|, e) && t[e] == '"'
  }

  /** `#"\s*NAME\s*"` matches at `s`. */
  predicate QuotedAt(t: string, name: string, s: nat) {
    exists a, b :: 0 <= a <= |t| && 0 <= b <= |t| && QuotedWith(t, name, s, a, b)
  }

  /** `\bNAME\b` matches at `s`. */
  predicate BareAt(t: string, name: string, s: nat) {
    s + |name| <= |t| && WordBoundary(t, s) && MatchCIAt(t, s, name) && WordBoundary(t, s + |name|)
  }

  /** `\bNAME\s*\(` matches at `s` with `j` spaces before the parenthesis. */
  predicate CallWith(t: string, name: string, s: nat, j: nat) {
    s + |name| + j < |t| && WordBoundary(t, s) && MatchCIAt(t, s, name)
    && AllSpace(t, s + |name|, s + |name| + j) && t[s + |name| + j] == '('
  }

  /** `\bNAME\s*\(` matches at `s`. */
  predicate CallAt(t: string, name: string, s: nat) {
    exists j :: 0 <= j <= |t| && CallWith(t, name, s, j)
  }

  datatype Pattern = Quoted | Bare | Call

  predicate MatchesAt(pat: Pattern, t: string, name: string, s: nat) {
    match pat
    case Quoted => QuotedAt(t, name, s)
    case Bare => BareAt(t, name, s)
    case Call => CallAt(t, name, s)
  }

  /** No pattern matches past the end of the text. */
  lemma MatchWithinText(pat: Pattern, t: string, name: string, s: nat)
    requires MatchesAt(pat, t, name, s)
    ensures s <= |t|
  {
  }

  /** The pattern matches somewhere: `re.search` does not return `None`. */
  ghost predicate Occurs(pat: Pattern, t: string, name: string) {
    exists s :: MatchesAt(pat, t, name, s)
  }

  /** `re.search` from position `from`: the leftmost start at or after
      `from` where the pattern matches. */
  function Search(pat: Pattern, t: string, name: string, from: nat): (r: Option<nat>)
    ensures r.Some? ==> from <= r.value <= |t| && MatchesAt(pat, t, name, r.value)
    ensures r.Some? ==> forall s :: from <= s < r.value ==> !MatchesAt(pat, t, name, s)
    ensures r.None? ==> forall s :: from <= s ==> !MatchesAt(pat, t, name, s)
    decreases |t| + 1 - from
  {
    if from > |t| then
      assert forall s :: from <= s ==> !MatchesAt(pat, t, name, s) by {
        forall s | from <= s && MatchesAt(pat, t, name, s) ensures false {
          MatchWithinText(pat, t, name, s);
        }
      }
      None
    else if MatchesAt(pat, t, name, from) then Some(from)
    else Search(pat, t, name, from + 1)
  }

  /** `re.search` from the start of the text finds a match exactly when the
      pattern occurs, and then the leftmost one. */
  lemma SearchFindsLeftmost(pat: Pattern, t: string, name: string)
    ensures Search(pat, t, name, 0).Some? <==> Occurs(pat, t, name)
    ensures Search(pat, t, name, 0).Some? ==>
      forall s :: MatchesAt(pat, t, name, s) ==> Search(pat, t, name, 0).value <= s
  {
  }

  /** Text that holds the quoted form `#"name"` at `s` is matched there by
      the quoted pattern (with no whitespace inside the delimiters). */
  lemma QuotedFormMatches(t: string, name: string, s: nat)
    requires s + |name| + 3 <= |t|
    requires t[s..s + |name| + 3] == Quote(name)
    ensures QuotedAt(t, name, s)
  {
    var e := s + 2 + |name|;
    assert t[e] == Quote(name)[|name| + 2];
    forall k | 0 <= k < |name| ensures Lower(t[s + 2 + k]) == Lower(name[k]) {
      assert t[s + 2 + k] == Quote(name)[2 + k];
    }
    assert t[s] == Quote(name)[0] && t[s + 1] == Quote(name)[1];
    assert QuotedWith(t, name, s, 0, 0);
  }
}
