/** The `let ... in` locator shared by the local-name extractor and the step
    extractor (src/dependency.py:73 and src/generator.py:10): a search for
    `let\s+(.*?)\s+in\s+` with DOTALL and IGNORECASE that yields the captured
    body of the first match.

    A match is described by where `let` starts, how many whitespace
    characters the first `\s+` consumes, and how long the lazy body is. A
    backtracking matcher tries start positions left to right; at one start
    the greedy `\s+` tries its longest run first and gives characters back
    one at a time; for each choice the lazy body grows from empty. The first
    combination in that order that lets the rest of the pattern match is the
    one `re.search` reports. */
module LetBlock {
  import opened Options
  import opened Text

  /** One way the pattern can match: `let` at `start`, `gap` characters of
      whitespace after it, then a body of `len` characters. */
  datatype LetSpan = LetSpan(start: nat, gap: nat, len: nat) {
    function BodyStart(): nat { start + 3 + gap }
    function BodyEnd(): nat { start + 3 + gap + len }
  }

  /** `\s+in\s+` matches at `p` with `j` characters for the first `\s+`. */
  predicate InTailWith(t: string, p: nat, j: nat) {
    1 <= j && p + j + 3 <= |t| && AllSpace(t, p, p + j) && MatchCIAt(t, p + j, "in") && IsSpace(t[p + j + 2])
  }

  /** `\s+in\s+` matches at `p`. */
  predicate InTailAt(t: string, p: nat) {
    exists j :: 1 <= j <= |t| && InTailWith(t, p, j)
  }

  /** `let\s+(.*?)\s+in\s+` can match along `m`. */
  predicate LetMatch(t: string, m: LetSpan) {
    m.BodyEnd() <= |t| && MatchCIAt(t, m.start, "let") && m.gap >= 1
    && AllSpace(t, m.start + 3, m.BodyStart()) && InTailAt(t, m.BodyEnd())
  }

  /** `a` comes before `b` in the order the backtracking matcher tries them:
      leftmost start, then the longer whitespace run, then the shorter body. */
  predicate Precedes(a: LetSpan, b: LetSpan) {
    a.start < b.start
    || (a.start == b.start && a.gap > b.gap)
    || (a.start == b.start && a.gap == b.gap && a.len < b.len)
  }

  /** `m` is the match `re.search` reports. */
  ghost predicate IsFirstMatch(t: string, m: LetSpan) {
    LetMatch(t, m) && forall o :: LetMatch(t, o) ==> !Precedes(o, m)
  }

  /** Inside a whitespace run `t[p..e]` that ends before a non-space, the
      tail pattern matches at `p` exactly when `in` and a whitespace
      character follow the run. */
  lemma TailInRun(t: string, p: nat, e: nat)
    requires p < e && AllSpace(t, p, e)
    requires e == |t| || !IsSpace(t[e])
    ensures InTailAt(t, p) <==> (e + 3 <= |t| && MatchCIAt(t, e, "in") && IsSpace(t[e + 2]))
  {
    if InTailAt(t, p) {
      var j :| 1 <= j <= |t| && InTailWith(t, p, j);
      SpaceIsNotI(t[p + j]);
      assert Lower(t[p + j + 0]) == Lower("in"[0]);
      assert p + j >= e;
      assert p + j <= e;
    }
    if e + 3 <= |t| && MatchCIAt(t, e, "in") && IsSpace(t[e + 2]) {
      assert InTailWith(t, p, e - p);
    }
  }

  /** The tail pattern can only start on whitespace. */
  lemma TailStartsWithSpace(t: string, p: nat)
    ensures InTailAt(t, p) ==> p < |t| && IsSpace(t[p])
  {
    if InTailAt(t, p) {
      var j :| 1 <= j <= |t| && InTailWith(t, p, j);
      assert IsSpace(t[p + 0]);
    }
  }

  lemma SpaceIsNotI(c: char)
    ensures IsSpace(c) ==> Lower(c) != 'i'
  {
  }

  /** The first position at or after `p` where the tail pattern matches:
      the lazy body stops at the first such position. */
  function FirstTail(t: string, p: nat): (r: Option<nat>)
    requires p <= |t|
    ensures r.Some? ==> p <= r.value <= |t| && InTailAt(t, r.value)
    ensures r.Some? ==> forall q :: p <= q < r.value ==> !InTailAt(t, q)
    ensures r.None? ==> forall q :: p <= q <= |t| ==> !InTailAt(t, q)
    decreases |t| - p
  {
    if InTailAt(t, p) then Some(p)
    else if p == |t| then None
    else FirstTail(t, p + 1)
  }

  /** A whitespace run after `let` at `s` is never longer than the maximal one. */
  lemma GapBound(t: string, o: LetSpan)
    requires LetMatch(t, o)
    ensures o.gap <= SpaceRun(t, o.start + 3)
  {
    var run := SpaceRun(t, o.start + 3);
    if o.gap > run {
      assert false;
    }
  }

  /** No match starting at `s` when `let` is not followed by whitespace. */
  lemma NoGapNoMatch(t: string, s: nat)
    requires s + 3 > |t| || SpaceRun(t, s + 3) == 0
    ensures forall o :: LetMatch(t, o) ==> o.start != s
  {
    forall o | LetMatch(t, o) && o.start == s ensures false {
      GapBound(t, o);
    }
  }

  /** With the longest whitespace run, the first tail after it gives the
      shortest body, and no other match at `s` comes earlier. */
  lemma LongestGapFirst(t: string, s: nat, p: nat)
    requires s + 3 <= |t| && SpaceRun(t, s + 3) >= 1
    requires FirstTail(t, s + 3 + SpaceRun(t, s + 3)) == Some(p)
    ensures forall o :: LetMatch(t, o) && o.start == s ==> !Precedes(o, LetSpan(s, SpaceRun(t, s + 3), p - (s + 3 + SpaceRun(t, s + 3))))
  {
    forall o | LetMatch(t, o) && o.start == s
      ensures !Precedes(o, LetSpan(s, SpaceRun(t, s + 3), p - (s + 3 + SpaceRun(t, s + 3))))
    {
      GapBound(t, o);
    }
  }

  /** With no tail after the longest run, every match at `s` gives back
      whitespace and ends inside the run, which needs `in` and whitespace
      right after the run; the first candidate then gives back one
      character and captures an empty body. */
  lemma ShorterGap(t: string, s: nat)
    requires s + 3 <= |t| && SpaceRun(t, s + 3) >= 1
    requires FirstTail(t, s + 3 + SpaceRun(t, s + 3)).None?
    ensures forall o :: LetMatch(t, o) && o.start == s ==> o.gap < SpaceRun(t, s + 3)
    ensures forall o :: LetMatch(t, o) && o.start == s ==> InTailAt(t, s + 3 + SpaceRun(t, s + 3) - 1)
  {
    var b := s + 3;
    var run := SpaceRun(t, b);
    forall o | LetMatch(t, o) && o.start == s
      ensures o.gap < run && InTailAt(t, b + run - 1)
    {
      GapBound(t, o);
      assert o.BodyEnd() < b + run;
      TailInRun(t, o.BodyEnd(), b + run);
      TailInRun(t, b + run - 1, b + run);
    }
  }

  /** The match `re.search` would report among those starting at `s`. */
  function LetAt(t: string, s: nat): (r: Option<LetSpan>)
    ensures r.Some? ==> r.value.start == s && LetMatch(t, r.value)
    ensures r.Some? ==> forall o :: LetMatch(t, o) && o.start == s ==> !Precedes(o, r.value)
    ensures r.None? ==> forall o :: LetMatch(t, o) ==> o.start != s
  {
    if s + 3 > |t| || !MatchCIAt(t, s, "let") then None
    else if SpaceRun(t, s + 3) == 0 then NoGapNoMatch(t, s); None
    else
      var b := s + 3;
      var run := SpaceRun(t, b);
      match FirstTail(t, b + run)
      case Some(p) =>
        LongestGapFirst(t, s, p);
        Some(LetSpan(s, run, p - (b + run)))
      case None =>
        ShorterGap(t, s);
        if run >= 2 && InTailAt(t, b + run - 1) then Some(LetSpan(s, run - 1, 0))
        else None
  }

  /** The first match whose `let` starts at or after `s`. */
  function FindLetFrom(t: string, s: nat): (r: Option<LetSpan>)
    ensures r.Some? ==> LetMatch(t, r.value) && r.value.start >= s
    ensures r.Some? ==> forall o :: LetMatch(t, o) && o.start >= s ==> !Precedes(o, r.value)
    ensures r.None? ==> forall o :: LetMatch(t, o) ==> o.start < s
    decreases |t| + 1 - s
  {
    if s + 3 > |t| then None
    else match LetAt(t, s)
      case Some(m) => Some(m)
      case None => FindLetFrom(t, s + 1)
  }

  /** `re.search(r"let\s+(.*?)\s+in\s+", t, re.DOTALL | re.IGNORECASE)`:
      the reported match, or `None` when the pattern matches nowhere. */
  function FindLet(t: string): (r: Option<LetSpan>)
    ensures r.Some? ==> IsFirstMatch(t, r.value)
    ensures r.None? ==> forall o :: !LetMatch(t, o)
  {
    FindLetFrom(t, 0)
  }

  /** The backtracking order is total, so the reported match is unique. */
  lemma FirstMatchUnique(t: string, m1: LetSpan, m2: LetSpan)
    requires IsFirstMatch(t, m1) && IsFirstMatch(t, m2)
    ensures m1 == m2
  {
  }

  /** `match.group(1)`: the captured body, or `None` when nothing matches. */
  function LetBody(t: string): Option<string> {
    match FindLet(t)
    case None => None
    case Some(m) => Some(t[m.BodyStart()..m.BodyEnd()])
  }

  /** There is a body exactly when the pattern matches somewhere, and it is
      the text the first match captures. */
  lemma LetBodyMeaning(t: string)
    ensures LetBody(t).None? <==> forall o :: !LetMatch(t, o)
    ensures LetBody(t).Some? ==> exists m :: IsFirstMatch(t, m) && LetBody(t).value == t[m.BodyStart()..m.BodyEnd()]
  {
  }

  /** Once a match is known to be the first, it determines the body. */
  lemma LetBodyOfFirstMatch(t: string, m: LetSpan)
    requires IsFirstMatch(t, m)
    ensures LetBody(t) == Some(t[m.BodyStart()..m.BodyEnd()])
  {
    FirstMatchUnique(t, m, FindLet(t).value);
  }

  /** The pattern needs `in` followed by whitespace somewhere: text without
      such an occurrence (for instance text whose only `in` is at its very
      end) has no body. */
  lemma NoInFollowedBySpace(t: string)
    requires forall q: nat :: q + 3 <= |t| && MatchCIAt(t, q, "in") ==> !IsSpace(t[q + 2])
    ensures LetBody(t) == None
  {
    forall o | LetMatch(t, o) ensures false {
    }
  }
}
