/** Character classes, case-insensitive comparison and the Python `str`
    operations the heuristics rely on (`strip`, `split`, `find`, `rfind`,
    `count`, `startswith`), over `string` = `seq<char>`.

    Python's `\s`, `\w`, `str.isspace` and IGNORECASE follow Unicode; here
    they are restricted to ASCII. */
module Text {
  import opened Options

  /** `\s` and `str.isspace` on ASCII: tab, line feed, vertical tab, form
      feed, carriage return, the separators 0x1C-0x1F and space. */
  predicate IsSpace(c: char) {
    9 <= c as int <= 13 || 28 <= c as int <= 32
  }

  /** `\w` on ASCII: letters, digits and underscore. */
  predicate IsWordChar(c: char) {
    'a' <= c <= 'z' || 'A' <= c <= 'Z' || '0' <= c <= '9' || c == '_'
  }

  /** The case folding IGNORECASE applies, on ASCII letters. */
  function Lower(c: char): char {
    if 'A' <= c <= 'Z' then (c as int + 32) as char else c
  }

  /** `pat` occurs at position `i` of `t`, ignoring case. */
  predicate MatchCIAt(t: string, i: nat, pat: string) {
    i + |pat| <= |t| && forall k :: 0 <= k < |pat| ==> Lower(t[i + k]) == Lower(pat[k])
  }

  /** Every character of `t[i..j]` is whitespace. */
  predicate AllSpace(t: string, i: nat, j: nat) {
    i <= j <= |t| && forall k :: i <= k < j ==> IsSpace(t[k])
  }

  /** Length of the maximal whitespace run starting at `i`. */
  function SpaceRun(t: string, i: nat): (n: nat)
    requires i <= |t|
    ensures AllSpace(t, i, i + n)
    ensures i + n == |t| || !IsSpace(t[i + n])
    decreases |t| - i
  {
    if i < |t| && IsSpace(t[i]) then 1 + SpaceRun(t, i + 1) else 0
  }

  /** `str.lstrip()`: drops leading whitespace. */
  function TrimStart(s: string): string {
    if |s| > 0 && IsSpace(s[0]) then TrimStart(s[1..]) else s
  }

  /** `lstrip` leaves the suffix after a whitespace prefix, and that suffix
      does not start with whitespace. */
  lemma {:induction false} TrimStartShape(s: string)
    ensures |TrimStart(s)| <= |s| && TrimStart(s) == s[|s| - |TrimStart(s)|..]
    ensures AllSpace(s, 0, |s| - |TrimStart(s)|)
    ensures TrimStart(s) == [] || !IsSpace(TrimStart(s)[0])
  {
    if |s| > 0 && IsSpace(s[0]) {
      TrimStartShape(s[1..]);
    }
  }

  /** `str.rstrip()`: drops trailing whitespace. */
  function TrimEnd(s: string): string {
    if |s| > 0 && IsSpace(s[|s| - 1]) then TrimEnd(s[..|s| - 1]) else s
  }

  /** `rstrip` leaves the prefix before a whitespace suffix, and that prefix
      does not end with whitespace. */
  lemma {:induction false} TrimEndShape(s: string)
    ensures |TrimEnd(s)| <= |s| && TrimEnd(s) == s[..|TrimEnd(s)|]
    ensures AllSpace(s, |TrimEnd(s)|, |s|)
    ensures TrimEnd(s) == [] || !IsSpace(TrimEnd(s)[|TrimEnd(s)| - 1])
  {
    if |s| > 0 && IsSpace(s[|s| - 1]) {
      TrimEndShape(s[..|s| - 1]);
    }
  }

  /** `str.strip()`. */
  function Strip(s: string): string {
    TrimEnd(TrimStart(s))
  }

  /** `strip` keeps the slice of `s` between its leading and trailing
      whitespace, which begins and ends with a non-space character. */
  lemma StripShape(s: string)
    ensures Strip(s) == [] || (!IsSpace(Strip(s)[0]) && !IsSpace(Strip(s)[|Strip(s)| - 1]))
    ensures exists a :: 0 <= a && a + |Strip(s)| <= |s| && Strip(s) == s[a..a + |Strip(s)|] && AllSpace(s, 0, a) && AllSpace(s, a + |Strip(s)|, |s|)
  {
    var l := TrimStart(s);
    var r := TrimEnd(l);
    assert Strip(s) == r;
    TrimStartShape(s);
    TrimEndShape(l);
    var a := |s| - |l|;
    assert r == s[a..a + |r|] by {
      assert l == s[a..];
      assert r == l[..|r|];
    }
    assert AllSpace(s, a + |r|, |s|) by {
      forall k | a + |r| <= k < |s| ensures IsSpace(s[k]) {
        assert s[k] == l[k - a];
      }
    }
    assert AllSpace(s, 0, a);
  }

  /** Stripping only removes whitespace: every character of `Strip(s)`
      occurs in `s`, and a non-space character of `s` survives. */
  lemma StripMembership(s: string, c: char)
    ensures c in Strip(s) ==> c in s
    ensures !IsSpace(c) && c in s ==> c in Strip(s)
  {
    var l := TrimStart(s);
    var r := TrimEnd(l);
    TrimStartShape(s);
    TrimEndShape(l);
    var a := |s| - |l|;
    assert r == s[a..a + |r|];
    if c in r {
      var k :| 0 <= k < |r| && r[k] == c;
      assert s[a + k] == c;
    }
    if !IsSpace(c) && c in s {
      var k :| 0 <= k < |s| && s[k] == c;
      assert !IsSpace(s[k]);
      assert a <= k;
      assert l[k - a] == c;
      assert k - a < |r|;
      assert r[k - a] == c;
    }
  }

  /** `s.startswith(p)`. */
  predicate StartsWith(s: string, p: string) {
    |p| <= |s| && s[..|p|] == p
  }

  /** `s.find(c)`: the first index holding `c`, `None` for -1. */
  function IndexOf(s: string, c: char): (r: Option<nat>)
    ensures r.Some? ==> r.value < |s| && s[r.value] == c && c !in s[..r.value]
    ensures r.None? ==> c !in s
  {
    if |s| == 0 then None
    else if s[0] == c then Some(0)
    else match IndexOf(s[1..], c)
      case None => None
      case Some(i) => assert s[..i + 1] == [s[0]] + s[1..][..i]; Some(i + 1)
  }

  /** `s.rfind(c, 0, end)`: the last index below `end` holding `c`, or -1. */
  function RFind(s: string, c: char, end: nat): (r: int)
    requires end <= |s|
    ensures -1 <= r < end
    ensures r >= 0 ==> s[r] == c
    ensures forall i :: r < i < end ==> s[i] != c
  {
    if end == 0 then -1
    else if s[end - 1] == c then end - 1
    else RFind(s, c, end - 1)
  }

  /** `s.count(c)` for a one-character `c`. */
  function CountChar(s: string, c: char): (n: nat)
    ensures n <= |s|
    ensures n == 0 <==> c !in s
  {
    if |s| == 0 then 0
    else (if s[0] == c then 1 else 0) + CountChar(s[1..], c)
  }

  lemma {:induction false} CountConcat(a: string, b: string, c: char)
    ensures CountChar(a + b, c) == CountChar(a, c) + CountChar(b, c)
  {
    if |a| > 0 {
      assert (a + b)[1..] == a[1..] + b;
      CountConcat(a[1..], b, c);
    } else {
      assert a + b == b;
    }
  }

  /** Inverse of `Split`: the pieces with one separator between neighbours. */
  function Join(pieces: seq<string>, c: char): string
    requires |pieces| >= 1
  {
    if |pieces| == 1 then pieces[0] else pieces[0] + [c] + Join(pieces[1..], c)
  }

  /** `s.split(c)`: cuts at every occurrence of `c`, keeping empty pieces.
      The pieces are separator-free and joining them gives `s` back. */
  function Split(s: string, c: char): (r: seq<string>)
    ensures |r| >= 1
    ensures forall i :: 0 <= i < |r| ==> c !in r[i]
    ensures Join(r, c) == s
    decreases |s|
  {
    match IndexOf(s, c)
    case None => [s]
    case Some(i) =>
      var rest := Split(s[i + 1..], c);
      assert ([s[..i]] + rest)[1..] == rest;
      assert s == s[..i] + [c] + s[i + 1..];
      [s[..i]] + rest
  }

  /** The other half of the round trip: splitting a join of separator-free
      pieces gives the pieces back. */
  lemma {:induction false} SplitJoin(pieces: seq<string>, c: char)
    requires |pieces| >= 1
    requires forall i :: 0 <= i < |pieces| ==> c !in pieces[i]
    ensures Split(Join(pieces, c), c) == pieces
  {
    var s := Join(pieces, c);
    if |pieces| == 1 {
      assert IndexOf(s, c).None?;
    } else {
      var p := pieces[0];
      var rest := Join(pieces[1..], c);
      assert s == p + [c] + rest;
      var i := |p|;
      assert s[i] == c;
      var r := IndexOf(s, c);
      assert r.Some?;
      assert r.value == i;
      assert s[..i] == p;
      assert s[i + 1..] == rest;
      SplitJoin(pieces[1..], c);
    }
  }

  /** A character other than the separator occurs in a join exactly when it
      occurs in one of the pieces. */
  lemma {:induction false} JoinMembership(pieces: seq<string>, c: char, x: char)
    requires |pieces| >= 1
    requires x != c
    ensures x in Join(pieces, c) <==> exists i :: 0 <= i < |pieces| && x in pieces[i]
  {
    if |pieces| > 1 {
      JoinMembership(pieces[1..], c, x);
      var s := Join(pieces, c);
      assert s == pieces[0] + [c] + Join(pieces[1..], c);
      if x in s && x !in pieces[0] {
        assert x in Join(pieces[1..], c);
        var i :| 0 <= i < |pieces| - 1 && x in pieces[1..][i];
        assert x in pieces[i + 1];
      }
      if exists i :: 0 <= i < |pieces| && x in pieces[i] {
        var i :| 0 <= i < |pieces| && x in pieces[i];
        if i > 0 {
          assert pieces[1..][i - 1] == pieces[i];
        }
      }
    }
  }

  /** The quoted-identifier form `#"x"`. */
  function Quote(x: string): string {
    "#\"" + x + "\""
  }

  /** Removes the quoted-identifier delimiters: `#"` in front and `"` at the
      end, as `startswith('#"') and endswith('"')` followed by `[2:-1]`.
      The text `#"` alone is both, and slices to the empty string. */
  function Dequote(s: string): (r: string)
    ensures r == s || s == "#\"" || s == Quote(r)
    ensures s == "#\"" ==> r == ""
  {
    if |s| >= 2 && s[0] == '#' && s[1] == '"' && s[|s| - 1] == '"' then
      if |s| >= 3 then (assert s == Quote(s[2..|s| - 1]); s[2..|s| - 1]) else ""
    else s
  }

  /** Dequoting undoes quoting. */
  lemma DequoteQuote(x: string)
    ensures Dequote(Quote(x)) == x
  {
    assert Quote(x)[2..|Quote(x)| - 1] == x;
  }
}
