/** `parse_m_steps` (src/generator.py:7-35): the names of the steps a
    definition's `let ... in` block declares, read line by line. Each line
    of the body is stripped; blank lines and lines that open a line or
    block comment are skipped; otherwise `re.match(r'^([^=\n]+)\s*=', line)` picks
    the text before the line's first `=`, which is stripped and dequoted. */
module StepExtractor {
  import opened Options
  import opened Sequences
  import opened Text
  import opened LetBlock
  import opened LocalNames

  /** `^([^=\n]+)\s*=` matches `line` with a group of `g` characters and
      `j` whitespace characters before the `=`. */
  predicate AssignWith(line: string, g: nat, j: nat) {
    1 <= g && g + j < |line|
    && (forall k :: 0 <= k < g ==> line[k] != '=' && line[k] != '\n')
    && AllSpace(line, g, g + j) && line[g + j] == '='
  }

  /** The pattern matches with a group of `g` characters. */
  predicate AssignAt(line: string, g: nat) {
    exists j :: 0 <= j <= |line| && AssignWith(line, g, j)
  }

  /** `g` is the group the greedy `[^=\n]+` reports: the longest for which
      the rest of the pattern still matches. */
  ghost predicate IsGreedyGroup(line: string, g: nat) {
    AssignAt(line, g) && forall h: nat :: AssignAt(line, h) ==> h <= g
  }

  /** `re.match(r'^([^=\n]+)\s*=', line)`: the length of group 1, or
      `None` when the pattern does not match. */
  function MatchAssign(line: string): Option<nat> {
    match IndexOf(line, '=')
    case None => None
    case Some(e) => if e == 0 then None else Some(e)
  }

  /** On a line without line breaks the pattern matches exactly when the
      line holds `=` after its first character, and the greedy group then
      runs up to the first `=`. */
  lemma MatchAssignIsGreedyMatch(line: string)
    requires '\n' !in line
    ensures MatchAssign(line).Some? <==> exists g: nat :: AssignAt(line, g)
    ensures MatchAssign(line).Some? ==> IsGreedyGroup(line, MatchAssign(line).value)
  {
    match IndexOf(line, '=')
    case None =>
      forall g: nat | AssignAt(line, g) ensures false {
      }
    case Some(e) =>
      if e == 0 {
        forall g: nat | AssignAt(line, g) ensures false {
        }
      } else {
        forall k | 0 <= k < e ensures line[k] != '=' && line[k] != '\n' {
          assert line[k] in line[..e];
        }
        assert AssignWith(line, e, 0);
        assert AssignAt(line, e);
        forall g: nat | AssignAt(line, g) ensures g <= e {
        }
      }
  }

  /** The step one line of the body declares, if any. */
  function StepOfLine(raw: string): Option<string> {
    var line := Strip(raw);
    if StartsWith(line, "//") || StartsWith(line, "/*") || |line| == 0 then None
    else match MatchAssign(line)
      case None => None
      case Some(g) => Some(Dequote(Strip(line[..g])))
  }

  /** A line declares a step exactly when, once stripped, it is non-blank,
      is not a comment, and holds `=` somewhere after its first character;
      the step is the stripped, dequoted text before its first `=`, which
      is the group the greedy pattern reports. */
  lemma StepOfLineRule(raw: string)
    requires '\n' !in raw
    ensures StepOfLine(raw).Some? <==>
      (|Strip(raw)| > 0 && !StartsWith(Strip(raw), "//") && !StartsWith(Strip(raw), "/*")
       && '=' in Strip(raw) && Strip(raw)[0] != '=')
    ensures StepOfLine(raw).Some? ==>
      exists e :: 0 < e < |Strip(raw)| && Strip(raw)[e] == '=' && '=' !in Strip(raw)[..e]
        && IsGreedyGroup(Strip(raw), e) && StepOfLine(raw).value == Dequote(Strip(Strip(raw)[..e]))
  {
    StripMembership(raw, '\n');
    var line := Strip(raw);
    MatchAssignIsGreedyMatch(line);
    if '=' in line && line[0] != '=' {
      assert IndexOf(line, '=').Some?;
    }
  }

  /** The step of one line as a list of zero or one names. */
  function StepList(raw: string): seq<string> {
    match StepOfLine(raw)
    case None => []
    case Some(v) => [v]
  }

  /** The steps of a sequence of lines, in line order. */
  function LineSteps(lines: seq<string>): seq<string> {
    FlatMap(StepList, lines)
  }

  /** Extending the lines by one appends that line's step, if any. */
  lemma LineStepsSnoc(lines: seq<string>, i: nat)
    requires i < |lines|
    ensures LineSteps(lines[..i + 1]) == LineSteps(lines[..i]) + StepList(lines[i])
  {
    assert lines[..i + 1][..i] == lines[..i];
  }

  /** Steps of consecutive blocks of lines follow one another: the order of
      the lines is kept and nothing is merged or dropped. */
  lemma LineStepsAppend(a: seq<string>, b: seq<string>)
    ensures LineSteps(a + b) == LineSteps(a) + LineSteps(b)
  {
    FlatMapAppend(StepList, a, b);
  }

  /** Every line gives at most one step. */
  lemma LineStepsBound(lines: seq<string>)
    ensures |LineSteps(lines)| <= |lines|
  {
    FlatMapBound(StepList, lines, 1);
  }

  /** A step is listed exactly when some line declares it. */
  lemma LineStepsMembership(lines: seq<string>, v: string)
    ensures v in LineSteps(lines) <==> exists i :: 0 <= i < |lines| && StepOfLine(lines[i]) == Some(v)
  {
    FlatMapMembership(StepList, lines, v);
    if v in LineSteps(lines) {
      var i :| 0 <= i < |lines| && v in StepList(lines[i]);
      assert StepOfLine(lines[i]) == Some(v);
    }
    if exists i :: 0 <= i < |lines| && StepOfLine(lines[i]) == Some(v) {
      var i :| 0 <= i < |lines| && StepOfLine(lines[i]) == Some(v);
      assert v in StepList(lines[i]);
    }
  }

  /** The value `parse_m_steps(m_code)` returns: no steps without a body,
      otherwise the steps of the body's lines. */
  function Steps(mCode: string): seq<string> {
    match LetBody(mCode)
    case None => []
    case Some(body) => LineSteps(Split(body, '\n'))
  }

  /** When no `in` in the text is followed by whitespace the locator finds
      no body, so there are no steps. */
  lemma NoInFollowedBySpaceNoSteps(mCode: string)
    requires forall q: nat :: q + 3 <= |mCode| && MatchCIAt(mCode, q, "in") ==> !IsSpace(mCode[q + 2])
    ensures Steps(mCode) == []
  {
    NoInFollowedBySpace(mCode);
  }

  /** Every step is a local name: a line that declares a step holds `=`,
      so the comma piece of the same body that holds that `=` declares a
      local name, and the local names are not empty. */
  lemma StepsImplyLocalNames(mCode: string)
    requires Steps(mCode) != []
    ensures LocalNameSet(mCode) != {}
  {
    var body := LetBody(mCode).value;
    var lines := Split(body, '\n');
    var v := Steps(mCode)[0];
    LineStepsMembership(lines, v);
    var i :| 0 <= i < |lines| && StepOfLine(lines[i]) == Some(v);
    StepOfLineRule(lines[i]);
    StripMembership(lines[i], '=');
    JoinMembership(lines, '\n', '=');
    LocalNamesNonEmpty(mCode);
  }

  /** The example: a body of two assignment lines, then `in` on a line of
      its own. */
  const ExampleBodyText := "a = 1,\n b = a + 2"
  const ExampleText := "let\n " + ExampleBodyText + "\nin b"

  /** The example body holds no `i` of either case. */
  lemma ExampleHasNoI()
    ensures forall q :: 5 <= q < 22 ==> Lower(ExampleText[q]) != 'i'
  {
    var t, body := ExampleText, ExampleBodyText;
    forall q | 5 <= q < 22 ensures Lower(t[q]) != 'i' {
      assert t[q] == body[q - 5];
      assert t[q] in body;
    }
  }

  /** In the example no whitespace run inside the body is followed by `in`
      and whitespace. */
  lemma ExampleNoEarlierTail(p: nat)
    requires 5 <= p < 22
    ensures !InTailAt(ExampleText, p)
  {
    var t := ExampleText;
    ExampleHasNoI();
    var n := SpaceRun(t, p);
    assert !IsSpace(t[21]);
    assert p + n <= 21;
    if n == 0 {
      TailStartsWithSpace(t, p);
    } else {
      TailInRun(t, p, p + n);
      assert Lower(t[p + n + 0]) != Lower("in"[0]);
    }
  }

  /** The example's first match: `let`, the line break and one space, then
      a body that stops at the line break before `in`. */
  lemma ExampleFirstMatch()
    ensures IsFirstMatch(ExampleText, LetSpan(0, 2, 17))
  {
    var t := ExampleText;
    var m := LetSpan(0, 2, 17);
    assert InTailWith(t, 22, 1);
    assert LetMatch(t, m);
    assert IsSpace(t[3]) && IsSpace(t[4]) && !IsSpace(t[5]);
    assert SpaceRun(t, 3) == 2;
    forall o | LetMatch(t, o) ensures !Precedes(o, m) {
      if o.start == 0 {
        GapBound(t, o);
        if o.gap == 2 && o.len < 17 {
          ExampleNoEarlierTail(o.BodyEnd());
        }
      }
    }
  }

  /** The example's body is the text between the first line break and the
      line break before `in`. */
  lemma ExampleBody()
    ensures LetBody(ExampleText) == Some(ExampleBodyText)
  {
    ExampleFirstMatch();
    LetBodyOfFirstMatch(ExampleText, LetSpan(0, 2, 17));
    assert ExampleText[5..22] == ExampleBodyText;
  }

  /** The first example line declares `a`. */
  lemma ExampleFirstLine()
    ensures StepOfLine("a = 1,") == Some("a")
  {
    var line := "a = 1,";
    assert Strip(line) == line;
    assert line[..2][0] == 'a';
    assert IndexOf(line, '=') == Some(2);
    assert line[..2] == "a ";
    assert Strip("a ") == "a";
  }

  /** The second example line declares `b`. */
  lemma ExampleSecondLine()
    ensures StepOfLine(" b = a + 2") == Some("b")
  {
    var line := "b = a + 2";
    assert Strip(" b = a + 2") == line;
    assert line[..2][0] == 'b';
    assert IndexOf(line, '=') == Some(2);
    assert line[..2] == "b ";
    assert Strip("b ") == "b";
  }

  /** The example body has two lines. */
  lemma ExampleLines()
    ensures Split(ExampleBodyText, '\n') == ["a = 1,", " b = a + 2"]
  {
    var lines := ["a = 1,", " b = a + 2"];
    assert Join(lines, '\n') == ExampleBodyText;
    SplitJoin(lines, '\n');
  }

  /** Both example lines declare a step, in order. */
  lemma ExampleLineSteps()
    ensures LineSteps(["a = 1,", " b = a + 2"]) == ["a", "b"]
  {
    var lines := ["a = 1,", " b = a + 2"];
    ExampleFirstLine();
    ExampleSecondLine();
    assert lines[..1] == [lines[0]];
    assert lines[..1][..0] == [];
    assert FlatMap(StepList, lines[..1]) == FlatMap(StepList, lines[..1][..0]) + StepList(lines[0]);
    assert LineSteps(lines) == FlatMap(StepList, lines[..1]) + StepList(lines[1]);
  }

  /** The two-step example gives both step names, in order. */
  lemma ExampleSteps()
    ensures Steps(ExampleText) == ["a", "b"]
  {
    ExampleBody();
    ExampleLines();
    ExampleLineSteps();
  }

  /** `parse_m_steps`: locate the body, then walk its lines, skipping blank
      and comment lines and appending the name of every assignment line. */
  method ParseMSteps(mCode: string) returns (variables: seq<string>)
    ensures variables == Steps(mCode)
    ensures LetBody(mCode).None? ==> variables == []
  {
    var found := LetBody(mCode);
    if found.None? {
      return [];
    }
    variables := [];
    var lines := Split(found.value, '\n');
    for i := 0 to |lines|
      invariant variables == LineSteps(lines[..i])
    {
      LineStepsSnoc(lines, i);
      ghost var step := StepList(lines[i]);
      var line := Strip(lines[i]);
      if StartsWith(line, "//") || StartsWith(line, "/*") || |line| == 0 {
        assert step == [];
        continue;
      }
      var varMatch := MatchAssign(line);
      if varMatch.Some? {
        var varName := Strip(line[..varMatch.value]);
        varName := Dequote(varName);
        assert step == [varName];
        variables := variables + [varName];
      } else {
        assert step == [];
      }
    }
    assert lines[..|lines|] == lines;
  }
}
