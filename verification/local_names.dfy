/** `extract_local_names` (src/dependency.py:69-85): the names a definition
    binds in its `let ... in` block, found by cutting the block's body at
    every comma (nesting is ignored) and keeping, from each piece that holds
    `=`, the stripped text before the first `=` with `#"..."` removed. */
module LocalNames {
  import opened Options
  import opened Text
  import opened LetBlock

  /** The name one comma-separated piece declares, if it holds `=`
      (src/dependency.py:78-83). */
  function DeclaredName(chunk: string): Option<string> {
    var line := Strip(chunk);
    match IndexOf(line, '=')
    case None => None
    case Some(e) => Some(Dequote(Strip(line[..e])))
  }

  /** A piece declares a name exactly when it holds `=`, and the name is
      the dequoted, stripped text before the piece's first `=`. */
  lemma DeclaredNameRule(chunk: string)
    ensures DeclaredName(chunk).Some? <==> '=' in chunk
    ensures DeclaredName(chunk).Some? ==>
      exists e :: 0 <= e < |Strip(chunk)| && Strip(chunk)[e] == '=' && '=' !in Strip(chunk)[..e]
        && DeclaredName(chunk).value == Dequote(Strip(Strip(chunk)[..e]))
  {
    StripMembership(chunk, '=');
  }

  /** What each comma piece declares, piece by piece. */
  function Declarations(chunks: seq<string>): (d: seq<Option<string>>)
    ensures |d| == |chunks|
  {
    if |chunks| == 0 then []
    else Declarations(chunks[..|chunks| - 1]) + [DeclaredName(chunks[|chunks| - 1])]
  }

  /** Entry `i` is what piece `i` declares. */
  lemma {:induction false} DeclarationAt(chunks: seq<string>, i: nat)
    requires i < |chunks|
    ensures Declarations(chunks)[i] == DeclaredName(chunks[i])
  {
    if i < |chunks| - 1 {
      DeclarationAt(chunks[..|chunks| - 1], i);
    }
  }

  /** The declared names gathered into a set. */
  function NamesOf(decls: seq<Option<string>>): set<string> {
    if |decls| == 0 then {}
    else
      var last := decls[|decls| - 1];
      NamesOf(decls[..|decls| - 1]) + (if last.Some? then {last.value} else {})
  }

  /** A name is gathered exactly when some piece declares it. */
  lemma {:induction false} NamesOfMembership(decls: seq<Option<string>>, x: string)
    ensures x in NamesOf(decls) <==> exists i :: 0 <= i < |decls| && decls[i] == Some(x)
  {
    if |decls| > 0 {
      var prefix := decls[..|decls| - 1];
      NamesOfMembership(prefix, x);
      if x in NamesOf(prefix) {
        var i :| 0 <= i < |prefix| && prefix[i] == Some(x);
        assert decls[i] == prefix[i];
      }
      if exists i :: 0 <= i < |decls| && decls[i] == Some(x) {
        var i :| 0 <= i < |decls| && decls[i] == Some(x);
        if i < |prefix| {
          assert prefix[i] == decls[i];
        }
      }
    }
  }

  /** A name is gathered from the pieces exactly when some piece declares it. */
  lemma DeclarationsMembership(chunks: seq<string>, x: string)
    ensures x in NamesOf(Declarations(chunks)) <==>
      exists i :: 0 <= i < |chunks| && DeclaredName(chunks[i]) == Some(x)
  {
    var decls := Declarations(chunks);
    NamesOfMembership(decls, x);
    if x in NamesOf(decls) {
      var i :| 0 <= i < |decls| && decls[i] == Some(x);
      DeclarationAt(chunks, i);
    }
    if exists i :: 0 <= i < |chunks| && DeclaredName(chunks[i]) == Some(x) {
      var i :| 0 <= i < |chunks| && DeclaredName(chunks[i]) == Some(x);
      DeclarationAt(chunks, i);
    }
  }

  /** The value `extract_local_names(m_code)` returns. */
  function LocalNameSet(mCode: string): set<string> {
    match LetBody(mCode)
    case None => {}
    case Some(body) => NamesOf(Declarations(Split(body, ',')))
  }

  /** With a body, the local names are exactly the names its comma pieces
      declare. */
  lemma LocalNameMembership(mCode: string, body: string, x: string)
    requires LetBody(mCode) == Some(body)
    ensures x in LocalNameSet(mCode) <==>
      exists i :: 0 <= i < |Split(body, ',')| && DeclaredName(Split(body, ',')[i]) == Some(x)
  {
    assert x in LocalNameSet(mCode) <==> x in NamesOf(Declarations(Split(body, ',')));
    DeclarationsMembership(Split(body, ','), x);
  }

  /** The body holds `=` exactly when some local name is declared. */
  lemma LocalNamesNonEmpty(mCode: string)
    requires LetBody(mCode).Some?
    ensures LocalNameSet(mCode) != {} <==> '=' in LetBody(mCode).value
  {
    var body := LetBody(mCode).value;
    var chunks := Split(body, ',');
    var decls := Declarations(chunks);
    JoinMembership(chunks, ',', '=');
    if '=' in body {
      var i :| 0 <= i < |chunks| && '=' in chunks[i];
      DeclaredNameRule(chunks[i]);
      var x := DeclaredName(chunks[i]).value;
      DeclarationAt(chunks, i);
      NamesOfMembership(decls, x);
    }
    if LocalNameSet(mCode) != {} {
      var x :| x in LocalNameSet(mCode);
      NamesOfMembership(decls, x);
      var i :| 0 <= i < |decls| && decls[i] == Some(x);
      DeclarationAt(chunks, i);
      DeclaredNameRule(chunks[i]);
    }
  }

  /** `extract_local_names`: locate the body, then add the name of every
      comma piece that holds `=` to the set. */
  method ExtractLocalNames(mCode: string) returns (localNames: set<string>)
    ensures localNames == LocalNameSet(mCode)
    ensures LetBody(mCode).None? ==> localNames == {}
  {
    localNames := {};
    var found := LetBody(mCode);
    if found.Some? {
      var parts := Split(found.value, ',');
      ghost var decls := Declarations(parts);
      for i := 0 to |parts|
        invariant localNames == NamesOf(decls[..i])
      {
        assert decls[..i + 1][..i] == decls[..i];
        DeclarationAt(parts, i);
        var line := Strip(parts[i]);
        var eq := IndexOf(line, '=');
        if eq.Some? {
          var varName := Strip(line[..eq.value]);
          varName := Dequote(varName);
          localNames := localNames + {varName};
        }
      }
      assert decls[..|parts|] == decls;
      assert LocalNameSet(mCode) == NamesOf(decls);
    }
  }
}
