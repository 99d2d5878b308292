/** `String.prototype.trim`, as the modal submit applies it to the title and description. */
module Text {

  /** The ECMAScript WhiteSpace and LineTerminator code points that `trim` strips. */
  predicate IsWhitespace(c: char) {
    || c == '\t' || c == '\n' || c == '\U{B}' || c == '\U{C}' || c == '\r'
    || c == ' ' || c == '\U{A0}' || c == '\U{1680}'
    || ('\U{2000}' <= c <= '\U{200A}')
    || c == '\U{2028}' || c == '\U{2029}' || c == '\U{202F}' || c == '\U{205F}'
    || c == '\U{3000}' || c == '\U{FEFF}'
  }

  predicate AllWhitespace(s: string) {
    forall i :: 0 <= i < |s| ==> IsWhitespace(s[i])
  }

  /** Neither end of `r` is whitespace. */
  predicate TightEnds(r: string) {
    r == [] || (!IsWhitespace(r[0]) && !IsWhitespace(r[|r| - 1]))
  }

  /**
   `r` is what remains of `s` once whitespace-only margins are cut off
   both ends: `s` is `a + r + b` with `a`, `b` whitespace and `r` tight.
   */
  ghost predicate IsTrimOf(s: string, r: string) {
    exists a, b :: s == a + r + b && AllWhitespace(a) && AllWhitespace(b) && TightEnds(r)
  }

  function TrimStart(s: string): (r: string)
    ensures |r| <= |s| && r == s[|s| - |r|..]
    ensures AllWhitespace(s[..|s| - |r|])
    ensures r == [] || !IsWhitespace(r[0])
  {
    if |s| > 0 && IsWhitespace(s[0]) then
      var r := TrimStart(s[1..]);
      assert s[1..][..|s| - 1 - |r|] == s[1..|s| - |r|];
      r
    else s
  }

  function TrimEnd(s: string): (r: string)
    ensures |r| <= |s| && r == s[..|r|]
    ensures AllWhitespace(s[|r|..])
    ensures r == [] || !IsWhitespace(r[|r| - 1])
  {
    if |s| > 0 && IsWhitespace(s[|s| - 1]) then
      var r := TrimEnd(s[..|s| - 1]);
      var m := s[..|s| - 1];
      assert m[|r|..] == s[|r|..|s| - 1];
      assert m[..|r|] == s[..|r|];
      assert forall i :: |r| <= i < |s| ==> IsWhitespace(s[i]) by {
        forall i | |r| <= i < |s| ensures IsWhitespace(s[i]) {
          if i < |s| - 1 {
            assert s[i] == m[|r|..][i - |r|];
          }
        }
      }
      r
    else s
  }

  function Trim(s: string): (r: string)
    ensures IsTrimOf(s, r)
  {
    var m := TrimStart(s);
    var r := TrimEnd(m);
    TrimOfMargins(s, m, r);
    r
  }

  /** Cutting a whitespace prefix and then a whitespace suffix leaves a trim of the input. */
  lemma TrimOfMargins(s: string, m: string, r: string)
    requires |m| <= |s| && m == s[|s| - |m|..] && AllWhitespace(s[..|s| - |m|])
    requires m == [] || !IsWhitespace(m[0])
    requires |r| <= |m| && r == m[..|r|] && AllWhitespace(m[|r|..])
    requires r == [] || !IsWhitespace(r[|r| - 1])
    ensures IsTrimOf(s, r)
  {
    var a, b := s[..|s| - |m|], m[|r|..];
    assert m == r + b;
    assert s == a + m;
    assert TightEnds(r);
    assert s == a + r + b;
  }

  /** Trimming leaves nothing exactly when the string is whitespace only. */
  lemma TrimBlankIffAllWhitespace(s: string)
    ensures Trim(s) == [] <==> AllWhitespace(s)
  {
    if AllWhitespace(s) {
      BlankTrimsEmpty(s);
    }
    if Trim(s) == [] {
      var m := TrimStart(s);
      assert TrimEnd(m) == [] && m[0..] == m;
      assert s == s[..|s| - |m|] + m;
      WhitespaceConcat(s[..|s| - |m|], m);
    }
  }

  lemma BlankTrimsEmpty(s: string)
    requires AllWhitespace(s)
    ensures Trim(s) == []
  {
    assert s == s + [] + [];
    assert AllWhitespace([]) && TightEnds([]);
    assert IsTrimOf(s, []);
    TrimUnique(s, []);
  }

  lemma WhitespaceConcat(a: string, b: string)
    requires AllWhitespace(a) && AllWhitespace(b)
    ensures AllWhitespace(a + b)
  {
    forall i | 0 <= i < |a + b| ensures IsWhitespace((a + b)[i]) {
      if i >= |a| {
        assert (a + b)[i] == b[i - |a|];
      }
    }
  }

  /** The decomposition `IsTrimOf` describes is unique, so it pins `Trim` down. */
  lemma TrimUnique(s: string, r: string)
    requires IsTrimOf(s, r)
    ensures r == Trim(s)
  {
    var a, b :| s == a + r + b && AllWhitespace(a) && AllWhitespace(b) && TightEnds(r);
    StartPastMargin(s, a, r, b);
    if r != [] {
      EndBeforeMargin(r + b, r, b);
    }
  }

  /** `TrimStart` cuts exactly the leading margin, or everything when nothing tight is left. */
  lemma {:induction false} StartPastMargin(s: string, a: string, r: string, b: string)
    requires s == a + r + b && AllWhitespace(a) && AllWhitespace(b) && TightEnds(r)
    ensures TrimStart(s) == if r == [] then [] else r + b
    decreases |a| + |b|
  {
    if a != [] {
      assert s[0] == a[0];
      assert s[1..] == a[1..] + r + b;
      StartPastMargin(s[1..], a[1..], r, b);
    } else if r != [] {
      assert s[0] == r[0];
    } else if b != [] {
      assert s[0] == b[0];
      assert s[1..] == [] + [] + b[1..];
      StartPastMargin(s[1..], [], [], b[1..]);
    }
  }

  /** `TrimEnd` cuts exactly the trailing margin off a tight core. */
  lemma {:induction false} EndBeforeMargin(m: string, r: string, b: string)
    requires m == r + b && AllWhitespace(b) && TightEnds(r)
    ensures TrimEnd(m) == r
    decreases |b|
  {
    if b != [] {
      assert m[|m| - 1] == b[|b| - 1];
      assert m[..|m| - 1] == r + b[..|b| - 1];
      EndBeforeMargin(m[..|m| - 1], r, b[..|b| - 1]);
    } else if r != [] {
      assert m == r;
    }
  }
}
