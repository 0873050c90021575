// The string pattern of the @FullyQualifiedName qualifier: a string literal
// gets the qualifier when it is a fully-qualified Java name as in section 6.7
// of the Java Language Specification, restricted to the alphabet
// [A-Za-z_0-9]: one or more identifiers joined by single dots, followed by any
// number of "[]". The pattern is modelled as the automaton that recognises it,
// and proved to accept exactly the strings built that way.

module FullyQualifiedName {

  predicate IsIdentStart(c: char)
  {
    ('A' <= c <= 'Z') || ('a' <= c <= 'z') || c == '_'
  }

  predicate IsIdentPart(c: char)
  {
    IsIdentStart(c) || ('0' <= c <= '9')
  }

  // ---------------------------------------------------------------------
  // The reference language: identifier segments, dots, array brackets.

  predicate IsIdentifier(s: string)
  {
    |s| > 0 && IsIdentStart(s[0]) && forall k :: 1 <= k < |s| ==> IsIdentPart(s[k])
  }

  predicate ValidSegments(segs: seq<string>)
  {
    |segs| > 0 && forall i :: 0 <= i < |segs| ==> IsIdentifier(segs[i])
  }

  /** The segments joined by single dots. */
  function JoinDots(segs: seq<string>): string
    requires |segs| > 0
  {
    if |segs| == 1 then segs[0] else JoinDots(segs[..|segs| - 1]) + "." + segs[|segs| - 1]
  }

  /** n array brackets "[]". */
  function Brackets(n: nat): string
  {
    if n == 0 then "" else Brackets(n - 1) + "[]"
  }

  function Render(segs: seq<string>, n: nat): string
    requires |segs| > 0
  {
    JoinDots(segs) + Brackets(n)
  }

  // ---------------------------------------------------------------------
  // The recogniser.

  datatype State =
    | Start       // nothing read yet
    | SegStart    // after a dot: an identifier must follow
    | InSegment   // inside an identifier
    | InOpen      // after "["
    | AfterClose  // after "]"
    | Dead        // no continuation can match

  function Step(st: State, c: char): State
  {
    match st
    case Start | SegStart => if IsIdentStart(c) then InSegment else Dead
    case InSegment =>
      if IsIdentPart(c) then InSegment
      else if c == '.' then SegStart
      else if c == '[' then InOpen
      else Dead
    case InOpen => if c == ']' then AfterClose else Dead
    case AfterClose => if c == '[' then InOpen else Dead
    case Dead => Dead
  }

  /** The state reached after reading s from st, character by character. */
  function Run(st: State, s: string): State
  {
    if s == [] then st else Step(Run(st, s[..|s| - 1]), s[|s| - 1])
  }

  predicate Accepting(st: State)
  {
    st == InSegment || st == AfterClose
  }

  /** Whether the pattern matches the whole string. */
  predicate Matches(s: string)
  {
    Accepting(Run(Start, s))
  }

  lemma {:induction false} RunAppend(st: State, s: string, t: string)
    ensures Run(st, s + t) == Run(Run(st, s), t)
    decreases |t|
  {
    if t == [] {
      assert s + t == s;
    } else {
      assert (s + t)[..|s + t| - 1] == s + t[..|t| - 1];
      RunAppend(st, s, t[..|t| - 1]);
    }
  }

  lemma {:induction false} DeadAbsorbs(s: string)
    ensures Run(Dead, s) == Dead
    decreases |s|
  {
    if s != [] {
      DeadAbsorbs(s[..|s| - 1]);
    }
  }

  // ---------------------------------------------------------------------
  // Soundness: every rendered name is accepted.

  lemma {:induction false} RunIdentifierRest(s: string)
    requires forall k :: 0 <= k < |s| ==> IsIdentPart(s[k])
    ensures Run(InSegment, s) == InSegment
    decreases |s|
  {
    if s != [] {
      RunIdentifierRest(s[..|s| - 1]);
    }
  }

  lemma RunIdentifier(st: State, s: string)
    requires st == Start || st == SegStart
    requires IsIdentifier(s)
    ensures Run(st, s) == InSegment
  {
    assert s == [s[0]] + s[1..];
    RunAppend(st, [s[0]], s[1..]);
    assert Run(st, [s[0]]) == Step(Run(st, []), s[0]);
    RunIdentifierRest(s[1..]);
  }

  lemma {:induction false} RunJoinDots(segs: seq<string>)
    requires ValidSegments(segs)
    ensures Run(Start, JoinDots(segs)) == InSegment
    decreases |segs|
  {
    if |segs| == 1 {
      RunIdentifier(Start, segs[0]);
    } else {
      var init, last := segs[..|segs| - 1], segs[|segs| - 1];
      RunJoinDots(init);
      RunAppend(Start, JoinDots(init) + ".", last);
      RunAppend(Start, JoinDots(init), ".");
      assert Run(InSegment, ".") == Step(Run(InSegment, []), '.');
      RunIdentifier(SegStart, last);
    }
  }

  lemma {:induction false} RunBrackets(n: nat)
    ensures Run(InSegment, Brackets(n)) == if n == 0 then InSegment else AfterClose
    decreases n
  {
    if n > 0 {
      RunBrackets(n - 1);
      RunAppend(InSegment, Brackets(n - 1), "[]");
      var mid := Run(InSegment, Brackets(n - 1));
      assert Run(mid, "[]") == Step(Run(mid, "["), ']');
      assert Run(mid, "[") == Step(Run(mid, []), '[');
    }
  }

  /** Every name built from identifier segments and trailing brackets matches. */
  lemma AcceptsRendered(segs: seq<string>, n: nat)
    requires ValidSegments(segs)
    ensures Matches(Render(segs, n))
  {
    RunJoinDots(segs);
    RunAppend(Start, JoinDots(segs), Brackets(n));
    RunBrackets(n);
  }

  // ---------------------------------------------------------------------
  // Completeness: every accepted string is a rendered name.

  /** What each state says about the text read so far. */
  ghost predicate Reached(st: State, s: string)
  {
    match st
    case Start => s == []
    case SegStart => exists segs :: ValidSegments(segs) && s == JoinDots(segs) + "."
    case InSegment => exists segs :: ValidSegments(segs) && s == JoinDots(segs)
    case InOpen => exists segs, n: nat :: ValidSegments(segs) && s == JoinDots(segs) + Brackets(n) + "["
    case AfterClose => exists segs, n: nat :: ValidSegments(segs) && n > 0 && s == JoinDots(segs) + Brackets(n)
    case Dead => true
  }

  /** Appending an identifier character to the last segment. */
  lemma ExtendLast(segs: seq<string>, c: char)
    requires ValidSegments(segs) && IsIdentPart(c)
    ensures var segs' := segs[..|segs| - 1] + [segs[|segs| - 1] + [c]];
            ValidSegments(segs') && JoinDots(segs') == JoinDots(segs) + [c]
  {
    var segs' := segs[..|segs| - 1] + [segs[|segs| - 1] + [c]];
    assert segs'[..|segs'| - 1] == segs[..|segs| - 1];
    var last := segs[|segs| - 1] + [c];
    assert IsIdentifier(last) by {
      assert last[0] == segs[|segs| - 1][0];
    }
    assert forall i :: 0 <= i < |segs'| - 1 ==> segs'[i] == segs[i];
  }

  lemma {:induction false} RunReaches(s: string)
    ensures Reached(Run(Start, s), s)
    decreases |s|
  {
    if s != [] {
      var p, c := s[..|s| - 1], s[|s| - 1];
      assert s == p + [c];
      RunReaches(p);
      StepReaches(Run(Start, p), p, c);
    }
  }

  /** One more character moves a reached state to a reached state. */
  lemma StepReaches(st: State, p: string, c: char)
    requires Reached(st, p)
    ensures Reached(Step(st, c), p + [c])
  {
    var s := p + [c];
    match st
    case Start =>
      if IsIdentStart(c) {
        assert ValidSegments([[c]]) && s == JoinDots([[c]]);
      }
    case SegStart =>
      if IsIdentStart(c) {
        var segs :| ValidSegments(segs) && p == JoinDots(segs) + ".";
        var segs' := segs + [[c]];
        assert segs'[..|segs'| - 1] == segs;
        assert ValidSegments(segs') && s == JoinDots(segs');
      }
    case InSegment =>
      var segs :| ValidSegments(segs) && p == JoinDots(segs);
      if IsIdentPart(c) {
        ExtendLast(segs, c);
      } else if c == '.' {
        assert s == JoinDots(segs) + ".";
      } else if c == '[' {
        assert s == JoinDots(segs) + Brackets(0) + "[";
      }
    case InOpen =>
      if c == ']' {
        var segs, n: nat :| ValidSegments(segs) && p == JoinDots(segs) + Brackets(n) + "[";
        assert s == JoinDots(segs) + Brackets(n + 1);
      }
    case AfterClose =>
      if c == '[' {
        var segs, n: nat :| ValidSegments(segs) && n > 0 && p == JoinDots(segs) + Brackets(n);
        assert s == JoinDots(segs) + Brackets(n) + "[";
      }
    case Dead =>
  }

  /** Every matched string is identifier segments joined by dots, then brackets. */
  lemma AcceptedIsRendered(s: string)
    requires Matches(s)
    ensures exists segs, n: nat :: ValidSegments(segs) && s == Render(segs, n)
  {
    RunReaches(s);
    if Run(Start, s) == InSegment {
      var segs :| ValidSegments(segs) && s == JoinDots(segs);
      assert s == Render(segs, 0);
    } else {
      var segs, n: nat :| ValidSegments(segs) && n > 0 && s == JoinDots(segs) + Brackets(n);
      assert s == Render(segs, n);
    }
  }

  // ---------------------------------------------------------------------
  // Consequences and the examples from the qualifier's documentation.

  /** Any character outside letters, digits, '_', '.', '[' and ']' rules a string out. */
  lemma ForeignCharacterRejects(s: string, i: nat)
    requires i < |s| && !IsIdentPart(s[i]) && s[i] != '.' && s[i] != '[' && s[i] != ']'
    ensures !Matches(s)
  {
    var p, c, rest := s[..i], s[i], s[i + 1..];
    assert s == (p + [c]) + rest;
    RunAppend(Start, p + [c], rest);
    assert Run(Start, p + [c]) == Step(Run(Start, p), c);
    assert (p + [c])[..|p + [c]| - 1] == p;
    DeadAbsorbs(rest);
  }

  lemma JoinDotsAppend(segs: seq<string>, x: string)
    requires |segs| > 0
    ensures JoinDots(segs + [x]) == JoinDots(segs) + "." + x
  {
    assert (segs + [x])[..|segs|] == segs;
  }

  lemma ExampleSegments()
    ensures ValidSegments(["checkers", "signature", "SignatureChecker"])
    ensures ValidSegments(["checkers", "signature", "SignatureChecker", "Inner"])
  {
    assert IsIdentifier("checkers") && IsIdentifier("signature");
    assert IsIdentifier("SignatureChecker") && IsIdentifier("Inner");
  }

  lemma ExampleJoins()
    ensures JoinDots(["checkers", "signature", "SignatureChecker"]) == "checkers.signature.SignatureChecker"
    ensures JoinDots(["checkers", "signature", "SignatureChecker", "Inner"])
         == "checkers.signature.SignatureChecker.Inner"
  {
    JoinDotsAppend(["checkers"], "signature");
    assert ["checkers"] + ["signature"] == ["checkers", "signature"];
    JoinDotsAppend(["checkers", "signature"], "SignatureChecker");
    assert ["checkers", "signature"] + ["SignatureChecker"] == ["checkers", "signature", "SignatureChecker"];
    JoinDotsAppend(["checkers", "signature", "SignatureChecker"], "Inner");
    assert ["checkers", "signature", "SignatureChecker"] + ["Inner"]
        == ["checkers", "signature", "SignatureChecker", "Inner"];
  }

  /** The two names in the qualifier's documentation are fully qualified. */
  lemma DocumentedExamples()
    ensures Matches("checkers.signature.SignatureChecker")
    ensures Matches("checkers.signature.SignatureChecker.Inner")
  {
    ExampleSegments();
    ExampleJoins();
    var top, inner := ["checkers", "signature", "SignatureChecker"], ["checkers", "signature", "SignatureChecker", "Inner"];
    AcceptsRendered(top, 0);
    AcceptsRendered(inner, 0);
    assert Render(top, 0) == "checkers.signature.SignatureChecker";
    assert Render(inner, 0) == "checkers.signature.SignatureChecker.Inner";
    assert Matches(Render(top, 0)) && Matches(Render(inner, 0));
  }

  lemma ArrayNameAccepted()
    ensures Matches("String[][]")
  {
    assert Brackets(2) == "[][]";
    assert IsIdentifier("String");
    assert ValidSegments(["String"]);
    AcceptsRendered(["String"], 2);
    assert Render(["String"], 2) == "String[][]";
  }

  /** A binary name of an inner class uses '$', which the pattern does not allow. */
  lemma BinaryNameRejected()
    ensures !Matches("A$B")
  {
    ForeignCharacterRejects("A$B", 1);
  }

  lemma MalformedNamesRejected()
    ensures !Matches("")
    ensures !Matches("1a")
    ensures !Matches("a..b")
    ensures !Matches("a.")
    ensures !Matches("a[].b")
  {
    assert Run(Start, "1") == Dead;
    RunAppend(Start, "1", "a");
    DeadAbsorbs("a");
    assert "1a" == "1" + "a";

    assert Run(Start, "a") == InSegment;
    assert Run(Start, "a.") == SegStart by { assert "a."[..1] == "a"; }
    assert Run(Start, "a..") == Dead by { assert "a.."[..2] == "a."; }
    RunAppend(Start, "a..", "b");
    DeadAbsorbs("b");
    assert "a..b" == "a.." + "b";

    assert Run(Start, "a[") == InOpen by { assert "a["[..1] == "a"; }
    assert Run(Start, "a[]") == AfterClose by { assert "a[]"[..2] == "a["; }
    assert Run(Start, "a[].") == Dead by { assert "a[]."[..3] == "a[]"; }
    RunAppend(Start, "a[].", "b");
    DeadAbsorbs("b");
    assert "a[].b" == "a[]." + "b";
  }
}
