/** When running a line raises an exception, and which one. */
module ShellErrors {
  import opened Collections
  import opened ShellSyntax
  import opened ShellMeaning

  /** Every cd but a last one has a directory to join. */
  ghost predicate JoinsDirs(p: seq<Node>) {
    forall i :: 0 <= i < |p| - 1 && p[i].Chdir? ==> p[i].dir.Some?
  }

  lemma JoinsDirsStep(p: seq<Node>)
    requires 2 <= |p| ==> !p[1].Chdir?
    ensures |p| == 1 ==> JoinsDirs(p)
    ensures |p| <= 2 || (JoinsDirs(p) <==> (p[0].Chdir? ==> p[0].dir.Some?) && JoinsDirs(p[2..]))
  {
    if 2 < |p| && JoinsDirs(p[2..]) && (p[0].Chdir? ==> p[0].dir.Some?) {
      forall i | 0 <= i < |p| - 1 && p[i].Chdir? ensures p[i].dir.Some? {
        assert 2 <= i ==> p[i] == p[2..][i - 2];
      }
    }
  }

  /** The interpreter runs off the end only after a final cd, and joins no directory only for a bare cd before it. */
  lemma {:induction false} ErrorsOnlyFromChdir(p: seq<Node>, cwd: string, piped: bool, started: nat, exit: nat -> int)
    requires IsLine(p)
    ensures var outcome := MeaningOf(p, cwd, piped, started, exit).outcome;
            && (outcome == IndexError ==> p[|p| - 1].Chdir? && JoinsDirs(p))
            && (outcome == TypeError ==> !JoinsDirs(p))
    decreases |p|
  {
    hide MeaningOf, IsSpellable, Precedes, EndsLine, LaunchOf, JoinPath, JoinsDirs;
    LineFront(p);
    MeaningStep(p, cwd, piped, started, exit);
    if |p| == 1 {
      JoinsDirsStep(p);
    } else {
      JoinsDirsStep(p);
      assert p[2..][|p[2..]| - 1] == p[|p| - 1];
      if p[0].Command? {
        ErrorsOnlyFromChdir(p[2..], cwd, p[1].Pipe?, started + 1, exit);
      } else if p[0].dir.Some? {
        ErrorsOnlyFromChdir(p[2..], JoinPath(cwd, p[0].dir.value), piped, started, exit);
      }
    }
  }

  /** The exit code with which the j-th command of the line lets the operator behind it go on. */
  ghost function GoOn(p: seq<Node>, j: nat): int
    decreases |p|
  {
    if |p| < 2 then 0
    else if p[0].Chdir? then GoOn(p[2..], j)
    else if j == 0 then if p[1].Or? then 1 else 0
    else GoOn(p[2..], j - 1)
  }

  /** A run in which every operator goes on comes to the first bare cd, or else to the end. */
  lemma {:induction false} GoingOn(p: seq<Node>, cwd: string, piped: bool, started: nat, exit: nat -> int)
    requires IsLine(p) && forall j: nat :: exit(started + j) == GoOn(p, j)
    ensures var outcome := MeaningOf(p, cwd, piped, started, exit).outcome;
            if !JoinsDirs(p) then outcome == TypeError
            else if p[|p| - 1].Chdir? then outcome == IndexError
            else outcome.Status?
    decreases |p|
  {
    hide MeaningOf, IsSpellable, Precedes, EndsLine, LaunchOf, JoinPath, JoinsDirs;
    LineFront(p);
    MeaningStep(p, cwd, piped, started, exit);
    if |p| == 1 {
      JoinsDirsStep(p);
    } else {
      var rest := p[2..];
      JoinsDirsStep(p);
      assert rest[|rest| - 1] == p[|p| - 1];
      if p[0].Command? {
        assert exit(started + 0) == GoOn(p, 0);
        forall j: nat ensures exit(started + 1 + j) == GoOn(rest, j) {
          assert exit(started + (j + 1)) == GoOn(p, j + 1);
        }
        GoingOn(rest, cwd, p[1].Pipe?, started + 1, exit);
      } else if p[0].dir.Some? {
        forall j: nat ensures exit(started + j) == GoOn(rest, j) {
          assert exit(started + j) == GoOn(p, j);
        }
        GoingOn(rest, JoinPath(cwd, p[0].dir.value), piped, started, exit);
      }
    }
  }

  ghost function OutcomeOf(p: seq<Node>, exit: nat -> int): Outcome
    requires IsLine(p)
  {
    MeaningOf(p, ".", false, 0, exit).outcome
  }

  ghost predicate CanGive(p: seq<Node>, outcome: Outcome)
    requires IsLine(p)
  {
    exists exit :: OutcomeOf(p, exit) == outcome
  }

  ghost predicate AlwaysStatus(p: seq<Node>)
    requires IsLine(p)
  {
    forall exit :: OutcomeOf(p, exit).Status?
  }

  /** Some exit codes raise an exception exactly if a cd ends the line or one before has no directory. */
  lemma RaisesExactly(p: seq<Node>)
    requires IsLine(p)
    ensures CanGive(p, IndexError) <==> p[|p| - 1].Chdir? && JoinsDirs(p)
    ensures CanGive(p, TypeError) <==> !JoinsDirs(p)
    ensures AlwaysStatus(p) <==> !p[|p| - 1].Chdir? && JoinsDirs(p)
  {
    hide MeaningOf, IsSpellable, JoinsDirs;
    forall exit: nat -> int
      ensures OutcomeOf(p, exit) == IndexError ==> p[|p| - 1].Chdir? && JoinsDirs(p)
      ensures OutcomeOf(p, exit) == TypeError ==> !JoinsDirs(p)
    {
      ErrorsOnlyFromChdir(p, ".", false, 0, exit);
    }
    var exit: nat -> int := (j: nat) => GoOn(p, j);
    GoingOn(p, ".", false, 0, exit);
    assert OutcomeOf(p, exit).Status? || OutcomeOf(p, exit) == IndexError || OutcomeOf(p, exit) == TypeError;
  }

  // ----- such lines are parsed

  const CD_X := Chdir(Some("x"))
  const A := NewCommand("a", map[])

  lemma PlainWords()
    ensures EnvAssignment("cd").None? && EnvAssignment("a").None?
    ensures IsSpellable(CD_X) && IsSpellable(A)
  {
  }

  /** "cd x" is accepted, and raises whatever happens. */
  lemma FinalCdRaises(exit: nat -> int)
    ensures Parse(["cd", "x"]) == Some([CD_X]) && IsLine([CD_X])
    ensures OutcomeOf([CD_X], exit) == IndexError
  {
    hide EnvAssignment;
    PlainWords();
    var p := Accept(START, "cd").value;
    assert ["cd"] + ["x"] == ["cd", "x"] && ["x"] + [] == ["x"];
    assert [] + [CD_X] == [CD_X];
  }

  /** So does "cd && a". */
  lemma BareCdRaises(exit: nat -> int)
    ensures Parse(["cd", "&&", "a"]) == Some([Chdir(None), And, A]) && IsLine([Chdir(None), And, A])
    ensures OutcomeOf([Chdir(None), And, A], exit) == TypeError
  {
    hide EnvAssignment;
    PlainWords();
    var p := Accept(START, "cd").value;
    var q := Accept(p, "&&").value;
    assert ["cd"] + ["&&", "a"] == ["cd", "&&", "a"] && ["&&"] + ["a"] == ["&&", "a"] && ["a"] + [] == ["a"];
    assert [] + [Chdir(None), And] + [A] == [Chdir(None), And, A] && [Chdir(None), And, A][2..] == [A];
  }

  /** A final cd that the run never comes to does no harm. */
  lemma FinalCdNotReached(exit: nat -> int)
    ensures Parse(["a", "&&", "cd", "x"]) == Some([A, And, CD_X]) && IsLine([A, And, CD_X])
    ensures OutcomeOf([A, And, CD_X], exit) == if exit(0) != 0 then Status(exit(0)) else IndexError
  {
    hide EnvAssignment, MeaningOf;
    PlainWords();
    var p := Accept(START, "a").value;
    var q := Accept(p, "&&").value;
    var r := Accept(q, "cd").value;
    assert ["a"] + ["&&", "cd", "x"] == ["a", "&&", "cd", "x"] && ["&&"] + ["cd", "x"] == ["&&", "cd", "x"];
    assert ["cd"] + ["x"] == ["cd", "x"] && ["x"] + [] == ["x"];
    var line := [A, And, CD_X];
    assert [] + [A, And] + [CD_X] == line && line[2..] == [CD_X];
    MeaningStep(line, ".", false, 0, exit);
    MeaningStep([CD_X], ".", false, 1, exit);
  }
}
