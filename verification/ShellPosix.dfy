/**
 The left-associative reading of a line, that of the AND-OR lists of section 2.9.3 of the POSIX.1-2017
 Shell Command Language, and exactly when the interpreter agrees with it.
 */
module ShellPosix {
  import opened Collections
  import opened ShellSyntax
  import opened ShellMeaning
  import E = ShellErrors

  /** Whether an operator lets what follows it run, by the last status. */
  predicate Proceeds(op: Node, status: int) {
    if op.Or? then status != 0 else status == 0
  }

  /**
   An operator decides by the last status whether the pipe group behind it runs; one that does not run
   leaves the status and the directory as they are, and the line goes on. A cd succeeds; behind a pipe it
   changes the directory of a subshell only, and one without a directory is taken to stay.
   */
  ghost function LeftMeaning(
      p: seq<Node>, cwd: string, piped: bool, runs: bool, status: int, started: nat, exit: nat -> int): Meaning
    requires IsLine(p)
    decreases |p|
  {
    if p[0].Chdir? then
      var status' := if runs then 0 else status;
      var cwd' := if runs then CwdAfter(p[0], cwd, piped) else cwd;
      if |p| == 1 then Meaning(Status(status'), [])
      else LeftMeaning(p[2..], cwd', false, Proceeds(p[1], status'), status', started, exit)
    else
      var status' := if runs then exit(started) else status;
      var started' := if runs then started + 1 else started;
      var left :=
        if |p| == 1 then Meaning(Status(status'), [])
        else if p[1].Pipe? then LeftMeaning(p[2..], cwd, true, runs, status', started', exit)
        else LeftMeaning(p[2..], cwd, false, Proceeds(p[1], status'), status', started', exit);
      if runs then After(LaunchOf(p[0], cwd, piped), left) else left
  }

  /** The directory after a cd. */
  function CwdAfter(node: Node, cwd: string, piped: bool): string
    requires node.Chdir?
  {
    if !piped && node.dir.Some? then JoinPath(cwd, node.dir.value) else cwd
  }

  /** No cd stands in a pipe, and every cd names its directory. */
  ghost predicate PlainChdirs(p: seq<Node>) {
    forall i :: 0 <= i < |p| && p[i].Chdir? ==> p[i].dir.Some? && (0 < i ==> !p[i - 1].Pipe?)
  }

  lemma RestPlain(p: seq<Node>)
    requires PlainChdirs(p) && 2 <= |p|
    ensures p[0].Chdir? ==> p[0].dir.Some?
    ensures PlainChdirs(p[2..]) && (p[1].Pipe? && 3 <= |p| ==> !p[2..][0].Chdir?)
  {
    forall i | 0 <= i < |p[2..]| && p[2..][i].Chdir?
      ensures p[2..][i].dir.Some? && (0 < i ==> !p[2..][i - 1].Pipe?)
    {
      assert p[2..][i] == p[i + 2] && (0 < i ==> p[2..][i - 1] == p[i + 1]);
    }
  }

  /** Both kinds of operator occur. */
  predicate Mixed(p: seq<Node>) {
    And in p && Or in p
  }

  /** The line from its first command on: the directory changes it starts with always succeed. */
  ghost function FromFirstCommand(p: seq<Node>): seq<Node>
    decreases |p|
  {
    if 2 <= |p| && p[0].Chdir? then FromFirstCommand(p[2..]) else p
  }

  lemma {:induction false} SuffixMixed(p: seq<Node>)
    ensures Mixed(FromFirstCommand(p)) ==> Mixed(p)
    decreases |p|
  {
    if 2 <= |p| && p[0].Chdir? {
      SuffixMixed(p[2..]);
    }
  }

  // ----- one kind of operator: once stopped, stopped for good

  lemma {:induction false} StoppedForGood(
      p: seq<Node>, cwd: string, piped: bool, status: int, started: nat, exit: nat -> int)
    requires IsLine(p)
    requires if status == 0 then And !in p else Or !in p
    ensures LeftMeaning(p, cwd, piped, false, status, started, exit) == Meaning(Status(status), [])
    decreases |p|
  {
    hide IsSpellable, Precedes, EndsLine, LaunchOf, JoinPath;
    LineFront(p);
    if 2 <= |p| {
      assert p[1] in p;
      StoppedForGood(p[2..], cwd, p[1].Pipe? && p[0].Command?, status, started, exit);
    }
  }

  lemma {:induction false} UnmixedAgrees(
      p: seq<Node>, cwd: string, piped: bool, status: int, started: nat, exit: nat -> int)
    requires IsLine(p) && PlainChdirs(p) && !p[|p| - 1].Chdir?
    requires !Mixed(FromFirstCommand(p)) && (piped ==> p[0].Command?)
    ensures LeftMeaning(p, cwd, piped, true, status, started, exit) == MeaningOf(p, cwd, piped, started, exit)
    decreases |p|
  {
    hide MeaningOf, IsSpellable, Precedes, EndsLine, LaunchOf, JoinPath, PlainChdirs;
    LineFront(p);
    MeaningStep(p, cwd, piped, started, exit);
    if 2 <= |p| {
      var rest := p[2..];
      RestPlain(p);
      assert rest[|rest| - 1] == p[|p| - 1];
      if p[0].Chdir? {
        UnmixedAgrees(rest, JoinPath(cwd, p[0].dir.value), false, 0, started, exit);
      } else {
        SuffixMixed(rest);
        assert p[1] in p && forall node :: node in rest ==> node in p;
        if !p[1].Pipe? && StopsAt(p[1], exit(started)) {
          StoppedForGood(rest, cwd, false, exit(started), started + 1, exit);
        } else {
          LineFront(rest);
          UnmixedAgrees(rest, cwd, p[1].Pipe?, exit(started), started + 1, exit);
        }
      }
    }
  }

  // ----- both kinds: a run that stops at the first kind starts more when read to the left

  /** Anything that runs up to the end of the line starts something. */
  lemma {:induction false} RunningStarts(
      p: seq<Node>, cwd: string, piped: bool, status: int, started: nat, exit: nat -> int)
    requires IsLine(p) && !p[|p| - 1].Chdir?
    ensures LeftMeaning(p, cwd, piped, true, status, started, exit).launches != []
    decreases |p|
  {
    hide IsSpellable, Precedes, EndsLine, LaunchOf, JoinPath;
    LineFront(p);
    if p[0].Chdir? {
      assert p[2..][|p[2..]| - 1] == p[|p| - 1];
      RunningStarts(p[2..], CwdAfter(p[0], cwd, piped), false, 0, started, exit);
    }
  }

  lemma {:induction false} Resumes(
      p: seq<Node>, cwd: string, piped: bool, status: int, started: nat, exit: nat -> int)
    requires IsLine(p) && !p[|p| - 1].Chdir?
    requires if status == 0 then And in p else Or in p
    ensures LeftMeaning(p, cwd, piped, false, status, started, exit).launches != []
    decreases |p|
  {
    hide IsSpellable, Precedes, EndsLine, LaunchOf, JoinPath;
    LineFront(p);
    if 2 <= |p| {
      var rest := p[2..];
      assert rest[|rest| - 1] == p[|p| - 1];
      assert p == [p[0], p[1]] + rest;
      if !p[1].Pipe? && Proceeds(p[1], status) {
        RunningStarts(rest, cwd, false, status, started, exit);
      } else {
        Resumes(rest, cwd, p[1].Pipe? && p[0].Command?, status, started, exit);
      }
    }
  }

  /** The first operator other than a pipe. */
  ghost function FirstOperator(p: seq<Node>): Node
    requires IsLine(p) && (And in p || Or in p)
    decreases |p|
  {
    if |p| == 1 then p[0]
    else if p[1].Pipe? && (And in p[2..] || Or in p[2..]) then FirstOperator(p[2..])
    else p[1]
  }

  lemma {:induction false} MixedStartsMore(
      p: seq<Node>, cwd: string, piped: bool, status: int, started: nat, exit: nat -> int, code: int)
    requires IsLine(p) && PlainChdirs(p) && !p[|p| - 1].Chdir? && p[0].Command? && Mixed(p)
    requires forall k :: exit(k) == code
    requires code == if FirstOperator(p).Or? then 0 else 1
    ensures |MeaningOf(p, cwd, piped, started, exit).launches|
          < |LeftMeaning(p, cwd, piped, true, status, started, exit).launches|
    decreases |p|
  {
    hide MeaningOf, IsSpellable, Precedes, EndsLine, LaunchOf, JoinPath, PlainChdirs;
    LineFront(p);
    MeaningStep(p, cwd, piped, started, exit);
    if 2 <= |p| {
      var rest := p[2..];
      RestPlain(p);
      LineFront(rest);
      assert rest[|rest| - 1] == p[|p| - 1];
      assert p == [p[0], p[1]] + rest;
      if p[1].Pipe? {
        MixedStartsMore(rest, cwd, true, code, started + 1, exit, code);
      } else {
        Resumes(rest, cwd, false, code, started + 1, exit);
      }
    }
  }

  /** Directory changes at the start mean the same both ways, so a difference behind them is one of the whole line. */
  lemma {:induction false} MixedDiffers(
      p: seq<Node>, cwd: string, status: int, started: nat, exit: nat -> int)
    requires IsLine(p) && PlainChdirs(p) && !p[|p| - 1].Chdir?
    requires Mixed(FromFirstCommand(p)) && forall k :: exit(k) == StoppingCode(FromFirstCommand(p))
    ensures LeftMeaning(p, cwd, false, true, status, started, exit) != MeaningOf(p, cwd, false, started, exit)
    decreases |p|
  {
    hide MeaningOf, LeftMeaning, IsSpellable, Precedes, EndsLine, LaunchOf, JoinPath, PlainChdirs;
    LineFront(p);
    if p[0].Chdir? {
      MeaningStep(p, cwd, false, started, exit);
      RestPlain(p);
      assert p[2..][|p[2..]| - 1] == p[|p| - 1];
      MixedDiffers(p[2..], JoinPath(cwd, p[0].dir.value), 0, started, exit);
      LeftStep(p, cwd, false, status, started, exit);
    } else {
      MixedStartsMore(p, cwd, false, status, started, exit, StoppingCode(p));
    }
  }

  /** A first node that runs, with an operator that goes on behind it. */
  lemma LeftStep(p: seq<Node>, cwd: string, piped: bool, status: int, started: nat, exit: nat -> int)
    requires IsLine(p) && 2 <= |p|
    ensures p[0].Chdir? && p[0].dir.Some? && !piped ==>
      LeftMeaning(p, cwd, piped, true, status, started, exit)
      == LeftMeaning(p[2..], JoinPath(cwd, p[0].dir.value), false, true, 0, started, exit)
    ensures p[0].Command? && (p[1].Pipe? || Proceeds(p[1], exit(started))) ==>
      LeftMeaning(p, cwd, piped, true, status, started, exit)
      == After(LaunchOf(p[0], cwd, piped),
               LeftMeaning(p[2..], cwd, p[1].Pipe?, true, exit(started), started + 1, exit))
  {
    hide IsSpellable, EndsLine, LaunchOf, JoinPath;
  }

  /** The exit code at which the first operator stops. */
  ghost function StoppingCode(p: seq<Node>): int {
    if IsLine(p) && (And in p || Or in p) && FirstOperator(p).Or? then 0 else 1
  }

  // ----- a cd behind a pipe: only the interpreter carries the pipe on past it

  /** The first process is there and reads from a process before it. */
  ghost predicate StartsPiped(m: Meaning) {
    m.launches != [] && m.launches[0].input.FromPrevious?
  }

  lemma {:induction false} InterpreterStartsPiped(
      p: seq<Node>, cwd: string, started: nat, exit: nat -> int)
    requires IsLine(p) && MeaningOf(p, cwd, true, started, exit).outcome.Status?
    ensures StartsPiped(MeaningOf(p, cwd, true, started, exit))
    decreases |p|
  {
    hide MeaningOf, IsSpellable, Precedes, EndsLine, JoinPath;
    LineFront(p);
    MeaningStep(p, cwd, true, started, exit);
    if p[0].Chdir? && 2 <= |p| && p[0].dir.Some? {
      InterpreterStartsPiped(p[2..], JoinPath(cwd, p[0].dir.value), started, exit);
    }
  }

  lemma {:induction false} LeftStartsUnpiped(
      p: seq<Node>, cwd: string, piped: bool, runs: bool, status: int, started: nat, exit: nat -> int)
    requires IsLine(p) && (!piped || !runs || p[0].Chdir?)
    ensures !StartsPiped(LeftMeaning(p, cwd, piped, runs, status, started, exit))
    decreases |p|
  {
    hide IsSpellable, Precedes, EndsLine, JoinPath;
    LineFront(p);
    if 2 <= |p| {
      if p[0].Chdir? {
        var status' := if runs then 0 else status;
        var cwd' := if runs then CwdAfter(p[0], cwd, piped) else cwd;
        LeftStartsUnpiped(p[2..], cwd', false, Proceeds(p[1], status'), status', started, exit);
      } else if !runs {
        LeftStartsUnpiped(p[2..], cwd, p[1].Pipe?, !p[1].Pipe? && Proceeds(p[1], status), status, started, exit);
      }
    }
  }

  /** Every operator goes on until the cd behind a pipe, so far the same both ways. */
  lemma {:induction false} PipedChdirDiffers(
      p: seq<Node>, cwd: string, piped: bool, status: int, started: nat, exit: nat -> int)
    requires IsLine(p) && E.JoinsDirs(p) && !p[|p| - 1].Chdir?
    requires forall j: nat :: exit(started + j) == E.GoOn(p, j)
    requires (piped && p[0].Chdir?) || exists i :: 0 < i < |p| && p[i].Chdir? && p[i - 1].Pipe?
    ensures LeftMeaning(p, cwd, piped, true, status, started, exit) != MeaningOf(p, cwd, piped, started, exit)
    decreases |p|
  {
    hide MeaningOf, LeftMeaning, IsSpellable, Precedes, EndsLine, LaunchOf, JoinPath, StartsPiped;
    if piped && p[0].Chdir? {
      E.GoingOn(p, cwd, piped, started, exit);
      InterpreterStartsPiped(p, cwd, started, exit);
      LeftStartsUnpiped(p, cwd, piped, true, status, started, exit);
    } else {
      LineFront(p);
      MeaningStep(p, cwd, piped, started, exit);
      E.JoinsDirsStep(p);
      var rest := p[2..];
      assert rest[|rest| - 1] == p[|p| - 1];
      if p[0].Chdir? {
        forall j: nat ensures exit(started + j) == E.GoOn(rest, j) {
          assert exit(started + j) == E.GoOn(p, j);
        }
        PipedChdirDiffers(rest, JoinPath(cwd, p[0].dir.value), false, 0, started, exit);
        LeftStep(p, cwd, piped, status, started, exit);
      } else {
        assert exit(started + 0) == E.GoOn(p, 0);
        forall j: nat ensures exit(started + 1 + j) == E.GoOn(rest, j) {
          assert exit(started + (j + 1)) == E.GoOn(p, j + 1);
        }
        PipedChdirDiffers(rest, cwd, p[1].Pipe?, exit(started), started + 1, exit);
        LeftStep(p, cwd, piped, status, started, exit);
        AfterTells(LaunchOf(p[0], cwd, piped),
                   LeftMeaning(rest, cwd, p[1].Pipe?, true, exit(started), started + 1, exit),
                   MeaningOf(rest, cwd, p[1].Pipe?, started + 1, exit));
      }
    }
  }

  lemma AfterTells(launch: Launch, m: Meaning, n: Meaning)
    requires m != n
    ensures After(launch, m) != After(launch, n)
  {
    assert After(launch, m).launches[1..] == m.launches && After(launch, n).launches[1..] == n.launches;
  }

  // ----- exactly when they agree

  ghost predicate Agree(p: seq<Node>)
    requires IsLine(p)
  {
    forall exit :: LeftMeaning(p, ".", false, true, 0, 0, exit) == MeaningOf(p, ".", false, 0, exit)
  }

  lemma {:induction false} LeftGivesStatus(
      p: seq<Node>, cwd: string, piped: bool, runs: bool, status: int, started: nat, exit: nat -> int)
    requires IsLine(p)
    ensures LeftMeaning(p, cwd, piped, runs, status, started, exit).outcome.Status?
    decreases |p|
  {
    hide IsSpellable, Precedes, EndsLine, LaunchOf, JoinPath;
    LineFront(p);
    if 2 <= |p| {
      var status' := if !runs then status else if p[0].Chdir? then 0 else exit(started);
      var started' := if runs && p[0].Command? then started + 1 else started;
      var cwd' := if runs && p[0].Chdir? then CwdAfter(p[0], cwd, piped) else cwd;
      if p[0].Command? && p[1].Pipe? {
        LeftGivesStatus(p[2..], cwd, true, runs, status', started', exit);
      } else {
        LeftGivesStatus(p[2..], cwd', false, Proceeds(p[1], status'), status', started', exit);
      }
    }
  }

  /**
   The interpreter gives a line the left-associative meaning for all exit codes exactly if no cd ends the
   line, lacks a directory or stands behind a pipe and, from the first command on, not both && and || occur.
   */
  lemma AgreesExactly(p: seq<Node>)
    requires IsLine(p)
    ensures Agree(p) <==> !p[|p| - 1].Chdir? && PlainChdirs(p) && !Mixed(FromFirstCommand(p))
  {
    hide MeaningOf, LeftMeaning, IsSpellable, FromFirstCommand;
    if p[|p| - 1].Chdir? || !E.JoinsDirs(p) || !PlainChdirs(p) {
      var exit: nat -> int := (j: nat) => E.GoOn(p, j);
      if p[|p| - 1].Chdir? || !E.JoinsDirs(p) {
        E.GoingOn(p, ".", false, 0, exit);
        LeftGivesStatus(p, ".", false, true, 0, 0, exit);
      } else {
        PipedChdirDiffers(p, ".", false, 0, 0, exit);
      }
    } else if Mixed(FromFirstCommand(p)) {
      var exit: nat -> int := (j: nat) => StoppingCode(FromFirstCommand(p));
      MixedDiffers(p, ".", 0, 0, exit);
    } else {
      forall exit: nat -> int
        ensures LeftMeaning(p, ".", false, true, 0, 0, exit) == MeaningOf(p, ".", false, 0, exit)
      {
        UnmixedAgrees(p, ".", false, 0, 0, exit);
      }
    }
  }

  /** "a && b || c" when a fails: read to the left c still runs, but the interpreter has stopped. */
  lemma StopsEarly(a: Node, b: Node, c: Node, exit: nat -> int)
    requires IsLine([a, And, b, Or, c]) && a.Command? && b.Command? && c.Command? && exit(0) != 0
    ensures MeaningOf([a, And, b, Or, c], ".", false, 0, exit)
         == Meaning(Status(exit(0)), [LaunchOf(a, ".", false)])
    ensures LeftMeaning([a, And, b, Or, c], ".", false, true, 0, 0, exit)
         == Meaning(Status(exit(1)), [LaunchOf(a, ".", false), LaunchOf(c, ".", false)])
  {
    hide MeaningOf, IsSpellable, LaunchOf;
    var p := [a, And, b, Or, c];
    assert p[2..] == [b, Or, c] && p[2..][2..] == [c];
    MeaningStep(p, ".", false, 0, exit);
    var last := LeftMeaning([c], ".", false, true, exit(0), 1, exit);
    assert last == Meaning(Status(exit(1)), [LaunchOf(c, ".", false)] + []);
    assert LeftMeaning([b, Or, c], ".", false, false, exit(0), 1, exit) == last;
    assert [LaunchOf(a, ".", false)] + [LaunchOf(c, ".", false)] == [LaunchOf(a, ".", false), LaunchOf(c, ".", false)];
  }

  /** "a | cd x && b": the interpreter pipes a into b, which by the left-associative reading runs on its own. */
  lemma PipesPastChdir(a: Node, b: Node, exit: nat -> int)
    requires IsLine([a, Pipe, Chdir(Some("x")), And, b]) && a.Command? && b.Command?
    ensures var p := [a, Pipe, Chdir(Some("x")), And, b];
            var first, own := Launch(a, OwnInput(a), None), Launch(b, OwnInput(b), None);
            && MeaningOf(p, ".", false, 0, exit)
               == Meaning(Status(exit(1)), [first, Launch(b, FromPrevious, Some("./x"))])
            && LeftMeaning(p, ".", false, true, 0, 0, exit) == Meaning(Status(exit(1)), [first, own])
  {
    hide MeaningOf, IsSpellable, LaunchOf, JoinPath;
    var p := [a, Pipe, Chdir(Some("x")), And, b];
    var q := [Chdir(Some("x")), And, b];
    assert p[2..] == q && q[2..] == [b];
    LaunchesOf(a, b);
    MeaningStep(p, ".", false, 0, exit);
    MeaningStep(q, ".", true, 1, exit);
    MeaningStep([b], "./x", true, 1, exit);
    var first, piped, own := LaunchOf(a, ".", false), LaunchOf(b, "./x", true), LaunchOf(b, ".", false);
    assert MeaningOf([b], "./x", true, 1, exit).launches == [piped];
    assert LeftMeaning([b], ".", false, true, 0, 1, exit) == Meaning(Status(exit(1)), [own] + []);
    assert LeftMeaning(q, ".", true, true, exit(0), 1, exit) == LeftMeaning([b], ".", false, true, 0, 1, exit);
    assert LeftMeaning([b], ".", false, true, 0, 1, exit).launches == [own];
    assert [first] + [own] == [first, own] && [first] + [piped] == [first, piped];
  }

  /** Where a command's input comes from if no pipe gives it. */
  function OwnInput(command: Node): Input
    requires command.Command?
  {
    if command.stdin.Some? then FromFile(command.stdin.value) else Inherited
  }

  lemma LaunchesOf(a: Node, b: Node)
    requires a.Command? && b.Command?
    ensures JoinPath(".", "x") == "./x"
    ensures LaunchOf(a, ".", false) == Launch(a, OwnInput(a), None)
    ensures LaunchOf(b, ".", false) == Launch(b, OwnInput(b), None)
    ensures LaunchOf(b, "./x", true) == Launch(b, FromPrevious, Some("./x"))
  {
  }
}
