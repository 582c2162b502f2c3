/** The processes that a line starts, written out by the places of their commands in the line. */
module ShellLaunches {
  import opened Collections
  import opened ShellSyntax
  import opened ShellMeaning

  /**
   The directory in front of place i: each cd on the way replaces it if its directory is absolute, and
   otherwise goes down from it, behind exactly one slash.
   */
  ghost function DirBefore(p: seq<Node>, i: nat, cwd: string): string
    requires i <= |p|
  {
    if i == 0 then cwd
    else
      var now := DirBefore(p, i - 1, cwd);
      if !p[i - 1].Chdir? || p[i - 1].dir.None? then now
      else
        var dir := p[i - 1].dir.value;
        if "/" <= dir then dir
        else if now == "" || now[|now| - 1] == '/' then now + dir
        else now + "/" + dir
  }

  ghost function CommandsBefore(p: seq<Node>, i: nat): nat
    requires i <= |p|
  {
    if i == 0 then 0 else CommandsBefore(p, i - 1) + if p[i - 1].Command? then 1 else 0
  }

  /** A pipe comes before place i, with nothing but directory changes between. */
  ghost predicate PipedAt(p: seq<Node>, i: nat, piped: bool)
    requires i <= |p|
  {
    if i == 0 then piped
    else p[i - 1].Pipe? || (2 <= i && p[i - 2].Chdir? && PipedAt(p, i - 2, piped))
  }

  /** The process for the command at place i, field by field. */
  ghost predicate IsLaunchAt(launch: Launch, p: seq<Node>, i: nat, cwd: string, piped: bool)
    requires i < |p|
  {
    && p[i].Command? && launch.command == p[i]
    && launch.cwd == (if DirBefore(p, i, cwd) == "." then None else Some(DirBefore(p, i, cwd)))
    && launch.input == if PipedAt(p, i, piped) then FromPrevious
                       else if p[i].stdin.Some? then FromFile(p[i].stdin.value)
                       else Inherited
  }

  lemma {:induction false} DirShift(p: seq<Node>, i: nat, j: nat, cwd: string)
    requires i + j <= |p|
    ensures DirBefore(p, i + j, cwd) == DirBefore(p[i..], j, DirBefore(p, i, cwd))
  {
    if 0 < j {
      DirShift(p, i, j - 1, cwd);
    }
  }

  lemma {:induction false} CountShift(p: seq<Node>, i: nat, j: nat)
    requires i + j <= |p|
    ensures CommandsBefore(p, i + j) == CommandsBefore(p, i) + CommandsBefore(p[i..], j)
  {
    if 0 < j {
      CountShift(p, i, j - 1);
    }
  }

  lemma {:induction false} PipedShift(p: seq<Node>, j: nat, piped: bool)
    requires 2 + j <= |p| && j % 2 == 0
    ensures PipedAt(p, 2 + j, piped) == PipedAt(p[2..], j, PipedAt(p, 2, piped))
  {
    if 0 < j {
      PipedShift(p, j - 2, piped);
    }
  }

  /** What the first two places of a line do to the rest of it. */
  lemma FirstPlaces(p: seq<Node>, cwd: string, piped: bool)
    requires IsLine(p)
    ensures CommandsBefore(p, 1) == if p[0].Command? then 1 else 0
    ensures 2 <= |p| ==>
      && CommandsBefore(p, 2) == CommandsBefore(p, 1)
      && DirBefore(p, 2, cwd) == (if p[0].Chdir? && p[0].dir.Some? then JoinPath(cwd, p[0].dir.value) else cwd)
      && PipedAt(p, 2, piped) == if p[0].Chdir? then piped else p[1].Pipe?
  {
    hide IsSpellable, Precedes, EndsLine;
    LineFront(p);
    assert DirBefore(p, 0, cwd) == cwd && CommandsBefore(p, 0) == 0;
    if p[0].Chdir? && p[0].dir.Some? {
      assert "/" <= p[0].dir.value <==> p[0].dir.value != "" && p[0].dir.value[0] == '/';
    }
  }

  /** All the line's commands are counted, and nothing else. */
  lemma {:induction false} LaunchCount(p: seq<Node>, cwd: string, piped: bool)
    requires IsLine(p)
    ensures |AllLaunches(p, cwd, piped)| == CommandsBefore(p, |p|)
    decreases |p|
  {
    hide IsSpellable, Precedes, EndsLine, JoinPath, LaunchOf, DirBefore, PipedAt;
    LineFront(p);
    FirstPlaces(p, cwd, piped);
    if 2 <= |p| {
      LaunchCount(p[2..], DirBefore(p, 2, cwd), PipedAt(p, 2, piped));
      CountShift(p, 2, |p[2..]|);
    }
  }

  /** The command at place i is launched as the place says. */
  lemma {:induction false} LaunchAt(p: seq<Node>, cwd: string, piped: bool, i: nat)
    requires IsLine(p) && i < |p| && p[i].Command?
    ensures var all, k := AllLaunches(p, cwd, piped), CommandsBefore(p, i);
            k < |all| && IsLaunchAt(all[k], p, i, cwd, piped)
    decreases |p|
  {
    hide IsSpellable, Precedes, EndsLine, JoinPath, LaunchOf, DirBefore, PipedAt, IsLaunchAt, CommandsBefore;
    LinePositions(p, i);
    LineFront(p);
    FirstPlaces(p, cwd, piped);
    if i == 0 {
      FirstLaunch(p, cwd, piped);
    } else {
      var j := i - 2;
      assert p[2..][j] == p[i];
      LaunchAt(p[2..], DirBefore(p, 2, cwd), PipedAt(p, 2, piped), j);
      CountShift(p, 2, j);
      var later := AllLaunches(p[2..], DirBefore(p, 2, cwd), PipedAt(p, 2, piped));
      LaunchShift(later[CommandsBefore(p[2..], j)], p, j, cwd, piped);
      assert AllLaunches(p, cwd, piped)
          == (if p[0].Command? then [LaunchOf(p[0], cwd, piped)] else []) + later;
    }
  }

  lemma FirstLaunch(p: seq<Node>, cwd: string, piped: bool)
    requires p != [] && p[0].Command?
    ensures IsLaunchAt(LaunchOf(p[0], cwd, piped), p, 0, cwd, piped) && CommandsBefore(p, 0) == 0
  {
  }

  lemma LaunchShift(launch: Launch, p: seq<Node>, j: nat, cwd: string, piped: bool)
    requires IsLine(p) && 2 + j < |p| && p[2 + j].Command?
    requires IsLaunchAt(launch, p[2..], j, DirBefore(p, 2, cwd), PipedAt(p, 2, piped))
    ensures IsLaunchAt(launch, p, 2 + j, cwd, piped)
  {
    hide DirBefore, PipedAt, IsSpellable, Precedes, EndsLine;
    LinePositions(p, 2 + j);
    DirShift(p, 2, j, cwd);
    PipedShift(p, j, piped);
  }

  /** Counting commands finds each of them. */
  lemma {:induction false} CommandAt(p: seq<Node>, n: nat, k: nat) returns (i: nat)
    requires n <= |p| && k < CommandsBefore(p, n)
    ensures i < n && p[i].Command? && CommandsBefore(p, i) == k
  {
    if p[n - 1].Command? && CommandsBefore(p, n - 1) == k {
      i := n - 1;
    } else {
      i := CommandAt(p, n - 1, k);
    }
  }

  /** The k-th process that a run starts is the one for the k-th command of the line. */
  lemma ProcessAt(p: seq<Node>, exit: nat -> int, k: nat) returns (i: nat)
    requires IsLine(p) && k < |MeaningOf(p, ".", false, 0, exit).launches|
    ensures i < |p| && CommandsBefore(p, i) == k
    ensures IsLaunchAt(MeaningOf(p, ".", false, 0, exit).launches[k], p, i, ".", false)
  {
    hide MeaningOf, AllLaunches, IsLine, IsLaunchAt;
    LaunchesArePrefix(p, ".", false, 0, exit);
    LaunchCount(p, ".", false);
    i := CommandAt(p, |p|, k);
    LaunchAt(p, ".", false, i);
  }
}
