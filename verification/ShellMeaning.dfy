/** What running a line means: "group op (rest)", with directory changes passed along. */
module ShellMeaning {
  import opened Collections
  import opened ShellSyntax

  datatype Input = Inherited | FromFile(name: string) | FromPrevious

  /** One process started: its command, where its input comes from, and its directory if not the current one. */
  datatype Launch = Launch(command: Node, input: Input, cwd: Option<string>)

  /** A status, or the exception that ends the run. */
  datatype Outcome = Status(code: int) | IndexError | TypeError

  datatype Meaning = Meaning(outcome: Outcome, launches: seq<Launch>)

  function JoinPath(cwd: string, dir: string): string {
    if dir != "" && dir[0] == '/' then dir
    else if cwd == "" || cwd[|cwd| - 1] == '/' then cwd + dir
    else cwd + "/" + dir
  }

  function LaunchOf(command: Node, cwd: string, piped: bool): Launch
    requires command.Command?
  {
    Launch(command,
           if piped then FromPrevious else if command.stdin.Some? then FromFile(command.stdin.value) else Inherited,
           if cwd == "." then None else Some(cwd))
  }

  /** A pipe group read off the front of a line: what it starts, the directory after it, what is left. */
  datatype Group =
    | Group(launches: seq<Launch>, cwd: string, rest: seq<Node>)
    | Broken(launches: seq<Launch>, error: Outcome)

  /** Directory changes may stand before any command of the group; a pipe joins the next command to it. */
  function GroupOf(p: seq<Node>, cwd: string, piped: bool): (g: Group)
    requires IsLine(p)
    ensures g.Group? ==> g.launches != [] && |g.rest| < |p|
    ensures g.Group? && g.rest != [] ==> (g.rest[0].And? || g.rest[0].Or?) && IsLine(g.rest[1..])
    decreases |p|
  {
    if p[0].Chdir? then
      if |p| == 1 then Broken([], IndexError)
      else if p[0].dir.None? then Broken([], TypeError)
      else GroupOf(p[2..], JoinPath(cwd, p[0].dir.value), piped)
    else
      var launch := LaunchOf(p[0], cwd, piped);
      if |p| == 1 then Group([launch], cwd, [])
      else if p[1].Pipe? then
        match GroupOf(p[2..], cwd, true)
        case Group(launches, cwd', rest) => Group([launch] + launches, cwd', rest)
        case Broken(launches, error) => Broken([launch] + launches, error)
      else
        assert p[1..][1..] == p[2..];
        Group([launch], cwd, p[1..])
  }

  /** exit gives the exit code of the k-th process started; started of them were started before. */
  function MeaningOf(p: seq<Node>, cwd: string, piped: bool, started: nat, exit: nat -> int): Meaning
    requires IsLine(p)
    decreases |p|
  {
    match GroupOf(p, cwd, piped)
    case Broken(launches, error) => Meaning(error, launches)
    case Group(launches, cwd', rest) =>
      var ended := started + |launches|;
      var status := exit(ended - 1);
      if rest == [] || (rest[0].Or? && status == 0) || (rest[0].And? && status != 0)
      then Meaning(Status(status), launches)
      else
        var m := MeaningOf(rest[1..], cwd', false, ended, exit);
        Meaning(m.outcome, launches + m.launches)
  }

  /** Prepending a launch. */
  function After(launch: Launch, m: Meaning): Meaning {
    Meaning(m.outcome, [launch] + m.launches)
  }

  /** A group stops the line here if its status and the operator behind it say so. */
  predicate StopsAt(op: Node, status: int) {
    (op.Or? && status == 0) || (op.And? && status != 0)
  }

  /** The meaning, one node at a time. */
  lemma MeaningStep(p: seq<Node>, cwd: string, piped: bool, k: nat, exit: nat -> int)
    requires IsLine(p)
    ensures p[0].Chdir? ==>
      MeaningOf(p, cwd, piped, k, exit)
      == if |p| == 1 then Meaning(IndexError, [])
         else if p[0].dir.None? then Meaning(TypeError, [])
         else MeaningOf(p[2..], JoinPath(cwd, p[0].dir.value), piped, k, exit)
    ensures p[0].Command? ==>
      MeaningOf(p, cwd, piped, k, exit)
      == After(LaunchOf(p[0], cwd, piped),
               if |p| == 1 || StopsAt(p[1], exit(k)) then Meaning(Status(exit(k)), [])
               else MeaningOf(p[2..], cwd, p[1].Pipe?, k + 1, exit))
  {
    hide MeaningOf, GroupOf, IsSpellable, Precedes, EndsLine, LaunchOf, JoinPath;
    LineFront(p);
    if p[0].Chdir? {
      ChdirStep(p, cwd, piped, k, exit);
    } else if 2 <= |p| && p[1].Pipe? {
      PipeStep(p, cwd, piped, k, exit);
    } else {
      GroupEndStep(p, cwd, piped, k, exit);
    }
  }

  lemma ChdirStep(p: seq<Node>, cwd: string, piped: bool, k: nat, exit: nat -> int)
    requires IsLine(p) && p[0].Chdir?
    ensures MeaningOf(p, cwd, piped, k, exit)
         == if |p| == 1 then Meaning(IndexError, [])
            else if p[0].dir.None? then Meaning(TypeError, [])
            else MeaningOf(p[2..], JoinPath(cwd, p[0].dir.value), piped, k, exit)
  {
    hide IsSpellable, Precedes, EndsLine, LaunchOf, JoinPath;
  }

  lemma PipeStep(p: seq<Node>, cwd: string, piped: bool, k: nat, exit: nat -> int)
    requires IsLine(p) && p[0].Command? && 2 <= |p| && p[1].Pipe?
    ensures MeaningOf(p, cwd, piped, k, exit)
         == After(LaunchOf(p[0], cwd, piped), MeaningOf(p[2..], cwd, true, k + 1, exit))
  {
    hide IsSpellable, Precedes, EndsLine, LaunchOf, JoinPath;
    var launch := LaunchOf(p[0], cwd, piped);
    match GroupOf(p[2..], cwd, true)
    case Broken(_, _) =>
    case Group(launches, cwd', rest) =>
      if rest != [] {
        var m := MeaningOf(rest[1..], cwd', false, k + 1 + |launches|, exit);
        assert [launch] + launches + m.launches == [launch] + (launches + m.launches);
      }
  }

  lemma GroupEndStep(p: seq<Node>, cwd: string, piped: bool, k: nat, exit: nat -> int)
    requires IsLine(p) && p[0].Command? && (|p| == 1 || !p[1].Pipe?)
    ensures MeaningOf(p, cwd, piped, k, exit)
         == After(LaunchOf(p[0], cwd, piped),
                  if |p| == 1 || StopsAt(p[1], exit(k)) then Meaning(Status(exit(k)), [])
                  else MeaningOf(p[2..], cwd, false, k + 1, exit))
  {
    hide IsSpellable, Precedes, EndsLine, LaunchOf, JoinPath;
    if 2 <= |p| {
      assert p[1..][1..] == p[2..];
    }
  }

  lemma LineFront(p: seq<Node>)
    requires IsLine(p)
    ensures p[0].Command? || p[0].Chdir?
    ensures 2 <= |p| ==> IsOperator(p[1]) && (p[0].Chdir? ==> p[1].And?) && IsLine(p[2..])
  {
  }

  // ----- consequences

  /**
   All the line's commands in order, whatever the operators do: each in the directory that all
   the changes before it lead to, and reading from its predecessor if a pipe comes before it.
   */
  function AllLaunches(p: seq<Node>, cwd: string, piped: bool): seq<Launch>
    requires IsLine(p)
    decreases |p|
  {
    if p[0].Chdir? then
      if |p| == 1 then []
      else AllLaunches(p[2..], if p[0].dir.Some? then JoinPath(cwd, p[0].dir.value) else cwd, piped)
    else
      [LaunchOf(p[0], cwd, piped)] + if |p| == 1 then [] else AllLaunches(p[2..], cwd, p[1].Pipe?)
  }

  /** The group's processes come first, then those of what is left. */
  ghost predicate StartsWithGroup(p: seq<Node>, cwd: string, piped: bool)
    requires IsLine(p)
  {
    match GroupOf(p, cwd, piped)
    case Broken(launches, _) => launches <= AllLaunches(p, cwd, piped)
    case Group(launches, cwd', rest) =>
      AllLaunches(p, cwd, piped) == launches + if rest == [] then [] else AllLaunches(rest[1..], cwd', false)
  }

  lemma {:induction false} GroupLaunches(p: seq<Node>, cwd: string, piped: bool)
    requires IsLine(p)
    ensures StartsWithGroup(p, cwd, piped)
    decreases |p|
  {
    hide IsSpellable, Precedes, EndsLine, LaunchOf, JoinPath, IsOperator;
    LineFront(p);
    if p[0].Chdir? {
      if 2 <= |p| && p[0].dir.Some? {
        GroupLaunches(p[2..], JoinPath(cwd, p[0].dir.value), piped);
      }
    } else if 2 <= |p| && p[1].Pipe? {
      GroupLaunches(p[2..], cwd, true);
      PipedLaunches(p, cwd, piped);
    } else if 2 <= |p| {
      assert p[1..][1..] == p[2..];
    }
  }

  lemma {:induction false} PipedLaunches(p: seq<Node>, cwd: string, piped: bool)
    requires IsLine(p) && p[0].Command? && 2 <= |p| && p[1].Pipe? && StartsWithGroup(p[2..], cwd, true)
    ensures StartsWithGroup(p, cwd, piped)
  {
    hide IsSpellable, Precedes, EndsLine, LaunchOf, JoinPath, IsOperator;
  }

  /** What a run starts is a first part of the line's commands: nothing is reordered or left out between. */
  lemma {:induction false} LaunchesArePrefix(p: seq<Node>, cwd: string, piped: bool, started: nat, exit: nat -> int)
    requires IsLine(p)
    ensures MeaningOf(p, cwd, piped, started, exit).launches <= AllLaunches(p, cwd, piped)
    decreases |p|
  {
    hide GroupOf, AllLaunches, IsLine;
    GroupLaunches(p, cwd, piped);
    match GroupOf(p, cwd, piped)
    case Broken(_, _) =>
    case Group(launches, cwd', rest) =>
      if rest != [] {
        LaunchesArePrefix(rest[1..], cwd', false, started + |launches|, exit);
      }
  }
}
