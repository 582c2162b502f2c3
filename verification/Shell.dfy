/** The mini shell itself: parsing into, and running, a pipeline. */
module Shell {
  import opened Collections
  import opened ShellSyntax
  import opened ShellGrammar
  import opened ShellMeaning

  /** An open file; the null device is opened once and for all and never closed. */
  datatype Handle = DevNull | File(id: nat)

  ghost function FileIds(handles: seq<Handle>): seq<nat> {
    if handles == [] then []
    else FileIds(handles[..|handles| - 1]) + match handles[|handles| - 1] case DevNull => [] case File(id) => [id]
  }

  predicate IsNullDevice(filename: string) {
    filename == "NUL:" || filename == "/dev/null"
  }

  ghost function OutFiles(filename: string): seq<string> {
    if IsNullDevice(filename) then [] else [filename]
  }

  /** The files that starting these processes opens, in order: input, output, errors of each. */
  ghost function FilesOf(launches: seq<Launch>): seq<string> {
    if launches == [] then [] else FilesOf(launches[..|launches| - 1]) + FilesOfOne(launches[|launches| - 1])
  }

  ghost function FilesOfOne(launch: Launch): seq<string> {
    match launch.command
    case Command(_, _, _, stdout, stderr, _) =>
      InFiles(launch.input)
      + (if stdout.ToFile? then OutFiles(stdout.name) else [])
      + (if stderr.ErrToFile? then OutFiles(stderr.name) else [])
    case _ => []
  }

  ghost function InFiles(input: Input): seq<string> {
    if input.FromFile? then [input.name] else []
  }

  /** One more process opens the files that its command redirects to and from, the null device aside. */
  lemma FilesOfPush(launches: seq<Launch>, command: Node, cwd: string, piped: bool)
    requires command.Command?
    ensures var launch := LaunchOf(command, cwd, piped);
            && FilesOf(launches + [launch]) == FilesOf(launches) + FilesOfOne(launch)
            && FilesOfOne(launch)
               == (if !piped && command.stdin.Some? then [command.stdin.value] else [])
                + (if command.stdout.ToFile? && command.stdout.name != "NUL:" && command.stdout.name != "/dev/null"
                   then [command.stdout.name] else [])
                + (if command.stderr.ErrToFile? && command.stderr.name != "NUL:" && command.stderr.name != "/dev/null"
                   then [command.stderr.name] else [])
  {
    var launch := LaunchOf(command, cwd, piped);
    assert (launches + [launch])[..|launches|] == launches;
  }

  /** Files are numbered as they are opened; each is closed or remembered, in that order. */
  ghost predicate Accounted(names: seq<string>, files: seq<Handle>, closed: seq<nat>) {
    closed + FileIds(files) == Numbers(|names|)
  }

  ghost function Numbers(n: nat): seq<nat> {
    seq(n, i => i)
  }

  class Pipeline {
    var currentCommand: Option<Node>
    var pipeline: seq<Node>

    constructor ()
      ensures currentCommand == None && pipeline == []
    {
      currentCommand, pipeline := None, [];
    }

    ghost function Reading(mode: Mode, env: map<string, string>): Parser
      reads this
    {
      Parser(mode, currentCommand, pipeline, env)
    }

    method CommitCommand() returns (ok: bool)
      modifies this
      ensures ok <==> old(currentCommand).Some?
      ensures ok ==> pipeline == old(pipeline) + [old(currentCommand).value] && currentCommand == None
    {
      if currentCommand.None? {
        return false;
      }
      pipeline := pipeline + [currentCommand.value];
      currentCommand := None;
      ok := true;
    }

    /** None when an assertion fails on the way. */
    method Parse(tokens: seq<string>) returns (r: Option<seq<Node>>)
      modifies this
      ensures r == ShellSyntax.Parse(tokens)
      ensures r.Some? ==> pipeline == r.value && currentCommand == None && IsLine(pipeline)
    {
      hide Accept, IsLine;
      currentCommand, pipeline := None, [];
      var state: Mode, env: map<string, string> := Begin, map[];
      for i := 0 to |tokens|
        invariant Coherent(Reading(state, env))
        invariant ParseFrom(Reading(state, env), tokens[i..]) == ShellSyntax.Parse(tokens)
      {
        assert tokens[i..][1..] == tokens[i + 1..];
        var ok;
        ok, state, env := TakeToken(state, env, tokens[i]);
        if !ok {
          return None;
        }
      }
      var ok := CommitCommand();
      if !ok {
        return None;
      }
      ParsesExactly(pipeline);
      r := Some(pipeline);
    }

    /** The body of the token loop. */
    method TakeToken(state0: Mode, env0: map<string, string>, token: string)
      returns (ok: bool, state: Mode, env: map<string, string>)
      requires Coherent(Reading(state0, env0))
      modifies this
      ensures ok <==> Accept(old(Reading(state0, env0)), token).Some?
      ensures ok ==> Reading(state, env) == Accept(old(Reading(state0, env0)), token).value
    {
      hide EnvAssignment;
      ok, state, env := true, state0, env0;
      match state0 {
        case Begin =>
          var assignment := EnvAssignment(token);
          if assignment.Some? {
            env := env[assignment.value.0 := assignment.value.1];
          } else if token == "cd" {
            currentCommand := Some(Chdir(None));
            ok, state := env == map[], InChdir;
          } else {
            currentCommand := Some(NewCommand(token, env));
            env, state := map[], InCommand;
          }
        case InCommand =>
          var command := currentCommand.value;
          if token == ">" {
            state := AfterStdout;
          } else if token == "2>" {
            state := AfterStderr;
          } else if token == "2>&1" {
            ok, currentCommand := command.stderr.ErrUnset?, Some(command.(stderr := SameAsOutput));
          } else if token == "<" {
            state := AfterStdin;
          } else if token == "|" {
            ok, currentCommand := command.stdout.Unset?, Some(command.(stdout := Piped));
            state := CommitWith(Pipe);
          } else if token == "&&" {
            state := CommitWith(And);
          } else if token == "||" {
            state := CommitWith(Or);
          } else {
            currentCommand := Some(command.(argv := command.argv + [token]));
          }
        case InChdir =>
          if token == "&&" {
            state := CommitWith(And);
          } else {
            ok, currentCommand := currentCommand.value.dir.None?, Some(Chdir(Some(token)));
          }
        case AfterStdout =>
          var command := currentCommand.value;
          ok, currentCommand, state := command.stdout.Unset?, Some(command.(stdout := ToFile(token))), InCommand;
        case AfterStderr =>
          var command := currentCommand.value;
          ok, currentCommand, state := command.stderr.ErrUnset?, Some(command.(stderr := ErrToFile(token))), InCommand;
        case AfterStdin =>
          var command := currentCommand.value;
          ok, currentCommand, state := command.stdin.None?, Some(command.(stdin := Some(token))), InCommand;
      }
    }

    method CommitWith(op: Node) returns (state: Mode)
      requires currentCommand.Some?
      modifies this
      ensures state == Begin && currentCommand == None
      ensures pipeline == old(pipeline) + [old(currentCommand).value, op]
    {
      var _ := CommitCommand();
      pipeline := pipeline + [op];
      state := Begin;
    }

    /**
     Runs the pipeline; exit(k) is the exit code of the k-th process started. The result is no
     value at all for a pipeline nothing was parsed into. names lists the files opened for
     redirection; closed lists the numbers of those closed.
     */
    method Run(exit: nat -> int)
      returns (result: Option<Outcome>, launches: seq<Launch>, names: seq<string>, closed: seq<nat>)
      requires pipeline == [] || IsLine(pipeline)
      ensures pipeline == [] ==> result == None && launches == []
      ensures pipeline != [] ==>
        && result == Some(MeaningOf(pipeline, ".", false, 0, exit).outcome)
        && launches == MeaningOf(pipeline, ".", false, 0, exit).launches
      ensures names == FilesOf(launches)
      ensures result.Some? && result.value.Status? ==> closed == Numbers(|names|)
    {
      hide MeaningOf, IsSpellable, Precedes, EndsLine, JoinPath, LaunchOf, Continues;
      hide FilesOf, FilesOfOne, Numbers, Accounted;
      AtStart(pipeline, exit);
      var rest := pipeline;
      var filesToClose, pipedCommands: seq<nat> := [], [];
      var piped, cwd := false, ".";
      result, launches, names, closed := None, [], [], [];
      while rest != []
        invariant pipeline == [] ==> rest == [] && launches == []
        invariant pipeline != [] ==> rest != [] && IsLine(rest) && Continues(pipeline, exit, launches, rest, cwd, piped)
        invariant Accounted(names, filesToClose, closed) && result == None
        invariant names == FilesOf(launches)
        decreases |rest|
      {
        LineFront(rest);
        ContinuesStep(pipeline, exit, launches, rest, cwd, piped);
        assert 2 <= |rest| ==> rest[1..][1..] == rest[2..];
        var node := rest[0];
        rest := rest[1..];
        if node.Chdir? {
          if rest == [] {
            return Some(IndexError), launches, names, closed;
          }
          var nextOp := rest[0];
          rest := rest[1..];
          assert nextOp.And?;
          if node.dir.None? {
            return Some(TypeError), launches, names, closed;
          }
          cwd := JoinPath(cwd, node.dir.value);
          continue;
        }
        assert node.Command?;
        var launch;
        launch, names, filesToClose := Start(node, cwd, piped, names, filesToClose, closed);
        pipedCommands := pipedCommands + [|launches|];
        FilesOfPush(launches, node, cwd, piped);
        launches := launches + [launch];
        if rest == [] {
          var retval := ExecPipedCommands(pipedCommands, exit);
          closed := CloseFiles(filesToClose, closed, names);
          return Some(Status(retval)), launches, names, closed;
        }
        var nextNode := rest[0];
        rest := rest[1..];
        if nextNode.Pipe? {
          piped := true;
        } else if nextNode.Or? {
          var thisRetval := ExecPipedCommands(pipedCommands, exit);
          closed := CloseFiles(filesToClose, closed, names);
          filesToClose := [];
          if thisRetval == 0 {
            return Some(Status(thisRetval)), launches, names, closed;
          }
          piped, pipedCommands := false, [];
        } else {
          assert nextNode.And?;
          var thisRetval := ExecPipedCommands(pipedCommands, exit);
          closed := CloseFiles(filesToClose, closed, names);
          filesToClose := [];
          if thisRetval != 0 {
            return Some(Status(thisRetval)), launches, names, closed;
          }
          piped, pipedCommands := false, [];
        }
      }
    }
  }

  /** The whole run means: these launches, then whatever the rest of the line means from here. */
  ghost predicate Continues(
      p: seq<Node>, exit: nat -> int, launches: seq<Launch>, rest: seq<Node>, cwd: string, piped: bool)
    requires IsLine(p) && IsLine(rest)
  {
    var whole, left := MeaningOf(p, ".", false, 0, exit), MeaningOf(rest, cwd, piped, |launches|, exit);
    whole.outcome == left.outcome && whole.launches == launches + left.launches
  }

  lemma AtStart(p: seq<Node>, exit: nat -> int)
    requires p == [] || IsLine(p)
    ensures FilesOf([]) == [] && Accounted([], [], [])
    ensures p != [] ==> Continues(p, exit, [], p, ".", false)
  {
    hide MeaningOf, IsLine;
    if p != [] {
      assert [] + MeaningOf(p, ".", false, 0, exit).launches == MeaningOf(p, ".", false, 0, exit).launches;
    }
  }

  /** How the whole run's meaning continues, or ends, at the first node of the rest. */
  lemma {:induction false} ContinuesStep(
      p: seq<Node>, exit: nat -> int, launches: seq<Launch>, rest: seq<Node>, cwd: string, piped: bool)
    requires IsLine(p) && IsLine(rest) && Continues(p, exit, launches, rest, cwd, piped)
    ensures var whole := MeaningOf(p, ".", false, 0, exit);
            if rest[0].Chdir? then
              if |rest| == 1 then whole == Meaning(IndexError, launches)
              else if rest[0].dir.None? then whole == Meaning(TypeError, launches)
              else Continues(p, exit, launches, rest[2..], JoinPath(cwd, rest[0].dir.value), piped)
            else
              var more := launches + [LaunchOf(rest[0], cwd, piped)];
              if |rest| == 1 || StopsAt(rest[1], exit(|launches|)) then whole == Meaning(Status(exit(|launches|)), more)
              else Continues(p, exit, more, rest[2..], cwd, rest[1].Pipe?)
  {
    hide MeaningOf, IsSpellable, Precedes, EndsLine, LaunchOf, JoinPath;
    LineFront(rest);
    MeaningStep(rest, cwd, piped, |launches|, exit);
    if rest[0].Command? && 2 <= |rest| && !StopsAt(rest[1], exit(|launches|)) {
      var launch, m := LaunchOf(rest[0], cwd, piped), MeaningOf(rest[2..], cwd, rest[1].Pipe?, |launches| + 1, exit);
      assert launches + ([launch] + m.launches) == launches + [launch] + m.launches;
    }
  }

  /** Opens what the command redirects to and from, and starts it. */
  method Start(
      command: Node, cwd: string, piped: bool, names0: seq<string>, files0: seq<Handle>, ghost closed: seq<nat>)
    returns (launch: Launch, names: seq<string>, files: seq<Handle>)
    requires command.Command? && Accounted(names0, files0, closed)
    ensures launch == LaunchOf(command, cwd, piped)
    ensures launch.command == command && launch.cwd == if cwd == "." then None else Some(cwd)
    ensures launch.input == if piped then FromPrevious
                            else if command.stdin.Some? then FromFile(command.stdin.value) else Inherited
    ensures names == names0 + FilesOfOne(launch) && Accounted(names, files, closed)
  {
    hide Accounted, InFiles, OutFiles;
    var input;
    input, names, files := OpenInput(command.stdin, piped, names0, files0, closed);
    if command.stdout.ToFile? {
      names, files := OpenOutFile(command.stdout.name, names, files, closed);
    }
    if command.stderr.ErrToFile? {
      names, files := OpenOutFile(command.stderr.name, names, files, closed);
    }
    launch := Launch(command, input, if cwd == "." then None else Some(cwd));
  }

  /** Where the input comes from: the pipe if there is one, then a file, then nowhere in particular. */
  method OpenInput(stdin: Option<string>, piped: bool, names0: seq<string>, files0: seq<Handle>, ghost closed: seq<nat>)
    returns (input: Input, names: seq<string>, files: seq<Handle>)
    requires Accounted(names0, files0, closed)
    ensures input == if piped then FromPrevious else if stdin.Some? then FromFile(stdin.value) else Inherited
    ensures names == names0 + InFiles(input) && Accounted(names, files, closed)
  {
    input, names, files := if piped then FromPrevious else Inherited, names0, files0;
    if !piped && stdin.Some? {
      input := FromFile(stdin.value);
      FileOpened(names, files, closed, stdin.value);
      names, files := names + [stdin.value], files + [File(|names|)];
    }
  }

  lemma FileOpened(names: seq<string>, files: seq<Handle>, closed: seq<nat>, name: string)
    requires Accounted(names, files, closed)
    ensures Accounted(names + [name], files + [File(|names|)], closed)
  {
    assert closed + FileIds(files + [File(|names|)]) == closed + FileIds(files) + [|names|];
  }

  /** Opens an output file, unless it is the null device, and remembers it to be closed. */
  method OpenOutFile(filename: string, names0: seq<string>, files0: seq<Handle>, ghost closed: seq<nat>)
    returns (names: seq<string>, files: seq<Handle>)
    requires Accounted(names0, files0, closed)
    ensures names == names0 + OutFiles(filename) && Accounted(names, files, closed)
    ensures filename in {"NUL:", "/dev/null"} ==> names == names0 && files == files0 + [DevNull]
    ensures filename !in {"NUL:", "/dev/null"} ==>
      names == names0 + [filename] && files == files0 + [File(|names0|)]
  {
    if IsNullDevice(filename) {
      names, files := names0, files0 + [DevNull];
    } else {
      FileOpened(names0, files0, closed, filename);
      names, files := names0 + [filename], files0 + [File(|names0|)];
    }
  }

  /** After this nothing is open any more. */
  method CloseFiles(files: seq<Handle>, closed0: seq<nat>, ghost names: seq<string>) returns (closed: seq<nat>)
    requires Accounted(names, files, closed0)
    ensures closed == closed0 + FileIds(files)
    ensures closed == Numbers(|names|) && Accounted(names, [], closed)
  {
    closed := closed0;
    for i := 0 to |files|
      invariant closed == closed0 + FileIds(files[..i])
    {
      assert files[..i + 1] == files[..i] + [files[i]];
      if files[i].File? {
        closed := closed + [files[i].id];
      }
    }
    assert files[..|files|] == files;
  }

  /** Waits for every process of a group: the status is the last one's, whatever the others returned. */
  method ExecPipedCommands(commands: seq<nat>, exit: nat -> int) returns (retval: int)
    requires commands != []
    ensures retval == exit(commands[|commands| - 1])
  {
    var retvals := [];
    for i := 0 to |commands|
      invariant |retvals| == i && forall k :: 0 <= k < i ==> retvals[k] == exit(commands[k])
    {
      retvals := retvals + [exit(commands[i])];
    }
    retval := 0;
    for k := 0 to |retvals|
      invariant retval == 0 && forall j :: 0 <= j < k ==> retvals[j] == 0
    {
      if retvals[k] != 0 {
        retval := retvals[|retvals| - 1];
        break;
      }
    }
  }
}
