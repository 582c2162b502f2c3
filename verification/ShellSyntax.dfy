/** The mini shell's pipelines, and its token-by-token parser. */
module ShellSyntax {
  import opened Collections

  datatype Output = Unset | Piped | ToFile(name: string)
  datatype Errors = ErrUnset | SameAsOutput | ErrToFile(name: string)

  datatype Node =
    | Command(name: string, argv: seq<string>, stdin: Option<string>, stdout: Output, stderr: Errors,
              env: map<string, string>)
    | Chdir(dir: Option<string>)
    | Pipe | And | Or

  datatype Mode = Begin | InCommand | InChdir | AfterStderr | AfterStdout | AfterStdin

  /** The parser's variables. */
  datatype Parser = Parser(mode: Mode, current: Option<Node>, pipeline: seq<Node>, env: map<string, string>)

  const START := Parser(Begin, None, [], map[])

  // ----- environment assignments: a word, an equals sign, and a value without white space

  predicate IsWordChar(c: char) {
    'a' <= c <= 'z' || 'A' <= c <= 'Z' || '0' <= c <= '9' || c == '_'
  }

  predicate IsSpace(c: char) {
    var n := c as int;
    9 <= n <= 13 || 28 <= n <= 32 || n == 0x85 || n == 0xA0 || n == 0x1680 || 0x2000 <= n <= 0x200A
    || n == 0x2028 || n == 0x2029 || n == 0x202F || n == 0x205F || n == 0x3000
  }

  predicate IsName(s: string) {
    s != "" && forall i :: 0 <= i < |s| ==> IsWordChar(s[i])
  }

  predicate IsValue(s: string) {
    s != "" && forall i :: 0 <= i < |s| ==> !IsSpace(s[i])
  }

  function EqualsAt(s: string): (k: nat)
    ensures k <= |s| && (forall i :: 0 <= i < k ==> s[i] != '=') && (k < |s| ==> s[k] == '=')
  {
    if s == "" || s[0] == '=' then 0 else 1 + EqualsAt(s[1..])
  }

  /** The end-of-line mark of the pattern also matches just before one final newline. */
  function DropFinalNewline(s: string): string {
    if s != "" && s[|s| - 1] == '\n' then s[..|s| - 1] else s
  }

  function EnvAssignment(token: string): Option<(string, string)> {
    var k := EqualsAt(token);
    if k < |token| && IsName(token[..k]) && IsValue(DropFinalNewline(token[k + 1..]))
    then Some((token[..k], DropFinalNewline(token[k + 1..])))
    else None
  }

  /** Exactly the tokens of the form name=value, a newline at the very end aside, are assignments. */
  lemma EnvAssignmentExactly(token: string, name: string, value: string)
    ensures EnvAssignment(token) == Some((name, value)) <==>
      && name != ""
      && (forall c :: c in name ==> 'a' <= c <= 'z' || 'A' <= c <= 'Z' || '0' <= c <= '9' || c == '_')
      && value != "" && (forall c :: c in value ==> !IsSpace(c))
      && (token == name + "=" + value || token == name + "=" + value + "\n")
  {
    hide IsSpace, EnvAssignment, EqualsAt;
    assert IsName(name) <==> name != "" && forall c :: c in name ==> IsWordChar(c);
    assert IsValue(value) <==> value != "" && forall c :: c in value ==> !IsSpace(c);
    hide IsName, IsValue;
    if IsName(name) && IsValue(value) {
      EndsPlain(value);
      if token == name + "=" + value {
        AssignmentRead(name, value);
      } else if token == name + "=" + value + "\n" {
        assert token == name + "=" + (value + "\n");
        AssignmentRead(name, value + "\n");
      }
    }
    if EnvAssignment(token).Some? {
      AssignmentIs(token);
    }
  }

  lemma AssignmentRead(name: string, tail: string)
    requires IsName(name) && IsValue(DropFinalNewline(tail))
    ensures EnvAssignment(name + "=" + tail) == Some((name, DropFinalNewline(tail)))
  {
    hide IsValue, DropFinalNewline;
    var token := name + "=" + tail;
    forall i | 0 <= i < |name| ensures token[i] != '=' {
      assert IsWordChar(name[i]);
    }
    EqualsAtIs(token, |name|);
    assert token[..|name|] == name && token[|name| + 1..] == tail;
  }

  lemma AssignmentIs(token: string)
    requires EnvAssignment(token).Some?
    ensures var (name, value) := EnvAssignment(token).value;
            IsName(name) && IsValue(value) && (token == name + "=" + value || token == name + "=" + value + "\n")
  {
    hide IsName, IsValue;
    var k := EqualsAt(token);
    var tail := token[k + 1..];
    assert token == token[..k] + "=" + tail;
    assert tail != "" && tail[|tail| - 1] == '\n' ==> tail == tail[..|tail| - 1] + "\n";
  }

  lemma EndsPlain(value: string)
    requires IsValue(value)
    ensures DropFinalNewline(value) == value && DropFinalNewline(value + "\n") == value
  {
    assert IsSpace('\n');
  }

  lemma EqualsAtIs(s: string, n: nat)
    requires n < |s| && s[n] == '=' && forall i :: 0 <= i < n ==> s[i] != '='
    ensures EqualsAt(s) == n
  {
  }

  // ----- one token

  function NewCommand(name: string, env: map<string, string>): Node {
    Command(name, [name], None, Unset, ErrUnset, env)
  }

  function Commit(p: Parser, op: Node): Parser
    requires p.current.Some?
  {
    Parser(Begin, None, p.pipeline + [p.current.value, op], p.env)
  }

  predicate Coherent(p: Parser) {
    && (p.mode.Begin? <==> p.current.None?)
    && (p.mode.InChdir? ==> p.current.value.Chdir?)
    && (!p.mode.Begin? && !p.mode.InChdir? ==> p.current.value.Command?)
  }

  /** None is a failed assertion. */
  function Accept(p: Parser, token: string): (r: Option<Parser>)
    requires Coherent(p)
    ensures r.Some? ==> Coherent(r.value)
  {
    match p.mode
    case Begin =>
      (match EnvAssignment(token)
       case Some((name, value)) => Some(p.(env := p.env[name := value]))
       case None =>
         if token == "cd" then
           if p.env == map[] then Some(p.(current := Some(Chdir(None)), mode := InChdir)) else None
         else Some(p.(current := Some(NewCommand(token, p.env)), env := map[], mode := InCommand)))
    case InCommand =>
      var command := p.current.value;
      if token == ">" then Some(p.(mode := AfterStdout))
      else if token == "2>" then Some(p.(mode := AfterStderr))
      else if token == "2>&1" then
        if command.stderr.ErrUnset? then Some(p.(current := Some(command.(stderr := SameAsOutput)))) else None
      else if token == "<" then Some(p.(mode := AfterStdin))
      else if token == "|" then
        if command.stdout.Unset? then Some(Commit(p.(current := Some(command.(stdout := Piped))), Pipe)) else None
      else if token == "&&" then Some(Commit(p, And))
      else if token == "||" then Some(Commit(p, Or))
      else Some(p.(current := Some(command.(argv := command.argv + [token]))))
    case InChdir =>
      if token == "&&" then Some(Commit(p, And))
      else if p.current.value.dir.None? then Some(p.(current := Some(Chdir(Some(token)))))
      else None
    case AfterStdout =>
      if p.current.value.stdout.Unset?
      then Some(p.(current := Some(p.current.value.(stdout := ToFile(token))), mode := InCommand)) else None
    case AfterStderr =>
      if p.current.value.stderr.ErrUnset?
      then Some(p.(current := Some(p.current.value.(stderr := ErrToFile(token))), mode := InCommand)) else None
    case AfterStdin =>
      if p.current.value.stdin.None?
      then Some(p.(current := Some(p.current.value.(stdin := Some(token))), mode := InCommand)) else None
  }

  /** All tokens, then the final commit, which needs a current command. */
  function ParseFrom(p: Parser, tokens: seq<string>): Option<seq<Node>>
    requires Coherent(p)
    decreases |tokens|
  {
    if tokens == [] then
      if p.current.Some? then Some(p.pipeline + [p.current.value]) else None
    else
      match Accept(p, tokens[0])
      case None => None
      case Some(q) => ParseFrom(q, tokens[1..])
  }

  function Parse(tokens: seq<string>): Option<seq<Node>> {
    ParseFrom(START, tokens)
  }

  // ----- the shape of what is parsed

  predicate IsOperator(node: Node) {
    node.Pipe? || node.And? || node.Or?
  }

  predicate IsOperatorToken(token: string) {
    token == ">" || token == "2>" || token == "2>&1" || token == "<" || token == "|" || token == "&&" || token == "||"
  }

  /** A command that some words can spell. */
  predicate IsSpellable(node: Node) {
    match node
    case Command(name, argv, _, _, _, env) =>
      && name != "cd" && EnvAssignment(name).None?
      && argv != [] && argv[0] == name
      && (forall i :: 1 <= i < |argv| ==> !IsOperatorToken(argv[i]))
      && (forall k :: k in env ==> IsName(k) && IsValue(env[k]))
    case Chdir(dir) => dir != Some("&&")
    case _ => false
  }

  /** A command may stand before this operator. */
  predicate Precedes(node: Node, op: Node) {
    match node
    case Command(_, _, _, stdout, _, _) => stdout.Piped? <==> op.Pipe?
    case Chdir(_) => op.And?
    case _ => false
  }

  predicate EndsLine(node: Node) {
    match node
    case Command(_, _, _, stdout, _, _) => !stdout.Piped?
    case Chdir(_) => true
    case _ => false
  }

  /** Commands and operators in turn, each command fit for the operator behind it, a command last. */
  ghost predicate IsLine(p: seq<Node>) {
    && p != [] && IsSpellable(p[0])
    && (|p| == 1 ==> EndsLine(p[0]))
    && (2 <= |p| ==> IsOperator(p[1]) && Precedes(p[0], p[1]) && IsLine(p[2..]))
  }

  /** The same by positions. */
  lemma {:induction false} LinePositions(p: seq<Node>, i: nat)
    requires IsLine(p) && i < |p|
    ensures |p| % 2 == 1
    ensures if i % 2 == 1 then IsOperator(p[i])
            else IsSpellable(p[i]) && if i + 1 < |p| then Precedes(p[i], p[i + 1]) else EndsLine(p[i])
    decreases |p|
  {
    hide IsSpellable, Precedes, EndsLine, IsOperator;
    if 2 <= |p| {
      LinePositions(p[2..], if 2 <= i then i - 2 else 0);
    }
  }
}
