/** The grammar of the mini shell, and that the parser accepts exactly its sentences. */
module ShellGrammar {
  import opened Collections
  import opened ShellSyntax

  /** What may follow the name of a command. */
  datatype Item = Word(word: string) | In(file: string) | Out(file: string) | Err(file: string) | Merge

  datatype Phrase =
    | Simple(assigns: seq<string>, name: string, items: seq<Item>)
    | Cd(dir: Option<string>)

  /** A last command may have one redirection sign without a file behind it, which is dropped. */
  datatype Sentence =
    | Last(phrase: Phrase, dangling: seq<string>)
    | More(phrase: Phrase, op: Node, rest: Sentence)

  // ----- the words of a sentence

  function ItemTokens(item: Item): seq<string> {
    match item
    case Word(word) => [word]
    case In(file) => ["<", file]
    case Out(file) => [">", file]
    case Err(file) => ["2>", file]
    case Merge => ["2>&1"]
  }

  function ItemsTokens(items: seq<Item>): seq<string> {
    if items == [] then [] else ItemsTokens(items[..|items| - 1]) + ItemTokens(items[|items| - 1])
  }

  function PhraseTokens(phrase: Phrase): seq<string> {
    match phrase
    case Simple(assigns, name, items) => assigns + [name] + ItemsTokens(items)
    case Cd(dir) => ["cd"] + if dir.Some? then [dir.value] else []
  }

  function OperatorToken(op: Node): string {
    if op.Pipe? then "|" else if op.And? then "&&" else "||"
  }

  function Tokens(s: Sentence): seq<string> {
    match s
    case Last(phrase, dangling) => PhraseTokens(phrase) + dangling
    case More(phrase, op, rest) => PhraseTokens(phrase) + [OperatorToken(op)] + Tokens(rest)
  }

  // ----- which sentences are grammatical

  /** Input, output and errors may each be redirected once. */
  predicate SameKind(a: Item, b: Item) {
    (a.In? && b.In?) || (a.Out? && b.Out?) || ((a.Err? || a.Merge?) && (b.Err? || b.Merge?))
  }

  predicate PhraseOk(phrase: Phrase) {
    match phrase
    case Simple(assigns, name, items) =>
      && (forall i :: 0 <= i < |assigns| ==> EnvAssignment(assigns[i]).Some?)
      && name != "cd" && EnvAssignment(name).None?
      && (forall i :: 0 <= i < |items| && items[i].Word? ==> !IsOperatorToken(items[i].word))
      && (forall i, j :: 0 <= i < j < |items| ==> !SameKind(items[i], items[j]))
    case Cd(dir) => dir != Some("&&")
  }

  predicate Fits(phrase: Phrase, op: Node) {
    match phrase
    case Simple(_, _, items) => IsOperator(op) && (op.Pipe? ==> OutputOf(items).Unset?)
    case Cd(_) => op.And?
  }

  predicate Grammatical(s: Sentence) {
    match s
    case Last(phrase, dangling) =>
      PhraseOk(phrase) && (dangling == [] || (phrase.Simple? && dangling in {["<"], [">"], ["2>"]}))
    case More(phrase, op, rest) => PhraseOk(phrase) && Fits(phrase, op) && Grammatical(rest)
  }

  // ----- the pipeline a sentence stands for

  function WordsOf(items: seq<Item>): seq<string> {
    if items == [] then []
    else WordsOf(items[..|items| - 1]) + if items[|items| - 1].Word? then [items[|items| - 1].word] else []
  }

  function InputOf(items: seq<Item>): Option<string> {
    if items == [] then None
    else if items[|items| - 1].In? then Some(items[|items| - 1].file)
    else InputOf(items[..|items| - 1])
  }

  function OutputOf(items: seq<Item>): Output {
    if items == [] then Unset
    else if items[|items| - 1].Out? then ToFile(items[|items| - 1].file)
    else OutputOf(items[..|items| - 1])
  }

  function ErrorsOf(items: seq<Item>): Errors {
    if items == [] then ErrUnset
    else if items[|items| - 1].Err? then ErrToFile(items[|items| - 1].file)
    else if items[|items| - 1].Merge? then SameAsOutput
    else ErrorsOf(items[..|items| - 1])
  }

  /** A later assignment to the same name wins. */
  function EnvOf(assigns: seq<string>): map<string, string> {
    if assigns == [] then map[]
    else
      var env := EnvOf(assigns[..|assigns| - 1]);
      match EnvAssignment(assigns[|assigns| - 1])
      case Some((name, value)) => env[name := value]
      case None => env
  }

  function PhraseNode(phrase: Phrase): Node {
    match phrase
    case Simple(assigns, name, items) =>
      Command(name, [name] + WordsOf(items), InputOf(items), OutputOf(items), ErrorsOf(items), EnvOf(assigns))
    case Cd(dir) => Chdir(dir)
  }

  /** A pipe behind a command takes its output. */
  function Before(node: Node, op: Node): Node {
    if node.Command? && op.Pipe? then node.(stdout := Piped) else node
  }

  function Nodes(s: Sentence): seq<Node> {
    match s
    case Last(phrase, _) => [PhraseNode(phrase)]
    case More(phrase, op, rest) => [Before(PhraseNode(phrase), op), op] + Nodes(rest)
  }

  // ----- reading one item

  function AddItem(command: Node, item: Item): Node
    requires command.Command?
  {
    match item
    case Word(word) => command.(argv := command.argv + [word])
    case In(file) => command.(stdin := Some(file))
    case Out(file) => command.(stdout := ToFile(file))
    case Err(file) => command.(stderr := ErrToFile(file))
    case Merge => command.(stderr := SameAsOutput)
  }

  lemma NodePush(assigns: seq<string>, name: string, items: seq<Item>, item: Item)
    ensures PhraseNode(Simple(assigns, name, items + [item])) == AddItem(PhraseNode(Simple(assigns, name, items)), item)
    ensures ItemsTokens(items + [item]) == ItemsTokens(items) + ItemTokens(item)
  {
    hide EnvOf;
    assert (items + [item])[..|items|] == items;
  }

  lemma {:induction false} UnsetExactly(items: seq<Item>)
    ensures InputOf(items).None? <==> forall i :: 0 <= i < |items| ==> !items[i].In?
    ensures OutputOf(items).Unset? <==> forall i :: 0 <= i < |items| ==> !items[i].Out?
    ensures ErrorsOf(items).ErrUnset? <==> forall i :: 0 <= i < |items| ==> !items[i].Err? && !items[i].Merge?
    ensures !OutputOf(items).Piped?
  {
    if items != [] {
      UnsetExactly(items[..|items| - 1]);
    }
  }

  /** An item may be added exactly if what it redirects is not redirected yet. */
  predicate MayAdd(command: Node, item: Item)
    requires command.Command?
  {
    match item
    case Word(word) => !IsOperatorToken(word)
    case In(_) => command.stdin.None?
    case Out(_) => command.stdout.Unset?
    case Err(_) => command.stderr.ErrUnset?
    case Merge => command.stderr.ErrUnset?
  }

  lemma MayAddExactly(assigns: seq<string>, name: string, items: seq<Item>, item: Item)
    requires PhraseOk(Simple(assigns, name, items))
    ensures PhraseOk(Simple(assigns, name, items + [item])) <==> MayAdd(PhraseNode(Simple(assigns, name, items)), item)
  {
    hide EnvAssignment, IsOperatorToken;
    UnsetExactly(items);
    var more := items + [item];
    assert forall i :: 0 <= i < |items| ==> more[i] == items[i];
    if PhraseOk(Simple(assigns, name, more)) {
      assert more[|items|] == item;
    }
  }

  function Reading(done: seq<Node>, phrase: Phrase): Parser {
    Parser(if phrase.Simple? then InCommand else InChdir, Some(PhraseNode(phrase)), done, map[])
  }

  lemma OneItem(done: seq<Node>, command: Node, item: Item, rest: seq<string>)
    requires command.Command? && MayAdd(command, item)
    ensures ParseFrom(Parser(InCommand, Some(command), done, map[]), ItemTokens(item) + rest)
         == ParseFrom(Parser(InCommand, Some(AddItem(command, item)), done, map[]), rest)
  {
    var tokens := ItemTokens(item) + rest;
    if item.Word? || item.Merge? {
      assert tokens[1..] == rest;
    } else {
      assert tokens[1..] == [item.file] + rest && tokens[1..][1..] == rest;
    }
  }

  // ----- every sentence is parsed

  lemma {:induction false} ItemsParse(
      done: seq<Node>, assigns: seq<string>, name: string, items: seq<Item>, rest: seq<string>)
    requires PhraseOk(Simple(assigns, name, items))
    ensures ParseFrom(Reading(done, Simple(assigns, name, [])), ItemsTokens(items) + rest)
         == ParseFrom(Reading(done, Simple(assigns, name, items)), rest)
  {
    hide EnvAssignment, ParseFrom, PhraseNode, ItemTokens, AddItem, MayAdd;
    if items == [] {
      assert ItemsTokens(items) + rest == rest;
    } else {
      var front, last := items[..|items| - 1], items[|items| - 1];
      assert front + [last] == items;
      assert ItemsTokens(items) + rest == ItemsTokens(front) + (ItemTokens(last) + rest);
      ItemsParse(done, assigns, name, front, ItemTokens(last) + rest);
      MayAddExactly(assigns, name, front, last);
      NodeKind(Simple(assigns, name, front));
      NodePush(assigns, name, front, last);
      OneItem(done, PhraseNode(Simple(assigns, name, front)), last, rest);
    }
  }

  lemma {:induction false} AssignsParse(done: seq<Node>, assigns: seq<string>, rest: seq<string>)
    requires forall i :: 0 <= i < |assigns| ==> EnvAssignment(assigns[i]).Some?
    ensures ParseFrom(Parser(Begin, None, done, map[]), assigns + rest)
         == ParseFrom(Parser(Begin, None, done, EnvOf(assigns)), rest)
  {
    hide EnvAssignment;
    if assigns == [] {
      assert assigns + rest == rest;
    } else {
      var front, last := assigns[..|assigns| - 1], assigns[|assigns| - 1];
      assert assigns + rest == front + ([last] + rest);
      AssignsParse(done, front, [last] + rest);
      assert ([last] + rest)[1..] == rest;
    }
  }

  lemma PhraseParses(done: seq<Node>, phrase: Phrase, rest: seq<string>)
    requires PhraseOk(phrase)
    ensures ParseFrom(Parser(Begin, None, done, map[]), PhraseTokens(phrase) + rest)
         == if phrase == Cd(None) && rest != [] && rest[0] != "&&"
            then ParseFrom(Reading(done, Cd(Some(rest[0]))), rest[1..])
            else ParseFrom(Reading(done, phrase), rest)
  {
    hide EnvAssignment;
    match phrase
    case Simple(assigns, name, items) =>
      var more := ItemsTokens(items) + rest;
      assert PhraseTokens(phrase) + rest == assigns + ([name] + more);
      AssignsParse(done, assigns, [name] + more);
      assert ([name] + more)[1..] == more && [name] + WordsOf([]) == [name];
      ItemsParse(done, assigns, name, items, rest);
    case Cd(dir) =>
      CdIsNoAssignment();
      var tokens := PhraseTokens(phrase) + rest;
      if dir.Some? {
        assert tokens[1..] == [dir.value] + rest && tokens[1..][1..] == rest;
      } else {
        assert tokens[1..] == rest;
      }
  }

  lemma CdIsNoAssignment()
    ensures EnvAssignment("cd").None?
  {
  }

  lemma {:induction false} SentenceParses(done: seq<Node>, s: Sentence)
    requires Grammatical(s)
    ensures ParseFrom(Parser(Begin, None, done, map[]), Tokens(s)) == Some(done + Nodes(s))
    decreases s
  {
    hide EnvAssignment, PhraseTokens, PhraseNode, PhraseOk;
    match s
    case Last(phrase, dangling) =>
      PhraseParses(done, phrase, dangling);
      if dangling != [] {
        assert dangling[1..] == [];
      }
    case More(phrase, op, rest) =>
      var tail := [OperatorToken(op)] + Tokens(rest);
      assert Tokens(s) == PhraseTokens(phrase) + tail && tail[1..] == Tokens(rest);
      PhraseParses(done, phrase, tail);
      SentenceParses(done + [Before(PhraseNode(phrase), op), op], rest);
      assert done + [Before(PhraseNode(phrase), op), op] + Nodes(rest) == done + Nodes(s);
      NodeKind(phrase);
      assert Accept(Reading(done, phrase), OperatorToken(op))
          == Some(Parser(Begin, None, done + [Before(PhraseNode(phrase), op), op], map[]));
  }

  lemma NodeKind(phrase: Phrase)
    ensures match phrase
            case Simple(_, _, items) => PhraseNode(phrase).Command? && PhraseNode(phrase).stdout == OutputOf(items)
            case Cd(dir) => PhraseNode(phrase) == Chdir(dir)
  {
  }

  // ----- nothing else is parsed

  /** A parse that stands before a command with some assignments read. */
  lemma {:induction false} BeginSentence(done: seq<Node>, assigns: seq<string>, tokens: seq<string>)
    returns (s: Sentence)
    requires forall i :: 0 <= i < |assigns| ==> EnvAssignment(assigns[i]).Some?
    requires ParseFrom(Parser(Begin, None, done, EnvOf(assigns)), tokens).Some?
    ensures Grammatical(s) && Tokens(s) == assigns + tokens
    ensures ParseFrom(Parser(Begin, None, done, EnvOf(assigns)), tokens) == Some(done + Nodes(s))
    decreases |tokens|, 1
  {
    hide EnvAssignment, Grammatical, Tokens, Nodes, PhraseOk, PhraseTokens, PhraseNode;
    var token, rest := tokens[0], tokens[1..];
    assert tokens == [token] + rest;
    if EnvAssignment(token).Some? {
      var more := assigns + [token];
      assert more[..|assigns|] == assigns;
      s := BeginSentence(done, more, rest);
      assert more + rest == assigns + tokens;
    } else if token == "cd" {
      StartsCd(assigns);
      s := CdSentence(done, None, rest);
    } else {
      StartsCommand(assigns, token, rest);
      s := CommandSentence(done, assigns, token, [], rest);
    }
  }

  lemma {:induction false} StartsCommand(assigns: seq<string>, token: string, rest: seq<string>)
    requires forall i :: 0 <= i < |assigns| ==> EnvAssignment(assigns[i]).Some?
    requires token != "cd" && EnvAssignment(token).None?
    ensures var phrase := Simple(assigns, token, []);
            && PhraseOk(phrase) && PhraseTokens(phrase) + rest == assigns + ([token] + rest)
            && PhraseNode(phrase) == NewCommand(token, EnvOf(assigns))
  {
    hide EnvAssignment, EnvOf;
    assert [token] + WordsOf([]) == [token];
    assert PhraseTokens(Simple(assigns, token, [])) == assigns + [token];
    assert assigns + [token] + rest == assigns + ([token] + rest);
  }

  lemma StartsCd(assigns: seq<string>)
    requires forall i :: 0 <= i < |assigns| ==> EnvAssignment(assigns[i]).Some?
    ensures EnvOf(assigns) == map[] <==> assigns == []
    ensures PhraseOk(Cd(None)) && PhraseTokens(Cd(None)) == ["cd"] && PhraseNode(Cd(None)) == Chdir(None)
  {
    hide EnvAssignment;
    if assigns != [] {
      assert EnvAssignment(assigns[|assigns| - 1]).value.0 in EnvOf(assigns);
    }
  }

  /** A parse that stands in or behind a directory change. */
  lemma {:induction false} CdSentence(done: seq<Node>, dir: Option<string>, tokens: seq<string>) returns (s: Sentence)
    requires PhraseOk(Cd(dir)) && ParseFrom(Reading(done, Cd(dir)), tokens).Some?
    ensures Grammatical(s) && Tokens(s) == PhraseTokens(Cd(dir)) + tokens
    ensures ParseFrom(Reading(done, Cd(dir)), tokens) == Some(done + Nodes(s))
    decreases |tokens|, 0
  {
    hide EnvAssignment, EnvOf;
    if tokens == [] {
      s := Last(Cd(dir), []);
    } else {
      var token, rest := tokens[0], tokens[1..];
      assert tokens == [token] + rest;
      if token == "&&" {
        s := EndPhrase(done, Cd(dir), And, rest);
      } else {
        s := CdSentence(done, Some(token), rest);
        assert PhraseTokens(Cd(Some(token))) + rest == PhraseTokens(Cd(dir)) + tokens;
      }
    }
  }

  /** A parse that has just committed a phrase with the operator behind it. */
  lemma {:induction false} EndPhrase(done: seq<Node>, phrase: Phrase, op: Node, rest: seq<string>) returns (s: Sentence)
    requires PhraseOk(phrase) && Fits(phrase, op)
    requires ParseFrom(Parser(Begin, None, done + [Before(PhraseNode(phrase), op), op], map[]), rest).Some?
    ensures Grammatical(s) && Tokens(s) == PhraseTokens(phrase) + ([OperatorToken(op)] + rest)
    ensures ParseFrom(Parser(Begin, None, done + [Before(PhraseNode(phrase), op), op], map[]), rest)
         == Some(done + Nodes(s))
    decreases |rest|, 2
  {
    hide EnvAssignment, PhraseTokens, PhraseNode, PhraseOk, ParseFrom, Fits;
    var nodes := [Before(PhraseNode(phrase), op), op];
    assert EnvOf([]) == map[];
    var tail := BeginSentence(done + nodes, [], rest);
    s := More(phrase, op, tail);
    assert [] + rest == rest;
    assert done + nodes + Nodes(tail) == done + (nodes + Nodes(tail));
  }

  /** A parse that stands behind a command's name and some items. */
  lemma {:induction false} CommandSentence(
      done: seq<Node>, assigns: seq<string>, name: string, items: seq<Item>, tokens: seq<string>)
    returns (s: Sentence)
    requires PhraseOk(Simple(assigns, name, items))
    requires ParseFrom(Reading(done, Simple(assigns, name, items)), tokens).Some?
    ensures Grammatical(s) && Tokens(s) == PhraseTokens(Simple(assigns, name, items)) + tokens
    ensures ParseFrom(Reading(done, Simple(assigns, name, items)), tokens) == Some(done + Nodes(s))
    decreases |tokens|, 0
  {
    hide EnvAssignment, PhraseOk, PhraseTokens, PhraseNode, Grammatical, Tokens, Nodes;
    var phrase := Simple(assigns, name, items);
    NodeKind(phrase);
    if tokens == [] || (|tokens| == 1 && tokens[0] in {"<", ">", "2>"}) {
      s := EndOfLine(done, phrase, tokens);
    } else if tokens[0] in {"|", "&&", "||"} {
      var op := if tokens[0] == "|" then Pipe else if tokens[0] == "&&" then And else Or;
      assert tokens == [OperatorToken(op)] + tokens[1..];
      s := EndPhrase(done, phrase, op, tokens[1..]);
    } else {
      var item, rest := NextItem(done, PhraseNode(phrase), tokens);
      MayAddExactly(assigns, name, items, item);
      NodePush(assigns, name, items, item);
      OneItem(done, PhraseNode(phrase), item, rest);
      s := CommandSentence(done, assigns, name, items + [item], rest);
      MoreItems(assigns, name, items, item, rest);
    }
  }

  lemma EndOfLine(done: seq<Node>, phrase: Phrase, tokens: seq<string>) returns (s: Sentence)
    requires PhraseOk(phrase) && phrase.Simple?
    requires tokens == [] || (|tokens| == 1 && tokens[0] in {"<", ">", "2>"})
    ensures Grammatical(s) && Tokens(s) == PhraseTokens(phrase) + tokens
    ensures ParseFrom(Reading(done, phrase), tokens) == Some(done + Nodes(s))
  {
    hide PhraseOk, PhraseTokens;
    s := Last(phrase, tokens);
    if tokens != [] {
      assert tokens == [tokens[0]] && tokens[1..] == [];
    }
  }

  lemma MoreItems(assigns: seq<string>, name: string, items: seq<Item>, item: Item, rest: seq<string>)
    ensures PhraseTokens(Simple(assigns, name, items + [item])) + rest
         == PhraseTokens(Simple(assigns, name, items)) + (ItemTokens(item) + rest)
  {
    NodePush(assigns, name, items, item);
  }

  /** The item that a parse which goes on reads next. */
  lemma NextItem(done: seq<Node>, command: Node, tokens: seq<string>) returns (item: Item, rest: seq<string>)
    requires command.Command? && tokens != [] && tokens[0] !in {"|", "&&", "||"}
    requires |tokens| == 1 ==> tokens[0] !in {"<", ">", "2>"}
    requires ParseFrom(Parser(InCommand, Some(command), done, map[]), tokens).Some?
    ensures tokens == ItemTokens(item) + rest && |rest| < |tokens| && MayAdd(command, item)
  {
    var token := tokens[0];
    if token in {"<", ">", "2>"} {
      var file := tokens[1];
      item := if token == "<" then In(file) else if token == ">" then Out(file) else Err(file);
      rest := tokens[2..];
      assert tokens == [token, file] + rest && tokens[1..] == [file] + rest;
    } else {
      item := if token == "2>&1" then Merge else Word(token);
      rest := tokens[1..];
      assert tokens == [token] + rest;
    }
  }

  /** The parser accepts exactly the sentences of the grammar, with the pipelines they stand for. */
  lemma ParsesSentences(tokens: seq<string>, p: seq<Node>)
    ensures Parse(tokens) == Some(p) <==> exists s :: Grammatical(s) && Tokens(s) == tokens && Nodes(s) == p
  {
    hide Grammatical, Tokens, Nodes, ParseFrom, EnvAssignment;
    if Parse(tokens) == Some(p) {
      assert EnvOf([]) == map[];
      var s := BeginSentence([], [], tokens);
      assert [] + tokens == tokens && [] + Nodes(s) == Nodes(s);
    }
    forall s | Grammatical(s) && Tokens(s) == tokens && Nodes(s) == p ensures Parse(tokens) == Some(p) {
      SentenceParses([], s);
      assert [] + Nodes(s) == Nodes(s);
    }
  }

  // ----- the pipelines of sentences are the well-formed lines

  lemma {:induction false} WordsAreWords(items: seq<Item>)
    requires forall i :: 0 <= i < |items| && items[i].Word? ==> !IsOperatorToken(items[i].word)
    ensures forall k :: 0 <= k < |WordsOf(items)| ==> !IsOperatorToken(WordsOf(items)[k])
  {
    hide IsOperatorToken;
    if items != [] {
      WordsAreWords(items[..|items| - 1]);
    }
  }

  lemma {:induction false} EnvWellFormed(assigns: seq<string>)
    ensures forall k :: k in EnvOf(assigns) ==> IsName(k) && IsValue(EnvOf(assigns)[k])
  {
    hide EnvAssignment, IsName, IsValue;
    if assigns != [] {
      EnvWellFormed(assigns[..|assigns| - 1]);
      if EnvAssignment(assigns[|assigns| - 1]).Some? {
        AssignmentIs(assigns[|assigns| - 1]);
      }
    }
  }

  lemma PhraseSpellable(phrase: Phrase)
    requires PhraseOk(phrase)
    ensures IsSpellable(PhraseNode(phrase)) && EndsLine(PhraseNode(phrase))
  {
    hide EnvAssignment, IsName, IsValue, IsOperatorToken;
    if phrase.Simple? {
      WordsAreWords(phrase.items);
      EnvWellFormed(phrase.assigns);
      UnsetExactly(phrase.items);
    }
  }

  lemma {:induction false} SentenceIsLine(s: Sentence)
    requires Grammatical(s)
    ensures IsLine(Nodes(s))
    decreases s
  {
    hide EnvAssignment, PhraseOk, IsName, IsValue, IsOperatorToken;
    PhraseSpellable(s.phrase);
    if s.More? {
      SentenceIsLine(s.rest);
      assert Nodes(s)[2..] == Nodes(s.rest);
    }
  }

  // ----- and each of them has a sentence

  lemma {:induction false} EnvSpelt(env: map<string, string>) returns (assigns: seq<string>)
    requires forall k :: k in env ==> IsName(k) && IsValue(env[k])
    ensures EnvOf(assigns) == env
    ensures forall i :: 0 <= i < |assigns| ==> EnvAssignment(assigns[i]).Some?
    decreases |env|
  {
    hide EnvAssignment, IsName, IsValue;
    assigns := [];
    if k :| k in env {
      var front := EnvSpelt(env - {k});
      EndsPlain(env[k]);
      AssignmentRead(k, env[k]);
      assigns := front + [k + "=" + env[k]];
      assert assigns[..|front|] == front;
      assert (env - {k})[k := env[k]] == env;
    }
  }

  /** The words of a command as items. */
  lemma {:induction false} WordsSpelt(words: seq<string>) returns (items: seq<Item>)
    requires forall k :: 0 <= k < |words| ==> !IsOperatorToken(words[k])
    ensures WordsOf(items) == words
    ensures forall i :: 0 <= i < |items| ==> items[i].Word? && !IsOperatorToken(items[i].word)
  {
    hide IsOperatorToken;
    items := [];
    if words != [] {
      var front := WordsSpelt(words[..|words| - 1]);
      items := front + [Word(words[|words| - 1])];
      assert items[..|front|] == front;
    }
  }

  /** Adding a redirection that is still free. */
  lemma Redirected(assigns: seq<string>, name: string, items: seq<Item>, redirect: bool, item: Item)
    returns (more: seq<Item>)
    requires PhraseOk(Simple(assigns, name, items))
    requires redirect ==> MayAdd(PhraseNode(Simple(assigns, name, items)), item)
    ensures PhraseOk(Simple(assigns, name, more))
    ensures PhraseNode(Simple(assigns, name, more))
         == if redirect then AddItem(PhraseNode(Simple(assigns, name, items)), item)
            else PhraseNode(Simple(assigns, name, items))
  {
    hide PhraseOk, PhraseNode, MayAdd;
    more := items;
    if redirect {
      MayAddExactly(assigns, name, items, item);
      NodePush(assigns, name, items, item);
      more := items + [item];
    }
  }

  lemma NodeSpelt(node: Node) returns (phrase: Phrase)
    requires IsSpellable(node)
    ensures PhraseOk(phrase)
    ensures PhraseNode(phrase) == if node.Command? && node.stdout.Piped? then node.(stdout := Unset) else node
  {
    hide EnvAssignment, IsOperatorToken, IsName, IsValue;
    if node.Chdir? {
      phrase := Cd(node.dir);
    } else {
      var assigns := EnvSpelt(node.env);
      var words := WordsSpelt(node.argv[1..]);
      UnsetExactly(words);
      var items := Redirections(assigns, node, words);
      phrase := Simple(assigns, node.name, items);
    }
  }

  lemma Redirections(assigns: seq<string>, node: Node, words: seq<Item>) returns (items: seq<Item>)
    requires node.Command? && PhraseOk(Simple(assigns, node.name, words))
    requires PhraseNode(Simple(assigns, node.name, words))
          == node.(stdin := None, stdout := Unset, stderr := ErrUnset)
    ensures PhraseOk(Simple(assigns, node.name, items))
    ensures PhraseNode(Simple(assigns, node.name, items))
         == if node.stdout.Piped? then node.(stdout := Unset) else node
  {
    hide PhraseOk, PhraseNode;
    items := Redirected(assigns, node.name, words, node.stdin.Some?,
                        In(if node.stdin.Some? then node.stdin.value else ""));
    items := Redirected(assigns, node.name, items, node.stdout.ToFile?,
                        Out(if node.stdout.ToFile? then node.stdout.name else ""));
    items := Redirected(assigns, node.name, items, !node.stderr.ErrUnset?,
                        if node.stderr.ErrToFile? then Err(node.stderr.name) else Merge);
  }

  lemma {:induction false} LineSpelt(p: seq<Node>) returns (s: Sentence)
    requires IsLine(p)
    ensures Grammatical(s) && Nodes(s) == p
    decreases |p|
  {
    hide PhraseOk, IsSpellable;
    var phrase := NodeSpelt(p[0]);
    NodeKind(phrase);
    if |p| == 1 {
      s := Last(phrase, []);
    } else {
      var rest := LineSpelt(p[2..]);
      s := More(phrase, p[1], rest);
      assert p == [p[0], p[1]] + p[2..];
    }
  }

  /** The pipelines that parsing can give are exactly the well-formed lines. */
  lemma ParsesExactly(p: seq<Node>)
    ensures IsLine(p) <==> exists tokens :: Parse(tokens) == Some(p)
  {
    hide Grammatical, Tokens, Nodes, IsLine;
    if IsLine(p) {
      var s := LineSpelt(p);
      ParsesSentences(Tokens(s), p);
    }
    forall tokens | Parse(tokens) == Some(p) ensures IsLine(p) {
      ParsesSentences(tokens, p);
      var s :| Grammatical(s) && Tokens(s) == tokens && Nodes(s) == p;
      SentenceIsLine(s);
    }
  }
}
