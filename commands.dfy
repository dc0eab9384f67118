/** How a line of tokens (interactive mode) or the program arguments (single-shot mode) are turned
    into a command. The command word is lower-cased; the item of `add` and `remove` is every
    remaining word joined by single spaces. */
module Commands {
  import opened Text

  datatype Command =
    | Blank                             // nothing to do: an empty line, or one with no tokens
    | Quit
    | Help
    | ShowLists
    | Pick(name: string)
    | Add(name: string, item: string)
    | Remove(name: string, item: string)
    | Delete(name: string)
    | Usage(verb: string)                // interactive: a known verb with too few arguments
    | Unknown(word: string)              // interactive: an unknown command word, lower-cased
    | Invalid                            // single-shot: anything it does not accept
    | Interactive                        // single-shot with no arguments: start the prompt

  /** The command word that selects `c`; "" for the commands no single word selects. */
  function Verb(c: Command): string
  {
    match c
    case Help => "help"
    case ShowLists => "lists"
    case Pick(_) => "pick"
    case Add(_, _) => "add"
    case Remove(_, _) => "remove"
    case Delete(_) => "delete"
    case Usage(verb) => verb
    case _ => ""
  }

  /** The command of one interactive line, from its tokens: nothing for no tokens; otherwise the
      lower-cased first token selects the command, the list name is the second token and the item of
      `add` and `remove` is the rest, joined by spaces. */
  function Dispatch(parts: seq<string>): (r: Command)
    ensures r.Blank? <==> parts == []
    ensures parts != [] ==> r == Interpret(Lower(parts[0]), parts[1..])
    ensures r.Quit? <==> parts != [] && (Lower(parts[0]) == "quit" || Lower(parts[0]) == "exit" || Lower(parts[0]) == "q")
    ensures r.Help? || r.ShowLists? || NamesList(r) || r.Usage? ==> Verb(r) == Lower(parts[0])
    ensures r.Unknown? ==> r.word == Lower(parts[0])
    ensures NamesList(r) ==> |parts| >= 2 && r.name == parts[1]
    ensures r.Add? || r.Remove? ==> |parts| >= 3 && r.item == Join(parts[2..])
  {
    if parts == [] then Blank
    else
      assert |parts| >= 2 ==> parts[1..][0] == parts[1];
      assert |parts| >= 3 ==> parts[1..][1..] == parts[2..];
      Interpret(Lower(parts[0]), parts[1..])
  }

  /** The prompt's reading of the lower-cased command word `cmd` followed by `args`: a list command
      needs one argument (`pick`, `delete`) or two (`add`, `remove`) and otherwise is a usage error;
      a word that is none of the nine commands is unknown. */
  function Interpret(cmd: string, args: seq<string>): (r: Command)
    ensures r.Quit? <==> cmd == "quit" || cmd == "exit" || cmd == "q"
    ensures r.Usage? <==>
      || ((cmd == "pick" || cmd == "delete") && |args| < 1)
      || ((cmd == "add" || cmd == "remove") && |args| < 2)
    ensures r.Unknown? <==> !IsCommandWord(cmd)
    ensures r.Unknown? ==> r.word == cmd
    ensures r.Help? || r.ShowLists? || NamesList(r) || r.Usage? ==> Verb(r) == cmd
    ensures NamesList(r) ==> |args| >= 1 && r.name == args[0]
    ensures r.Add? || r.Remove? ==> |args| >= 2 && r.item == Join(args[1..])
    ensures !r.Blank? && !r.Invalid? && !r.Interactive?
  {
    if cmd == "quit" || cmd == "exit" || cmd == "q" then Quit
    else if cmd == "help" then Help
    else if cmd == "lists" then ShowLists
    else if cmd == "pick" then
      if |args| < 1 then Usage("pick") else Pick(args[0])
    else if cmd == "add" then
      if |args| < 2 then Usage("add") else Add(args[0], Join(args[1..]))
    else if cmd == "remove" then
      if |args| < 2 then Usage("remove") else Remove(args[0], Join(args[1..]))
    else if cmd == "delete" then
      if |args| < 1 then Usage("delete") else Delete(args[0])
    else Unknown(cmd)
  }

  /** The nine command words of the prompt. */
  predicate IsCommandWord(cmd: string)
  {
    || cmd == "quit" || cmd == "exit" || cmd == "q" || cmd == "help" || cmd == "lists"
    || cmd == "pick" || cmd == "add" || cmd == "remove" || cmd == "delete"
  }

  /** The command of a single-shot run, from the program arguments: the prompt for no arguments;
      otherwise the lower-cased first argument selects the command, the list name is the second
      argument and the item the rest, joined by spaces. */
  function ArgvDispatch(args: seq<string>): (r: Command)
    ensures r.Interactive? <==> args == []
    ensures args != [] ==> r == InterpretArgs(Lower(args[0]), args[1..])
    ensures args != [] ==> (r.Invalid? <==> !ArgvAccepts(Lower(args[0]), |args| - 1))
    ensures r.Help? || r.ShowLists? || NamesList(r) ==> Verb(r) == Lower(args[0])
    ensures NamesList(r) ==> |args| >= 2 && r.name == args[1]
    ensures r.Add? || r.Remove? ==> |args| >= 3 && r.item == Join(args[2..])
  {
    if args == [] then Interactive
    else
      assert |args| >= 2 ==> args[1..][0] == args[1];
      assert |args| >= 3 ==> args[1..][1..] == args[2..];
      InterpretArgs(Lower(args[0]), args[1..])
  }

  /** Whether a single-shot run accepts the command word `cmd` with `n` further arguments. */
  predicate ArgvAccepts(cmd: string, n: nat)
  {
    || cmd == "help" || cmd == "lists"
    || ((cmd == "pick" || cmd == "delete") && n >= 1)
    || ((cmd == "add" || cmd == "remove") && n >= 2)
  }

  /** The single-shot reading of the lower-cased command word `cmd` followed by `args`: `help` and
      `lists`, or a list command with enough arguments; anything else is invalid. */
  function InterpretArgs(cmd: string, args: seq<string>): (r: Command)
    ensures r.Invalid? <==> !ArgvAccepts(cmd, |args|)
    ensures NamesList(r) ==> |args| >= 1 && r.name == args[0]
    ensures r.Add? || r.Remove? ==> |args| >= 2 && r.item == Join(args[1..])
    ensures r.Invalid? || r.Help? || r.ShowLists? || NamesList(r)
    ensures !r.Invalid? ==> Verb(r) == cmd
  {
    if cmd == "help" then Help
    else if cmd == "lists" then ShowLists
    else if cmd == "pick" && |args| >= 1 then Pick(args[0])
    else if cmd == "add" && |args| >= 2 then Add(args[0], Join(args[1..]))
    else if cmd == "remove" && |args| >= 2 then Remove(args[0], Join(args[1..]))
    else if cmd == "delete" && |args| >= 1 then Delete(args[0])
    else Invalid
  }

  /** The list name a command acts on, if any. */
  predicate NamesList(c: Command)
  {
    c.Pick? || c.Add? || c.Remove? || c.Delete?
  }

  /** The two modes agree on every command the single-shot mode accepts; what the prompt treats as
      quitting, a usage error or an unknown word is simply invalid as arguments. */
  lemma {:induction false} ModesAgree(words: seq<string>)
    requires words != []
    ensures var i, a := Dispatch(words), ArgvDispatch(words);
      && (i.Help? || i.ShowLists? || NamesList(i) ==> a == i)
      && (i.Quit? || i.Usage? || i.Unknown? ==> a == Invalid)
      && (a.Invalid? <==> i.Quit? || i.Usage? || i.Unknown?)
  {
  }

  /** A command the prompt reads from non-empty tokens names a non-empty list, and its item is
      non-empty too. */
  lemma {:induction false} DispatchNonEmpty(parts: seq<string>)
    requires forall t :: t in parts ==> t != ""
    ensures var c := Dispatch(parts);
      && (NamesList(c) ==> c.name != "")
      && (c.Add? || c.Remove? ==> c.item != "")
  {
    if |parts| >= 3 {
      assert parts[1..][1..][0] == parts[2];
      assert parts[2] in parts;
    }
    if |parts| >= 2 {
      assert parts[1..][0] == parts[1];
      assert parts[1] in parts;
    }
  }

  /** The single-shot mode does not check for an empty list name: `add "" x` names the list "". */
  lemma {:induction false} ArgvAcceptsEmptyName(item: string)
    ensures ArgvDispatch(["add", "", item]) == Add("", item)
  {
    AddCommand("", item);
  }

  /** `add name item` with a one-word item is read the same way in both modes. */
  lemma {:induction false} AddCommand(name: string, item: string)
    ensures Dispatch(["add", name, item]) == Add(name, item)
    ensures ArgvDispatch(["add", name, item]) == Add(name, item)
  {
    LowerKeeps("add");
    assert ["add", name, item][1..] == [name, item];
    assert [name, item][1..] == [item];
  }

  /** The command word is matched case-insensitively. */
  lemma {:induction false} CommandCaseInsensitive(word: string, rest: seq<string>)
    ensures Dispatch([word] + rest) == Dispatch([Lower(word)] + rest)
    ensures ArgvDispatch([word] + rest) == ArgvDispatch([Lower(word)] + rest)
  {
    LowerIdempotent(word);
    assert ([word] + rest)[1..] == rest == ([Lower(word)] + rest)[1..];
  }

  /** Two command words that differ only in the case of ASCII letters select the same command in
      both modes. */
  lemma {:induction false} CommandIgnoresCase(word: string, other: string, rest: seq<string>)
    requires |word| == |other| && forall k :: 0 <= k < |word| ==> SameUpToCase(word[k], other[k])
    ensures Dispatch([word] + rest) == Dispatch([other] + rest)
    ensures ArgvDispatch([word] + rest) == ArgvDispatch([other] + rest)
  {
    LowerIgnoresCase(word, other);
    assert ([word] + rest)[1..] == rest == ([other] + rest)[1..];
  }

  /** `QUIT` ends the prompt, as `quit` does. */
  lemma {:induction false} UpperCaseQuit()
    ensures Dispatch(["QUIT"]) == Quit
  {
    LowerQuit();
  }

  lemma {:induction false} LowerQuit()
    ensures Lower("QUIT") == "quit"
  {
    LowerIgnoresCase("QUIT", "quit");
    LowerKeeps("quit");
  }

  /** `PICK name` picks from `name` in both modes, as `pick name` does. */
  lemma {:induction false} UpperCasePick(name: string)
    ensures Dispatch(["PICK", name]) == Pick(name) && ArgvDispatch(["PICK", name]) == Pick(name)
  {
    LowerPick();
    assert ["PICK", name][1..] == [name];
  }

  lemma {:induction false} LowerPick()
    ensures Lower("PICK") == "pick"
  {
    LowerIgnoresCase("PICK", "pick");
    LowerKeeps("pick");
  }
}
