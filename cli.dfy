/** One step of the command-line program: read a line (interactive mode) or the arguments
    (single-shot mode), turn it into a command and run it on the collection. */
module Cli {
  import opened Wrappers
  import opened Seqs
  import opened Text
  import opened Lists
  import opened Store
  import opened Tokenizer
  import opened Commands

  /** The collection after running `cmd`. Only adding, removing and deleting change it. */
  function Apply(c: Collection, cmd: Command): (r: Collection)
    ensures !(cmd.Add? || cmd.Remove? || cmd.Delete?) ==> r == c
    ensures cmd.Add? ==> Holds(r, cmd.name, cmd.item)
    ensures cmd.Remove? && ItemsDistinct(c) ==> !Holds(r, cmd.name, cmd.item)
    ensures cmd.Delete? ==> cmd.name !in r.lists
    ensures NamesList(cmd) ==> forall n :: n != cmd.name ==>
      && (n in r.lists <==> n in c.lists)
      && (n in c.lists ==> r.lists[n] == c.lists[n])
  {
    match cmd
    case Add(name, item) => Lists.AddItem(c, name, item)
    case Remove(name, item) => Lists.RemoveItem(c, name, item)
    case Delete(name) => Lists.DeleteList(c, name)
    case _ => c
  }

  /** The command typed on one line of the prompt: stripped, then split into tokens. */
  function LineCommand(line: string): (r: Command)
    ensures r == Dispatch(Tokens(Strip(line)))
    ensures r.Blank? <==> Tokens(Strip(line)) == []
    ensures NamesList(r) ==> |Tokens(Strip(line))| >= 2 && r.name == Tokens(Strip(line))[1]
    ensures NamesList(r) ==> r.name != "" && '"' !in r.name
    ensures !r.Invalid? && !r.Interactive?
  {
    var input := Strip(line);
    if input == "" then
      assert Tokens(input) == [] by { EmptyTokens(); }
      Blank
    else
      var parts := Tokens(input);
      TokenAt(input, 1);
      Dispatch(parts)
  }

  /** Run one command on the store; `quit` says whether the prompt ends, `shown` is the item a pick
      reported. */
  method Execute(store: ListStore, cmd: Command) returns (quit: bool, shown: Option<string>)
    requires store.Valid()
    modifies store
    ensures store.Valid()
    ensures store.State() == Apply(old(store.State()), cmd)
    ensures quit <==> cmd.Quit?
    ensures shown.Some? <==> cmd.Pick? && cmd.name in store.lists && store.lists[cmd.name] != []
    ensures shown.Some? ==> cmd.Pick? && IsPick(store.State(), cmd.name, Picked(shown.value))
    ensures old(store.Synced()) ==> store.Synced()
  {
    quit, shown := false, None;
    match cmd {
      case Quit =>
        quit := true;
      case Pick(name) =>
        var p := store.PickRandom(name);
        if p.Picked? {
          shown := Some(p.item);
        }
      case Add(name, item) =>
        var _ := store.AddItem(name, item);
      case Remove(name, item) =>
        var _ := store.RemoveItem(name, item);
      case Delete(name) =>
        var _ := store.DeleteList(name);
      case _ =>
    }
  }

  /** One pass of the interactive loop for the line the user typed. */
  method RunLine(store: ListStore, line: string) returns (quit: bool, shown: Option<string>)
    requires store.Valid()
    modifies store
    ensures store.Valid()
    ensures store.State() == Apply(old(store.State()), LineCommand(line))
    ensures quit <==> LineCommand(line).Quit?
    ensures shown.Some? <==>
      var cmd := LineCommand(line);
      cmd.Pick? && cmd.name in store.lists && store.lists[cmd.name] != []
    ensures shown.Some? ==> IsPick(store.State(), LineCommand(line).name, Picked(shown.value))
    ensures old(store.Synced()) ==> store.Synced()
  {
    var input := Strip(line);
    if input == "" {
      return false, None;
    }
    var parts := Tokenize(input);
    if parts == [] {
      return false, None;
    }
    quit, shown := Execute(store, Dispatch(parts));
  }

  /** A single-shot run with the given arguments. `interactive` says the prompt should start. */
  method RunArgs(store: ListStore, args: seq<string>) returns (interactive: bool, shown: Option<string>)
    requires store.Valid()
    modifies store
    ensures store.Valid()
    ensures store.State() == Apply(old(store.State()), ArgvDispatch(args))
    ensures interactive <==> args == []
    ensures shown.Some? <==>
      var cmd := ArgvDispatch(args);
      cmd.Pick? && cmd.name in store.lists && store.lists[cmd.name] != []
    ensures shown.Some? ==> IsPick(store.State(), ArgvDispatch(args).name, Picked(shown.value))
    ensures old(store.Synced()) ==> store.Synced()
  {
    if args == [] {
      return true, None;
    }
    var quit;
    quit, shown := Execute(store, ArgvDispatch(args));
    interactive := false;
  }

  /** At the prompt, no command can create a list with an empty name, because tokens are never
      empty. */
  lemma {:induction false} PromptKeepsNamesNonEmpty(c: Collection, line: string)
    requires NamesNonEmpty(c)
    ensures NamesNonEmpty(Apply(c, LineCommand(line)))
  {
    var input := Strip(line);
    if input != "" {
      TokensShape(input);
      DispatchNonEmpty(Tokens(input));
    }
  }

  /** In single-shot mode the arguments can create a list named "". */
  lemma {:induction false} ArgsMayCreateEmptyName(c: Collection, item: string)
    ensures "" in Apply(c, ArgvDispatch(["add", "", item])).lists
  {
    ArgvAcceptsEmptyName(item);
  }

  /** Every command keeps the collection well formed and its lists duplicate-free. */
  lemma {:induction false} ApplyKeepsInvariants(c: Collection, cmd: Command)
    requires WellFormed(c) && ItemsDistinct(c)
    ensures WellFormed(Apply(c, cmd)) && ItemsDistinct(Apply(c, cmd))
  {
  }

  /** `add food "Pad Thai"` at the prompt adds the two-word item "Pad Thai" to "food". */
  lemma {:induction false} QuotedItemExample()
    ensures LineCommand("add" + " " + ("food" + " " + ("\"" + "Pad Thai" + "\""))) == Add("food", "Pad Thai")
  {
    var line := "add" + " " + ("food" + " " + ("\"" + "Pad Thai" + "\""));
    ExampleStrip(line);
    ExampleTokens("add", "food", "Pad Thai");
    AddCommand("food", "Pad Thai");
  }

  lemma {:induction false} ExampleStrip(line: string)
    requires line == "add" + " " + ("food" + " " + ("\"" + "Pad Thai" + "\""))
    ensures Strip(line) == line
  {
    assert line[0] == 'a' && line[|line| - 1] == '"';
    assert LeadingSpaces(line) == 0 && TrailingSpaces(line) == 0;
  }

  /** `verb name "some words"`: two plain words and a quoted phrase are three tokens. */
  lemma {:induction false} ExampleTokens(verb: string, name: string, phrase: string)
    requires verb != "" && ' ' !in verb && '"' !in verb
    requires name != "" && ' ' !in name && '"' !in name
    requires phrase != "" && '"' !in phrase
    ensures Tokens(verb + " " + (name + " " + ("\"" + phrase + "\""))) == [verb, name, phrase]
  {
    var rest := name + " " + ("\"" + phrase + "\"");
    NameAndPhrase(name, phrase);
    PlainWord(verb);
    TokensSplit(verb, rest);
    assert [verb] + [name, phrase] == [verb, name, phrase];
  }

  /** Plain words separated by single spaces come back as the same words. */
  lemma {:induction false} JoinedWordsTokens(ws: seq<string>)
    requires forall w :: w in ws ==> w != "" && ' ' !in w && '"' !in w
    ensures Tokens(Join(ws)) == ws
  {
    if ws == [] {
      EmptyTokens();
    } else if |ws| == 1 {
      assert ws[0] in ws;
      PlainWord(ws[0]);
    } else {
      var w, rest := ws[0], ws[1..];
      assert w in ws;
      assert forall v :: v in rest ==> v in ws;
      JoinedWordsTokens(rest);
      PlainWord(w);
      assert !InQuotes(w);
      assert Join(ws) == w + " " + Join(rest);
      TokensSplit(w, Join(rest));
      HeadSplit(ws);
    }
  }

  /** Once the line is stripped, an item of several plain words tokenizes to the same command with or
      without surrounding quotes: `add food Pad Thai` and `add food "Pad Thai"` add the same item.
      (Stripping can still tell them apart: it removes trailing whitespace only outside quotes.) */
  lemma {:induction false} QuotesOptional(name: string, words: seq<string>)
    requires name != "" && ' ' !in name && '"' !in name
    requires words != [] && forall w :: w in words ==> w != "" && ' ' !in w && '"' !in w
    ensures Dispatch(Tokens("add" + " " + (name + " " + Join(words)))) == Add(name, Join(words))
    ensures Dispatch(Tokens("add" + " " + (name + " " + ("\"" + Join(words) + "\"")))) == Add(name, Join(words))
  {
    var all := ["add", name] + words;
    assert all[1..] == [name] + words;
    assert ([name] + words)[1..] == words;
    JoinedWordsTokens(all);
    assert words[0] in words;
    JoinKeeps(words, '"');
    ExampleTokens("add", name, Join(words));
    AddCommand(name, Join(words));
    LowerKeeps("add");
    assert all[0] == "add" && all[1..][0] == name && all[1..][1..] == words;
  }

  lemma {:induction false} NameAndPhrase(name: string, phrase: string)
    requires name != "" && ' ' !in name && '"' !in name
    requires phrase != "" && '"' !in phrase
    ensures Tokens(name + " " + ("\"" + phrase + "\"")) == [name, phrase]
  {
    PlainWord(name);
    QuotedPhrase(phrase);
    TokensSplit(name, "\"" + phrase + "\"");
    assert [name] + [phrase] == [name, phrase];
  }
}
