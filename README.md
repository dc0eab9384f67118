# Random Chooser — a verified model of its list collection

Random Chooser keeps named lists of items in one JSON file and picks a random item from a list. It has
two front ends. `random_chooser.py` is a terminal program, run either with arguments (single-shot
mode) or as an interactive prompt. `app.py` is a Streamlit web page. Both load the whole file into a
Python dict from list name to list of items. They change that dict in place and write it back after
every change.

This project models that core in Dafny:

- `Lists` — the collection as a value (`Collection`: the dict, plus its key order, since Python dicts
  keep insertion order and `show_lists` and the web selectboxes show it). It defines `add_item`,
  `remove_item` and `delete_list` as functions on it, the outcomes of `pick_random`, and the lemmas
  relating those operations.
- `Store` — the class `ListStore`, holding the dict the program mutates and the collection last
  written to the file. Its methods are the operations of `random_chooser.py` and the inline button
  handlers of `app.py` (add item, delete item, delete list, pick). Each is proved to produce exactly
  the collection the `Lists` function describes, and to keep the key order consistent with the keys.
- `Tokenizer` — the quote-aware splitting loop of the prompt (`Tokenize`). It is proved equal to a
  reference definition: mark each character, cut at separators, drop empty fields.
- `Commands` and `Cli` — how a token list (prompt) or the argument list (single-shot mode) becomes a
  command, and one step of each mode on the store.
- `Emoji` — `get_emoji`: the icon of the first keyword, in table order, that occurs in the
  lower-cased item, or a bullet.
- `Text` and `Seqs` — the Python built-ins these rely on: `str.strip()`, `str.lower()`,
  `' '.join(...)`, `key in text`, `list.remove(x)` and `x in list`.

Two consequences of the code are worth knowing:

- `random_chooser.py` never checks a list name for emptiness. Neither the interactive prompt nor the web page
  can create a list named "": tokens are never empty, and the web page rejects an empty name.
  Single-shot mode can, though: `random_chooser.py add "" Pizza` creates the list ""
  (`Commands.ArgvAcceptsEmptyName`, `Cli.ArgsMayCreateEmptyName`).
- "rice" comes before "fried rice" in the emoji table, so the "fried rice" entry never matches first
  (`Emoji.FriedRiceShadowed`). An item mentioning "fried rice" gets the rice icon exactly when none of
  the five earlier keywords (pizza, burger, ramen, noodle, soup) also occurs in it
  (`Emoji.FriedRiceGetsRice`). "Pizza fried rice", for instance, gets the pizza icon.

## Model

| member | source | states |
|---|---|---|
| Seqs.RemoveFirst | Project/random_chooser.py:68 | `list.remove(x)`: the result is the list with its first `x` cut out; a list without `x` is returned unchanged |
| Seqs.RemoveFirstCounts | Project/random_chooser.py:68 | removing a present item shortens the list by one and removes exactly one copy (multiset minus one) |
| Seqs.RemoveFirstDistinct | Project/random_chooser.py:68 | removing from a duplicate-free list keeps it duplicate-free, and no copy of the item remains |
| Seqs.RemoveFirstElements | Project/random_chooser.py:68 | every remaining element was in the list, and every element other than the removed one remains |
| Seqs.RemoveFirstAppended | Project/random_chooser.py:55-68 | removing an item that was just appended to a list without it gives the list back |
| Seqs.AppendDistinct | Project/random_chooser.py:52-55 | appending an item the list does not hold keeps it duplicate-free |
| Text.Strip | Project/random_chooser.py:113 | `strip()`: the result is the input with exactly its leading and trailing whitespace cut off (it sits at some position with only whitespace before and after it), neither starts nor ends with whitespace, and is empty exactly when the input is all whitespace |
| Text.LowerChar | Project/random_chooser.py:142 | the lower-case form of one character: an ASCII capital becomes its lower-case letter, the result holds no ASCII capital, and any character outside the handled ones is kept as it is |
| Text.Lower | Project/random_chooser.py:142 | `str.lower()`: the result holds no ASCII capital and is at least as long as the input |
| Text.LowerIgnoresCase | Project/random_chooser.py:142 | strings that differ only in the case of ASCII letters have the same lower-case form |
| Text.LowerIdempotent | Project/random_chooser.py:142 | lower-casing twice equals lower-casing once |
| Text.LowerAppend | Project/random_chooser.py:142 | lower-casing distributes over concatenation |
| Text.LowerKeeps | Project/random_chooser.py:142-144 | a lower-case ASCII word is its own lower-case form |
| Text.Join | Project/random_chooser.py:160 | `' '.join(words)`: empty for no words, the word itself for one word, and starts with the first word |
| Text.JoinAppend | Project/random_chooser.py:160 | joining two non-empty runs of words is joining each and putting one space between them |
| Text.JoinKeeps | Project/random_chooser.py:160 | a character other than the space that no word holds does not occur in the join |
| Text.Contains | Project/app.py:68 | `key in text` holds exactly when `key` occurs at some position of `text` |
| Text.ContainsSlice | Project/app.py:68 | a text containing a string contains every slice of it |
| Lists.AddItem | Project/random_chooser.py:48-57 | the keys gain the name; an item already on the list leaves everything unchanged; otherwise it is appended to the list, which is created empty and added at the end of the key order if new; other lists are untouched; key order consistency, duplicate-free lists and non-empty names are preserved |
| Lists.RemoveItem | Project/random_chooser.py:60-70 | a missing list or item leaves the collection unchanged; otherwise the first occurrence is cut out (one shorter) and no other list or key changes; the invariants are preserved, and on duplicate-free lists the item is gone |
| Lists.DeleteList | Project/random_chooser.py:73-80 | a missing name leaves the collection unchanged; otherwise exactly that key leaves both the dict and the key order, and every other list keeps its items; the invariants are preserved |
| Lists.Listing | Project/random_chooser.py:31-32 | the lists in key order, each paired with its items |
| Lists.PickDetermined | Project/random_chooser.py:36-45 | the kind of outcome of `pick_random` (not found / empty / an item) is determined by the collection, and a non-empty list always has an item to pick |
| Lists.AddThenRemove | Project/random_chooser.py:48-70 | adding a new item to an existing list and then removing it restores the collection |
| Lists.AddThenRemoveNewList | Project/random_chooser.py:48-70 | on a missing list, add then remove leaves that list behind, empty, at the end of the key order |
| Lists.RemoveThenAdd | Project/random_chooser.py:48-70 | removing an item and adding it back keeps the keys, the key order and the list's multiset of items, with the item moved to the end |
| Lists.FirstAdd | Project/random_chooser.py:12-16 | the collection `load_lists` starts from without a data file is well formed, and the first add to it gives one list holding just that item, and only that key |
| Lists.AddTwice | Project/random_chooser.py:48-57 | adding the same item twice equals adding it once |
| Lists.DeleteThenPick | Project/random_chooser.py:36-80 | after `delete_list` the name is gone from the key order and a pick on it reports "not found" |
| Store.ListStore.Load | Project/random_chooser.py:12-16 | the store starts from the collection read from the file, in sync with it |
| Store.ListStore.Save | Project/random_chooser.py:19-21 | after saving, the file holds the in-memory collection |
| Store.ListStore.Entries | Project/random_chooser.py:24-33 | `show_lists`: one entry per key, in key order, with that list's items; empty exactly when there are no lists |
| Store.ListStore.PickRandom | Project/random_chooser.py:36-45 | reports a missing list, an empty list, or an item that is on the list; the collection is unchanged |
| Store.ListStore.AddItem | Project/random_chooser.py:48-57 | the new state is `Lists.AddItem` of the old; "already present" exactly when the item was on the list; the file is written only when an item was added |
| Store.ListStore.RemoveItem | Project/random_chooser.py:60-70 | the new state is `Lists.RemoveItem` of the old; "list not found" and "item not found" exactly in those cases; the file is written only on removal |
| Store.ListStore.DeleteList | Project/random_chooser.py:73-80 | the new state is `Lists.DeleteList` of the old; "not found" exactly when the name was absent; the file is written only on deletion |
| Store.ListStore.WebAddItem | Project/app.py:314-329 | an empty list name, then an empty item, is refused with nothing changed; otherwise the state is `Lists.AddItem` of the old, "already present" exactly when the item was there, and the file is written only on success |
| Store.ListStore.WebDeleteItem | Project/app.py:283-286 | the trash button beside an item removes its first occurrence (`Lists.RemoveItem`) and writes the file |
| Store.ListStore.WebDeleteList | Project/app.py:289-292 | the delete-list button drops that key (`Lists.DeleteList`) and writes the file |
| Store.ListStore.WebPick | Project/app.py:226-234 | a final choice is made exactly when a list is selected and is non-empty, and it is an item of that list |
| Tokenizer.EmptyTokens | Project/random_chooser.py:121-137 | an empty line has no tokens |
| Tokenizer.Tokenize | Project/random_chooser.py:121-137 | the splitting loop returns exactly the reference tokens `Tokens(input)` |
| Tokenizer.TokensShape | Project/random_chooser.py:121-137 | no token is empty and no token contains a double quote |
| Tokenizer.TokenAt | Project/random_chooser.py:121-137 | the same for the token at one index |
| Tokenizer.TokensSpellKept | Project/random_chooser.py:121-137 | concatenated, the tokens are the input without its quotes and without the spaces outside quotes: spaces inside quotes are kept |
| Tokenizer.QuotedPhrase | Project/random_chooser.py:125-137 | a quoted phrase without quotes inside is a single token, spaces and all |
| Tokenizer.PlainWord | Project/random_chooser.py:125-137 | a word without spaces or quotes is a single token |
| Tokenizer.TokensSplit | Project/random_chooser.py:130-133 | a space outside quotes separates the tokens before it from the tokens after it |
| Tokenizer.MarksAppend | Project/random_chooser.py:124-130 | after a part with balanced quotes, the rest is read as if from the start of the line |
| Tokenizer.FieldsAppendSep | Project/random_chooser.py:130-135 | a separator cuts the fields of the marks before it from those after it |
| Commands.Dispatch | Project/random_chooser.py:139-142 | a prompt command is blank exactly when there are no tokens; quit exactly when the lower-cased first token is quit/exit/q; otherwise the lower-cased first token is the command word (`Verb`) or the unknown word; the list name is the second token and the item of `add`/`remove` the rest, joined by spaces |
| Commands.Interpret | Project/random_chooser.py:142-172 | quit exactly for `quit`/`exit`/`q`; a usage error exactly when `pick`/`delete` lack a name or `add`/`remove` lack a name and an item; unknown exactly for a word outside the nine commands; every other command is the one the word names (`Verb(r) == cmd`), with the first argument as name and the rest joined as item |
| Commands.ArgvDispatch | Project/random_chooser.py:180-185 | the prompt starts exactly when there are no arguments; otherwise invalid exactly when the lower-cased first argument with the remaining count is not accepted, and else the command that word names; the list name is the second argument and the item the rest, joined by spaces |
| Commands.InterpretArgs | Project/random_chooser.py:185-200 | invalid exactly unless the word is `help`/`lists`, or `pick`/`delete` with a name, or `add`/`remove` with a name and an item; otherwise the command is the one the word names (`Verb(r) == cmd`), with the first argument as name and the rest joined as item |
| Commands.ModesAgree | Project/random_chooser.py:142-200 | prompt and argument modes read `help`, `lists` and every list command alike; what the prompt treats as quit, a usage error or an unknown word is invalid as arguments, and nothing else is |
| Commands.DispatchNonEmpty | Project/random_chooser.py:139-172 | from non-empty tokens, every command names a non-empty list, and `add`/`remove` carry a non-empty item |
| Commands.AddCommand | Project/random_chooser.py:156-160 | `add name item` is read as adding `item` to `name` in both modes |
| Commands.ArgvAcceptsEmptyName | Project/random_chooser.py:193-194 | single-shot mode reads `add "" item` as adding to the list named "" |
| Commands.CommandCaseInsensitive | Project/random_chooser.py:142 | the command word is matched case-insensitively in both modes |
| Commands.CommandIgnoresCase | Project/random_chooser.py:142-185 | two command words that differ only in the case of ASCII letters select the same command in both modes |
| Commands.UpperCaseQuit | Project/random_chooser.py:142-146 | `QUIT` ends the prompt |
| Commands.UpperCasePick | Project/random_chooser.py:142-192 | `PICK name` picks from `name` in both modes |
| Cli.Apply | Project/random_chooser.py:144-172 | only `add`, `remove` and `delete` change the collection: after `add` the item is on the list, after `remove` (duplicate-free lists) it is not, after `delete` the name is gone, and every other list is untouched |
| Cli.LineCommand | Project/random_chooser.py:113-142 | a line's command is the dispatch of the tokens of the stripped line; it is blank exactly when there are no tokens; the list it names is its second token, non-empty and free of quotes |
| Cli.Execute | Project/random_chooser.py:144-172 | the store's new state is the command applied to the old one; the prompt ends exactly on quit; an item is shown exactly for a pick on an existing non-empty list, and it is an item of that list |
| Cli.RunLine | Project/random_chooser.py:113-172 | one prompt line: strip, tokenize, dispatch, execute; the new state is the line's command applied to the old one; an item is shown exactly when the line picks from an existing non-empty list, and it is an item of that list |
| Cli.RunArgs | Project/random_chooser.py:175-200 | with no arguments the prompt starts; otherwise the new state is the argument command applied to the old one; an item is shown exactly when the arguments pick from an existing non-empty list, and it is an item of that list |
| Cli.PromptKeepsNamesNonEmpty | Project/random_chooser.py:121-172 | no prompt line can create a list with an empty name |
| Cli.ArgsMayCreateEmptyName | Project/random_chooser.py:184-194 | single-shot arguments can create a list named "" |
| Cli.ApplyKeepsInvariants | Project/random_chooser.py:48-80 | every command keeps the key order consistent and every list duplicate-free |
| Cli.QuotedItemExample | Project/random_chooser.py:99 | the help text's example `add food "Pad Thai"` adds the two-word item "Pad Thai" to "food" |
| Cli.JoinedWordsTokens | Project/random_chooser.py:121-137 | plain words joined by single spaces tokenize back to the same words |
| Cli.QuotesOptional | Project/random_chooser.py:121-160 | an item of plain words gives the same `add` command whether its words are tokenized with or without surrounding quotes (`add food Pad Thai` and `add food "Pad Thai"`); the line is taken after stripping |
| Cli.ExampleTokens | Project/random_chooser.py:121-137 | two plain words followed by a quoted phrase are exactly three tokens |
| Emoji.FirstMatch | Project/app.py:67-70 | the first table index from a start position whose keyword occurs in the text; none exactly when no keyword from there on occurs |
| Emoji.Lookup | Project/app.py:67-70 | the loop returns the icon of the first entry whose keyword occurs, or the bullet |
| Emoji.GetEmoji | Project/app.py:24-70 | the icon is that of the first table keyword occurring in the lower-cased item, or the bullet |
| Emoji.FirstMatchAt | Project/app.py:67-69 | a keyword that occurs, with no earlier keyword occurring, is the match |
| Emoji.BulletIffNoKeyword | Project/app.py:67-70 | the bullet is returned exactly when no keyword occurs in the item |
| Emoji.CaseInsensitive | Project/app.py:26 | an item and its lower-cased form get the same icon |
| Emoji.CaseIgnored | Project/app.py:26 | items that differ only in the case of ASCII letters get the same icon |
| Emoji.RiceInFriedRice | Project/app.py:34-35 | a text containing "fried rice" contains "rice" |
| Emoji.FriedRiceShadowed | Project/app.py:34-35 | the "fried rice" entry is never the first match |
| Emoji.FriedRiceGetsRice | Project/app.py:29-35 | an item with "fried rice" gets the rice icon exactly when none of the five keywords before "rice" occurs in it, and never the fried-rice icon |
| Emoji.EarlyIconsDiffer | Project/app.py:29-35 | the pizza, burger, ramen, noodle and soup icons are neither the rice nor the fried-rice icon |
| Emoji.RiceIconDiffers | Project/app.py:34-35 | the rice and fried-rice icons differ |

## Left out

- Seqs.RemoveFirst: Python's `list.remove(x)` raises `ValueError` when `x` is absent, while the model
  returns the list unchanged. No caller reaches that case: `remove_item` checks membership first, and
  the web page removes an item it is iterating over.

- Reading and writing the JSON file. `load_lists` becomes the store's constructor taking the loaded
  collection, and `save_lists` becomes an assignment to the `disk` snapshot. Malformed files and
  write failures are not modelled.
- Printing. Every message of the terminal program and of the web page is not modelled. The
  operations return a status value instead, which says which message would be printed.
- The interactive loop itself (`while True`, `input()`, EOF and Ctrl-C handling) and `main`'s process
  entry. `Cli.RunLine` models one pass of the loop and `Cli.RunArgs` one single-shot run.
- Randomness. `random.choice` is any item of the list (a nondeterministic choice); uniformity is not
  modelled.
- The web page's rendering, CSS, spin animation (`time.sleep` and the intermediate random choices,
  which are display only) and Streamlit's rerun. Also left out: the selectbox's "➕ Create new
  list..." sentinel, and with it the clash when a list has exactly that name. `WebAddItem` takes the
  list name the page resolved.
- `Text.Lower` lower-cases ASCII letters and the two non-ASCII characters whose lower-case form
  contains an ASCII letter (U+0130 and U+212A). Other characters are kept as they are. This is exact
  for comparisons with the ASCII command words and emoji keywords, but not for Python's full
  Unicode `str.lower()`.
- Emoji icons are plain constant strings. Nothing depends on their rendering.
