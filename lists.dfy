/** The list collection as a value: a Python dict from list name to its items, together with the
    dict's key order (insertion order, which `show_lists` and the web selectboxes expose).
    Each function gives the new collection after one operation of random_chooser.py. */
module Lists {
  import opened Seqs

  datatype Collection = Collection(lists: map<string, seq<string>>, names: seq<string>)

  /** The collection load_lists returns when there is no data file. */
  const Empty := Collection(map[], [])

  /** The key order lists every key exactly once. */
  ghost predicate WellFormed(c: Collection)
  {
    && Distinct(c.names)
    && (forall n :: n in c.lists <==> n in c.names)
  }

  /** No list holds the same item twice. */
  predicate ItemsDistinct(c: Collection)
  {
    forall n :: n in c.lists ==> Distinct(c.lists[n])
  }

  /** No list is called "". */
  predicate NamesNonEmpty(c: Collection)
  {
    forall n :: n in c.lists ==> n != ""
  }

  /** `item` is already on the list `name`: the case in which adding is refused. */
  predicate Holds(c: Collection, name: string, item: string)
  {
    name in c.lists && item in c.lists[name]
  }

  /** add_item: create the list if it is missing, then append the item unless it is already there. */
  function AddItem(c: Collection, name: string, item: string): (r: Collection)
    ensures r.lists.Keys == c.lists.Keys + {name}
    ensures Holds(c, name, item) ==> r == c
    ensures !Holds(c, name, item) ==>
      r.lists[name] == (if name in c.lists then c.lists[name] else []) + [item]
    ensures forall n :: n in c.lists && n != name ==> r.lists[n] == c.lists[n]
    ensures r.names == if name in c.lists then c.names else c.names + [name]
    ensures WellFormed(c) ==> WellFormed(r)
    ensures ItemsDistinct(c) ==> ItemsDistinct(r)
    ensures NamesNonEmpty(c) && name != "" ==> NamesNonEmpty(r)
  {
    var created := if name in c.lists then c else Collection(c.lists[name := []], c.names + [name]);
    if item in created.lists[name] then created
    else
      AppendDistinct(created.lists[name], item);
      AppendDistinct(c.names, name);
      Collection(created.lists[name := created.lists[name] + [item]], created.names)
  }

  /** remove_item: take the first occurrence of the item off the list; a missing list or a missing
      item leaves the collection as it is. */
  function RemoveItem(c: Collection, name: string, item: string): (r: Collection)
    ensures r.lists.Keys == c.lists.Keys && r.names == c.names
    ensures !Holds(c, name, item) ==> r == c
    ensures Holds(c, name, item) ==>
      var s, i := c.lists[name], IndexOf(c.lists[name], item);
      && |r.lists[name]| == |s| - 1
      && r.lists[name] == s[..i] + s[i + 1..]
    ensures forall n :: n in c.lists && n != name ==> r.lists[n] == c.lists[n]
    ensures WellFormed(c) ==> WellFormed(r)
    ensures ItemsDistinct(c) ==> ItemsDistinct(r)
    ensures ItemsDistinct(c) && name in c.lists ==> item !in r.lists[name]
    ensures NamesNonEmpty(c) ==> NamesNonEmpty(r)
  {
    if !Holds(c, name, item) then c
    else
      var s := c.lists[name];
      var t := RemoveFirst(s, item);
      RemoveFirstCounts(s, item);
      RemoveFirstDistinct(s, item);
      var r := Collection(c.lists[name := t], c.names);
      assert r.lists.Keys == c.lists.Keys;
      assert ItemsDistinct(c) ==> ItemsDistinct(r) by {
        if ItemsDistinct(c) {
          forall n | n in r.lists ensures Distinct(r.lists[n]) {
            if n != name { assert r.lists[n] == c.lists[n]; }
          }
        }
      }
      r
  }

  /** delete_list: drop the key and its items; a missing name leaves the collection as it is. */
  function DeleteList(c: Collection, name: string): (r: Collection)
    ensures name !in c.lists ==> r == c
    ensures name !in r.lists
    ensures r.lists.Keys == c.lists.Keys - {name}
    ensures forall n :: n in r.lists ==> r.lists[n] == c.lists[n]
    ensures WellFormed(c) && name in c.lists ==>
      var i := IndexOf(c.names, name);
      r.names == c.names[..i] + c.names[i + 1..]
    ensures WellFormed(c) ==> WellFormed(r)
    ensures ItemsDistinct(c) ==> ItemsDistinct(r)
    ensures NamesNonEmpty(c) ==> NamesNonEmpty(r)
  {
    if name !in c.lists then c
    else
      var r := Collection(c.lists - {name}, RemoveFirst(c.names, name));
      assert r.lists.Keys == c.lists.Keys - {name};
      DeleteKeepsWellFormed(c, name, r);
      r
  }

  lemma {:induction false} DeleteKeepsWellFormed(c: Collection, name: string, r: Collection)
    requires r == Collection(c.lists - {name}, RemoveFirst(c.names, name))
    ensures WellFormed(c) ==> WellFormed(r)
  {
    if WellFormed(c) {
      RemoveFirstDistinct(c.names, name);
      RemoveFirstElements(c.names, name);
      forall n ensures n in r.lists <==> n in r.names {
        assert n in r.lists <==> n in c.lists && n != name;
      }
    }
  }

  /** The lists named by `names`, in that order, each with its items. */
  function Listing(lists: map<string, seq<string>>, names: seq<string>): (r: seq<(string, seq<string>)>)
    requires forall n :: n in names ==> n in lists
    ensures |r| == |names|
    ensures forall i :: 0 <= i < |r| ==> r[i].0 == names[i] && r[i].0 in lists && r[i].1 == lists[r[i].0]
  {
    if names == [] then []
    else [(names[0], lists[names[0]])] + Listing(lists, names[1..])
  }

  /** Starting from no data file: the first add creates a one-item list and the only key. */
  lemma {:induction false} FirstAdd(name: string, item: string)
    ensures WellFormed(Empty) && ItemsDistinct(Empty)
    ensures AddItem(Empty, name, item) == Collection(map[name := [item]], [name])
  {
    var r := AddItem(Empty, name, item);
    assert r.lists.Keys == {name} && r.lists[name] == [item];
    assert r.lists == map[name := [item]];
  }

  /** The outcome of pick_random. */
  datatype Pick = ListNotFound | EmptyList | Picked(item: string)

  /** What pick_random may report for `name`: the list is missing, it is empty, or an item of it. */
  predicate IsPick(c: Collection, name: string, p: Pick)
  {
    match p
    case ListNotFound => name !in c.lists
    case EmptyList => name in c.lists && c.lists[name] == []
    case Picked(item) => name in c.lists && item in c.lists[name]
  }

  /** Exactly one kind of outcome is possible for each name, and a picked item always exists
      for a non-empty list. */
  lemma {:induction false} PickDetermined(c: Collection, name: string, p: Pick, q: Pick)
    requires IsPick(c, name, p) && IsPick(c, name, q)
    ensures p.ListNotFound? == q.ListNotFound? && p.EmptyList? == q.EmptyList?
    ensures name in c.lists && c.lists[name] != [] ==> IsPick(c, name, Picked(c.lists[name][0]))
  {
  }

  /** Adding a new item and then removing it restores the collection, when the list already existed. */
  lemma {:induction false} AddThenRemove(c: Collection, name: string, item: string)
    requires name in c.lists && item !in c.lists[name]
    ensures RemoveItem(AddItem(c, name, item), name, item) == c
  {
    var s := c.lists[name];
    RemoveFirstAppended(s, item);
    assert c.lists[name := RemoveFirst(s + [item], item)] == c.lists;
  }

  /** On a list that did not exist, adding then removing leaves that list behind, empty, at the end of
      the key order. */
  lemma {:induction false} AddThenRemoveNewList(c: Collection, name: string, item: string)
    requires name !in c.lists
    ensures RemoveItem(AddItem(c, name, item), name, item) == Collection(c.lists[name := []], c.names + [name])
  {
    RemoveFirstAppended([], item);
  }

  /** Removing an item and adding it back gives the same items, now with that item last. */
  lemma {:induction false} RemoveThenAdd(c: Collection, name: string, item: string)
    requires ItemsDistinct(c) && Holds(c, name, item)
    ensures var r := AddItem(RemoveItem(c, name, item), name, item);
      r.lists.Keys == c.lists.Keys && r.names == c.names
    ensures var r := AddItem(RemoveItem(c, name, item), name, item);
      r.lists[name] == RemoveFirst(c.lists[name], item) + [item]
    ensures var r := AddItem(RemoveItem(c, name, item), name, item);
      multiset(r.lists[name]) == multiset(c.lists[name])
  {
    var s := c.lists[name];
    var removed := RemoveItem(c, name, item);
    assert removed.lists[name] == RemoveFirst(s, item);
    assert !Holds(removed, name, item);
    RemoveFirstMovesLast(s, item);
  }

  /** Adding the same item twice is the same as adding it once. */
  lemma {:induction false} AddTwice(c: Collection, name: string, item: string)
    ensures AddItem(AddItem(c, name, item), name, item) == AddItem(c, name, item)
  {
  }

  /** After delete_list the name is gone from the key order and a pick reports it as not found. */
  lemma {:induction false} DeleteThenPick(c: Collection, name: string, p: Pick)
    requires WellFormed(c)
    requires IsPick(DeleteList(c, name), name, p)
    ensures p == ListNotFound && name !in DeleteList(c, name).names
  {
  }
}
