/** The in-memory collection that both front ends mutate in place: the dict `lists`, whose key
    order is kept in `names`, and `disk`, the collection as last written by `save_lists`.
    The first group of methods is random_chooser.py's functions; the second is the inline
    button handlers of app.py, which act on the same dict. */
module Store {
  import opened Wrappers
  import opened Seqs
  import opened Lists

  datatype AddStatus = Added | AlreadyPresent
  datatype RemoveStatus = Removed | RemoveListNotFound | ItemNotFound
  datatype DeleteStatus = Deleted | DeleteListNotFound
  datatype WebAddStatus = WebAdded | MissingListName | MissingItem | WebAlreadyPresent

  class ListStore {
    var lists: map<string, seq<string>>
    var names: seq<string>
    var disk: Collection

    /** The collection as the program sees it. */
    function State(): Collection
      reads this
    {
      Collection(lists, names)
    }

    ghost predicate Valid()
      reads this
    {
      WellFormed(State())
    }

    /** The collection in memory is the one last written to the file. */
    ghost predicate Synced()
      reads this
    {
      disk == State()
    }

    /** load_lists: start from the collection read from the file. */
    constructor Load(saved: Collection)
      requires WellFormed(saved)
      ensures Valid() && Synced() && State() == saved
    {
      lists := saved.lists;
      names := saved.names;
      disk := saved;
    }

    /** save_lists: write the whole collection back. */
    method Save()
      modifies this`disk
      ensures Synced()
    {
      disk := State();
    }

    /** show_lists: every list with its items, in key order; empty exactly when there are no lists. */
    function Entries(): (r: seq<(string, seq<string>)>)
      reads this
      requires Valid()
      ensures |r| == |names|
      ensures forall i :: 0 <= i < |r| ==> r[i].0 == names[i] && r[i].0 in lists && r[i].1 == lists[r[i].0]
      ensures r == [] <==> lists == map[]
    {
      if names == [] then
        assert forall n :: n !in lists;
        []
      else
        assert names[0] in lists;
        Listing(lists, names)
    }

    /** pick_random: report a missing or empty list, or choose any item of the list. The collection
        is not changed and nothing is saved. */
    method PickRandom(name: string) returns (p: Pick)
      ensures IsPick(State(), name, p)
    {
      if name !in lists {
        return ListNotFound;
      }
      var items := lists[name];
      if items == [] {
        return EmptyList;
      }
      var k :| 0 <= k < |items|;
      p := Picked(items[k]);
    }

    /** add_item */
    method AddItem(name: string, item: string) returns (status: AddStatus)
      requires Valid()
      modifies this
      ensures Valid()
      ensures State() == Lists.AddItem(old(State()), name, item)
      ensures status == AlreadyPresent <==> Holds(old(State()), name, item)
      ensures disk == if status == Added then State() else old(disk)
    {
      if name !in lists {
        lists := lists[name := []];
        names := names + [name];
      }
      if item in lists[name] {
        return AlreadyPresent;
      }
      lists := lists[name := lists[name] + [item]];
      Save();
      status := Added;
    }

    /** remove_item */
    method RemoveItem(name: string, item: string) returns (status: RemoveStatus)
      requires Valid()
      modifies this
      ensures Valid()
      ensures State() == Lists.RemoveItem(old(State()), name, item)
      ensures status == RemoveListNotFound <==> name !in old(lists)
      ensures status == ItemNotFound <==> name in old(lists) && item !in old(lists)[name]
      ensures disk == if status == Removed then State() else old(disk)
    {
      if name !in lists {
        return RemoveListNotFound;
      }
      if item !in lists[name] {
        return ItemNotFound;
      }
      lists := lists[name := RemoveFirst(lists[name], item)];
      Save();
      status := Removed;
    }

    /** delete_list */
    method DeleteList(name: string) returns (status: DeleteStatus)
      requires Valid()
      modifies this
      ensures Valid()
      ensures State() == Lists.DeleteList(old(State()), name)
      ensures status == DeleteListNotFound <==> name !in old(lists)
      ensures disk == if status == Deleted then State() else old(disk)
    {
      if name !in lists {
        return DeleteListNotFound;
      }
      ghost var before := State();
      lists := lists - {name};
      names := RemoveFirst(names, name);
      assert State() == Lists.DeleteList(before, name);
      Save();
      status := Deleted;
    }

    /** The web "Add Item" button: an empty list name or an empty item is refused; otherwise the
        list is created if missing and the item appended unless already there. */
    method WebAddItem(listName: string, newItem: string) returns (status: WebAddStatus)
      requires Valid()
      modifies this
      ensures Valid()
      ensures status == MissingListName <==> listName == ""
      ensures status == MissingItem <==> listName != "" && newItem == ""
      ensures status == WebAlreadyPresent <==> listName != "" && newItem != "" && Holds(old(State()), listName, newItem)
      ensures State() == if listName == "" || newItem == "" then old(State())
                         else Lists.AddItem(old(State()), listName, newItem)
      ensures disk == if status == WebAdded then State() else old(disk)
    {
      if listName == "" {
        return MissingListName;
      }
      if newItem == "" {
        return MissingItem;
      }
      if listName !in lists {
        lists := lists[listName := []];
        names := names + [listName];
      }
      if newItem in lists[listName] {
        return WebAlreadyPresent;
      }
      lists := lists[listName := lists[listName] + [newItem]];
      Save();
      status := WebAdded;
    }

    /** The trash button shown beside an item of a list: remove that item's first occurrence. */
    method WebDeleteItem(listName: string, item: string)
      requires Valid()
      requires listName in lists && item in lists[listName]
      modifies this
      ensures Valid() && Synced()
      ensures State() == Lists.RemoveItem(old(State()), listName, item)
    {
      lists := lists[listName := RemoveFirst(lists[listName], item)];
      Save();
    }

    /** The "Delete entire list" button shown under a list: drop that key. */
    method WebDeleteList(listName: string)
      requires Valid()
      requires listName in lists
      modifies this
      ensures Valid() && Synced()
      ensures State() == Lists.DeleteList(old(State()), listName)
    {
      ghost var before := State();
      lists := lists - {listName};
      names := RemoveFirst(names, listName);
      assert State() == Lists.DeleteList(before, listName);
      Save();
    }

    /** The "Pick Random!" button for the list chosen in the selectbox: a final choice is made only for
        a non-empty (and non-empty-named) list, and it is an item of that list. */
    method WebPick(selected: string) returns (finalChoice: Option<string>)
      requires selected in lists
      ensures finalChoice.Some? <==> selected != "" && lists[selected] != []
      ensures finalChoice.Some? ==> finalChoice.value in lists[selected]
    {
      if selected == "" {
        return None;
      }
      var items := lists[selected];
      if items == [] {
        return None;
      }
      var k :| 0 <= k < |items|;
      finalChoice := Some(items[k]);
    }
  }
}
