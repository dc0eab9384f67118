/** The decorative icon the web page shows beside an item: the icon of the first keyword, in table
    order, that occurs in the lower-cased item, or a bullet when none does. */
module Emoji {
  import opened Wrappers
  import opened Text

  /** The keyword table of app.py, in its order (the order of a Python dict literal). */
  const Table: seq<(string, string)> := [
    // Food
    ("pizza", "\U{1F355}"),
    ("burger", "\U{1F354}"),
    ("ramen", "\U{1F35C}"),
    ("noodle", "\U{1F35C}"),
    ("soup", "\U{1F372}"),
    ("rice", "\U{1F35A}"),
    ("fried rice", "\U{1F35B}"),
    ("curry", "\U{1F35B}"),
    ("pasta", "\U{1F35D}"),
    ("sushi", "\U{1F363}"),
    ("taco", "\U{1F32E}"),
    ("chicken", "\U{1F357}"),
    ("tsuivan", "\U{1F35C}"),
    ("khuushuur", "\U{1F95F}"),
    // Movies
    ("matrix", "\U{1F48A}"),
    ("inception", "\U{1F300}"),
    ("pulp fiction", "\U{1F4BC}"),
    ("dark knight", "\U{1F987}"),
    ("interstellar", "\U{1F680}"),
    ("parasite", "\U{1F3E0}"),
    ("spider", "\U{1F577}\U{FE0F}"),
    ("shawshank", "\U{26D3}\U{FE0F}"),
    ("everything everywhere", "\U{1F96F}"),
    ("dune", "\U{1F3DC}\U{FE0F}"),
    // Tasks
    ("clean", "\U{1F9F9}"),
    ("assignment", "\U{1F4DD}"),
    ("cook", "\U{1F468}\U{200D}\U{1F373}"),
    ("shower", "\U{1F6BF}"),
    ("friend", "\U{1F44B}"),
    ("exercise", "\U{1F3CB}\U{FE0F}"),
    ("laundry", "\U{1F9FA}"),
    ("dishes", "\U{1F37D}\U{FE0F}"),
    ("subscription", "\U{1F4B3}"),
    ("walk", "\U{1F6B6}")
  ]

  /** The icon for an item no keyword matches. */
  const Bullet := "\U{2022}"

  const RiceIndex := 5
  const FriedRiceIndex := 6

  /** The index of the first entry of `table` from `from` on whose keyword occurs in `text`. */
  function FirstMatch(table: seq<(string, string)>, text: string, from: nat): (r: Option<nat>)
    requires from <= |table|
    ensures r.None? <==> forall k :: from <= k < |table| ==> !Contains(text, table[k].0)
    ensures r.Some? ==>
      && from <= r.value < |table|
      && Contains(text, table[r.value].0)
      && forall k :: from <= k < r.value ==> !Contains(text, table[k].0)
    decreases |table| - from
  {
    if from == |table| then None
    else if Contains(text, table[from].0) then Some(from)
    else FirstMatch(table, text, from + 1)
  }

  /** The icon of the first entry of `table` whose keyword occurs in `text`, or the bullet. */
  function IconFor(table: seq<(string, string)>, text: string): string
  {
    match FirstMatch(table, text, 0)
    case None => Bullet
    case Some(k) => table[k].1
  }

  /** The icon get_emoji gives an item whose lower-cased form is `text`. */
  function EmojiFor(text: string): string
  {
    IconFor(Table, text)
  }

  /** get_emoji: lower-case the item, then try the keywords in table order. */
  method GetEmoji(item: string) returns (emoji: string)
    ensures emoji == EmojiFor(Lower(item))
  {
    var itemLower := Lower(item);
    emoji := Lookup(Table, itemLower);
  }

  /** The loop of get_emoji: the first entry whose keyword occurs in `text` gives the icon. */
  method Lookup(table: seq<(string, string)>, text: string) returns (emoji: string)
    ensures emoji == IconFor(table, text)
  {
    for k := 0 to |table|
      invariant forall j :: 0 <= j < k ==> !Contains(text, table[j].0)
    {
      var (keyword, icon) := table[k];
      if Contains(text, keyword) {
        FirstMatchAt(table, text, k);
        return icon;
      }
    }
    return Bullet;
  }

  /** No table icon is the bullet, so the bullet means exactly "no keyword matched". */
  lemma {:induction false} BulletIffNoKeyword(text: string)
    ensures EmojiFor(text) == Bullet <==> forall k :: 0 <= k < |Table| ==> !Contains(text, Table[k].0)
  {
    assert forall k :: 0 <= k < |Table| ==> Table[k].1 != Bullet by {
      forall k | 0 <= k < |Table| ensures Table[k].1 != Bullet {
        assert Table[k].1[0] != Bullet[0];
      }
    }
  }

  /** Matching ignores case: an item and its lower-cased form get the same icon. */
  lemma {:induction false} CaseInsensitive(item: string)
    ensures EmojiFor(Lower(Lower(item))) == EmojiFor(Lower(item))
  {
    LowerIdempotent(item);
  }

  /** Items that differ only in the case of ASCII letters get the same icon. */
  lemma {:induction false} CaseIgnored(item: string, other: string)
    requires |item| == |other| && forall k :: 0 <= k < |item| ==> SameUpToCase(item[k], other[k])
    ensures EmojiFor(Lower(item)) == EmojiFor(Lower(other))
  {
    LowerIgnoresCase(item, other);
  }

  /** "rice" comes before "fried rice" and occurs wherever it does, so the "fried rice" entry is
      never the first match. */
  lemma {:induction false} FriedRiceShadowed(text: string)
    ensures FirstMatch(Table, text, 0) != Some(FriedRiceIndex)
  {
    assert Table[RiceIndex].0 == "rice" && Table[FriedRiceIndex].0 == "fried rice";
    if Contains(text, "fried rice") {
      RiceInFriedRice(text);
    }
  }

  lemma {:induction false} RiceInFriedRice(text: string)
    requires Contains(text, "fried rice")
    ensures Contains(text, "rice")
  {
    ContainsSlice(text, "fried rice", 6, 10);
    assert "fried rice"[6..10] == "rice";
  }

  /** An item that mentions "fried rice" gets the rice icon exactly when none of the five keywords
      before "rice" occurs in it, and never the fried-rice one. */
  lemma {:induction false} FriedRiceGetsRice(text: string)
    requires Contains(text, "fried rice")
    ensures EmojiFor(text) == Table[RiceIndex].1 <==> forall k :: 0 <= k < RiceIndex ==> !Contains(text, Table[k].0)
    ensures EmojiFor(text) != Table[FriedRiceIndex].1
  {
    RiceInFriedRice(text);
    assert Table[RiceIndex].0 == "rice";
    var m := FirstMatch(Table, text, 0);
    assert m.Some? && m.value <= RiceIndex;
    if m.value < RiceIndex {
      EarlyIconsDiffer(m.value);
    } else {
      RiceIconDiffers();
    }
  }

  lemma {:induction false} RiceIconDiffers()
    ensures Table[RiceIndex].1 != Table[FriedRiceIndex].1
  {
    assert Table[RiceIndex].1[0] != Table[FriedRiceIndex].1[0];
  }

  /** The icons of pizza, burger, ramen, noodle and soup are neither the rice nor the fried-rice icon. */
  lemma {:induction false} EarlyIconsDiffer(j: nat)
    requires j < RiceIndex
    ensures Table[j].1 != Table[RiceIndex].1 && Table[j].1 != Table[FriedRiceIndex].1
  {
    var rice, curry := Table[RiceIndex].1[0], Table[FriedRiceIndex].1[0];
    assert rice == '\U{1F35A}' && curry == '\U{1F35B}';
    if j == 0 {
      assert Table[0].1[0] == '\U{1F355}';
    } else if j == 1 {
      assert Table[1].1[0] == '\U{1F354}';
    } else if j == 2 {
      assert Table[2].1[0] == '\U{1F35C}';
    } else if j == 3 {
      assert Table[3].1[0] == '\U{1F35C}';
    } else {
      assert Table[4].1[0] == '\U{1F372}';
    }
  }

  /** The first keyword that occurs decides the match. */
  lemma {:induction false} FirstMatchAt(table: seq<(string, string)>, text: string, i: nat)
    requires i < |table| && Contains(text, table[i].0)
    requires forall k :: 0 <= k < i ==> !Contains(text, table[k].0)
    ensures FirstMatch(table, text, 0) == Some(i)
  {
  }
}
