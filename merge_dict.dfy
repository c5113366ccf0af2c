/** The merge dictionary: for each (merge name, region rank) key, in the
    order keys were first added, the file names merged under it
    (`addGameFileLocationToDict` and `getGameLocation`). */
module MergeDicts {

  import opened Wrappers

  type Key = (string, nat)

  /** Keys in insertion order, each listed once, exactly the keys of the map. */
  predicate Consistent(keys: seq<Key>, lists: map<Key, seq<string>>) {
    && (forall i, j | 0 <= i < j < |keys| :: keys[i] != keys[j])
    && (forall i | 0 <= i < |keys| :: keys[i] in lists)
    && (forall k | k in lists :: k in keys)
  }

  /** The key order after adding `key`: appended when it is new. */
  function AddedKeys(keys: seq<Key>, lists: map<Key, seq<string>>, key: Key): seq<Key> {
    if key in lists then keys else keys + [key]
  }

  /** The lists after adding `game` under `key`: appended at the end of its
      list, which starts empty for a new key. */
  function AddedLists(lists: map<Key, seq<string>>, key: Key, game: string): map<Key, seq<string>> {
    lists[key := (if key in lists then lists[key] else []) + [game]]
  }

  /** Index of the first key, from `i` on, whose list holds `game`. */
  function HolderFrom(keys: seq<Key>, lists: map<Key, seq<string>>, game: string, i: nat): (r: Option<nat>)
    requires i <= |keys|
    requires forall j | 0 <= j < |keys| :: keys[j] in lists
    ensures r.Some? ==> i <= r.value < |keys| && game in lists[keys[r.value]]
    ensures r.Some? ==> forall j | i <= j < r.value :: game !in lists[keys[j]]
    ensures r.None? ==> forall j | i <= j < |keys| :: game !in lists[keys[j]]
    decreases |keys| - i
  {
    if i == |keys| then None
    else if game in lists[keys[i]] then Some(i)
    else HolderFrom(keys, lists, game, i + 1)
  }

  /** `getGameLocation(game)` on a dictionary given by its key order and
      lists: the merge name of the first key whose list holds `game`. */
  function Locate(keys: seq<Key>, lists: map<Key, seq<string>>, game: string): (r: Option<string>)
    requires forall j | 0 <= j < |keys| :: keys[j] in lists
    ensures r.None? <==> forall j | 0 <= j < |keys| :: game !in lists[keys[j]]
    ensures r.Some? ==> exists j | 0 <= j < |keys| ::
      && game in lists[keys[j]] && keys[j].0 == r.value
      && forall l | 0 <= l < j :: game !in lists[keys[l]]
  {
    match HolderFrom(keys, lists, game, 0)
    case None => None
    case Some(j) => Some(keys[j].0)
  }

  /** Adding keeps the key order and the map in step. */
  lemma AddKeepsConsistent(keys: seq<Key>, lists: map<Key, seq<string>>, key: Key, game: string)
    requires Consistent(keys, lists)
    ensures Consistent(AddedKeys(keys, lists, key), AddedLists(lists, key, game))
  {
    var ks, ls := AddedKeys(keys, lists, key), AddedLists(lists, key, game);
    forall k | k in ls ensures k in ks {
      if k != key {
        assert k in lists;
      } else {
        assert ks[|ks| - 1] == key || key in keys;
      }
    }
    if key !in lists {
      forall i, j | 0 <= i < j < |ks| ensures ks[i] != ks[j] {
        if j == |ks| - 1 {
          assert ks[i] == keys[i] && keys[i] in lists;
        }
      }
    }
  }

  /** After adding, a key's list holds `game` exactly when it did before or
      it is the key added to. */
  lemma AddedListHolds(keys: seq<Key>, lists: map<Key, seq<string>>, key: Key, game: string, j: nat)
    requires Consistent(keys, lists) && j < |keys|
    ensures var ks, ls := AddedKeys(keys, lists, key), AddedLists(lists, key, game);
            ks[j] == keys[j] && (game in ls[ks[j]] <==> game in lists[keys[j]] || keys[j] == key)
  {
  }

  /** The first holder after adding: the key added to, or the old first
      holder when that comes earlier; a new key comes last, so it never
      displaces an old holder. */
  lemma HolderAfterAdd(keys: seq<Key>, lists: map<Key, seq<string>>, key: Key, game: string,
                       ks: seq<Key>, ls: map<Key, seq<string>>)
    requires Consistent(keys, lists)
    requires ks == AddedKeys(keys, lists, key) && ls == AddedLists(lists, key, game)
    requires forall j | 0 <= j < |ks| :: ks[j] in ls
    ensures HolderFrom(ks, ls, game, 0).Some?
    ensures HolderFrom(ks, ls, game, 0) == HolderFrom(keys, lists, game, 0)
         || ks[HolderFrom(ks, ls, game, 0).value] == key
    ensures HolderFrom(keys, lists, game, 0).None? ==> ks[HolderFrom(ks, ls, game, 0).value] == key
    ensures key !in lists && HolderFrom(keys, lists, game, 0).Some? ==>
      HolderFrom(ks, ls, game, 0) == HolderFrom(keys, lists, game, 0)
  {
    var h0 := HolderFrom(keys, lists, game, 0);
    var p := if key in lists then
      var q :| 0 <= q < |keys| && keys[q] == key; q
    else |keys|;
    assert ks[p] == key && game in ls[key];
    var h := HolderFrom(ks, ls, game, 0);
    assert h.Some? && h.value <= p;
    if h.value < |keys| {
      AddedListHolds(keys, lists, key, game, h.value);
    }
    if h0.Some? {
      AddedListHolds(keys, lists, key, game, h0.value);
      assert h.value <= h0.value;
    }
  }

  /** After adding, the game is found: under the key added to, or where it
      was already found. A game never found before is found under the key
      added to; a new key never displaces an earlier location. */
  lemma LocateAfterAdd(keys: seq<Key>, lists: map<Key, seq<string>>, key: Key, game: string)
    requires Consistent(keys, lists)
    ensures Consistent(AddedKeys(keys, lists, key), AddedLists(lists, key, game))
    ensures var r := Locate(AddedKeys(keys, lists, key), AddedLists(lists, key, game), game);
      && (r == Some(key.0) || r == Locate(keys, lists, game))
      && (Locate(keys, lists, game).None? ==> r == Some(key.0))
      && (key !in lists && Locate(keys, lists, game).Some? ==> r == Locate(keys, lists, game))
  {
    AddKeepsConsistent(keys, lists, key, game);
    HolderAfterAdd(keys, lists, key, game, AddedKeys(keys, lists, key), AddedLists(lists, key, game));
  }

  /** The merge dictionary, updated in place. */
  class MergeDict {
    var keys: seq<Key>
    var lists: map<Key, seq<string>>

    ghost predicate Valid()
      reads this
    {
      Consistent(keys, lists)
    }

    constructor()
      ensures Valid() && keys == [] && lists == map[]
    {
      keys := [];
      lists := map[];
    }

    /** `addGameFileLocationToDict(key, game)` */
    method Add(key: Key, game: string)
      requires Valid()
      modifies this
      ensures Valid()
      ensures keys == AddedKeys(old(keys), old(lists), key)
      ensures lists == AddedLists(old(lists), key, game)
    {
      AddKeepsConsistent(keys, lists, key, game);
      if key !in lists {
        keys := keys + [key];
        lists := lists[key := []];
      }
      lists := lists[key := lists[key] + [game]];
    }

    /** `getGameLocation(game)` */
    method GameLocation(game: string) returns (r: Option<string>)
      requires Valid()
      ensures r == Locate(keys, lists, game)
    {
      var i := 0;
      while i < |keys|
        invariant 0 <= i <= |keys|
        invariant HolderFrom(keys, lists, game, i) == HolderFrom(keys, lists, game, 0)
      {
        if game in lists[keys[i]] {
          return Some(keys[i].0);
        }
        i := i + 1;
      }
      return None;
    }
  }
}
