/** The database the command and the controller work on, seen as an in-memory store:
    the `screenshots` table (id, title, file_path), the `tags` table (id, unique name)
    and the pivot table, held here as each entry's set of tag ids. Ids are assigned by
    auto-increment counters. The three ORM operations the core uses are methods:
    `Screenshot::create`, `Tag::firstOrCreate` and `tags()->sync`. */
module Catalog {
  import opened PhpStrings

  /** A `screenshots` row together with its pivot rows. */
  datatype Entry = Entry(id: nat, title: Option<string>, filePath: string, tagIds: set<nat>)

  /** A `tags` row. */
  datatype Tag = Tag(id: nat, name: string)

  /** The file paths of the entries, in table order. */
  function Paths(entries: seq<Entry>): seq<string>
  {
    seq(|entries|, i requires 0 <= i < |entries| => entries[i].filePath)
  }

  /** No two entries share a file path. */
  predicate UniquePaths(entries: seq<Entry>)
  {
    forall i, j :: 0 <= i < j < |entries| ==> entries[i].filePath != entries[j].filePath
  }

  /** `Screenshot::where('file_path', $path)->exists()`. */
  predicate HasPath(entries: seq<Entry>, path: string)
  {
    path in Paths(entries)
  }

  /** Some registered tag has this name. */
  predicate HasName(registry: seq<Tag>, name: string)
  {
    exists i :: 0 <= i < |registry| && registry[i].name == name
  }

  /** The ids of the registered tags. */
  function TagIds(registry: seq<Tag>): set<nat>
  {
    set i | 0 <= i < |registry| :: registry[i].id
  }

  /** The names of the tags linked to `e`, resolved through the registry. */
  function TagNames(e: Entry, registry: seq<Tag>): set<string>
  {
    set i | 0 <= i < |registry| && registry[i].id in e.tagIds :: registry[i].name
  }

  /** The position of the tag named `name`, if any (the lookup half of firstOrCreate). */
  function FindTag(registry: seq<Tag>, name: string): (k: Option<nat>)
    ensures k.Some? ==> k.value < |registry| && registry[k.value].name == name
    ensures k.None? <==> !HasName(registry, name)
  {
    if |registry| == 0 then None
    else if registry[|registry| - 1].name == name then Some(|registry| - 1)
    else FindTag(registry[..|registry| - 1], name)
  }

  predicate UniqueNames(registry: seq<Tag>)
  {
    forall i, j :: 0 <= i < j < |registry| ==> registry[i].name != registry[j].name
  }

  predicate IncreasingTagIds(registry: seq<Tag>)
  {
    forall i, j :: 0 <= i < j < |registry| ==> registry[i].id < registry[j].id
  }

  predicate IncreasingEntryIds(entries: seq<Entry>)
  {
    forall i, j :: 0 <= i < j < |entries| ==> entries[i].id < entries[j].id
  }

  /** Linking an entry to `ids` resolves to the names `names`, when every name is
      registered under the id at the same position and tag ids are unique. */
  lemma {:induction false} SyncedNames(registry: seq<Tag>, e: Entry, names: seq<string>, ids: seq<nat>)
    requires IncreasingTagIds(registry)
    requires |ids| == |names|
    requires forall j :: 0 <= j < |ids| ==> Tag(ids[j], names[j]) in registry
    requires e.tagIds == set j | 0 <= j < |ids| :: ids[j]
    ensures TagNames(e, registry) == set j | 0 <= j < |names| :: names[j]
  {
    var want := set j | 0 <= j < |names| :: names[j];
    forall n | n in TagNames(e, registry) ensures n in want {
      var i :| 0 <= i < |registry| && registry[i].id in e.tagIds && registry[i].name == n;
      var j :| 0 <= j < |ids| && ids[j] == registry[i].id;
      var i' :| 0 <= i' < |registry| && registry[i'] == Tag(ids[j], names[j]);
      assert registry[i].id == registry[i'].id;
    }
    forall n | n in want ensures n in TagNames(e, registry) {
      var j :| 0 <= j < |names| && names[j] == n;
      var i :| 0 <= i < |registry| && registry[i] == Tag(ids[j], names[j]);
      assert registry[i].id in e.tagIds;
    }
  }

  /** The ids of the registered tags whose names are among `names`. */
  function IdsOfNames(registry: seq<Tag>, names: seq<string>): set<nat>
  {
    set i | 0 <= i < |registry| && registry[i].name in names :: registry[i].id
  }

  /** With unique names, the ids looked up position by position for `names` are exactly
      the ids of the tags bearing those names: one id per distinct name. */
  lemma {:induction false} SyncedIds(registry: seq<Tag>, names: seq<string>, ids: seq<nat>)
    requires UniqueNames(registry)
    requires |ids| == |names|
    requires forall j :: 0 <= j < |ids| ==> Tag(ids[j], names[j]) in registry
    ensures (set j | 0 <= j < |ids| :: ids[j]) == IdsOfNames(registry, names)
  {
    var linked := set j | 0 <= j < |ids| :: ids[j];
    forall t | t in linked ensures t in IdsOfNames(registry, names) {
      var j :| 0 <= j < |ids| && ids[j] == t;
      var i :| 0 <= i < |registry| && registry[i] == Tag(ids[j], names[j]);
      assert registry[i].name in names;
    }
    forall t | t in IdsOfNames(registry, names) ensures t in linked {
      var i :| 0 <= i < |registry| && registry[i].name in names && registry[i].id == t;
      var j :| 0 <= j < |names| && names[j] == registry[i].name;
      var i' :| 0 <= i' < |registry| && registry[i'] == Tag(ids[j], names[j]);
      assert registry[i].name == registry[i'].name;
      assert i == i';
    }
  }

  /** Every name looked up position by position is registered. */
  lemma NamesRegistered(registry: seq<Tag>, names: seq<string>, ids: seq<nat>)
    requires |ids| == |names|
    requires forall j :: 0 <= j < |ids| ==> Tag(ids[j], names[j]) in registry
    ensures forall n :: n in names ==> HasName(registry, n)
  {
    forall n | n in names ensures HasName(registry, n) {
      var j :| 0 <= j < |names| && names[j] == n;
      var i :| 0 <= i < |registry| && registry[i] == Tag(ids[j], n);
    }
  }

  /** A registry that only grew by names it lacked, all of them drawn from `names`,
      did not grow at all when every one of `names` was already registered. */
  lemma NothingToRegister(before: seq<Tag>, after: seq<Tag>, names: seq<string>)
    requires before <= after
    requires forall j :: |before| <= j < |after| ==> after[j].name in names && !HasName(before, after[j].name)
    requires forall n :: n in names ==> HasName(before, n)
    ensures after == before
  {
    assert |after| > |before| ==> !HasName(before, after[|before|].name);
  }

  /** Registering further tags, with ids no entry links to, leaves an entry's names alone. */
  lemma TagNamesStable(e: Entry, registry: seq<Tag>, more: seq<Tag>)
    requires e.tagIds <= TagIds(registry)
    requires forall j :: 0 <= j < |more| ==> more[j].id !in TagIds(registry)
    ensures TagNames(e, registry + more) == TagNames(e, registry)
  {
    var all := registry + more;
    forall n | n in TagNames(e, all) ensures n in TagNames(e, registry) {
      var i :| 0 <= i < |all| && all[i].id in e.tagIds && all[i].name == n;
      assert all[i].id in TagIds(registry);
      assert i < |registry|;
      assert all[i] == registry[i];
    }
    forall n | n in TagNames(e, registry) ensures n in TagNames(e, all) {
      var i :| 0 <= i < |registry| && registry[i].id in e.tagIds && registry[i].name == n;
      assert all[i] == registry[i];
    }
  }

  /** The registry `tags` is `before` followed by tags with fresh ids (at least `base`)
      and names drawn from `names` that `before` lacked. */
  predicate GrewBy(before: seq<Tag>, tags: seq<Tag>, names: seq<string>, base: nat)
  {
    && before <= tags
    && (forall j :: |before| <= j < |tags| ==>
          tags[j].name in names && !HasName(before, tags[j].name) && tags[j].id >= base)
  }

  /** One get-or-create keeps `GrewBy`: it leaves the registry alone or appends a tag
      for a name the registry lacked, under a fresh id. */
  lemma GrewByStep(
    before: seq<Tag>, mid: seq<Tag>, after: seq<Tag>, names: seq<string>, name: string, id: nat, next: nat, base: nat)
    requires GrewBy(before, mid, names, base)
    requires next >= base
    requires HasName(mid, name) ==> after == mid
    requires !HasName(mid, name) ==> after == mid + [Tag(id, name)] && id == next
    ensures GrewBy(before, after, names + [name], base)
  {
    if !HasName(mid, name) {
      forall i | 0 <= i < |before| ensures before[i].name != name {
        assert mid[i] == before[i];
      }
    }
  }

  /** The registry holds `Tag(ids[j], names[j])` for every position `j`. */
  predicate Registered(registry: seq<Tag>, names: seq<string>, ids: seq<nat>)
  {
    |ids| == |names| && forall j :: 0 <= j < |ids| ==> Tag(ids[j], names[j]) in registry
  }

  /** `Registered` survives growth of the registry and extends by one found tag. */
  lemma RegisteredStep(before: seq<Tag>, after: seq<Tag>, names: seq<string>, ids: seq<nat>, name: string, id: nat)
    requires Registered(before, names, ids)
    requires before <= after
    requires Tag(id, name) in after
    ensures Registered(after, names + [name], ids + [id])
  {
    forall j | 0 <= j < |ids| ensures Tag(ids[j], names[j]) in after {
      var i :| 0 <= i < |before| && before[i] == Tag(ids[j], names[j]);
      assert after[i] == before[i];
    }
  }

  class Store {
    var entries: seq<Entry>
    var tags: seq<Tag>
    var nextEntryId: nat
    var nextTagId: nat

    /** Table invariants: tag names are unique, ids follow the auto-increment
        counters, and every link points to a registered tag. */
    ghost predicate Valid()
      reads this
    {
      && UniqueNames(tags)
      && IncreasingTagIds(tags)
      && (forall i :: 0 <= i < |tags| ==> tags[i].id < nextTagId)
      && IncreasingEntryIds(entries)
      && (forall i :: 0 <= i < |entries| ==> entries[i].id < nextEntryId)
      && (forall i :: 0 <= i < |entries| ==> entries[i].tagIds <= TagIds(tags))
    }

    constructor ()
      ensures Valid()
      ensures entries == [] && tags == []
    {
      entries, tags := [], [];
      nextEntryId, nextTagId := 1, 1;
    }

    /** `Tag::firstOrCreate(['name' => $name])->id`: the id of the tag with this name,
        registering it under a fresh id when there is none. */
    method FirstOrCreate(name: string) returns (id: nat)
      requires Valid()
      modifies this`tags, this`nextTagId
      ensures Valid()
      ensures Tag(id, name) in tags
      ensures HasName(old(tags), name) ==> tags == old(tags)
      ensures !HasName(old(tags), name) ==> tags == old(tags) + [Tag(id, name)] && id == old(nextTagId)
      ensures nextTagId >= old(nextTagId)
    {
      var found := FindTag(tags, name);
      match found
      case Some(k) =>
        id := tags[k].id;
        assert tags[k] == Tag(id, name);
      case None =>
        id := nextTagId;
        tags := tags + [Tag(id, name)];
        nextTagId := nextTagId + 1;
        assert TagIds(old(tags)) <= TagIds(tags) by {
          forall t | t in TagIds(old(tags)) ensures t in TagIds(tags) {
            var i :| 0 <= i < |old(tags)| && old(tags)[i].id == t;
            assert tags[i] == old(tags)[i];
          }
        }
    }

    /** `collect($names)->map(fn($name) => Tag::firstOrCreate(['name' => $name])->id)`:
        the ids of the names, position by position, registering the missing ones in order. */
    method FirstOrCreateAll(names: seq<string>) returns (ids: seq<nat>)
      requires Valid()
      modifies this`tags, this`nextTagId
      ensures Valid()
      ensures Registered(tags, names, ids)
      ensures GrewBy(old(tags), tags, names, old(nextTagId))
    {
      ids := [];
      var i := 0;
      while i < |names|
        invariant 0 <= i <= |names|
        invariant Valid()
        invariant nextTagId >= old(nextTagId)
        invariant GrewBy(old(tags), tags, names[..i], old(nextTagId))
        invariant Registered(tags, names[..i], ids)
      {
        ghost var before, next := tags, nextTagId;
        var id := FirstOrCreate(names[i]);
        GrewByStep(old(tags), before, tags, names[..i], names[i], id, next, old(nextTagId));
        RegisteredStep(before, tags, names[..i], ids, names[i], id);
        assert names[..i + 1] == names[..i] + [names[i]];
        ids := ids + [id];
        i := i + 1;
      }
      assert names[..i] == names;
    }

    /** `Screenshot::create(['title' => $title, 'file_path' => $path])`: appends an entry
        with the next id and no tags; `k` is its position. */
    method Create(title: Option<string>, path: string) returns (k: nat)
      requires Valid()
      modifies this`entries, this`nextEntryId
      ensures Valid()
      ensures entries == old(entries) + [Entry(old(nextEntryId), title, path, {})]
      ensures k == |old(entries)|
    {
      k := |entries|;
      entries := entries + [Entry(nextEntryId, title, path, {})];
      nextEntryId := nextEntryId + 1;
    }

    /** `$screenshot->tags()->sync($ids)`: the entry at position `k` is linked to exactly
        the given tags, duplicates collapsed; nothing else changes. */
    method Sync(k: nat, ids: seq<nat>)
      requires Valid()
      requires k < |entries|
      requires forall j :: 0 <= j < |ids| ==> ids[j] in TagIds(tags)
      modifies this`entries
      ensures Valid()
      ensures entries == old(entries)[k := old(entries)[k].(tagIds := set j | 0 <= j < |ids| :: ids[j])]
    {
      entries := entries[k := entries[k].(tagIds := set j | 0 <= j < |ids| :: ids[j])];
    }
  }
}
