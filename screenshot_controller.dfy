/** The two actions of the screenshot controller that hold logic: `index`, which lists
    the entries matching a comma-separated tag filter and hides entries tagged `draw`
    unless `draw` is asked for, and `store`, which validates an upload, creates its entry
    and links the requested tags. The HTTP request is given as inputs: the `tags` query
    parameter, the uploaded image's properties, the title, the tag names, and the path
    under which the file store put the image. */
module ScreenshotController {
  import opened PhpStrings
  import opened Catalog

  // ---------------------------------------------------------------------------
  // index

  /** The tag every listing hides unless the filter names it. */
  const Draw: string := "draw"

  /** One constraint the query builder adds: `whereHas('tags', name = n)` or
      `whereDoesntHave('tags', name = n)`. */
  datatype Clause = HasTag(name: string) | LacksTag(name: string)

  predicate Satisfies(c: Clause, names: set<string>)
  {
    match c
    case HasTag(n) => n in names
    case LacksTag(n) => n !in names
  }

  predicate SatisfiesAll(cs: seq<Clause>, names: set<string>)
  {
    forall i :: 0 <= i < |cs| ==> Satisfies(cs[i], names)
  }

  /** A `whereHas` clause per requested name, in request order. */
  function HasAll(requested: seq<string>): seq<Clause>
  {
    seq(|requested|, i requires 0 <= i < |requested| => HasTag(requested[i]))
  }

  /** The clauses `index` adds to the query for the `tags` query parameter. */
  function Clauses(tagsParam: Option<string>): seq<Clause>
  {
    if Truthy(tagsParam) then
      var requested := Explode(',', tagsParam.value);
      HasAll(requested) + (if Draw !in requested then [LacksTag(Draw)] else [])
    else
      [LacksTag(Draw)]
  }

  /** The entries, in table order, whose tag names satisfy every clause. */
  function Select(entries: seq<Entry>, registry: seq<Tag>, cs: seq<Clause>): (r: seq<Entry>)
    ensures |r| <= |entries|
    ensures forall e :: e in r <==> e in entries && SatisfiesAll(cs, TagNames(e, registry))
  {
    if |entries| == 0 then []
    else
      var rest := Select(entries[1..], registry, cs);
      if SatisfiesAll(cs, TagNames(entries[0], registry)) then [entries[0]] + rest else rest
  }

  /** `ScreenshotController::index`: the listing for the `tags` query parameter. */
  function Index(entries: seq<Entry>, registry: seq<Tag>, tagsParam: Option<string>): seq<Entry>
  {
    Select(entries, registry, Clauses(tagsParam))
  }

  /** The listing rule stated directly: without a (truthy) filter every entry not tagged
      `draw`; with one, the entries carrying every requested name, and not tagged `draw`
      unless `draw` is requested. */
  predicate Visible(tagsParam: Option<string>, names: set<string>)
  {
    if !Truthy(tagsParam) then Draw !in names
    else
      var requested := Explode(',', tagsParam.value);
      && (forall i :: 0 <= i < |requested| ==> requested[i] in names)
      && (Draw in requested || Draw !in names)
  }

  /** The clauses the query builder collects mean exactly the listing rule. */
  lemma ClausesMeanVisible(tagsParam: Option<string>, names: set<string>)
    ensures SatisfiesAll(Clauses(tagsParam), names) <==> Visible(tagsParam, names)
  {
    var cs := Clauses(tagsParam);
    if Truthy(tagsParam) {
      var requested := Explode(',', tagsParam.value);
      var has := HasAll(requested);
      var tail: seq<Clause> := if Draw !in requested then [LacksTag(Draw)] else [];
      assert cs == has + tail;
      assert forall i :: 0 <= i < |has| ==> cs[i] == HasTag(requested[i]);
      if SatisfiesAll(cs, names) {
        forall i | 0 <= i < |requested| ensures requested[i] in names {
          assert Satisfies(cs[i], names);
        }
        if Draw !in requested {
          assert cs[|has|] == LacksTag(Draw);
          assert Satisfies(cs[|has|], names);
        }
      }
      if Visible(tagsParam, names) {
        forall i | 0 <= i < |cs| ensures Satisfies(cs[i], names) {
          if i < |has| {
            assert requested[i] in names;
          } else {
            assert cs[i] == LacksTag(Draw);
          }
        }
      }
    } else {
      assert cs == [LacksTag(Draw)];
      if SatisfiesAll(cs, names) {
        assert Satisfies(cs[0], names);
      }
    }
  }

  /** An entry is listed exactly when it is in the table and visible under the filter. */
  lemma IndexIsVisibleEntries(entries: seq<Entry>, registry: seq<Tag>, tagsParam: Option<string>, e: Entry)
    ensures e in Index(entries, registry, tagsParam) <==> e in entries && Visible(tagsParam, TagNames(e, registry))
  {
    ClausesMeanVisible(tagsParam, TagNames(e, registry));
  }

  /** `index` only filters: it never lists an entry the table does not hold. */
  lemma IndexOnlyFilters(entries: seq<Entry>, registry: seq<Tag>, tagsParam: Option<string>)
    ensures forall e :: e in Index(entries, registry, tagsParam) ==> e in entries
    ensures |Index(entries, registry, tagsParam)| <= |entries|
  {
  }

  /** Without a truthy filter (absent, "" or "0") the listing is every entry not tagged
      `draw`. */
  lemma IndexWithoutFilter(entries: seq<Entry>, registry: seq<Tag>, tagsParam: Option<string>, e: Entry)
    requires !Truthy(tagsParam)
    ensures e in Index(entries, registry, tagsParam) <==> e in entries && Draw !in TagNames(e, registry)
  {
    IndexIsVisibleEntries(entries, registry, tagsParam, e);
  }

  /** With a filter, every listed entry carries every requested name (AND semantics; an
      empty segment of the filter asks for a tag named ""). */
  lemma IndexRequiresEveryTag(entries: seq<Entry>, registry: seq<Tag>, tagsParam: Option<string>, e: Entry)
    requires Truthy(tagsParam)
    requires e in Index(entries, registry, tagsParam)
    ensures forall n :: n in Explode(',', tagsParam.value) ==> n in TagNames(e, registry)
  {
    IndexIsVisibleEntries(entries, registry, tagsParam, e);
  }

  /** When `draw` is not requested, no listed entry is tagged `draw`. */
  lemma IndexHidesDraw(entries: seq<Entry>, registry: seq<Tag>, tagsParam: Option<string>, e: Entry)
    requires !Truthy(tagsParam) || Draw !in Explode(',', tagsParam.value)
    requires e in Index(entries, registry, tagsParam)
    ensures Draw !in TagNames(e, registry)
  {
    IndexIsVisibleEntries(entries, registry, tagsParam, e);
  }

  /** When `draw` is requested, an entry is listed exactly when it carries every requested
      name: there is no further exclusion. */
  lemma IndexWithDrawRequested(entries: seq<Entry>, registry: seq<Tag>, tagsParam: Option<string>, e: Entry)
    requires Truthy(tagsParam) && Draw in Explode(',', tagsParam.value)
    ensures e in Index(entries, registry, tagsParam) <==>
      e in entries && forall n :: n in Explode(',', tagsParam.value) ==> n in TagNames(e, registry)
  {
    IndexIsVisibleEntries(entries, registry, tagsParam, e);
  }

  /** The filter is split on every comma, so a trailing comma asks for a tag named "". */
  lemma TrailingCommaRequestsEmptyName()
    ensures Explode(',', "Jan,") == ["Jan", ""]
  {
    assert Implode(',', ["Jan", ""]) == "Jan,";
    ExplodeImplode(',', ["Jan", ""]);
  }

  // ---------------------------------------------------------------------------
  // store

  /** The largest upload `max:2048` accepts: 2048 kilobytes. */
  const MaxImageBytes: nat := 2048 * 1024

  /** The uploaded file as validation sees it: whether it is an image, and its size. */
  datatype Upload = Upload(isImage: bool, sizeBytes: nat)

  /** The validation rule on `image` that failed. */
  datatype ImageError = ImageRequired | ImageNotAnImage | ImageTooLarge

  datatype StoreResult = Created(entry: Entry) | Rejected(error: ImageError)

  /** The `image` rules `required|image|max:2048`, in order. */
  function ValidateImage(image: Option<Upload>): Option<ImageError>
  {
    if image.None? then Some(ImageRequired)
    else if !image.value.isImage then Some(ImageNotAnImage)
    else if image.value.sizeBytes > MaxImageBytes then Some(ImageTooLarge)
    else None
  }

  /** `ScreenshotController::store`: validate the upload, create the entry with the given
      title and the stored path, and, when `tags` is present, link it to exactly the
      requested names, registering the missing ones. */
  method StoreScreenshot(
    store: Store, image: Option<Upload>, title: Option<string>, tags: Option<seq<string>>, storedPath: string)
    returns (r: StoreResult)
    requires store.Valid()
    modifies store
    ensures store.Valid()
    ensures r.Rejected? <==> !(image.Some? && image.value.isImage && image.value.sizeBytes <= MaxImageBytes)
    ensures r.Rejected? ==> unchanged(store)
    ensures r.Created? ==>
      && store.entries == old(store.entries) + [r.entry]
      && r.entry == Entry(old(store.nextEntryId), title, storedPath, r.entry.tagIds)
      && old(store.tags) <= store.tags
    ensures r.Created? && tags.None? ==> r.entry.tagIds == {} && store.tags == old(store.tags)
    ensures r.Created? && tags.Some? ==>
      && (forall n :: n in tags.value ==> HasName(store.tags, n))
      && (forall j :: |old(store.tags)| <= j < |store.tags| ==> store.tags[j].name in tags.value)
      && ((forall n :: n in tags.value ==> HasName(old(store.tags), n)) ==> store.tags == old(store.tags))
      && r.entry.tagIds == IdsOfNames(store.tags, tags.value)
      && TagNames(r.entry, store.tags) == set j | 0 <= j < |tags.value| :: tags.value[j]
  {
    var invalid := ValidateImage(image);
    if invalid.Some? {
      return Rejected(invalid.value);
    }
    var k := store.Create(title, storedPath);
    if tags.Some? {
      LinkTags(store, k, tags.value);
    }
    return Created(store.entries[k]);
  }

  /** The `tags` branch of `store`: get or create every requested name and sync the entry
      at position `k` to their ids. */
  method LinkTags(store: Store, k: nat, names: seq<string>)
    requires store.Valid()
    requires k < |store.entries|
    modifies store
    ensures store.Valid()
    ensures store.entries == old(store.entries)[k := old(store.entries)[k].(tagIds := IdsOfNames(store.tags, names))]
    ensures old(store.tags) <= store.tags
    ensures forall n :: n in names ==> HasName(store.tags, n)
    ensures forall j :: |old(store.tags)| <= j < |store.tags| ==> store.tags[j].name in names
    ensures (forall n :: n in names ==> HasName(old(store.tags), n)) ==> store.tags == old(store.tags)
    ensures TagNames(store.entries[k], store.tags) == set j | 0 <= j < |names| :: names[j]
  {
    var tagIds := store.FirstOrCreateAll(names);
    store.Sync(k, tagIds);
    SyncedIds(store.tags, names, tagIds);
    if forall n :: n in names ==> HasName(old(store.tags), n) {
      NothingToRegister(old(store.tags), store.tags, names);
    }
    SyncedNames(store.tags, store.entries[k], names, tagIds);
    NamesRegistered(store.tags, names, tagIds);
  }
}
