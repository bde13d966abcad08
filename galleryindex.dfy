/**
 * Building the index for galleries: `Api.update_symlinks`, for the
 * gallery just downloaded, and `update_symlinks_all`, for every gallery
 * directory under `_data`. Both call the five category updates in turn;
 * the tag index uses the translated tags only.
 */
module GalleryIndex {
  import opened Common
  import opened Translations
  import opened Tags
  import opened SymlinkIndex

  /** The parts of a gallery's metadata the index is built from. */
  datatype Metadata = Metadata(authors: seq<string>, groups: seq<string>, series: seq<string>,
                               characters: seq<string>, tagsRaw: seq<string>)

  /** A category directory and the values to link under it. */
  datatype Category = Category(attr: string, values: seq<string>)

  /** The order of `Api.update_symlinks`: tags come third. */
  function ApiCategories(meta: Metadata, tagTable: Table): seq<Category>
  {
    [Category("authors", meta.authors), Category("groups", meta.groups),
     Category("tags", TagIndex(meta.tagsRaw, tagTable)),
     Category("series", meta.series), Category("characters", meta.characters)]
  }

  /** The order of `update_symlinks_all`: tags come last. */
  function AllCategories(meta: Metadata, tagTable: Table): seq<Category>
  {
    [Category("authors", meta.authors), Category("groups", meta.groups),
     Category("series", meta.series), Category("characters", meta.characters),
     Category("tags", TagIndex(meta.tagsRaw, tagTable))]
  }

  /** The category updates one after the other, the first exception ending them. */
  function IndexCategories(m: Entries, dirname: string, cats: seq<Category>): (Entries, Outcome)
    decreases |cats|
  {
    if cats == [] then (m, Pass)
    else
      var (m1, o1) := UpdateLinks(m, dirname, cats[0].attr, cats[0].values);
      if o1.Fail? then (m1, o1) else IndexCategories(m1, dirname, cats[1..])
  }

  /**
   * After the category updates raise nothing, every value of every
   * category has its link to the gallery, and no link that was in place
   * before is lost.
   */
  lemma {:induction false} IndexCategoriesMakesLinks(m: Entries, dirname: string, cats: seq<Category>)
    requires Component(dirname)
    ensures var (m', o) := IndexCategories(m, dirname, cats);
      o == Pass ==>
        && (forall j, v :: 0 <= j < |cats| && v in cats[j].values ==> Linked(m', cats[j].attr, v, dirname))
        && (forall a, w, n :: Component(n) && Linked(m, a, w, n) ==> Linked(m', a, w, n))
    decreases |cats|
  {
    if cats != [] {
      var (m1, o1) := UpdateLinks(m, dirname, cats[0].attr, cats[0].values);
      UpdateLinksMakesLinks(m, dirname, cats[0].attr, cats[0].values);
      UpdateLinksKeepsLinks(m, dirname, cats[0].attr, cats[0].values);
      IndexCategoriesMakesLinks(m1, dirname, cats[1..]);
      var (m', o) := IndexCategories(m, dirname, cats);
      if o == Pass {
        forall j, v | 0 <= j < |cats| && v in cats[j].values ensures Linked(m', cats[j].attr, v, dirname) {
          if j > 0 {
            assert cats[1..][j - 1] == cats[j];
          }
        }
      }
    }
  }

  /**
   * `Api.update_symlinks`: authors, groups, the translated tags, series,
   * characters; the tag list is `[TAGS[t] for t in tags-raw if TAGS.get(t)]`.
   */
  method UpdateSymlinks(fs: FileSystem, dirname: string, meta: Metadata, tags: Dictionary) returns (r: Outcome)
    modifies fs
    ensures (fs.entries, r) == IndexCategories(old(fs.entries), dirname, ApiCategories(meta, tags.entries))
  {
    ghost var c := ApiCategories(meta, tags.entries);
    IndexCategoriesCons(old(fs.entries), dirname, c);
    r := UpdateSymlinksAuthors(fs, dirname, meta.authors);
    if r.Fail? {
      return;
    }
    IndexCategoriesCons(fs.entries, dirname, c[1..]);
    r := UpdateSymlinksGroups(fs, dirname, meta.groups);
    if r.Fail? {
      return;
    }
    IndexCategoriesCons(fs.entries, dirname, c[2..]);
    var translated := TagIndexOf(meta.tagsRaw, tags);
    r := UpdateSymlinksTags(fs, dirname, translated);
    if r.Fail? {
      return;
    }
    IndexCategoriesCons(fs.entries, dirname, c[3..]);
    r := UpdateSymlinksSeries(fs, dirname, meta.series);
    if r.Fail? {
      return;
    }
    IndexCategoriesCons(fs.entries, dirname, c[4..]);
    r := UpdateSymlinksCharacters(fs, dirname, meta.characters);
    assert c[5..] == [];
  }

  /** The first category update, then the rest when it raised nothing. */
  lemma IndexCategoriesCons(m: Entries, dirname: string, cats: seq<Category>)
    requires cats != []
    ensures var (m1, o1) := UpdateLinks(m, dirname, cats[0].attr, cats[0].values);
      IndexCategories(m, dirname, cats) == if o1.Fail? then (m1, o1) else IndexCategories(m1, dirname, cats[1..])
  {
  }

  /** The comprehension over the tags, as a loop: no operator is asked. */
  method TagIndexOf(raw: seq<string>, tags: Dictionary) returns (r: seq<string>)
    ensures r == TagIndex(raw, tags.entries)
  {
    r := [];
    var i := |raw|;
    while i > 0
      invariant 0 <= i <= |raw|
      invariant r == TagIndex(raw[i..], tags.entries)
    {
      i := i - 1;
      assert raw[i..][1..] == raw[i + 1..];
      if raw[i] in tags.entries && tags.entries[raw[i]] != "" {
        r := [tags.entries[raw[i]]] + r;
      }
    }
    assert raw[0..] == raw;
  }

  /**
   * One entry of the `_data` listing: `.DS_Store` is skipped, a gallery
   * without `_info.yml` raises FileNotFoundError, any other gets its five
   * category updates with tags last.
   */
  function IndexEntry(m: Entries, name: string, infos: map<string, Metadata>, tagTable: Table): (Entries, Outcome)
  {
    if name == ".DS_Store" then (m, Pass)
    else if name !in infos then (m, Fail(FileNotFoundError))
    else IndexCategories(m, name, AllCategories(infos[name], tagTable))
  }

  /** The loop of `update_symlinks_all` over the listing, in its order. */
  function IndexAll(m: Entries, listing: seq<string>, infos: map<string, Metadata>, tagTable: Table): (Entries, Outcome)
    decreases |listing|
  {
    if listing == [] then (m, Pass)
    else
      var (m1, o1) := IndexAll(m, listing[..|listing| - 1], infos, tagTable);
      if o1.Fail? then (m1, o1) else IndexEntry(m1, listing[|listing| - 1], infos, tagTable)
  }

  lemma IndexAllUnfold(m: Entries, listing: seq<string>, infos: map<string, Metadata>, tagTable: Table, k: nat)
    requires k < |listing|
    ensures var (m1, o1) := IndexAll(m, listing[..k], infos, tagTable);
      IndexAll(m, listing[..k + 1], infos, tagTable) == if o1.Fail? then (m1, o1) else IndexEntry(m1, listing[k], infos, tagTable)
  {
    assert listing[..k + 1][..k] == listing[..k];
  }

  lemma {:induction false} IndexAllAfterFail(m: Entries, listing: seq<string>, infos: map<string, Metadata>, tagTable: Table, k: nat)
    requires k <= |listing| && IndexAll(m, listing[..k], infos, tagTable).1.Fail?
    ensures IndexAll(m, listing, infos, tagTable) == IndexAll(m, listing[..k], infos, tagTable)
    decreases |listing| - k
  {
    if k < |listing| {
      IndexAllUnfold(m, listing, infos, tagTable, k);
      IndexAllAfterFail(m, listing, infos, tagTable, k + 1);
    } else {
      assert listing[..k] == listing;
    }
  }

  /**
   * `update_symlinks_all`: every entry of the `_data` listing in turn;
   * `infos` is what each gallery's `_info.yml` holds.
   */
  method UpdateSymlinksAll(fs: FileSystem, listing: seq<string>, infos: map<string, Metadata>, tags: Dictionary) returns (r: Outcome)
    modifies fs
    ensures (fs.entries, r) == IndexAll(old(fs.entries), listing, infos, tags.entries)
  {
    ghost var m0 := fs.entries;
    for i := 0 to |listing|
      invariant (fs.entries, Pass) == IndexAll(m0, listing[..i], infos, tags.entries)
    {
      IndexAllUnfold(m0, listing, infos, tags.entries, i);
      var hentai := listing[i];
      if hentai == ".DS_Store" {
        continue;
      }
      if hentai !in infos {
        IndexAllAfterFail(m0, listing, infos, tags.entries, i + 1);
        return Fail(FileNotFoundError);
      }
      r := UpdateSymlinksGallery(fs, hentai, infos[hentai], tags);
      if r.Fail? {
        IndexAllAfterFail(m0, listing, infos, tags.entries, i + 1);
        return;
      }
    }
    assert listing[..|listing|] == listing;
    r := Pass;
  }

  /** The body of the loop of `update_symlinks_all` for one gallery: tags come last. */
  method UpdateSymlinksGallery(fs: FileSystem, hentai: string, meta: Metadata, tags: Dictionary) returns (r: Outcome)
    modifies fs
    ensures (fs.entries, r) == IndexCategories(old(fs.entries), hentai, AllCategories(meta, tags.entries))
  {
    ghost var c := AllCategories(meta, tags.entries);
    IndexCategoriesCons(old(fs.entries), hentai, c);
    r := UpdateSymlinksAuthors(fs, hentai, meta.authors);
    if r.Fail? {
      return;
    }
    IndexCategoriesCons(fs.entries, hentai, c[1..]);
    r := UpdateSymlinksGroups(fs, hentai, meta.groups);
    if r.Fail? {
      return;
    }
    IndexCategoriesCons(fs.entries, hentai, c[2..]);
    r := UpdateSymlinksSeries(fs, hentai, meta.series);
    if r.Fail? {
      return;
    }
    IndexCategoriesCons(fs.entries, hentai, c[3..]);
    r := UpdateSymlinksCharacters(fs, hentai, meta.characters);
    if r.Fail? {
      return;
    }
    IndexCategoriesCons(fs.entries, hentai, c[4..]);
    var translated := TagIndexOf(meta.tagsRaw, tags);
    r := UpdateSymlinksTags(fs, hentai, translated);
    assert c[5..] == [];
  }

  /** `.DS_Store` in the listing makes no difference. */
  function WithoutDsStore(listing: seq<string>): (r: seq<string>)
    ensures ".DS_Store" !in r
    ensures forall x :: x in r <==> x in listing && x != ".DS_Store"
    decreases |listing|
  {
    if listing == [] then []
    else
      var init := WithoutDsStore(listing[..|listing| - 1]);
      assert forall x :: x in listing <==> x in listing[..|listing| - 1] || x == listing[|listing| - 1];
      if listing[|listing| - 1] == ".DS_Store" then init else init + [listing[|listing| - 1]]
  }

  lemma {:induction false} IndexAllSkipsDsStore(m: Entries, listing: seq<string>, infos: map<string, Metadata>, tagTable: Table)
    ensures IndexAll(m, listing, infos, tagTable) == IndexAll(m, WithoutDsStore(listing), infos, tagTable)
    decreases |listing|
  {
    if listing != [] {
      var init := listing[..|listing| - 1];
      var last := listing[|listing| - 1];
      IndexAllSkipsDsStore(m, init, infos, tagTable);
      var w := WithoutDsStore(init);
      var (m1, o1) := IndexAll(m, init, infos, tagTable);
      assert IndexAll(m, listing, infos, tagTable) == if o1.Fail? then (m1, o1) else IndexEntry(m1, last, infos, tagTable);
      if last != ".DS_Store" {
        assert WithoutDsStore(listing) == w + [last];
        assert (w + [last])[..|w|] == w;
        assert IndexAll(m, w + [last], infos, tagTable) == if o1.Fail? then (m1, o1) else IndexEntry(m1, last, infos, tagTable);
      } else {
        assert WithoutDsStore(listing) == w;
        assert IndexEntry(m1, last, infos, tagTable) == (m1, Pass);
      }
    }
  }

  /**
   * After `update_symlinks_all` raises nothing, every gallery in the
   * listing but `.DS_Store` had its `_info.yml`, and every value of each
   * of its categories links to it. The entries of a directory listing are
   * single path components.
   */
  lemma {:induction false} IndexAllMakesLinks(m: Entries, listing: seq<string>, infos: map<string, Metadata>, tagTable: Table)
    requires forall n :: n in listing ==> Component(n)
    ensures var (m', o) := IndexAll(m, listing, infos, tagTable);
      o == Pass ==>
        forall n :: n in listing && n != ".DS_Store" ==>
          && n in infos
          && forall j, v :: 0 <= j < 5 && v in AllCategories(infos[n], tagTable)[j].values ==>
               Linked(m', AllCategories(infos[n], tagTable)[j].attr, v, n)
    decreases |listing|
  {
    if listing != [] {
      var init := listing[..|listing| - 1];
      var last := listing[|listing| - 1];
      var (m1, o1) := IndexAll(m, init, infos, tagTable);
      assert forall n :: n in init ==> n in listing;
      assert last in listing;
      IndexAllMakesLinks(m, init, infos, tagTable);
      var (m', o) := IndexAll(m, listing, infos, tagTable);
      if o == Pass {
        assert o1 == Pass;
        if last != ".DS_Store" {
          IndexCategoriesMakesLinks(m1, last, AllCategories(infos[last], tagTable));
        }
        forall n | n in listing && n != ".DS_Store"
          ensures n in infos
          ensures forall j, v :: 0 <= j < 5 && v in AllCategories(infos[n], tagTable)[j].values ==>
               Linked(m', AllCategories(infos[n], tagTable)[j].attr, v, n)
        {
          var i :| 0 <= i < |listing| && listing[i] == n;
          if i < |listing| - 1 {
            assert init[i] == n;
          }
        }
      }
    }
  }
}
