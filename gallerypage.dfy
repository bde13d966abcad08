/**
 * The metadata that `Api.parse_gallery_page` derives from a gallery page:
 * for authors, groups, series and characters in that order a copy of the
 * scraped list is kept as `<category>-raw` and the list is then resolved
 * against its dictionary, asking the operator for missing names; between
 * groups and series the first "type" and "language" cells are read; last
 * the tags are normalised, not translated. The scraped lists are inputs.
 */
module GalleryPage {
  import opened Common
  import opened Translations
  import opened Tags

  /** The metadata fields the page yields. */
  datatype Names = Names(authorsRaw: seq<string>, authors: seq<string>,
                         groupsRaw: seq<string>, groups: seq<string>,
                         original: bool, language: string,
                         seriesRaw: seq<string>, series: seq<string>,
                         charactersRaw: seq<string>, characters: seq<string>,
                         tagsRaw: seq<string>)

  /** The four dictionaries involved, the answers left and the answers taken. */
  datatype PageState = PageState(authors: Table, groups: Table, series: Table, characters: Table,
                                 answers: seq<string>, prompts: nat)

  /** The texts of the links in each field of the page. */
  datatype Scraped = Scraped(authors: seq<string>, groups: seq<string>, kind: seq<string>,
                             language: seq<string>, series: seq<string>,
                             characters: seq<string>, tags: seq<string>)

  /**
   * Whitespace as `str.strip` removes it, which is `str.isspace`: the ASCII
   * controls tab to carriage return and the separators 0x1C to 0x1F, the
   * space, NEL, the no-break space, and the Unicode spaces and line and
   * paragraph separators.
   */
  predicate IsSpace(c: char)
  {
    SpaceFrom(c, 0)
  }

  /** `c` is one of the whitespace characters from position `i` of the list on. */
  predicate SpaceFrom(c: char, i: nat)
    decreases |Whitespace| - i
  {
    i < |Whitespace| && (Whitespace[i] == c || SpaceFrom(c, i + 1))
  }

  const Whitespace: string :=
    "\t\n\U{B}\U{C}\r\U{1C}\U{1D}\U{1E}\U{1F} \U{85}\U{A0}\U{1680}"
    + "\U{2000}\U{2001}\U{2002}\U{2003}\U{2004}\U{2005}\U{2006}\U{2007}\U{2008}\U{2009}\U{200A}"
    + "\U{2028}\U{2029}\U{202F}\U{205F}\U{3000}"

  /** The text without its leading whitespace. */
  function StripLeft(s: string): (r: string)
    ensures |r| <= |s| && r == s[|s| - |r|..]
    ensures forall k :: 0 <= k < |s| - |r| ==> IsSpace(s[k])
    ensures r == [] || !IsSpace(r[0])
  {
    if s != [] && IsSpace(s[0]) then StripLeft(s[1..]) else s
  }

  /** The text without its trailing whitespace. */
  function StripRight(s: string): (r: string)
    ensures |r| <= |s| && r == s[..|r|]
    ensures forall k :: |r| <= k < |s| ==> IsSpace(s[k])
    ensures r == [] || !IsSpace(r[|r| - 1])
  {
    if s != [] && IsSpace(s[|s| - 1]) then StripRight(s[..|s| - 1]) else s
  }

  /** `str.strip()`: the text without leading and trailing whitespace. */
  function Strip(s: string): (r: string)
    ensures exists i, j ::
      && 0 <= i <= j <= |s| && r == s[i..j]
      && (forall k :: 0 <= k < i ==> IsSpace(s[k]))
      && (forall k :: j <= k < |s| ==> IsSpace(s[k]))
    ensures r == [] || (!IsSpace(r[0]) && !IsSpace(r[|r| - 1]))
  {
    var l := StripLeft(s);
    var r := StripRight(l);
    StripSlice(s, l, r);
    r
  }

  /**
   * Whitespace-only ends cut off a suffix `l` of `s` and then a prefix `r`
   * of `l` leave a slice of `s` with whitespace-only ends.
   */
  lemma StripSlice(s: string, l: string, r: string)
    requires |l| <= |s| && l == s[|s| - |l|..] && forall k :: 0 <= k < |s| - |l| ==> IsSpace(s[k])
    requires |r| <= |l| && r == l[..|r|] && forall k :: |r| <= k < |l| ==> IsSpace(l[k])
    requires (l == [] || !IsSpace(l[0])) && (r == [] || !IsSpace(r[|r| - 1]))
    ensures exists i, j ::
      && 0 <= i <= j <= |s| && r == s[i..j]
      && (forall k :: 0 <= k < i ==> IsSpace(s[k]))
      && (forall k :: j <= k < |s| ==> IsSpace(s[k]))
    ensures r == [] || (!IsSpace(r[0]) && !IsSpace(r[|r| - 1]))
  {
    var i := |s| - |l|;
    var j := i + |r|;
    assert r == s[i..j];
    forall k | j <= k < |s| ensures IsSpace(s[k]) {
      assert s[k] == l[k - i];
    }
    if r != [] {
      assert r[0] == l[0];
    }
  }

  /** The first cell of a field, stripped; IndexError when the field is empty. */
  function FirstCell(cells: seq<string>): (r: Result<string>)
  {
    if cells == [] then Err(IndexError) else Ok(Strip(cells[0]))
  }

  /** What `parse_gallery_page` makes of the page, and the state it leaves, also when it raises. */
  function ParsePage(st: PageState, page: Scraped): (Result<Names>, PageState)
  {
    var ra := Resolve(page.authors, st.authors, st.answers);
    var st1 := st.(authors := ra.table, answers := ra.answers, prompts := st.prompts + ra.prompts);
    if ra.eof then (Err(EOFError), st1)
    else
      var rg := Resolve(page.groups, st.groups, st1.answers);
      var st2 := st1.(groups := rg.table, answers := rg.answers, prompts := st1.prompts + rg.prompts);
      if rg.eof then (Err(EOFError), st2)
      else if page.kind == [] || page.language == [] then (Err(IndexError), st2)
      else
        var rs := Resolve(page.series, st.series, st2.answers);
        var st3 := st2.(series := rs.table, answers := rs.answers, prompts := st2.prompts + rs.prompts);
        if rs.eof then (Err(EOFError), st3)
        else
          var rc := Resolve(page.characters, st.characters, st3.answers);
          var st4 := st3.(characters := rc.table, answers := rc.answers, prompts := st3.prompts + rc.prompts);
          if rc.eof then (Err(EOFError), st4)
          else
            match NormaliseTags(page.tags)
            case Err(e) => (Err(e), st4)
            case Ok(tags) =>
              (Ok(Names(page.authors, ra.resolved, page.groups, rg.resolved,
                        Strip(page.kind[0]) == "original", Strip(page.language[0]),
                        page.series, rs.resolved, page.characters, rc.resolved, tags)), st4)
  }

  /**
   * The raw lists are the scraped lists as they were before resolving, each
   * resolved list has its length, and "original" says whether the first
   * type cell is "original" up to whitespace.
   */
  lemma ParsePageRaw(st: PageState, page: Scraped)
    requires ParsePage(st, page).0.Ok?
    ensures var n := ParsePage(st, page).0.value;
      && n.authorsRaw == page.authors && n.groupsRaw == page.groups
      && n.seriesRaw == page.series && n.charactersRaw == page.characters
      && |n.authors| == |page.authors| && |n.groups| == |page.groups|
      && |n.series| == |page.series| && |n.characters| == |page.characters|
      && |n.tagsRaw| == |page.tags|
      && page.kind != [] && page.language != []
      && (n.original <==> Strip(page.kind[0]) == "original")
  {
    NormaliseTagsSpec(page.tags);
  }

  /**
   * When every answer is non-empty, each resolved name is the translation
   * its dictionary ends with.
   */
  lemma ParsePageTranslated(st: PageState, page: Scraped)
    requires ParsePage(st, page).0.Ok?
    requires forall j :: 0 <= j < |st.answers| ==> st.answers[j] != ""
    ensures var (r, st') := ParsePage(st, page);
      && (forall i :: 0 <= i < |page.authors| ==> Mapped(st'.authors, page.authors[i]) && r.value.authors[i] == st'.authors[page.authors[i]])
      && (forall i :: 0 <= i < |page.groups| ==> Mapped(st'.groups, page.groups[i]) && r.value.groups[i] == st'.groups[page.groups[i]])
      && (forall i :: 0 <= i < |page.series| ==> Mapped(st'.series, page.series[i]) && r.value.series[i] == st'.series[page.series[i]])
      && (forall i :: 0 <= i < |page.characters| ==> Mapped(st'.characters, page.characters[i]) && r.value.characters[i] == st'.characters[page.characters[i]])
  {
    var ra := Resolve(page.authors, st.authors, st.answers);
    var rg := Resolve(page.groups, st.groups, ra.answers);
    var rs := Resolve(page.series, st.series, rg.answers);
    var rc := Resolve(page.characters, st.characters, rs.answers);
    var (r, st') := ParsePage(st, page);
    assert !ra.eof && !rg.eof && !rs.eof && !rc.eof;
    assert st'.authors == ra.table && st'.groups == rg.table && st'.series == rs.table && st'.characters == rc.table;
    assert r.value.authors == ra.resolved && r.value.groups == rg.resolved;
    assert r.value.series == rs.resolved && r.value.characters == rc.resolved;
    ResolveAnswers(page.authors, st.authors, st.answers);
    ResolveAnswers(page.groups, st.groups, ra.answers);
    ResolveAnswers(page.series, st.series, rg.answers);
    AnswersSuffixNonEmpty(st.answers, ra.prompts);
    AnswersSuffixNonEmpty(ra.answers, rg.prompts);
    AnswersSuffixNonEmpty(rg.answers, rs.prompts);
    ResolveComplete(page.authors, st.authors, st.answers);
    ResolveComplete(page.groups, st.groups, ra.answers);
    ResolveComplete(page.series, st.series, rg.answers);
    ResolveComplete(page.characters, st.characters, rs.answers);
  }

  lemma AnswersSuffixNonEmpty(answers: seq<string>, k: nat)
    requires k <= |answers|
    requires forall j :: 0 <= j < |answers| ==> answers[j] != ""
    ensures forall j :: 0 <= j < |answers[k..]| ==> answers[k..][j] != ""
  {
  }

  /**
   * When every scraped name already has a non-empty translation, nobody is
   * asked, the dictionaries stay as they were, and the page fails only on
   * an empty type or language field or a tag that does not match.
   */
  lemma ParsePageAllMapped(st: PageState, page: Scraped)
    requires forall i :: 0 <= i < |page.authors| ==> Mapped(st.authors, page.authors[i])
    requires forall i :: 0 <= i < |page.groups| ==> Mapped(st.groups, page.groups[i])
    requires forall i :: 0 <= i < |page.series| ==> Mapped(st.series, page.series[i])
    requires forall i :: 0 <= i < |page.characters| ==> Mapped(st.characters, page.characters[i])
    ensures ParsePage(st, page).1 == st
    ensures ParsePage(st, page).0.Ok? <==>
      page.kind != [] && page.language != [] && forall i :: 0 <= i < |page.tags| ==> NormaliseTag(page.tags[i]).Ok?
  {
    ResolveAllMapped(page.authors, st.authors, st.answers);
    ResolveAllMapped(page.groups, st.groups, st.answers);
    ResolveAllMapped(page.series, st.series, st.answers);
    ResolveAllMapped(page.characters, st.characters, st.answers);
    var ra := Resolve(page.authors, st.authors, st.answers);
    var rg := Resolve(page.groups, st.groups, st.answers);
    var rs := Resolve(page.series, st.series, st.answers);
    var rc := Resolve(page.characters, st.characters, st.answers);
    assert !ra.eof && !rg.eof && !rs.eof && !rc.eof;
    assert ra.table == st.authors && rg.table == st.groups && rs.table == st.series && rc.table == st.characters;
    assert ra.answers == rg.answers == rs.answers == rc.answers == st.answers;
    assert ra.prompts == rg.prompts == rs.prompts == rc.prompts == 0;
    NormaliseTagsSpec(page.tags);
  }

  /** One category: the raw copy, then the list resolved in place. */
  method AskCategory(tr: Translations, names: seq<string>, dic: Dictionary, console: Console)
    returns (raw: seq<string>, resolved: seq<string>, o: Outcome)
    modifies tr, dic, console
    ensures var res := Resolve(names, old(dic.entries), old(console.answers));
      && raw == names && resolved == res.resolved
      && dic.entries == res.table && dic.file == old(dic.file) && console.answers == res.answers
      && tr.changed == old(tr.changed) + res.prompts
      && o == (if res.eof then Fail(EOFError) else Pass)
  {
    var lst := new string[|names|](i requires 0 <= i < |names| => names[i]);
    raw := lst[..];
    o := tr.AskForOriginalNames(lst, dic, console);
    resolved := lst[..];
  }

  /** The metadata fields of `parse_gallery_page`, in its order. */
  method ParseGalleryNames(tr: Translations, page: Scraped, console: Console) returns (r: Result<Names>)
    requires tr.Distinct()
    modifies tr, tr.authors, tr.groups, tr.series, tr.characters, console
    ensures var st := PageState(old(tr.authors.entries), old(tr.groups.entries), old(tr.series.entries),
                                old(tr.characters.entries), old(console.answers), 0);
      var (res, st') := ParsePage(st, page);
      && r == res
      && tr.authors.entries == st'.authors && tr.groups.entries == st'.groups
      && tr.series.entries == st'.series && tr.characters.entries == st'.characters
      && console.answers == st'.answers && tr.changed == old(tr.changed) + st'.prompts
    ensures tr.authors.file == old(tr.authors.file) && tr.groups.file == old(tr.groups.file)
    ensures tr.series.file == old(tr.series.file) && tr.characters.file == old(tr.characters.file)
    ensures tr.tags.entries == old(tr.tags.entries) && tr.tags.file == old(tr.tags.file)
  {
    var authorsRaw, authors, o := AskCategory(tr, page.authors, tr.authors, console);
    if o.Fail? {
      return Err(o.error);
    }
    var groupsRaw, groups, o' := AskCategory(tr, page.groups, tr.groups, console);
    if o'.Fail? {
      return Err(o'.error);
    }
    var kind := FirstCell(page.kind);
    var language := FirstCell(page.language);
    if kind.Err? || language.Err? {
      return Err(IndexError);
    }
    var seriesRaw, series, o'' := AskCategory(tr, page.series, tr.series, console);
    if o''.Fail? {
      return Err(o''.error);
    }
    var charactersRaw, characters, o''' := AskCategory(tr, page.characters, tr.characters, console);
    if o'''.Fail? {
      return Err(o'''.error);
    }
    var tags := NormaliseTags(page.tags);
    if tags.Err? {
      return Err(tags.error);
    }
    r := Ok(Names(authorsRaw, authors, groupsRaw, groups, kind.value == "original", language.value,
                  seriesRaw, series, charactersRaw, characters, tags.value));
  }
}
