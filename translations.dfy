/**
 * Translation of names: the five dictionaries (authors, groups, series,
 * characters, tags) that map a name as the site shows it to its original
 * name, the operator who is asked for a missing one, the counter of
 * answers (`TRANSLATIONS_CHANGED`) and the YAML files the dictionaries are
 * saved to. `ask_for_original_names` rewrites a list of names in place.
 */
module Translations {
  import opened Common

  type Table = map<string, string>

  /** `dic.get(q)` is truthy: the name has a non-empty translation. */
  predicate Mapped(table: Table, name: string)
  {
    name in table && table[name] != ""
  }

  /**
   * The operator at the terminal, as the answers they will type, in order;
   * `input` with no answers left raises EOFError.
   */
  class Console {
    var answers: seq<string>

    constructor (answers: seq<string>)
      ensures this.answers == answers
    {
      this.answers := answers;
    }

    method Input() returns (r: Result<string>)
      modifies this
      ensures old(answers) == [] ==> r == Err(EOFError) && answers == old(answers)
      ensures old(answers) != [] ==> r == Ok(old(answers)[0]) && answers == old(answers)[1..]
    {
      if answers == [] {
        r := Err(EOFError);
      } else {
        r := Ok(answers[0]);
        answers := answers[1..];
      }
    }
  }

  /**
   * One of the dictionaries `AUTHORS`, `GROUPS`, `SERIES`, `CHARACTERS`,
   * `TAGS`: its entries in memory and what its YAML file holds (an empty
   * file reads as no entries).
   */
  class Dictionary {
    var entries: Table
    var file: Table

    /** The module starts with an empty dictionary. */
    constructor (file: Table)
      ensures entries == map[] && this.file == file
    {
      entries := map[];
      this.file := file;
    }

    /** One turn of `load_translations`: `attr_dic.update(content)`, the file winning on shared keys. */
    method Load()
      modifies this
      ensures entries == old(entries) + old(file) && file == old(file)
    {
      entries := entries + file;
    }

    /** One turn of `save_translations`: `yaml_dump(attr_dic, file)`. */
    method Save()
      modifies this
      ensures file == old(entries) && entries == old(entries)
    {
      file := entries;
    }
  }

  /** The five dictionaries and `TRANSLATIONS_CHANGED`, the number of answers taken. */
  class Translations {
    var changed: nat
    const authors: Dictionary
    const groups: Dictionary
    const series: Dictionary
    const characters: Dictionary
    const tags: Dictionary

    /** The five globals are five different dict objects. */
    predicate Distinct()
    {
      && authors != groups && authors != series && authors != characters && authors != tags
      && groups != series && groups != characters && groups != tags
      && series != characters && series != tags
      && characters != tags
    }

    constructor (authors: Dictionary, groups: Dictionary, series: Dictionary, characters: Dictionary, tags: Dictionary)
      ensures changed == 0
      ensures this.authors == authors && this.groups == groups && this.series == series
      ensures this.characters == characters && this.tags == tags
    {
      changed := 0;
      this.authors := authors;
      this.groups := groups;
      this.series := series;
      this.characters := characters;
      this.tags := tags;
    }

    /** `load_translations`: every dictionary takes in its file. */
    method LoadTranslations()
      requires Distinct()
      modifies authors, groups, series, characters, tags
      ensures authors.entries == old(authors.entries) + old(authors.file)
      ensures groups.entries == old(groups.entries) + old(groups.file)
      ensures series.entries == old(series.entries) + old(series.file)
      ensures characters.entries == old(characters.entries) + old(characters.file)
      ensures tags.entries == old(tags.entries) + old(tags.file)
      ensures authors.file == old(authors.file) && groups.file == old(groups.file) && series.file == old(series.file)
      ensures characters.file == old(characters.file) && tags.file == old(tags.file)
      ensures unchanged(`changed)
    {
      authors.Load();
      groups.Load();
      series.Load();
      characters.Load();
      tags.Load();
    }

    /**
     * `query_translation`: ask the operator, store the answer under `key`
     * and count it. When the answers are exhausted nothing changes.
     */
    method QueryTranslation(dic: Dictionary, key: string, console: Console) returns (r: Result<string>)
      modifies this, dic, console
      ensures old(console.answers) == [] ==>
        r == Err(EOFError) && dic.entries == old(dic.entries) && changed == old(changed) && console.answers == old(console.answers)
      ensures old(console.answers) != [] ==>
        && r == Ok(old(console.answers)[0])
        && dic.entries == old(dic.entries)[key := old(console.answers)[0]]
        && changed == old(changed) + 1
        && console.answers == old(console.answers)[1..]
      ensures dic.file == old(dic.file)
    {
      r := console.Input();
      if r.Ok? {
        dic.entries := dic.entries[key := r.value];
        changed := changed + 1;
      }
    }

    /**
     * One turn of `ask_for_original_names`: the name's translation when it
     * has a non-empty one, otherwise the operator's answer, stored and
     * counted. `res` is what the names before this one did; the new state
     * is what `ResolveName` makes of it.
     */
    method OriginalName(q: string, dic: Dictionary, console: Console, ghost res: Resolution) returns (v: Result<string>)
      requires !res.eof && res.table == dic.entries && res.answers == console.answers
      modifies this, dic, console
      ensures var next := ResolveName(res, q);
        && dic.entries == next.table
        && console.answers == next.answers
        && changed == old(changed) + (next.prompts - res.prompts)
        && (v.Ok? <==> !next.eof)
        && (v.Ok? ==> next.resolved == res.resolved + [v.value])
        && (v.Err? ==> v.error == EOFError && next.resolved == res.resolved + [q])
      ensures dic.file == old(dic.file)
    {
      if q in dic.entries && dic.entries[q] != "" {
        v := Ok(dic.entries[q]);
      } else {
        v := QueryTranslation(dic, q, console);
      }
    }

    /**
     * `ask_for_original_names`: every name in `lst` is replaced by its
     * translation, asking the operator for each one that has none (or an
     * empty one). When the answers run out the remaining names stay as
     * they were and EOFError is raised.
     */
    method AskForOriginalNames(lst: array<string>, dic: Dictionary, console: Console) returns (r: Outcome)
      modifies lst, this, dic, console
      ensures var res := Resolve(old(lst[..]), old(dic.entries), old(console.answers));
        && lst[..] == res.resolved
        && dic.entries == res.table
        && console.answers == res.answers
        && changed == old(changed) + res.prompts
        && r == (if res.eof then Fail(EOFError) else Pass)
      ensures dic.file == old(dic.file)
    {
      ghost var names := lst[..];
      ghost var answers0, table0, changed0 := console.answers, dic.entries, changed;
      ghost var res := Resolve([], table0, answers0);
      r := Pass;
      var i := 0;
      while i < lst.Length
        invariant 0 <= i <= lst.Length
        invariant res == Resolve(names[..i], table0, answers0) && !res.eof
        invariant forall j :: 0 <= j < i ==> lst[j] == res.resolved[j]
        invariant forall j :: i <= j < lst.Length ==> lst[j] == names[j]
        invariant dic.entries == res.table && dic.file == old(dic.file)
        invariant console.answers == res.answers && changed == changed0 + res.prompts
      {
        ResolveUnfold(names, i, table0, answers0);
        var v := OriginalName(lst[i], dic, console, res);
        if v.Err? {
          ghost var next := ResolveName(res, names[i]);
          ResolveAfterEof(names, i + 1, table0, answers0);
          Pointwise(lst[..], next.resolved + names[i + 1..]);
          return Fail(EOFError);
        }
        lst[i] := v.value;
        res := ResolveName(res, names[i]);
        i := i + 1;
      }
      assert names[..i] == names;
      Pointwise(lst[..], res.resolved);
    }

    /** `save_translations`: the files are rewritten only when some answer was taken. */
    method SaveTranslations()
      requires Distinct()
      modifies authors, groups, series, characters, tags
      ensures old(changed) > 0 ==>
        && authors.file == old(authors.entries) && groups.file == old(groups.entries)
        && series.file == old(series.entries) && characters.file == old(characters.entries)
        && tags.file == old(tags.entries)
      ensures old(changed) == 0 ==>
        && authors.file == old(authors.file) && groups.file == old(groups.file)
        && series.file == old(series.file) && characters.file == old(characters.file)
        && tags.file == old(tags.file)
      ensures authors.entries == old(authors.entries) && groups.entries == old(groups.entries)
      ensures series.entries == old(series.entries) && characters.entries == old(characters.entries)
      ensures tags.entries == old(tags.entries)
    {
      if changed > 0 {
        authors.Save();
        groups.Save();
        series.Save();
        characters.Save();
        tags.Save();
      }
    }
  }

  /** Two sequences that agree at every index are equal. */
  lemma Pointwise<T>(a: seq<T>, b: seq<T>)
    requires |a| == |b| && forall i :: 0 <= i < |a| ==> a[i] == b[i]
    ensures a == b
  {
  }

  /**
   * What resolving a list does: the rewritten list, the dictionary after
   * it, the answers left, how many were taken, and whether the answers ran
   * out (EOFError), in which case the names from that point on are kept.
   */
  datatype Resolution = Resolution(resolved: seq<string>, table: Table, answers: seq<string>, prompts: nat, eof: bool)

  function Resolve(names: seq<string>, table: Table, answers: seq<string>): (r: Resolution)
    ensures |r.resolved| == |names|
    decreases |names|
  {
    if names == [] then Resolution([], table, answers, 0, false)
    else
      var r := Resolve(names[..|names| - 1], table, answers);
      ResolveName(r, names[|names| - 1])
  }

  /** One turn of the loop: the next name `q`, given what the names before it did. */
  function ResolveName(r: Resolution, q: string): Resolution
  {
    if r.eof then r.(resolved := r.resolved + [q])
    else if Mapped(r.table, q) then r.(resolved := r.resolved + [r.table[q]])
    else if r.answers == [] then r.(resolved := r.resolved + [q], eof := true)
    else Resolution(r.resolved + [r.answers[0]], r.table[q := r.answers[0]], r.answers[1..], r.prompts + 1, false)
  }

  /**
   * The answers are taken in order, each at most once: what is left is a
   * suffix of the answers, `prompts` of them are used, and they have run
   * out when EOFError was raised.
   */
  lemma {:induction false} ResolveAnswers(names: seq<string>, table: Table, answers: seq<string>)
    ensures var r := Resolve(names, table, answers);
      && r.prompts <= |answers| && r.answers == answers[r.prompts..]
      && (r.eof ==> r.answers == [])
    decreases |names|
  {
    if names != [] {
      var p := Resolve(names[..|names| - 1], table, answers);
      ResolveAnswers(names[..|names| - 1], table, answers);
      if p.answers != [] {
        assert p.answers[1..] == answers[p.prompts + 1..];
      }
    }
  }

  lemma ResolveUnfold(names: seq<string>, i: nat, table: Table, answers: seq<string>)
    requires i < |names|
    ensures Resolve(names[..i + 1], table, answers) == ResolveName(Resolve(names[..i], table, answers), names[i])
  {
    assert names[..i + 1][..i] == names[..i];
  }

  /** Once the answers have run out, the rest of the names are kept as they are. */
  lemma {:induction false} ResolveAfterEof(names: seq<string>, i: nat, table: Table, answers: seq<string>)
    requires i <= |names| && Resolve(names[..i], table, answers).eof
    ensures var r, p := Resolve(names, table, answers), Resolve(names[..i], table, answers);
      r == p.(resolved := p.resolved + names[i..])
    decreases |names| - i
  {
    if i < |names| {
      var p := Resolve(names[..i], table, answers);
      assert names[..i + 1][..i] == names[..i];
      ResolveAfterEof(names, i + 1, table, answers);
      assert p.resolved + [names[i]] + names[i + 1..] == p.resolved + names[i..];
    } else {
      assert names[..i] == names;
    }
  }

  /** When every name already has a non-empty translation, nothing is asked and nothing changes. */
  lemma {:induction false} ResolveAllMapped(names: seq<string>, table: Table, answers: seq<string>)
    requires forall i :: 0 <= i < |names| ==> Mapped(table, names[i])
    ensures var r := Resolve(names, table, answers);
      && r.table == table && r.answers == answers && r.prompts == 0 && !r.eof
      && forall i :: 0 <= i < |names| ==> Mapped(table, names[i]) && r.resolved[i] == table[names[i]]
    decreases |names|
  {
    if names != [] {
      var init := names[..|names| - 1];
      ResolveAllMapped(init, table, answers);
      forall i | 0 <= i < |names| - 1 ensures names[i] == init[i] { }
    }
  }

  /**
   * Translations are only added: an entry with a non-empty translation is
   * kept, and every new key is one of the names.
   */
  lemma {:induction false} ResolveKeepsEntries(names: seq<string>, table: Table, answers: seq<string>)
    ensures var r := Resolve(names, table, answers);
      && (forall k :: Mapped(table, k) ==> Mapped(r.table, k) && r.table[k] == table[k])
      && (forall k :: k in r.table ==> k in table || k in names)
    decreases |names|
  {
    if names != [] {
      var init := names[..|names| - 1];
      ResolveKeepsEntries(init, table, answers);
      assert forall k :: k in init ==> k in names;
    }
  }

  /**
   * When the answers last and none is empty, every name ends up translated:
   * position `i` holds the dictionary's final, non-empty entry for name `i`,
   * even when the name occurs twice and was asked for only once.
   */
  lemma {:induction false} ResolveComplete(names: seq<string>, table: Table, answers: seq<string>)
    requires forall j :: 0 <= j < |answers| ==> answers[j] != ""
    requires !Resolve(names, table, answers).eof
    ensures var r := Resolve(names, table, answers);
      forall i :: 0 <= i < |names| ==> Mapped(r.table, names[i]) && r.resolved[i] == r.table[names[i]]
    decreases |names|
  {
    if names != [] {
      var init := names[..|names| - 1];
      var p := Resolve(init, table, answers);
      var r := Resolve(names, table, answers);
      var q := names[|names| - 1];
      assert !p.eof;
      ResolveComplete(init, table, answers);
      ResolveAnswers(init, table, answers);
      forall i | 0 <= i < |names| ensures Mapped(r.table, names[i]) && r.resolved[i] == r.table[names[i]] {
        if i < |names| - 1 {
          assert names[i] == init[i];
          if !Mapped(p.table, q) {
            assert names[i] != q;
          }
        } else if !Mapped(p.table, q) {
          assert p.answers[0] == answers[p.prompts];
        }
      }
    }
  }
}
