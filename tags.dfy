/**
 * The tags of a gallery: the normaliser applied to every scraped tag
 * (`re.match(r"([a-z ]+)([♀♂])?", tag).group(1).rstrip()`) and the list of
 * translated tags the tag index is built from
 * (`[TAGS[t] for t in tags if TAGS.get(t)]`), which never asks the operator.
 */
module Tags {
  import opened Common
  import opened Translations

  /** The class `[a-z ]`. */
  predicate IsTagChar(c: char)
  {
    'a' <= c <= 'z' || c == ' '
  }

  /** `([a-z ]+)` matched greedily at the start: the longest prefix of tag characters. */
  function LeadingRun(s: string): (r: string)
    ensures |r| <= |s| && r == s[..|r|]
    ensures forall i :: 0 <= i < |r| ==> IsTagChar(s[i])
    ensures |r| < |s| ==> !IsTagChar(s[|r|])
    decreases |s|
  {
    if s == [] || !IsTagChar(s[0]) then [] else [s[0]] + LeadingRun(s[1..])
  }

  /** `rstrip()` of a string of tag characters: the trailing spaces go. */
  function StripTrailingSpaces(s: string): (r: string)
    ensures |r| <= |s| && r == s[..|r|]
    ensures r == [] || r[|r| - 1] != ' '
    ensures forall i :: |r| <= i < |s| ==> s[i] == ' '
    decreases |s|
  {
    if s == [] || s[|s| - 1] != ' ' then s else StripTrailingSpaces(s[..|s| - 1])
  }

  /**
   * One tag. `re.match` fails, and `.group` raises AttributeError, when the
   * tag is empty or does not start with a tag character. The optional
   * `[♀♂]` after the run never changes group 1.
   */
  function NormaliseTag(tag: string): Result<string>
  {
    if tag == [] || !IsTagChar(tag[0]) then Err(AttributeError)
    else Ok(StripTrailingSpaces(LeadingRun(tag)))
  }

  /**
   * A tag is normalised exactly when it starts with a tag character. The
   * result is a prefix of the tag made of tag characters, not ending in a
   * space; after it come only spaces up to the end or to the first other
   * character.
   */
  lemma NormaliseTagSpec(tag: string)
    ensures NormaliseTag(tag).Ok? <==> |tag| > 0 && IsTagChar(tag[0])
    ensures NormaliseTag(tag).Err? ==> NormaliseTag(tag).error == AttributeError
    ensures NormaliseTag(tag).Ok? ==>
      var r := NormaliseTag(tag).value;
      && |r| <= |tag| && r == tag[..|r|]
      && (forall i :: 0 <= i < |r| ==> IsTagChar(r[i]))
      && (r == [] || r[|r| - 1] != ' ')
      && exists k :: SpacesThenEnd(tag, |r|, k)
  {
    if |tag| > 0 && IsTagChar(tag[0]) {
      var run := LeadingRun(tag);
      var r := StripTrailingSpaces(run);
      assert NormaliseTag(tag) == Ok(r);
      StrippedRunSpec(tag, run, r);
    }
  }

  /** The stripped run is a prefix of the tag, followed by spaces up to the end of the run. */
  lemma StrippedRunSpec(tag: string, run: string, r: string)
    requires run == LeadingRun(tag) && r == StripTrailingSpaces(run)
    ensures |r| <= |tag| && r == tag[..|r|]
    ensures forall i :: 0 <= i < |r| ==> IsTagChar(r[i])
    ensures exists k :: SpacesThenEnd(tag, |r|, k)
  {
    var n := |run|;
    assert run == tag[..n];
    assert r == run[..|r|];
    assert r == tag[..|r|];
    forall i | |r| <= i < n ensures tag[i] == ' ' {
      assert run[i] == ' ';
    }
    assert SpacesThenEnd(tag, |r|, n);
  }

  /** From `j` to `k` the tag holds spaces only, and `k` ends the run of tag characters. */
  predicate SpacesThenEnd(tag: string, j: nat, k: nat)
  {
    && j <= k <= |tag|
    && (forall i :: j <= i < k ==> tag[i] == ' ')
    && (k == |tag| || !IsTagChar(tag[k]))
  }

  /**
   * Normalising a non-empty normalised tag gives it back: it starts with a
   * tag character, is all tag characters and has no trailing space.
   */
  lemma NormaliseTagIdempotent(tag: string)
    requires NormaliseTag(tag).Ok? && NormaliseTag(tag).value != []
    ensures NormaliseTag(NormaliseTag(tag).value) == NormaliseTag(tag)
  {
    var r := NormaliseTag(tag).value;
    NormaliseTagSpec(tag);
    LeadingRunAllTagChars(r);
    StripKeepsUnspaced(r);
  }

  lemma {:induction false} LeadingRunAllTagChars(s: string)
    requires forall i :: 0 <= i < |s| ==> IsTagChar(s[i])
    ensures LeadingRun(s) == s
    decreases |s|
  {
    if s != [] {
      LeadingRunAllTagChars(s[1..]);
    }
  }

  lemma StripKeepsUnspaced(s: string)
    requires s == [] || s[|s| - 1] != ' '
    ensures StripTrailingSpaces(s) == s
  {
  }

  /**
   * The comprehension over all tags: the first tag that does not match
   * raises, and the list is not built.
   */
  function NormaliseTags(tags: seq<string>): (r: Result<seq<string>>)
    ensures r.Ok? ==> |r.value| == |tags|
    decreases |tags|
  {
    if tags == [] then Ok([])
    else
      match NormaliseTag(tags[0])
      case Err(e) => Err(e)
      case Ok(t) =>
        match NormaliseTags(tags[1..])
        case Err(e) => Err(e)
        case Ok(rest) => Ok([t] + rest)
  }

  /**
   * The list is built exactly when every tag matches, and then holds each
   * tag's normal form at its position; otherwise AttributeError is raised.
   */
  lemma {:induction false} NormaliseTagsSpec(tags: seq<string>)
    ensures NormaliseTags(tags).Ok? <==> forall i :: 0 <= i < |tags| ==> NormaliseTag(tags[i]).Ok?
    ensures NormaliseTags(tags).Err? ==> NormaliseTags(tags).error == AttributeError
    ensures NormaliseTags(tags).Ok? ==>
      forall i :: 0 <= i < |tags| ==> NormaliseTags(tags).value[i] == NormaliseTag(tags[i]).value
    decreases |tags|
  {
    if tags != [] {
      NormaliseTagsSpec(tags[1..]);
      forall i | 1 <= i < |tags| ensures tags[1..][i - 1] == tags[i] { }
      if NormaliseTag(tags[0]).Ok? && NormaliseTags(tags[1..]).Err? {
        var j :| 0 <= j < |tags[1..]| && !NormaliseTag(tags[1..][j]).Ok?;
        assert !NormaliseTag(tags[j + 1]).Ok?;
      }
    }
  }

  /** `[TAGS[t] for t in tags if TAGS.get(t)]`: the translations of the tags that have a non-empty one. */
  function TagIndex(tags: seq<string>, table: Table): (r: seq<string>)
    ensures |r| <= |tags|
    decreases |tags|
  {
    if tags == [] then []
    else if Mapped(table, tags[0]) then [table[tags[0]]] + TagIndex(tags[1..], table)
    else TagIndex(tags[1..], table)
  }

  /**
   * Every entry of the list is the non-empty translation of some tag, and
   * every tag with a non-empty translation contributes it.
   */
  lemma {:induction false} TagIndexMembers(tags: seq<string>, table: Table)
    ensures forall v :: v in TagIndex(tags, table) <==>
      exists i :: 0 <= i < |tags| && Mapped(table, tags[i]) && v == table[tags[i]]
    decreases |tags|
  {
    if tags != [] {
      TagIndexMembers(tags[1..], table);
      forall i | 1 <= i < |tags| ensures tags[1..][i - 1] == tags[i] { }
      forall v | v in TagIndex(tags, table)
        ensures exists i :: 0 <= i < |tags| && Mapped(table, tags[i]) && v == table[tags[i]]
      {
        if !(Mapped(table, tags[0]) && v == table[tags[0]]) {
          assert v in TagIndex(tags[1..], table);
          var j :| 0 <= j < |tags[1..]| && Mapped(table, tags[1..][j]) && v == table[tags[1..][j]];
          assert tags[j + 1] == tags[1..][j];
        }
      }
      forall v | exists i :: 0 <= i < |tags| && Mapped(table, tags[i]) && v == table[tags[i]]
        ensures v in TagIndex(tags, table)
      {
        var i :| 0 <= i < |tags| && Mapped(table, tags[i]) && v == table[tags[i]];
        if i > 0 {
          assert tags[1..][i - 1] == tags[i];
        }
      }
    }
  }

  /** The list keeps the order of the tags: it distributes over concatenation. */
  lemma {:induction false} TagIndexAppend(a: seq<string>, b: seq<string>, table: Table)
    ensures TagIndex(a + b, table) == TagIndex(a, table) + TagIndex(b, table)
    decreases |a|
  {
    if a != [] {
      assert (a + b)[1..] == a[1..] + b;
      TagIndexAppend(a[1..], b, table);
    } else {
      assert a + b == b;
    }
  }

  /** When every tag has a non-empty translation, the list is the tags translated one by one. */
  lemma {:induction false} TagIndexAllMapped(tags: seq<string>, table: Table)
    requires forall i :: 0 <= i < |tags| ==> Mapped(table, tags[i])
    ensures |TagIndex(tags, table)| == |tags|
    ensures forall i :: 0 <= i < |tags| ==> Mapped(table, tags[i]) && TagIndex(tags, table)[i] == table[tags[i]]
    decreases |tags|
  {
    if tags != [] {
      forall i | 1 <= i < |tags| ensures tags[1..][i - 1] == tags[i] { }
      TagIndexAllMapped(tags[1..], table);
    }
  }
}
