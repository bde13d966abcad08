/**
 * The file loop of `get_info_from_gallery_id` in hitomi/__init__.py: every
 * record of the gallery manifest gets a format, a source URL and a name
 * with that format's extension, in place.
 */
module Manifest {
  import opened Common
  import opened Resolver

  /**
   * `js[js.find("{"):]`: the manifest text from its first '{'. Without a
   * '{', `find` gives -1 and the slice is the last character alone.
   */
  function JsonStart(js: string): (r: string)
    ensures '{' in js ==> exists i :: 0 <= i < |js| && r == js[i..] && js[i] == '{' && '{' !in js[..i]
    ensures '{' !in js ==> r == (if js == [] then [] else [js[|js| - 1]])
  {
    var i := Find(js, '{');
    if i >= 0 then js[i..] else if js == [] then [] else js[|js| - 1..]
  }

  /** `str.find` for one character: the first index holding `c`, or -1. */
  function Find(s: string, c: char): (i: int)
    ensures -1 <= i < |s|
    ensures i == -1 <==> c !in s
    ensures i >= 0 ==> s[i] == c && c !in s[..i]
    decreases |s|
  {
    if s == [] then -1
    else if s[0] == c then 0
    else
      var j := Find(s[1..], c);
      assert s == [s[0]] + s[1..];
      if j == -1 then -1
      else
        assert s[..j + 1] == [s[0]] + s[1..][..j];
        j + 1
  }

  /** The format of a file: avif when it has one, else webp, else jpg. */
  function FileType(file: FileEntry): (t: string)
    ensures IsFileType(t)
  {
    if file.hasAvif then "avif" else if file.hasWebp then "webp" else "jpg"
  }

  /** What one turn of the loop makes of a record. */
  function NormaliseFile(file: FileEntry): FileEntry
  {
    var t := FileType(file);
    file.(url := Some(MakeSourceUrl(file, t)), name := BeforeFirstDot(file.name) + "." + t)
  }

  /**
   * A normalised record keeps its hash and flags; its name is the old name
   * up to (not including) its first '.', then '.' and the type; its URL is
   * the source URL of that type.
   */
  lemma NormaliseFileSpec(file: FileEntry)
    ensures var r, t := NormaliseFile(file), FileType(file);
      && r.hash == file.hash && r.hasAvif == file.hasAvif && r.hasWebp == file.hasWebp
      && r.url == Some(MakeSourceUrl(file, t))
      && exists stem :: r.name == stem + "." + t && '.' !in stem && file.name[..|stem|] == stem
           && (|stem| == |file.name| || file.name[|stem|] == '.')
  {
    var stem := BeforeFirstDot(file.name);
    assert NormaliseFile(file).name == stem + "." + FileType(file);
  }

  /** The source URL depends on the hash and the type only, not on the name or the flags. */
  lemma MakeSourceUrlUsesHashOnly(f: FileEntry, g: FileEntry, t: string)
    requires f.hash == g.hash && IsFileType(t)
    ensures MakeSourceUrl(f, t) == MakeSourceUrl(g, t)
  {
    assert UrlFromHash(f, t, "") == UrlFromHash(g, t, "");
  }

  /** Normalising twice is normalising once: the stem has no '.', so it is kept. */
  lemma NormaliseFileIdempotent(file: FileEntry)
    ensures NormaliseFile(NormaliseFile(file)) == NormaliseFile(file)
  {
    var r := NormaliseFile(file);
    var t := FileType(file);
    var stem := BeforeFirstDot(file.name);
    assert r.name == stem + "." + t;
    StemOfDottedName(stem, t);
    MakeSourceUrlUsesHashOnly(r, file, t);
  }

  lemma {:induction false} StemOfDottedName(stem: string, t: string)
    requires '.' !in stem
    ensures BeforeFirstDot(stem + "." + t) == stem
    decreases |stem|
  {
    if stem == [] {
      assert (stem + "." + t)[0] == '.';
    } else {
      assert stem[0] in stem;
      assert (stem + "." + t)[1..] == stem[1..] + "." + t;
      assert forall c :: c in stem[1..] ==> c in stem;
      StemOfDottedName(stem[1..], t);
    }
  }

  /**
   * The example of a file with an avif version: hash "0123456789abc" is
   * sharded as "c/ab/0123456789abc"; the token "ab" (171 = 57 * 3) picks
   * frontend 'a', and the base for avif is "a".
   */
  lemma AvifExample(name: string, webp: bool)
    ensures var f := FileEntry("0123456789abc", name, true, webp, None);
      MakeSourceUrl(f, FileType(f))
        == "https://" + "aa" + HostSuffix + ("avif" + "/" + "c/ab/0123456789abc" + "." + "avif")
  {
    var f := FileEntry("0123456789abc", name, true, webp, None);
    var h := f.hash;
    ExampleHashIsHex();
    MakeSourceUrlShape(f, "avif");
    ExampleHashParts();
    assert |h| == 13 && h[|h| - 3] == h[10] && h[|h| - 2] == h[11];
  }

  lemma ExampleHashIsHex()
    ensures IsLowerHex("0123456789abc")
  {
    var h := "0123456789abc";
    forall i | 0 <= i < |h| ensures IsHexDigit(h[i]) { }
  }

  lemma ExampleHashParts()
    ensures var h := "0123456789abc";
      && SubdomainFromShard(HexValue(h[10]) * 16 + HexValue(h[11]), "a") == "aa"
      && FullPathFromHash(h) == "c/ab/0123456789abc"
  {
    var h := "0123456789abc";
    assert h[10] == 'a' && h[11] == 'b';
    ExampleHashIsHex();
    FullPathFromHashShape(h);
    assert [h[12]] + "/" + h[10..12] + "/" + h == "c/ab/0123456789abc";
  }

  /** The whole list after the loop. */
  function NormaliseAll(files: seq<FileEntry>): (r: seq<FileEntry>)
    ensures |r| == |files|
  {
    if files == [] then [] else NormaliseAll(files[..|files| - 1]) + [NormaliseFile(files[|files| - 1])]
  }

  /** Every record is normalised on its own: record `i` of the result depends on record `i` only. */
  lemma {:induction false} NormaliseAllPointwise(files: seq<FileEntry>)
    ensures forall i :: 0 <= i < |files| ==> NormaliseAll(files)[i] == NormaliseFile(files[i])
    decreases |files|
  {
    if files != [] {
      var init := files[..|files| - 1];
      NormaliseAllPointwise(init);
      assert NormaliseAll(files) == NormaliseAll(init) + [NormaliseFile(files[|files| - 1])];
      forall i | 0 <= i < |files| ensures NormaliseAll(files)[i] == NormaliseFile(files[i]) {
        if i < |init| {
          assert files[i] == init[i];
        }
      }
    }
  }

  /**
   * The loop `for file in files`: each record gets its type, then `url`
   * from that type, then `name` rewritten to the stem and the type.
   */
  method NormaliseFiles(files: array<FileEntry>)
    modifies files
    ensures files[..] == NormaliseAll(old(files[..]))
  {
    ghost var before := files[..];
    ghost var after := NormaliseAll(before);
    for i := 0 to files.Length
      invariant forall j :: 0 <= j < i ==> files[j] == after[j]
      invariant forall j :: i <= j < files.Length ==> files[j] == before[j]
    {
      var file := files[i];
      var fileType;
      if file.hasAvif {
        fileType := "avif";
      } else if file.hasWebp {
        fileType := "webp";
      } else {
        fileType := "jpg";
      }
      file := file.(url := Some(MakeSourceUrl(file, fileType)));
      file := file.(name := BeforeFirstDot(file.name) + "." + fileType);
      assert file == after[i] by {
        NormaliseAllPointwise(before);
      }
      files[i] := file;
    }
    assert files[..] == after;
  }
}
