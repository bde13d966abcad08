/**
 * The category index: for a gallery directory `_data/<dirname>` and a
 * category such as `tags`, every value `v` gets a directory `tags/<v>`
 * holding a link `<dirname>` to `../../_data/<dirname>`
 * (`update_symlinks_generic` and its five wrappers).
 *
 * The file system is a map from a path, as its list of components from
 * the project root, to what is there: a directory, a file, or a symbolic
 * link with its target text. The root itself is always a directory.
 */
module SymlinkIndex {
  import opened Common

  type Path = seq<string>

  datatype Node = Dir | File(size: nat) | Link(text: Path)

  type Entries = map<Path, Node>

  /** Linux gives up following links after 40 hops (ELOOP); `os.path.exists` then answers False. */
  const MaxHops: nat := 40

  /**
   * `base` joined with a relative path, `..` taking one component off and
   * `.` staying put. A `..` above the project root leaves the project:
   * None.
   */
  function Normalise(base: Path, rel: Path): Option<Path>
    decreases |rel|
  {
    if rel == [] then Some(base)
    else if rel[0] == ".." then (if base == [] then None else Normalise(base[..|base| - 1], rel[1..]))
    else if rel[0] == "." then Normalise(base, rel[1..])
    else Normalise(base + [rel[0]], rel[1..])
  }

  function Parent(p: Path): Path
  {
    if p == [] then [] else p[..|p| - 1]
  }

  /** Where a link at `p` with target text `text` points, if inside the project. */
  function Follow(p: Path, text: Path): Option<Path>
  {
    Normalise(Parent(p), text)
  }

  /**
   * `os.path.exists`: something is there, links followed for at most
   * `hops` hops. Nothing outside the project is taken to exist.
   */
  predicate ExistsWithin(m: Entries, p: Path, hops: nat)
    decreases hops
  {
    || p == []
    || (&& p in m
        && (m[p].Link? ==>
              var q := Follow(p, m[p].text);
              hops > 0 && q.Some? && ExistsWithin(m, q.value, hops - 1)))
  }

  predicate Exists(m: Entries, p: Path)
  {
    ExistsWithin(m, p, MaxHops)
  }

  /** `Path.is_dir`: a directory is there, links followed. */
  predicate IsDirWithin(m: Entries, p: Path, hops: nat)
    decreases hops
  {
    || p == []
    || (&& p in m
        && (|| m[p].Dir?
            || (&& m[p].Link?
                && var q := Follow(p, m[p].text);
                   hops > 0 && q.Some? && IsDirWithin(m, q.value, hops - 1))))
  }

  predicate IsDir(m: Entries, p: Path)
  {
    IsDirWithin(m, p, MaxHops)
  }

  /**
   * `Path(p).mkdir(exist_ok=True)`. Anything already at `p`, even a
   * dangling link, makes `os.mkdir` fail; that is accepted only when `p`
   * is a directory once links are followed. A missing parent raises
   * FileNotFoundError, a parent that is not a directory NotADirectoryError.
   */
  function MkdirSpec(m: Entries, p: Path): (r: (Entries, Outcome))
    ensures r.0 == m || (p !in m && r.0 == m[p := Dir])
    ensures r.1 == Pass && p != [] && p !in m ==> r.0 == m[p := Dir]
  {
    if p == [] || p in m then (m, if IsDir(m, p) then Pass else Fail(FileExistsError))
    else if !Exists(m, Parent(p)) then (m, Fail(FileNotFoundError))
    else if !IsDir(m, Parent(p)) then (m, Fail(NotADirectoryError))
    else (m[p := Dir], Pass)
  }

  /** `os.unlink(p)`: removes a file or a link (not what it points to); a directory raises. */
  function UnlinkSpec(m: Entries, p: Path): (r: (Entries, Outcome))
    ensures r.0 == m || (p in m && !m[p].Dir? && r.0 == m - {p})
  {
    if p !in m then (m, Fail(FileNotFoundError))
    else if m[p].Dir? then (m, Fail(IsADirectoryError))
    else (m - {p}, Pass)
  }

  /** `os.symlink(text, p)`: fails when anything, even a dangling link, is at `p`. */
  function SymlinkSpec(m: Entries, text: Path, p: Path): (r: (Entries, Outcome))
    ensures r.0 == m || (p !in m && r.0 == m[p := Link(text)])
    ensures r.1 == Pass ==> p in r.0 && r.0[p] == Link(text)
  {
    if p == [] || p in m then (m, Fail(FileExistsError))
    else if !Exists(m, Parent(p)) then (m, Fail(FileNotFoundError))
    else if !IsDir(m, Parent(p)) then (m, Fail(NotADirectoryError))
    else (m[p := Link(text)], Pass)
  }

  // ----- path strings -----

  /** `s.split("/")`: the texts between the slashes, empty ones included. */
  function Split(s: string): (r: seq<string>)
    ensures |r| >= 1
    decreases |s|
  {
    if s == [] then [""]
    else
      var rest := Split(s[1..]);
      if s[0] == '/' then [""] + rest else [[s[0]] + rest[0]] + rest[1..]
  }

  /** The parts `pathlib` keeps: empty parts (from "//" or a trailing '/') and "." are dropped. */
  function Keep(parts: seq<string>): (r: Path)
    ensures forall k :: 0 <= k < |r| ==> r[k] != "" && r[k] != "."
    decreases |parts|
  {
    if parts == [] then []
    else (if parts[0] == "" || parts[0] == "." then [] else [parts[0]]) + Keep(parts[1..])
  }

  /** The components of a relative path as `Path(s)` holds them. */
  function Parts(s: string): Path
  {
    Keep(Split(s))
  }

  /** `os.path.join(a, b)`: an absolute `b` replaces `a`; otherwise one '/' goes between them. */
  function Join(a: string, b: string): string
  {
    if b != [] && b[0] == '/' then b
    else if a == [] || a[|a| - 1] == '/' then a + b
    else a + "/" + b
  }

  /** One path component: not empty, not "." or "..", no '/'. */
  predicate Component(s: string)
  {
    s != "" && s != "." && s != ".." && '/' !in s
  }

  lemma {:induction false} SplitNoSlash(s: string)
    requires '/' !in s
    ensures Split(s) == [s]
    decreases |s|
  {
    if s != [] {
      assert forall c :: c in s[1..] ==> c in s;
      SplitNoSlash(s[1..]);
      assert [s[0]] + s[1..] == s;
    }
  }

  /** Splitting at one more '/' adds the parts on either side of it. */
  lemma {:induction false} SplitConcat(x: string, y: string)
    ensures Split(x + "/" + y) == Split(x) + Split(y)
    decreases |x|
  {
    if x == [] {
      assert (x + "/" + y)[1..] == y;
    } else {
      assert (x + "/" + y)[1..] == x[1..] + "/" + y;
      assert (x + "/" + y)[0] == x[0];
      SplitConcat(x[1..], y);
    }
  }

  lemma {:induction false} KeepConcat(a: seq<string>, b: seq<string>)
    ensures Keep(a + b) == Keep(a) + Keep(b)
    decreases |a|
  {
    if a != [] {
      assert (a + b)[1..] == a[1..] + b;
      KeepConcat(a[1..], b);
    } else {
      assert a + b == b;
    }
  }

  /** A slash in the middle separates the parts of the two sides. */
  lemma PartsConcat(x: string, y: string)
    ensures Parts(x + "/" + y) == Parts(x) + Parts(y)
  {
    SplitConcat(x, y);
    KeepConcat(Split(x), Split(y));
  }

  /** A component is a path of one part. */
  lemma PartsComponent(s: string)
    requires Component(s)
    ensures Parts(s) == [s]
  {
    SplitNoSlash(s);
    assert [s][0] == s && [s][1..] == [];
    assert Keep([s]) == [s] + Keep([]);
  }

  /**
   * `Path(os.path.join(attr, v))` for a value `v` that is not absolute:
   * the category directory followed by the parts of `v`.
   */
  lemma ValueDirParts(attr: string, v: string)
    requires Component(attr) && (v == [] || v[0] != '/')
    ensures ValueDir(attr, v) == [attr] + Parts(v)
  {
    PartsConcat(attr, v);
    PartsComponent(attr);
  }

  /** The link text `os.path.join("..", "..", "_data", dirname)`, read as components. */
  function LinkText(dirname: string): Path
  {
    ["..", "..", "_data", dirname]
  }

  /** The directory `Path(os.path.join(attr, v))` of a value, as its parts. */
  function ValueDir(attr: string, v: string): Path
  {
    Parts(Join(attr, v))
  }

  /** The link `os.path.join(p, dirname)` inside the value's directory, as its parts. */
  function LinkPath(attr: string, v: string, dirname: string): Path
  {
    ValueDir(attr, v) + Parts(dirname)
  }

  /** For a category and a value that are one component each, the value's directory is the pair. */
  lemma ValueDirComponent(attr: string, v: string)
    requires Component(attr) && Component(v)
    ensures ValueDir(attr, v) == [attr, v]
  {
    PartsConcat(attr, v);
    PartsComponent(attr);
    PartsComponent(v);
  }

  /** The same, for every value of a list. */
  lemma ValueDirsComponents(attr: string, values: seq<string>)
    requires Component(attr) && AllComponents(values)
    ensures forall v :: v in values ==> ValueDir(attr, v) == [attr, v]
  {
    forall v | v in values ensures ValueDir(attr, v) == [attr, v] {
      ValueDirComponent(attr, v);
    }
  }

  /** For a gallery name that is one component, the link sits right inside the value's directory. */
  lemma LinkPathComponent(attr: string, v: string, dirname: string)
    requires Component(dirname)
    ensures LinkPath(attr, v, dirname) == ValueDir(attr, v) + [dirname]
    ensures Parent(LinkPath(attr, v, dirname)) == ValueDir(attr, v)
  {
    PartsComponent(dirname);
    assert (ValueDir(attr, v) + [dirname])[..|ValueDir(attr, v)|] == ValueDir(attr, v);
  }

  /** Every value is one path component, as the lemmas below about whole runs require. */
  predicate AllComponents(values: seq<string>)
  {
    forall v :: v in values ==> Component(v)
  }

  /**
   * A link made for a value that is one path component points at the
   * gallery directory.
   */
  lemma LinkTargetIsGallery(attr: string, v: string, dirname: string)
    requires Component(attr) && Component(v) && Component(dirname)
    ensures LinkPath(attr, v, dirname) == [attr, v, dirname]
    ensures Follow(LinkPath(attr, v, dirname), LinkText(dirname)) == Some(["_data", dirname])
  {
    ValueDirComponent(attr, v);
    LinkPathComponent(attr, v, dirname);
    var text := LinkText(dirname);
    assert Parent(LinkPath(attr, v, dirname)) == [attr, v];
    assert text[0] == ".." && text[1..] == ["..", "_data", dirname];
    assert [attr, v][..1] == [attr];
    assert Normalise([attr, v], text) == Normalise([attr], ["..", "_data", dirname]);
    assert ["..", "_data", dirname][1..] == ["_data", dirname];
    assert Normalise([attr], ["..", "_data", dirname]) == Normalise([], ["_data", dirname]);
    assert "_data" != ".." && "_data" != "." by {
      assert "_data"[1] == 'd';
    }
    assert [] + ["_data"] == ["_data"] && ["_data"] + [dirname] == ["_data", dirname];
    assert ["_data", dirname][1..] == [dirname];
    assert Normalise([], ["_data", dirname]) == Normalise(["_data"], [dirname]);
    assert Normalise(["_data"], [dirname]) == Normalise(["_data", dirname], []);
  }

  /**
   * An empty value (an empty answer stored as a translation) joins to the
   * category directory itself: the link lands at `attr/dirname`, and its
   * text climbs out of the project.
   */
  lemma EmptyValueLink(attr: string, dirname: string)
    requires Component(attr) && Component(dirname)
    ensures ValueDir(attr, "") == [attr]
    ensures LinkPath(attr, "", dirname) == [attr, dirname]
    ensures Follow(LinkPath(attr, "", dirname), LinkText(dirname)) == None
  {
    ValueDirParts(attr, "");
    assert Split("") == [""];
    assert Keep([""]) == [] + Keep([""][1..]);
    assert [""][1..] == [];
    LinkPathComponent(attr, "", dirname);
    var text := LinkText(dirname);
    assert Parent([attr, dirname]) == [attr];
    assert text[0] == ".." && text[1..] == ["..", "_data", dirname];
    assert [attr][..0] == [];
    assert Normalise([attr], text) == Normalise([], text[1..]);
  }

  /**
   * A value holding '/' names nested directories: "Fate/Grand Order"
   * under `series` is `series/Fate/Grand Order`, and `mkdir` raises
   * FileNotFoundError when `series/Fate` is not there.
   */
  lemma SlashValueNested(m: Entries, dirname: string, attr: string, a: string, b: string)
    requires Component(attr) && Component(a) && Component(b)
    requires [attr, a] !in m && [attr, a, b] !in m
    ensures ValueDir(attr, a + "/" + b) == [attr, a, b]
    ensures UpdateLinks(m, dirname, attr, [a + "/" + b]) == (m, Fail(FileNotFoundError))
  {
    var v := a + "/" + b;
    PartsConcat(a, b);
    PartsComponent(a);
    PartsComponent(b);
    assert v != [] && v[0] == a[0];
    ValueDirParts(attr, v);
    var dir := [attr, a, b];
    assert Parent(dir) == [attr, a];
    MkdirMissingParent(m, dir);
    assert [v][..0] == [];
    assert UpdateLinks(m, dirname, attr, [v]) == LinkStep(m, dirname, attr, v);
  }

  /** `mkdir` without `parents=True` raises FileNotFoundError when the parent is missing. */
  lemma MkdirMissingParent(m: Entries, p: Path)
    requires p != [] && p !in m && Parent(p) != [] && Parent(p) !in m
    ensures MkdirSpec(m, p) == (m, Fail(FileNotFoundError))
  {
  }

  /**
   * One turn of the loop on paths: make the directory `dir`, drop an
   * existing entry at `dst`, make the link `dst` with target `text`.
   */
  function StepAt(m: Entries, dir: Path, dst: Path, text: Path): (r: (Entries, Outcome))
    ensures forall p :: p != dir && p != dst ==> (p in r.0 <==> p in m) && (p in m ==> r.0[p] == m[p])
    ensures r.1 == Pass ==> dst in r.0 && r.0[dst] == Link(text)
    ensures r.1 == Pass ==> forall p :: p in m && p != dst ==> p in r.0 && r.0[p] == m[p]
    ensures r.1 == Pass && dir != [] && dir != dst && dir !in m ==> dir in r.0 && r.0[dir] == Dir
  {
    var (m1, o1) := MkdirSpec(m, dir);
    if o1.Fail? then (m1, o1)
    else
      var (m2, o2) := if Exists(m1, dst) then UnlinkSpec(m1, dst) else (m1, Pass);
      if o2.Fail? then (m2, o2)
      else SymlinkSpec(m2, text, dst)
  }

  /** One turn of the loop for value `v`. */
  function LinkStep(m: Entries, dirname: string, attr: string, v: string): (Entries, Outcome)
  {
    StepAt(m, ValueDir(attr, v), LinkPath(attr, v, dirname), LinkText(dirname))
  }

  /** The whole loop over `values`; the first exception ends it, with the changes made so far kept. */
  function UpdateLinks(m: Entries, dirname: string, attr: string, values: seq<string>): (Entries, Outcome)
    decreases |values|
  {
    if values == [] then (m, Pass)
    else
      var (m1, o1) := UpdateLinks(m, dirname, attr, values[..|values| - 1]);
      if o1.Fail? then (m1, o1) else LinkStep(m1, dirname, attr, values[|values| - 1])
  }

  /** The paths the loop may touch: each value's directory and the link in it. */
  predicate Touched(p: Path, dirname: string, attr: string, values: seq<string>)
  {
    exists v :: v in values && (p == ValueDir(attr, v) || p == LinkPath(attr, v, dirname))
  }

  /** The link for value `v` of category `attr` to gallery `dirname` is in place. */
  predicate Linked(m: Entries, attr: string, v: string, dirname: string)
  {
    LinkPath(attr, v, dirname) in m && m[LinkPath(attr, v, dirname)] == Link(LinkText(dirname))
  }

  /** One turn changes nothing but the value's directory and the link in it. */
  lemma LinkStepFrame(m: Entries, dirname: string, attr: string, v: string)
    ensures var m' := LinkStep(m, dirname, attr, v).0;
      forall p :: p != ValueDir(attr, v) && p != LinkPath(attr, v, dirname) ==>
        (p in m' <==> p in m) && (p in m ==> m'[p] == m[p])
  {
  }

  /** A turn that raises nothing leaves the link in place, pointing at the gallery. */
  lemma LinkStepMakesLink(m: Entries, dirname: string, attr: string, v: string)
    ensures var (m', o) := LinkStep(m, dirname, attr, v);
      o == Pass ==> Linked(m', attr, v, dirname)
  {
  }

  /**
   * A turn that raises nothing keeps every entry that was there, except
   * the one at the link's path: `mkdir` only adds, `unlink` only takes the
   * link's path, and `symlink` only makes it.
   */
  lemma LinkStepKeeps(m: Entries, dirname: string, attr: string, v: string)
    ensures var (m', o) := LinkStep(m, dirname, attr, v);
      o == Pass ==> forall p :: p in m && p != LinkPath(attr, v, dirname) ==> p in m' && m'[p] == m[p]
  {
  }

  /** Nothing outside the touched paths changes, whether the loop finishes or raises. */
  lemma {:induction false} UpdateLinksFrame(m: Entries, dirname: string, attr: string, values: seq<string>)
    ensures var m' := UpdateLinks(m, dirname, attr, values).0;
      forall p :: !Touched(p, dirname, attr, values) ==> (p in m' <==> p in m) && (p in m ==> m'[p] == m[p])
    decreases |values|
  {
    if values != [] {
      var init := values[..|values| - 1];
      var v := values[|values| - 1];
      UpdateLinksFrame(m, dirname, attr, init);
      LinkStepFrame(UpdateLinks(m, dirname, attr, init).0, dirname, attr, v);
      forall p | Touched(p, dirname, attr, init) ensures Touched(p, dirname, attr, values) {
        var w :| w in init && (p == ValueDir(attr, w) || p == LinkPath(attr, w, dirname));
        assert w in values;
      }
      assert v in values;
    }
  }

  /** After a loop that raises nothing, every value's link is there and points at the gallery. */
  lemma {:induction false} UpdateLinksMakesLinks(m: Entries, dirname: string, attr: string, values: seq<string>)
    ensures var (m', o) := UpdateLinks(m, dirname, attr, values);
      o == Pass ==> forall v :: v in values ==> Linked(m', attr, v, dirname)
    decreases |values|
  {
    if values != [] {
      var init := values[..|values| - 1];
      var last := values[|values| - 1];
      var (m1, o1) := UpdateLinks(m, dirname, attr, init);
      UpdateLinksMakesLinks(m, dirname, attr, init);
      LinkStepKeeps(m1, dirname, attr, last);
      LinkStepMakesLink(m1, dirname, attr, last);
      forall v | v in values ensures v in init || v == last {
        var i :| 0 <= i < |values| && values[i] == v;
        if i < |values| - 1 {
          assert init[i] == v;
        }
      }
    }
  }

  /**
   * A link already there whose target is gone is not removed
   * (`os.path.exists` is False for it), so `os.symlink` raises
   * FileExistsError and nothing changes.
   */
  lemma DanglingLinkRaises(m: Entries, dirname: string, attr: string, v: string)
    requires ValueDir(attr, v) in m && m[ValueDir(attr, v)] == Dir
    requires LinkPath(attr, v, dirname) in m && m[LinkPath(attr, v, dirname)].Link?
    requires !Exists(m, LinkPath(attr, v, dirname))
    ensures LinkStep(m, dirname, attr, v) == (m, Fail(FileExistsError))
  {
    assert IsDir(m, ValueDir(attr, v));
  }

  /**
   * Indexing a gallery again under an empty value raises: the link of the
   * first run points out of the project, so it reads as dangling.
   */
  lemma EmptyValueRelinkRaises(m: Entries, dirname: string, attr: string)
    requires Component(attr) && Component(dirname)
    requires [attr] in m && m[[attr]] == Dir
    requires [attr, dirname] in m && m[[attr, dirname]] == Link(LinkText(dirname))
    ensures LinkStep(m, dirname, attr, "") == (m, Fail(FileExistsError))
  {
    EmptyValueLink(attr, dirname);
    assert !Exists(m, LinkPath(attr, "", dirname));
    DanglingLinkRaises(m, dirname, attr, "");
  }

  /** A link there whose target exists is replaced by the link to the gallery. */
  lemma LiveLinkReplaced(m: Entries, dirname: string, attr: string, v: string)
    requires Component(dirname)
    requires ValueDir(attr, v) in m && m[ValueDir(attr, v)] == Dir
    requires LinkPath(attr, v, dirname) in m && m[LinkPath(attr, v, dirname)].Link?
    requires Exists(m, LinkPath(attr, v, dirname))
    ensures LinkStep(m, dirname, attr, v) == (m[LinkPath(attr, v, dirname) := Link(LinkText(dirname))], Pass)
  {
    var dst := LinkPath(attr, v, dirname);
    var m2 := m - {dst};
    LinkPathComponent(attr, v, dirname);
    assert IsDir(m, ValueDir(attr, v));
    assert Parent(dst) == ValueDir(attr, v);
    assert IsDir(m2, Parent(dst)) && Exists(m2, Parent(dst));
    assert m2[dst := Link(LinkText(dirname))] == m[dst := Link(LinkText(dirname))];
  }

  /**
   * When the gallery directory is there, every value is one path
   * component, and the value directories the loop finds are real
   * directories (as the loop itself makes them), running the loop again
   * on its own result changes nothing and raises nothing: every link
   * found is live, so it is removed and made again.
   */
  lemma UpdateLinksIdempotent(m: Entries, dirname: string, attr: string, values: seq<string>)
    requires Component(attr) && Component(dirname) && AllComponents(values)
    requires forall v :: v in values && ValueDir(attr, v) in m ==> m[ValueDir(attr, v)] == Dir
    requires UpdateLinks(m, dirname, attr, values).1 == Pass
    requires var m' := UpdateLinks(m, dirname, attr, values).0; ["_data", dirname] in m' && m'[["_data", dirname]] == Dir
    ensures var m' := UpdateLinks(m, dirname, attr, values).0; UpdateLinks(m', dirname, attr, values) == (m', Pass)
  {
    var m' := UpdateLinks(m, dirname, attr, values).0;
    UpdateLinksMakesLinks(m, dirname, attr, values);
    UpdateLinksMakesDirs(m, dirname, attr, values);
    RelinkPrefix(m', dirname, attr, values, |values|);
    assert values[..|values|] == values;
  }

  /**
   * After a loop that raises nothing over values that are each one path
   * component, every value's directory is a real directory, provided
   * those already there were.
   */
  lemma {:induction false} UpdateLinksMakesDirs(m: Entries, dirname: string, attr: string, values: seq<string>)
    requires Component(attr) && Component(dirname) && AllComponents(values)
    requires forall v :: v in values && ValueDir(attr, v) in m ==> m[ValueDir(attr, v)] == Dir
    ensures var (m', o) := UpdateLinks(m, dirname, attr, values);
      o == Pass ==> forall v :: v in values ==> ValueDir(attr, v) in m' && m'[ValueDir(attr, v)] == Dir
    decreases |values|
  {
    if values != [] {
      var init := values[..|values| - 1];
      var last := values[|values| - 1];
      var (m1, o1) := UpdateLinks(m, dirname, attr, init);
      InitOrLast(values);
      ValueDirsComponents(attr, values);
      UpdateLinksMakesDirs(m, dirname, attr, init);
      if o1 == Pass {
        if last !in init {
          UntouchedDir(dirname, attr, init, last);
          UpdateLinksFrame(m, dirname, attr, init);
        }
        LinkStepKeepsDir(m1, dirname, attr, last);
        LinkStepFrame(m1, dirname, attr, last);
        LinkPathComponent(attr, last, dirname);
      }
    }
  }

  /** A non-empty list holds the elements of its front and its last one, and nothing else. */
  lemma InitOrLast(values: seq<string>)
    requires values != []
    ensures values[|values| - 1] in values
    ensures forall v :: v in values <==> v in values[..|values| - 1] || v == values[|values| - 1]
  {
    assert values == values[..|values| - 1] + [values[|values| - 1]];
  }

  /** The directory of a value not yet seen is none of the paths the earlier values touched. */
  lemma UntouchedDir(dirname: string, attr: string, init: seq<string>, last: string)
    requires Component(attr) && Component(dirname) && AllComponents(init) && Component(last) && last !in init
    ensures !Touched(ValueDir(attr, last), dirname, attr, init)
  {
    ValueDirComponent(attr, last);
    forall w | w in init ensures ValueDir(attr, last) != ValueDir(attr, w) && ValueDir(attr, last) != LinkPath(attr, w, dirname) {
      ValueDirComponent(attr, w);
      LinkPathComponent(attr, w, dirname);
    }
  }

  /** A turn that raises nothing leaves a real directory for its value when there was one or none. */
  lemma LinkStepKeepsDir(m: Entries, dirname: string, attr: string, v: string)
    requires Component(dirname) && ValueDir(attr, v) != []
    requires ValueDir(attr, v) in m ==> m[ValueDir(attr, v)] == Dir
    ensures var (m', o) := LinkStep(m, dirname, attr, v);
      o == Pass ==> ValueDir(attr, v) in m' && m'[ValueDir(attr, v)] == Dir
  {
    LinkPathComponent(attr, v, dirname);
    assert ValueDir(attr, v) != LinkPath(attr, v, dirname);
  }

  /** The second run keeps the state through every prefix of the values. */
  lemma {:induction false} RelinkPrefix(m: Entries, dirname: string, attr: string, values: seq<string>, k: nat)
    requires k <= |values| && Component(attr) && Component(dirname) && AllComponents(values)
    requires ["_data", dirname] in m && m[["_data", dirname]] == Dir
    requires forall v :: v in values ==> Linked(m, attr, v, dirname)
    requires forall v :: v in values ==> ValueDir(attr, v) in m && m[ValueDir(attr, v)] == Dir
    ensures UpdateLinks(m, dirname, attr, values[..k]) == (m, Pass)
    decreases k
  {
    if k > 0 {
      assert values[..k][..k - 1] == values[..k - 1];
      RelinkPrefix(m, dirname, attr, values, k - 1);
      var v := values[k - 1];
      assert v in values;
      RelinkOne(m, dirname, attr, v);
    } else {
      assert values[..k] == [];
    }
  }

  /** One value whose directory and live link are already there: the turn leaves the state as it is. */
  lemma RelinkOne(m: Entries, dirname: string, attr: string, v: string)
    requires Component(attr) && Component(v) && Component(dirname)
    requires ["_data", dirname] in m && m[["_data", dirname]] == Dir
    requires ValueDir(attr, v) in m && m[ValueDir(attr, v)] == Dir
    requires Linked(m, attr, v, dirname)
    ensures LinkStep(m, dirname, attr, v) == (m, Pass)
  {
    var dst := LinkPath(attr, v, dirname);
    LinkTargetIsGallery(attr, v, dirname);
    ValueDirComponent(attr, v);
    assert ExistsWithin(m, ["_data", dirname], MaxHops - 1);
    assert Exists(m, dst);
    var m2 := m - {dst};
    assert Parent(dst) == ValueDir(attr, v);
    assert ValueDir(attr, v) != dst;
    assert IsDir(m2, Parent(dst)) && Exists(m2, Parent(dst));
    assert m2[dst := Link(LinkText(dirname))] == m;
  }

  /** Once a turn has raised, the loop is over: the later values change nothing. */
  lemma {:induction false} UpdateLinksAfterFail(m: Entries, dirname: string, attr: string, values: seq<string>, k: nat)
    requires k <= |values| && UpdateLinks(m, dirname, attr, values[..k]).1.Fail?
    ensures UpdateLinks(m, dirname, attr, values) == UpdateLinks(m, dirname, attr, values[..k])
    decreases |values| - k
  {
    if k < |values| {
      UpdateLinksUnfold(m, dirname, attr, values, k);
      UpdateLinksAfterFail(m, dirname, attr, values, k + 1);
    } else {
      assert values[..k] == values;
    }
  }

  lemma UpdateLinksUnfold(m: Entries, dirname: string, attr: string, values: seq<string>, k: nat)
    requires k < |values|
    ensures var (m1, o1) := UpdateLinks(m, dirname, attr, values[..k]);
      UpdateLinks(m, dirname, attr, values[..k + 1]) == if o1.Fail? then (m1, o1) else LinkStep(m1, dirname, attr, values[k])
  {
    assert values[..k + 1][..k] == values[..k];
  }

  /**
   * A turn that raises nothing keeps every index link in place, for any
   * gallery whose name is one path component: the one entry it may
   * replace gets a link with the same target again.
   */
  lemma LinkStepKeepsLinks(m: Entries, dirname: string, attr: string, v: string)
    requires Component(dirname)
    ensures var (m', o) := LinkStep(m, dirname, attr, v);
      o == Pass ==> forall a, w, n :: Component(n) && Linked(m, a, w, n) ==> Linked(m', a, w, n)
  {
    var (m', o) := LinkStep(m, dirname, attr, v);
    if o == Pass {
      LinkStepKeeps(m, dirname, attr, v);
      LinkStepMakesLink(m, dirname, attr, v);
      forall a, w, n | Component(n) && Linked(m, a, w, n) ensures Linked(m', a, w, n) {
        var p := LinkPath(a, w, n);
        LinkPathComponent(a, w, n);
        LinkPathComponent(attr, v, dirname);
        if p == LinkPath(attr, v, dirname) {
          assert n == p[|p| - 1] == dirname;
        }
      }
    }
  }

  lemma {:induction false} UpdateLinksKeepsLinks(m: Entries, dirname: string, attr: string, values: seq<string>)
    requires Component(dirname)
    ensures var (m', o) := UpdateLinks(m, dirname, attr, values);
      o == Pass ==> forall a, w, n :: Component(n) && Linked(m, a, w, n) ==> Linked(m', a, w, n)
    decreases |values|
  {
    if values != [] {
      var init := values[..|values| - 1];
      UpdateLinksKeepsLinks(m, dirname, attr, init);
      LinkStepKeepsLinks(UpdateLinks(m, dirname, attr, init).0, dirname, attr, values[|values| - 1]);
    }
  }

  /**
   * The file system: what is at each path. Its methods are the calls
   * `Path.mkdir(exist_ok=True)`, `os.unlink` and `os.symlink`.
   */
  class FileSystem {
    var entries: Entries

    constructor (entries: Entries)
      ensures this.entries == entries
    {
      this.entries := entries;
    }

    /** `os.path.exists`. */
    function PathExists(p: Path): bool
      reads this
    {
      Exists(entries, p)
    }

    method MakeDir(p: Path) returns (o: Outcome)
      modifies this
      ensures (entries, o) == MkdirSpec(old(entries), p)
    {
      if p == [] || p in entries {
        o := if IsDir(entries, p) then Pass else Fail(FileExistsError);
        return;
      }
      var parent := p[..|p| - 1];
      if !Exists(entries, parent) {
        o := Fail(FileNotFoundError);
      } else if !IsDir(entries, parent) {
        o := Fail(NotADirectoryError);
      } else {
        entries := entries[p := Dir];
        o := Pass;
      }
    }

    method Unlink(p: Path) returns (o: Outcome)
      modifies this
      ensures (entries, o) == UnlinkSpec(old(entries), p)
    {
      if p !in entries {
        o := Fail(FileNotFoundError);
      } else if entries[p].Dir? {
        o := Fail(IsADirectoryError);
      } else {
        entries := entries - {p};
        o := Pass;
      }
    }

    method Symlink(text: Path, p: Path) returns (o: Outcome)
      modifies this
      ensures (entries, o) == SymlinkSpec(old(entries), text, p)
    {
      if p == [] || p in entries {
        return Fail(FileExistsError);
      }
      var parent := p[..|p| - 1];
      if !Exists(entries, parent) {
        o := Fail(FileNotFoundError);
      } else if !IsDir(entries, parent) {
        o := Fail(NotADirectoryError);
      } else {
        entries := entries[p := Link(text)];
        o := Pass;
      }
    }
  }

  /**
   * `update_symlinks_generic(dirname, attr, values)`: for each value in
   * turn, its directory, then the link; the first exception stops it.
   */
  method UpdateSymlinksGeneric(fs: FileSystem, dirname: string, attr: string, values: seq<string>) returns (r: Outcome)
    modifies fs
    ensures (fs.entries, r) == UpdateLinks(old(fs.entries), dirname, attr, values)
  {
    ghost var m0 := fs.entries;
    for i := 0 to |values|
      invariant (fs.entries, Pass) == UpdateLinks(m0, dirname, attr, values[..i])
    {
      UpdateLinksUnfold(m0, dirname, attr, values, i);
      var p := ValueDir(attr, values[i]);
      r := fs.MakeDir(p);
      if r == Pass {
        var dst := LinkPath(attr, values[i], dirname);
        if fs.PathExists(dst) {
          r := fs.Unlink(dst);
        }
        if r == Pass {
          r := fs.Symlink(LinkText(dirname), dst);
        }
      }
      if r.Fail? {
        UpdateLinksAfterFail(m0, dirname, attr, values, i + 1);
        return;
      }
    }
    assert values[..|values|] == values;
    r := Pass;
  }

  method UpdateSymlinksTags(fs: FileSystem, dirname: string, tags: seq<string>) returns (r: Outcome)
    modifies fs
    ensures (fs.entries, r) == UpdateLinks(old(fs.entries), dirname, "tags", tags)
  {
    r := UpdateSymlinksGeneric(fs, dirname, "tags", tags);
  }

  method UpdateSymlinksAuthors(fs: FileSystem, dirname: string, authors: seq<string>) returns (r: Outcome)
    modifies fs
    ensures (fs.entries, r) == UpdateLinks(old(fs.entries), dirname, "authors", authors)
  {
    r := UpdateSymlinksGeneric(fs, dirname, "authors", authors);
  }

  method UpdateSymlinksGroups(fs: FileSystem, dirname: string, groups: seq<string>) returns (r: Outcome)
    modifies fs
    ensures (fs.entries, r) == UpdateLinks(old(fs.entries), dirname, "groups", groups)
  {
    r := UpdateSymlinksGeneric(fs, dirname, "groups", groups);
  }

  method UpdateSymlinksSeries(fs: FileSystem, dirname: string, series: seq<string>) returns (r: Outcome)
    modifies fs
    ensures (fs.entries, r) == UpdateLinks(old(fs.entries), dirname, "series", series)
  {
    r := UpdateSymlinksGeneric(fs, dirname, "series", series);
  }

  method UpdateSymlinksCharacters(fs: FileSystem, dirname: string, characters: seq<string>) returns (r: Outcome)
    modifies fs
    ensures (fs.entries, r) == UpdateLinks(old(fs.entries), dirname, "characters", characters)
  {
    r := UpdateSymlinksGeneric(fs, dirname, "characters", characters);
  }
}
