/**
 * Two decisions of the downloader: whether `download_single` fetches a
 * file of the gallery (it resumes, skipping a file already there and not
 * empty), and which directory under `_data` a gallery goes to when one of
 * that name exists already (`is_duplicate` and the suffix search of
 * `Api.__init__`).
 */
module Downloads {
  import opened Common
  import opened Resolver
  import opened Translations

  /** What the server answers for a URL: the status code and the body. */
  datatype Response = Response(status: int, body: seq<bv8>)

  /** The gallery directory: the files by name, and the URLs fetched so far, in order. */
  datatype Disk = Disk(files: map<string, seq<bv8>>, requests: seq<string>)

  /**
   * `download_single(file)`: a file already there with a size above zero
   * is left alone and nothing is fetched; a record without `url` raises
   * KeyError before any fetch; a status other than 200 raises and writes
   * nothing; otherwise the body is written under the record's name.
   */
  function Download(d: Disk, file: FileEntry, server: string -> Response): (Disk, Outcome)
  {
    if file.name in d.files && |d.files[file.name]| > 0 then (d, Pass)
    else if file.url.None? then (d, Fail(KeyError))
    else
      var url := file.url.value;
      var resp := server(url);
      if resp.status != 200 then (d.(requests := d.requests + [url]), Fail(DownloadFailed(url)))
      else (Disk(d.files[file.name := resp.body], d.requests + [url]), Pass)
  }

  /** Resuming: a file already there and not empty is kept, and nothing is fetched. */
  lemma DownloadResumes(d: Disk, file: FileEntry, server: string -> Response)
    requires file.name in d.files && |d.files[file.name]| > 0
    ensures Download(d, file, server) == (d, Pass)
  {
  }

  /**
   * A file missing or empty is fetched once, from the record's URL. A
   * status other than 200 raises naming the URL and writes nothing; a 200
   * writes the body under the record's name and touches no other file.
   */
  lemma DownloadFetches(d: Disk, file: FileEntry, server: string -> Response)
    requires !(file.name in d.files && |d.files[file.name]| > 0) && file.url.Some?
    ensures var (d', o) := Download(d, file, server);
      var url, resp := file.url.value, server(file.url.value);
      && d'.requests == d.requests + [url]
      && (resp.status != 200 ==> o == Fail(DownloadFailed(url)) && d'.files == d.files)
      && (resp.status == 200 ==>
            && o == Pass && file.name in d'.files && d'.files[file.name] == resp.body
            && forall n :: n != file.name ==> (n in d'.files <==> n in d.files) && (n in d.files ==> d'.files[n] == d.files[n]))
  {
  }

  /**
   * Downloading again after a download that wrote a non-empty body, or
   * that was skipped, changes nothing and fetches nothing. An empty body
   * is fetched again.
   */
  lemma DownloadAgain(d: Disk, file: FileEntry, server: string -> Response)
    requires Download(d, file, server).1 == Pass
    ensures var d' := Download(d, file, server).0;
      file.url.Some? && |server(file.url.value).body| > 0 ==> Download(d', file, server) == (d', Pass)
    ensures var d' := Download(d, file, server).0;
      !(file.name in d.files && |d.files[file.name]| > 0) && |server(file.url.value).body| == 0 ==>
        Download(d', file, server).0.requests == d'.requests + [file.url.value]
  {
  }

  /** The working directory of a download: the gallery's directory. */
  class GalleryDir {
    var files: map<string, seq<bv8>>
    var requests: seq<string>

    constructor (files: map<string, seq<bv8>>)
      ensures this.files == files && requests == []
    {
      this.files := files;
      requests := [];
    }

    method DownloadSingle(file: FileEntry, server: string -> Response) returns (r: Outcome)
      modifies this
      ensures (Disk(files, requests), r) == Download(Disk(old(files), old(requests)), file, server)
    {
      var fn := file.name;
      if fn in files && |files[fn]| > 0 {
        return Pass;
      }
      if file.url.None? {
        return Fail(KeyError);
      }
      var url := file.url.value;
      requests := requests + [url];
      var resp := server(url);
      if resp.status != 200 {
        return Fail(DownloadFailed(url));
      }
      files := files[fn := resp.body];
      r := Pass;
    }
  }

  /** What `_data/<name>/_info.yml` says: absent, or the source URL stored in it. */
  datatype Stored = NoInfo | Info(url: string)

  /**
   * `is_duplicate(dir)` against the directories under `_data`, the URL
   * being downloaded and the operator's answers. A directory that is not
   * there, or that holds another URL, is not a duplicate and nobody is
   * asked. For the same URL the operator is asked, and "n" as the first
   * character makes it a duplicate. Without `_info.yml` opening it raises
   * FileNotFoundError; an empty answer raises IndexError at `[0]`.
   */
  function IsDuplicate(dirs: map<string, Stored>, dir: string, url: string, answers: seq<string>): (r: (Result<bool>, seq<string>))
    ensures r.1 == answers || (answers != [] && r.1 == answers[1..])
    ensures r.0 == Ok(true) <==>
      dir in dirs && dirs[dir] == Info(url) && answers != [] && answers[0] != "" && answers[0][0] == 'n'
    ensures r.0 == Ok(true) ==> r.1 == answers[1..]
  {
    if dir !in dirs then (Ok(false), answers)
    else if dirs[dir].NoInfo? then (Err(FileNotFoundError), answers)
    else if dirs[dir].url != url then (Ok(false), answers)
    else if answers == [] then (Err(EOFError), answers)
    else if answers[0] == "" then (Err(IndexError), answers[1..])
    else (Ok(answers[0][0] == 'n'), answers[1..])
  }

  /** The number a string of decimal digits denotes, most significant digit first. */
  function DigitsValue(s: string): nat
    requires forall i :: 0 <= i < |s| ==> '0' <= s[i] <= '9'
    decreases |s|
  {
    if s == [] then 0 else DigitsValue(s[..|s| - 1]) * 10 + (s[|s| - 1] as int - 48)
  }

  /** `str(n)`: the decimal digits of `n`, without leading zeros, that denote `n`. */
  function DecimalString(n: nat): (s: string)
    ensures |s| > 0 && forall i :: 0 <= i < |s| ==> '0' <= s[i] <= '9'
    ensures n > 0 ==> s[0] != '0'
    ensures DigitsValue(s) == n
  {
    if n < 10 then
      var s := [(48 + n) as char];
      assert s[..0] == [];
      s
    else
      var p := DecimalString(n / 10);
      var s := p + [(48 + n % 10) as char];
      assert s[..|s| - 1] == p;
      s
  }

  /** The directory name with suffix `_i`. */
  function Candidate(dirname: string, i: nat): (d: string)
    ensures |d| > |dirname| + 1 && d[..|dirname|] == dirname && d[|dirname|] == '_'
  {
    dirname + "_" + DecimalString(i)
  }

  /** Different suffixes give different directory names, none of them the name itself. */
  lemma CandidateInjective(dirname: string, i: nat, j: nat)
    ensures Candidate(dirname, i) == Candidate(dirname, j) <==> i == j
    ensures Candidate(dirname, i) != dirname
  {
    if Candidate(dirname, i) == Candidate(dirname, j) {
      var n := |dirname| + 1;
      assert DecimalString(i) == Candidate(dirname, i)[n..];
      assert DecimalString(j) == Candidate(dirname, j)[n..];
    }
  }

  /** The `while True` loop from suffix `i` on: the first candidate that is not a duplicate. */
  function SuffixFrom(dirs: map<string, Stored>, dirname: string, url: string, answers: seq<string>, i: nat): (r: (Result<string>, seq<string>))
    decreases |answers|
  {
    var (dup, rest) := IsDuplicate(dirs, Candidate(dirname, i), url, answers);
    if dup.Err? then (Err(dup.error), rest)
    else if !dup.value then (Ok(Candidate(dirname, i)), rest)
    else SuffixFrom(dirs, dirname, url, rest, i + 1)
  }

  /** The name the gallery is stored under: its own when that is not a duplicate, else the first free suffix. */
  function ChooseDirname(dirs: map<string, Stored>, dirname: string, url: string, answers: seq<string>): (Result<string>, seq<string>)
  {
    var (dup, rest) := IsDuplicate(dirs, dirname, url, answers);
    if dup.Err? then (Err(dup.error), rest)
    else if !dup.value then (Ok(dirname), rest)
    else SuffixFrom(dirs, dirname, url, rest, 1)
  }

  /** A directory of that name holding another gallery is reused, and the operator is not asked. */
  lemma OtherUrlReused(dirs: map<string, Stored>, dirname: string, url: string, answers: seq<string>)
    requires dirname !in dirs || (dirs[dirname].Info? && dirs[dirname].url != url)
    ensures ChooseDirname(dirs, dirname, url, answers) == (Ok(dirname), answers)
  {
  }

  /** For the same gallery an empty answer (meant as the default "y") raises IndexError. */
  lemma EmptyAnswerRaises(dirs: map<string, Stored>, dirname: string, url: string, answers: seq<string>)
    requires dirname in dirs && dirs[dirname] == Info(url) && answers != [] && answers[0] == ""
    ensures ChooseDirname(dirs, dirname, url, answers).0 == Err(IndexError)
  {
  }

  /** The `i`-th name asked about: the gallery's own name first, then the suffixes `_1`, `_2`, ... */
  function Asked(dirname: string, i: nat): string
  {
    if i == 0 then dirname else Candidate(dirname, i)
  }

  /**
   * Every name asked before the `i`-th, from the `lo`-th on, was judged a
   * duplicate; each such judgement takes one answer, so the `j`-th name is
   * judged with the answers from the `j`-th on.
   */
  predicate DuplicatesBefore(dirs: map<string, Stored>, dirname: string, url: string, answers: seq<string>, lo: nat, i: nat)
  {
    i <= |answers| && forall j :: lo <= j < i ==> IsDuplicate(dirs, Asked(dirname, j), url, answers[j..]).0 == Ok(true)
  }

  /** What the search gives when the `i`-th name is the first one not judged a duplicate. */
  function Verdict(dirs: map<string, Stored>, dirname: string, url: string, answers: seq<string>, i: nat): (Result<string>, seq<string>)
    requires i <= |answers|
  {
    var (dup, rest) := IsDuplicate(dirs, Asked(dirname, i), url, answers[i..]);
    (if dup.Err? then Err(dup.error) else Ok(Asked(dirname, i)), rest)
  }

  /**
   * The search asks about the gallery's own name, then `_1`, `_2`, ...
   * and stops at the first name that `is_duplicate` does not judge a
   * duplicate: that name is the result, or the exception raised while
   * judging it. The own name is the result exactly when it is not a
   * duplicate.
   */
  lemma ChooseDirnameLeast(dirs: map<string, Stored>, dirname: string, url: string, answers: seq<string>)
    ensures exists i: nat ::
      && DuplicatesBefore(dirs, dirname, url, answers, 0, i)
      && IsDuplicate(dirs, Asked(dirname, i), url, answers[i..]).0 != Ok(true)
      && ChooseDirname(dirs, dirname, url, answers) == Verdict(dirs, dirname, url, answers, i)
    ensures ChooseDirname(dirs, dirname, url, answers).0 == Ok(dirname) <==> IsDuplicate(dirs, dirname, url, answers).0 == Ok(false)
  {
    var (dup, rest) := IsDuplicate(dirs, dirname, url, answers);
    assert answers[0..] == answers;
    if dup == Ok(true) {
      SuffixFromFirst(dirs, dirname, url, answers, 1);
      var i: nat :| && i >= 1
        && DuplicatesBefore(dirs, dirname, url, answers, 1, i)
        && IsDuplicate(dirs, Asked(dirname, i), url, answers[i..]).0 != Ok(true)
        && SuffixFrom(dirs, dirname, url, answers[1..], 1) == Verdict(dirs, dirname, url, answers, i);
      assert DuplicatesBefore(dirs, dirname, url, answers, 0, i);
      CandidateInjective(dirname, i, i);
    } else {
      assert DuplicatesBefore(dirs, dirname, url, answers, 0, 0);
      assert ChooseDirname(dirs, dirname, url, answers) == Verdict(dirs, dirname, url, answers, 0);
    }
  }

  lemma {:induction false} SuffixFromFirst(dirs: map<string, Stored>, dirname: string, url: string, answers: seq<string>, i0: nat)
    requires 1 <= i0 <= |answers|
    ensures exists i: nat ::
      && i >= i0
      && DuplicatesBefore(dirs, dirname, url, answers, i0, i)
      && IsDuplicate(dirs, Asked(dirname, i), url, answers[i..]).0 != Ok(true)
      && SuffixFrom(dirs, dirname, url, answers[i0..], i0) == Verdict(dirs, dirname, url, answers, i)
    decreases |answers| - i0
  {
    var (dup, rest) := IsDuplicate(dirs, Candidate(dirname, i0), url, answers[i0..]);
    assert Asked(dirname, i0) == Candidate(dirname, i0);
    if dup == Ok(true) {
      assert rest == answers[i0 + 1..];
      assert SuffixFrom(dirs, dirname, url, answers[i0..], i0) == SuffixFrom(dirs, dirname, url, answers[i0 + 1..], i0 + 1);
      SuffixFromFirst(dirs, dirname, url, answers, i0 + 1);
      var i: nat :| && i >= i0 + 1
        && DuplicatesBefore(dirs, dirname, url, answers, i0 + 1, i)
        && IsDuplicate(dirs, Asked(dirname, i), url, answers[i..]).0 != Ok(true)
        && SuffixFrom(dirs, dirname, url, answers[i0 + 1..], i0 + 1) == Verdict(dirs, dirname, url, answers, i);
      DuplicatesBeforeExtend(dirs, dirname, url, answers, i0, i);
    } else {
      assert DuplicatesBefore(dirs, dirname, url, answers, i0, i0);
      assert SuffixFrom(dirs, dirname, url, answers[i0..], i0) == Verdict(dirs, dirname, url, answers, i0);
    }
  }

  /** A name judged a duplicate just before a run of duplicates extends the run. */
  lemma DuplicatesBeforeExtend(dirs: map<string, Stored>, dirname: string, url: string, answers: seq<string>, lo: nat, i: nat)
    requires lo < i && DuplicatesBefore(dirs, dirname, url, answers, lo + 1, i)
    requires IsDuplicate(dirs, Asked(dirname, lo), url, answers[lo..]).0 == Ok(true)
    ensures DuplicatesBefore(dirs, dirname, url, answers, lo, i)
  {
  }

  /** The usual case: one "n" for the gallery's directory and no `_1` yet gives the name with `_1`. */
  lemma FirstSuffixExample(dirname: string, url: string)
    ensures ChooseDirname(map[dirname := Info(url)], dirname, url, ["n"]) == (Ok(dirname + "_1"), [])
  {
    var dirs := map[dirname := Info(url)];
    assert ["n"][0][0] == 'n' && ["n"][1..] == [];
    assert IsDuplicate(dirs, dirname, url, ["n"]) == (Ok(true), []);
    assert DecimalString(1) == "1";
    assert Candidate(dirname, 1) == dirname + "_1";
    assert Candidate(dirname, 1) !in dirs by {
      assert |Candidate(dirname, 1)| == |dirname| + 2;
    }
    assert SuffixFrom(dirs, dirname, url, [], 1) == (Ok(dirname + "_1"), []);
  }

  /** `is_duplicate`, asking the operator through the console. */
  method IsDuplicateAt(dirs: map<string, Stored>, dir: string, url: string, console: Console) returns (r: Result<bool>)
    modifies console
    ensures (r, console.answers) == IsDuplicate(dirs, dir, url, old(console.answers))
  {
    if dir !in dirs {
      return Ok(false);
    }
    match dirs[dir]
    case NoInfo =>
      r := Err(FileNotFoundError);
    case Info(stored) =>
      if stored != url {
        return Ok(false);
      }
      var answer := console.Input();
      if answer.Err? {
        return Err(answer.error);
      }
      if answer.value == "" {
        return Err(IndexError);
      }
      r := Ok(answer.value[0] == 'n');
  }

  /**
   * The directory choice of `Api.__init__`: `dirname` itself unless it is
   * a duplicate, else `dirname` with the first suffix `_i` whose directory
   * is not.
   */
  method ChooseDirnameLoop(dirs: map<string, Stored>, dirname: string, url: string, console: Console) returns (r: Result<string>)
    modifies console
    ensures (r, console.answers) == ChooseDirname(dirs, dirname, url, old(console.answers))
  {
    var dup := IsDuplicateAt(dirs, dirname, url, console);
    if dup.Err? {
      return Err(dup.error);
    }
    if !dup.value {
      return Ok(dirname);
    }
    var i := 0;
    while true
      invariant ChooseDirname(dirs, dirname, url, old(console.answers)) == SuffixFrom(dirs, dirname, url, console.answers, i + 1)
      decreases |console.answers|
    {
      i := i + 1;
      var d := dirname + "_" + DecimalString(i);
      dup := IsDuplicateAt(dirs, d, url, console);
      if dup.Err? {
        return Err(dup.error);
      }
      if !dup.value {
        return Ok(d);
      }
    }
  }
}
