/**
 * The content-URL resolver of hitomi/__init__.py: the sharded path of a
 * file hash, the choice of the frontend subdomain from a two-hex-digit
 * token of the path, and the assembly of a file's source URL.
 */
module Resolver {
  import opened Common

  /** A file record of the gallery manifest (`info["files"][k]`). `url` is absent until normalisation sets it. */
  datatype FileEntry = FileEntry(hash: string, name: string, hasAvif: bool, hasWebp: bool, url: Option<string>)

  /** The regex class `[0-9a-f]`: lower-case hexadecimal digits only. */
  predicate IsHexDigit(c: char)
  {
    '0' <= c <= '9' || 'a' <= c <= 'f'
  }

  predicate IsLowerHex(s: string)
  {
    forall i :: 0 <= i < |s| ==> IsHexDigit(s[i])
  }

  function HexValue(c: char): (v: nat)
    requires IsHexDigit(c)
    ensures v < 16
    ensures c <= '9' ==> v == c as int - '0' as int
    ensures 'a' <= c ==> v == 10 + (c as int - 'a' as int)
  {
    if c <= '9' then c as int - '0' as int else 10 + (c as int - 'a' as int)
  }

  // ----- full_path_from_hash -----

  /**
   * `full_path_from_hash`. A hash shorter than three characters is used as
   * it is. Otherwise the regex `^.*(..)(.)$` rewrites the hash into
   * "last char / the two chars before it /", and the hash is appended. The
   * regex `.` never matches a line feed and `$` also matches before a final
   * line feed, so a line feed in the hash changes what is substituted.
   */
  function FullPathFromHash(hash: string): string
  {
    if |hash| < 3 then hash
    else
      var line := if hash[|hash| - 1] == '\n' then hash[..|hash| - 1] else hash;
      var n := |line|;
      if n >= 3 && '\n' !in line then
        [line[n - 1]] + "/" + line[n - 3..n - 1] + "/" + hash[n..] + hash
      else
        hash + hash  // no match: `re.sub` leaves the hash as it is
  }

  /** Whatever the hash, the sharded path ends with the whole hash. */
  lemma FullPathEndsWithHash(hash: string)
    ensures var r := FullPathFromHash(hash);
      |hash| <= |r| && r[|r| - |hash|..] == hash
  {
  }

  /**
   * For a hash without line feeds (every hexadecimal hash): unchanged when
   * shorter than three characters, otherwise last char, '/', the two chars
   * before the last, '/', and the hash.
   */
  lemma FullPathFromHashShape(hash: string)
    requires '\n' !in hash
    ensures |hash| < 3 ==> FullPathFromHash(hash) == hash
    ensures |hash| >= 3 ==>
      var n := |hash|;
      FullPathFromHash(hash) == [hash[n - 1]] + "/" + hash[n - 3..n - 1] + "/" + hash
  {
    if |hash| >= 3 {
      assert hash[|hash|..] == [];
    }
  }

  lemma FullPathExample()
    ensures FullPathFromHash("abcde") == "e/cd/abcde"
    ensures FullPathFromHash("ab") == "ab"
  {
    FullPathFromHashShape("abcde");
  }

  // ----- subdomain_from_galleryid / subdomain_from_url -----

  /**
   * `subdomain_from_galleryid`: the letter `chr(97 + g % frontends)`. The
   * program calls it with two or three frontends only; the bound keeps the
   * code point below the surrogate range.
   */
  function SubdomainFromGalleryId(g: int, frontends: int): (r: char)
    requires 0 < frontends <= 0xD800 - 97
    ensures 'a' <= r && (r as int) < 97 + frontends
    ensures (g - (r as int - 97)) % frontends == 0
  {
    var o := g % frontends;
    DivMod(g, frontends);
    (97 + o) as char
  }

  /** `g` minus its remainder is a multiple of the divisor. */
  lemma DivMod(g: int, f: int)
    requires f > 0
    ensures (g - g % f) % f == 0
  {
    var q := g / f;
    assert g - g % f == q * f;
    MultipleMod(q, f);
  }

  lemma MultipleMod(q: int, f: int)
    requires f > 0
    ensures (q * f) % f == 0
  {
    var a := q * f;
    var d := a / f;
    var e := q - d;
    assert a % f == e * f by {
      assert a == d * f + a % f;
      assert e * f == q * f - d * f;
    }
    MulBounds(e, f);
  }

  /** A non-zero multiple of `f` is at least `f` away from zero. */
  lemma MulBounds(e: int, f: int)
    requires f > 0
    ensures e >= 1 ==> e * f >= f
    ensures e <= -1 ==> e * f <= -f
  {
    if e >= 1 {
      assert e * f == f + (e - 1) * f;
    } else if e <= -1 {
      assert e * f == -f + (e + 1) * f;
    }
  }

  /** `s` begins with a match of `/[0-9a-f]/([0-9a-f]{2})/`. */
  predicate TokenAt(s: string)
  {
    && |s| >= 6
    && s[0] == '/' && IsHexDigit(s[1]) && s[2] == '/'
    && IsHexDigit(s[3]) && IsHexDigit(s[4]) && s[5] == '/'
  }

  /** The group of the leftmost match of the token regex, `re.findall(...)[0]`, if there is one. */
  function FirstToken(s: string): (r: Option<string>)
    ensures r.Some? ==> |r.value| == 2 && IsHexDigit(r.value[0]) && IsHexDigit(r.value[1])
    decreases |s|
  {
    if |s| < 6 then None
    else if TokenAt(s) then Some(s[3..5])
    else FirstToken(s[1..])
  }

  /** `FirstToken` finds none only when there is none. */
  lemma {:induction false} FirstTokenNone(s: string)
    requires FirstToken(s).None?
    ensures forall i :: 0 <= i < |s| ==> !TokenAt(s[i..])
    decreases |s|
  {
    if |s| >= 6 {
      var t := s[1..];
      FirstTokenNone(t);
      forall i | 0 <= i < |s| ensures !TokenAt(s[i..]) {
        if i > 0 { assert s[i..] == t[i - 1..]; }
      }
    }
  }

  /** `FirstToken` finds the leftmost token; `i` is where it starts. */
  lemma {:induction false} FirstTokenLeftmost(s: string) returns (i: nat)
    requires FirstToken(s).Some?
    ensures i < |s| && TokenAt(s[i..]) && s[i + 3..i + 5] == FirstToken(s).value
    ensures forall j :: 0 <= j < i ==> !TokenAt(s[j..])
    decreases |s|
  {
    if TokenAt(s) {
      i := 0;
      assert s[0..] == s;
    } else {
      var t := s[1..];
      var k := FirstTokenLeftmost(t);
      i := k + 1;
      assert s[i..] == t[k..];
      forall j | 0 <= j < i ensures !TokenAt(s[j..]) {
        if j > 0 { assert s[j..] == t[j - 1..]; }
      }
    }
  }

  /** A character other than '/' never starts a token. */
  lemma FirstTokenStep(s: string)
    requires s != [] && !TokenAt(s)
    ensures FirstToken(s) == FirstToken(s[1..])
  {
  }

  /** A prefix without '/' cannot hold or start a token. */
  lemma {:induction false} FirstTokenSkip(p: string, t: string)
    requires '/' !in p
    ensures FirstToken(p + t) == FirstToken(t)
    decreases |p|
  {
    if p != [] {
      assert p[0] in p;
      assert (p + t)[0] == p[0];
      FirstTokenStep(p + t);
      assert (p + t)[1..] == p[1..] + t;
      assert forall c :: c in p[1..] ==> c in p;
      FirstTokenSkip(p[1..], t);
      calc {
        FirstToken(p + t);
        FirstToken((p + t)[1..]);
        FirstToken(p[1..] + t);
      }
    } else {
      assert p + t == t;
    }
  }

  /** The body of the `try` in `subdomain_from_url`, for the shard number `g` parsed from the token. */
  function SubdomainFromShard(g: nat, base: string): string
  {
    var frontends := if g < 0x30 then 2 else 3;
    var g' := if g < 0x09 then 1 else g;
    [SubdomainFromGalleryId(g', frontends)] + base
  }

  /**
   * `subdomain_from_url`: "a" (with no base) when the URL has no token;
   * otherwise the frontend letter for the token's value, followed by the
   * base. The regex only captures hexadecimal digits, so `int(_, 16)`
   * cannot fail and the `except ValueError` branch is unreachable.
   */
  function SubdomainFromUrl(url: string, base: string): string
  {
    match FirstToken(url)
    case None => "a"
    case Some(t) => SubdomainFromShard(HexValue(t[0]) * 16 + HexValue(t[1]), base)
  }

  /**
   * The frontend rule: 'b' below 0x09, `g % 2` below 0x30, `g % 3` from
   * 0x30 on, so the letter is always 'a', 'b' or 'c'; the base follows it.
   */
  lemma SubdomainFromShardRule(g: nat, base: string)
    ensures var r := SubdomainFromShard(g, base);
      && |r| == |base| + 1 && r[1..] == base && r[0] in "abc"
      && (g < 0x09 ==> r[0] == 'b')
      && (0x09 <= g < 0x30 ==> r[0] as int == 97 + g % 2)
      && (0x30 <= g ==> r[0] as int == 97 + g % 3)
  {
  }

  /**
   * `subdomain_from_url` by the positions of the URL: "a" when no position
   * starts a `/x/yy/` match; otherwise the shard rule on the two hex digits
   * `yy` of the leftmost match.
   */
  lemma SubdomainFromUrlRule(url: string, base: string)
    ensures (forall i :: 0 <= i < |url| ==> !TokenAt(url[i..])) ==> SubdomainFromUrl(url, base) == "a"
    ensures forall i :: 0 <= i < |url| && TokenAt(url[i..]) && (forall j :: 0 <= j < i ==> !TokenAt(url[j..])) ==>
      SubdomainFromUrl(url, base) == SubdomainFromShard(HexValue(url[i + 3]) * 16 + HexValue(url[i + 4]), base)
  {
    if FirstToken(url).None? {
      FirstTokenNone(url);
    } else {
      var k := FirstTokenLeftmost(url);
      forall i | 0 <= i < |url| && TokenAt(url[i..]) && (forall j :: 0 <= j < i ==> !TokenAt(url[j..]))
        ensures i == k
      {
        LeftmostUnique(url, i, k);
      }
      assert url[k + 3..k + 5][0] == url[k + 3] && url[k + 3..k + 5][1] == url[k + 4];
    }
  }

  /** Two leftmost token positions are the same position. */
  lemma LeftmostUnique(url: string, i: nat, k: nat)
    requires i < |url| && TokenAt(url[i..]) && forall j :: 0 <= j < i ==> !TokenAt(url[j..])
    requires k < |url| && TokenAt(url[k..]) && forall j :: 0 <= j < k ==> !TokenAt(url[j..])
    ensures i == k
  {
  }

  lemma SubdomainExample()
    ensures SubdomainFromUrl("/0/2f/", "a") == "ba"
    ensures SubdomainFromUrl("/0/05/", "b") == "bb"
    ensures SubdomainFromUrl("no token", "b") == "a"
  {
    assert TokenAt("/0/2f/") && "/0/2f/"[3..5] == "2f";
    assert TokenAt("/0/05/") && "/0/05/"[3..5] == "05";
    FirstTokenSkip("no token", "");
    assert "no token" + "" == "no token";
  }

  // ----- url_from_url -----

  const HostSuffix: string := ".hitomi.la/"

  /**
   * The length of a match of `//..?\.hitomi\.la/` at the start of `s`, if
   * any. The optional second character is tried first, as the greedy `?`
   * does; neither character may be a line feed.
   */
  function HostMatchAt(s: string): (r: Option<nat>)
    ensures r.Some? ==> (r.value == 14 || r.value == 15) && r.value <= |s|
    ensures r.Some? ==> s[..2] == "//" && s[r.value - 11..r.value] == HostSuffix
  {
    if |s| >= 15 && s[..2] == "//" && s[2] != '\n' && s[3] != '\n' && s[4..15] == HostSuffix then Some(15)
    else if |s| >= 14 && s[..2] == "//" && s[2] != '\n' && s[3..14] == HostSuffix then Some(14)
    else None
  }

  /** `re.sub(r"//..?\.hitomi\.la/", repl, s)`: every match, left to right, without overlap, is replaced. */
  function SubstituteHost(s: string, repl: string): string
    decreases |s|
  {
    if s == [] then []
    else match HostMatchAt(s)
      case Some(k) => repl + SubstituteHost(s[k..], repl)
      case None => [s[0]] + SubstituteHost(s[1..], repl)
  }

  /** `url_from_url`: the host `<one or two chars>.hitomi.la` becomes the chosen subdomain. */
  function UrlFromUrl(url: string, base: string): string
  {
    SubstituteHost(url, "//" + SubdomainFromUrl(url, base) + HostSuffix)
  }

  /** No two '.' in the string; a host match needs two. */
  predicate AtMostOneDot(s: string)
  {
    forall i, j :: 0 <= i < j < |s| && s[i] == '.' ==> s[j] != '.'
  }

  lemma HostMatchHasTwoDots(s: string)
    ensures HostMatchAt(s).Some? ==>
      var k := HostMatchAt(s).value;
      s[k - 11] == '.' && s[k - 4] == '.'
  {
    if HostMatchAt(s).Some? {
      var k := HostMatchAt(s).value;
      assert s[k - 11..k] == HostSuffix;
      assert s[k - 11..k][0] == '.' && s[k - 11..k][7] == '.';
    }
  }

  lemma {:induction false} SubstituteHostNoMatch(s: string, repl: string)
    requires AtMostOneDot(s)
    ensures SubstituteHost(s, repl) == s
    decreases |s|
  {
    if s != [] {
      HostMatchHasTwoDots(s);
      assert HostMatchAt(s).None?;
      assert AtMostOneDot(s[1..]);
      SubstituteHostNoMatch(s[1..], repl);
    }
  }

  lemma {:induction false} SubstituteHostSkip(p: string, t: string, repl: string)
    requires '/' !in p
    ensures SubstituteHost(p + t, repl) == p + SubstituteHost(t, repl)
    decreases |p|
  {
    if p != [] {
      var s := p + t;
      assert p[0] in p;
      assert s[0] == p[0] != '/';
      assert HostMatchAt(s).None? by {
        if |s| >= 14 { assert s[..2][0] == s[0]; }
      }
      assert SubstituteHost(s, repl) == [s[0]] + SubstituteHost(s[1..], repl);
      assert s[1..] == p[1..] + t;
      assert '/' !in p[1..] by {
        forall c | c in p[1..] ensures c != '/' { assert c in p; }
      }
      SubstituteHostSkip(p[1..], t, repl);
      assert [p[0]] + p[1..] == p;
    } else {
      assert p + t == t;
    }
  }

  lemma PlaceholderHostMatch(rest: string)
    ensures HostMatchAt("//a.hitomi.la/" + rest) == Some(14)
    ensures ("//a.hitomi.la/" + rest)[14..] == rest
  {
    var s := "//a.hitomi.la/" + rest;
    assert s[..2] == "//" && s[2] != '\n';
    if |s| >= 15 {
      assert s[4..15][0] == s[4] == 'h';
    }
    assert s[3..14] == HostSuffix;
  }

  /** On a URL of the placeholder host `a.hitomi.la`, the first match is that host. */
  lemma SubstitutePlaceholderHost(rest: string, repl: string)
    requires AtMostOneDot(rest)
    ensures SubstituteHost("https://a.hitomi.la/" + rest, repl) == "https:" + repl + rest
  {
    var s := "//a.hitomi.la/" + rest;
    assert "https://a.hitomi.la/" + rest == "https:" + s;
    SubstituteHostSkip("https:", s, repl);
    PlaceholderHostMatch(rest);
    SubstituteHostNoMatch(rest, repl);
  }

  /**
   * Only the host segment is rewritten: for a URL on the placeholder host
   * `a.hitomi.la` whose remainder has at most one '.', the result is the
   * same URL on the chosen subdomain.
   */
  lemma UrlFromUrlOnlyHost(rest: string, base: string)
    requires AtMostOneDot(rest)
    ensures var url := "https://a.hitomi.la/" + rest;
      UrlFromUrl(url, base) == "https://" + SubdomainFromUrl(url, base) + HostSuffix + rest
  {
    var url := "https://a.hitomi.la/" + rest;
    var repl := "//" + SubdomainFromUrl(url, base) + HostSuffix;
    SubstitutePlaceholderHost(rest, repl);
  }

  // ----- url_from_hash / make_source_url -----

  /** `s.split(".")[-1]`: the text after the last '.', or all of `s`. */
  function AfterLastDot(s: string): (r: string)
    ensures '.' !in r
    ensures |r| <= |s| && s[|s| - |r|..] == r
    ensures |r| < |s| ==> s[|s| - |r| - 1] == '.'
    decreases |s|
  {
    if s == [] then []
    else if s[|s| - 1] == '.' then []
    else
      var init := s[..|s| - 1];
      var r := AfterLastDot(init);
      assert s[|s| - |r| - 1..] == init[|init| - |r|..] + [s[|s| - 1]];
      r + [s[|s| - 1]]
  }

  /** `s.split(".")[0]`: the text before the first '.', or all of `s`. */
  function BeforeFirstDot(s: string): (r: string)
    ensures '.' !in r
    ensures |r| <= |s| && s[..|r|] == r
    ensures |r| < |s| ==> s[|r|] == '.'
    decreases |s|
  {
    if s == [] then []
    else if s[0] == '.' then []
    else [s[0]] + BeforeFirstDot(s[1..])
  }

  /** The storage directory segment: `images` for jpg, otherwise the type itself. */
  function DirSegment(dir: string): string
  {
    if dir == "jpg" then "images" else dir
  }

  /**
   * `url_from_hash` (its gallery-id argument is unused). The extension is
   * the first non-empty of `ext`, `dir` and the name's last dot field; an
   * empty string stands for Python's falsy `None` and `""`.
   */
  function UrlFromHash(file: FileEntry, dir: string, ext: string): string
  {
    var e := if ext != "" then ext else if dir != "" then dir else AfterLastDot(file.name);
    "https://a.hitomi.la/" + (DirSegment(dir) + "/" + FullPathFromHash(file.hash) + "." + e)
  }

  /** The subdomain base: "b" for jpg images, "a" for the other formats. */
  function FrontendBase(fileType: string): string
  {
    if fileType == "jpg" then "b" else "a"
  }

  /** `make_source_url`: the placeholder URL for the type, then its host substituted. */
  function MakeSourceUrl(file: FileEntry, fileType: string): string
  {
    UrlFromUrl(UrlFromHash(file, fileType, ""), FrontendBase(fileType))
  }

  predicate IsFileType(fileType: string)
  {
    fileType == "avif" || fileType == "webp" || fileType == "jpg"
  }

  lemma DotFreeJoin(a: string, b: string)
    requires '.' !in a && '.' !in b
    ensures AtMostOneDot(a + "." + b)
  {
    var s := a + "." + b;
    forall k | 0 <= k < |s| && k != |a| ensures s[k] != '.' {
      if k < |a| {
        assert s[k] == a[k];
        assert a[k] in a;
      } else {
        assert s[k] == b[k - |a| - 1];
        assert b[k - |a| - 1] in b;
      }
    }
  }

  /** The placeholder host and a slash-free directory segment hold no token. */
  lemma {:induction false} PlaceholderHasNoToken(d: string, u: string)
    requires '/' !in d && |d| >= 2
    ensures FirstToken("https://a.hitomi.la/" + (d + u)) == FirstToken(u)
  {
    var s2 := "/" + (d + u);
    var s1 := "//a.hitomi.la" + s2;
    assert "https://a.hitomi.la/" + (d + u) == "https:" + s1;
    FirstTokenSkip("https:", s1);
    FirstTokenStep(s1);
    assert s1[1..] == "/a.hitomi.la" + s2;
    FirstTokenStep(s1[1..]);
    assert s1[1..][1..] == "a.hitomi.la" + s2;
    FirstTokenSkip("a.hitomi.la", s2);
    assert s2[2] == d[1] && d[1] in d;
    FirstTokenStep(s2);
    assert s2[1..] == d + u;
    FirstTokenSkip(d, u);
  }

  lemma HexHasNoSeparator(h: string)
    requires IsLowerHex(h)
    ensures '\n' !in h && '.' !in h && '/' !in h
  {
    forall c | c in h ensures IsHexDigit(c) {
      var k :| 0 <= k < |h| && h[k] == c;
    }
  }

  /** A sharded path `/x/yy/...` starts with its own token. */
  lemma ShardedPathToken(c: char, ab: string, v: string)
    requires IsHexDigit(c) && |ab| == 2 && IsHexDigit(ab[0]) && IsHexDigit(ab[1])
    ensures FirstToken("/" + [c] + "/" + ab + "/" + v) == Some(ab)
  {
    var u := "/" + [c] + "/" + ab + "/" + v;
    assert u[1] == c && u[3] == ab[0] && u[4] == ab[1] && u[3..5] == ab;
  }

  /** The token of a placeholder source URL is the one of its sharded path. */
  lemma SourceUrlToken(d: string, c: char, ab: string, v: string, rest: string)
    requires '/' !in d && |d| >= 2
    requires IsHexDigit(c) && |ab| == 2 && IsHexDigit(ab[0]) && IsHexDigit(ab[1])
    requires rest == d + ("/" + [c] + "/" + ab + "/" + v)
    ensures FirstToken("https://a.hitomi.la/" + rest) == Some(ab)
  {
    PlaceholderHasNoToken(d, "/" + [c] + "/" + ab + "/" + v);
    ShardedPathToken(c, ab, v);
  }

  /** The remainder of a placeholder URL, after its host. */
  function PlaceholderRest(file: FileEntry, fileType: string): string
  {
    DirSegment(fileType) + "/" + FullPathFromHash(file.hash) + "." + fileType
  }

  lemma ShardedRestAssoc(d: string, fp: string, c: char, ab: string, h: string, t: string)
    requires fp == [c] + "/" + ab + "/" + h
    ensures d + "/" + fp + "." + t == d + ("/" + [c] + "/" + ab + "/" + (h + "." + t))
  {
  }

  lemma PlaceholderRestToken(file: FileEntry, fileType: string)
    requires IsFileType(fileType)
    requires IsLowerHex(file.hash) && |file.hash| >= 3
    ensures var h, n := file.hash, |file.hash|;
      FirstToken("https://a.hitomi.la/" + PlaceholderRest(file, fileType)) == Some(h[n - 3..n - 1])
  {
    var h, n := file.hash, |file.hash|;
    var d := DirSegment(fileType);
    HexHasNoSeparator(h);
    FullPathFromHashShape(h);
    var ab := h[n - 3..n - 1];
    ShardedRestAssoc(d, FullPathFromHash(h), h[n - 1], ab, h, fileType);
    assert IsHexDigit(h[n - 1]) && IsHexDigit(ab[0]) && IsHexDigit(ab[1]);
    SourceUrlToken(d, h[n - 1], ab, h + "." + fileType, PlaceholderRest(file, fileType));
  }

  lemma PlaceholderRestOneDot(file: FileEntry, fileType: string)
    requires IsFileType(fileType)
    requires IsLowerHex(file.hash)
    ensures AtMostOneDot(PlaceholderRest(file, fileType))
  {
    var h := file.hash;
    HexHasNoSeparator(h);
    var d := DirSegment(fileType);
    var fp := FullPathFromHash(h);
    assert '.' !in fp by {
      FullPathFromHashShape(h);
    }
    assert '.' !in d + "/" + fp;
    DotFreeJoin(d + "/" + fp, fileType);
  }

  /**
   * The shape of a source URL for a hexadecimal hash of at least three
   * characters: `https://<letter><base>.hitomi.la/<dir>/<sharded path>.<type>`,
   * where the letter comes from the two characters before the last; the
   * sharded path is `<last>/<two before>/<hash>` by FullPathFromHashShape.
   */
  lemma MakeSourceUrlShape(file: FileEntry, fileType: string)
    requires IsFileType(fileType)
    requires IsLowerHex(file.hash) && |file.hash| >= 3
    ensures var h, n := file.hash, |file.hash|;
      MakeSourceUrl(file, fileType)
        == "https://" + SubdomainFromShard(HexValue(h[n - 3]) * 16 + HexValue(h[n - 2]), FrontendBase(fileType))
           + HostSuffix + (DirSegment(fileType) + "/" + FullPathFromHash(h) + "." + fileType)
  {
    var h, n := file.hash, |file.hash|;
    var rest := PlaceholderRest(file, fileType);
    var url := UrlFromHash(file, fileType, "");
    assert url == "https://a.hitomi.la/" + rest;
    PlaceholderRestToken(file, fileType);
    var base := FrontendBase(fileType);
    var sub := SubdomainFromShard(HexValue(h[n - 3]) * 16 + HexValue(h[n - 2]), base);
    assert SubdomainFromUrl(url, base) == sub by {
      var ab := h[n - 3..n - 1];
      assert ab[0] == h[n - 3] && ab[1] == h[n - 2];
    }
    PlaceholderRestOneDot(file, fileType);
    UrlFromUrlOnlyHost(rest, base);
  }

  lemma ShortRestAssoc(d: string, h: string, t: string)
    ensures d + "/" + h + "." + t == d + ("/" + (h + "." + t))
  {
  }

  lemma PlaceholderRestNoToken(file: FileEntry, fileType: string)
    requires IsFileType(fileType)
    requires IsLowerHex(file.hash) && |file.hash| < 3
    ensures FirstToken("https://a.hitomi.la/" + PlaceholderRest(file, fileType)) == None
  {
    var h := file.hash;
    HexHasNoSeparator(h);
    FullPathFromHashShape(h);
    var d := DirSegment(fileType);
    var v := h + "." + fileType;
    ShortRestAssoc(d, h, fileType);
    PlaceholderHasNoToken(d, "/" + v);
    assert '/' !in v;
    FirstTokenStep("/" + v);
    assert ("/" + v)[1..] == v + "";
    FirstTokenSkip(v, "");
  }

  /**
   * A hash shorter than three characters yields no token, so the host
   * becomes the bare "a" with no base.
   */
  lemma MakeSourceUrlShortHash(file: FileEntry, fileType: string)
    requires IsFileType(fileType)
    requires IsLowerHex(file.hash) && |file.hash| < 3
    ensures MakeSourceUrl(file, fileType)
      == "https://" + "a" + HostSuffix + (DirSegment(fileType) + "/" + file.hash + "." + fileType)
  {
    var h := file.hash;
    var rest := PlaceholderRest(file, fileType);
    var url := UrlFromHash(file, fileType, "");
    assert url == "https://a.hitomi.la/" + rest;
    PlaceholderRestNoToken(file, fileType);
    PlaceholderRestOneDot(file, fileType);
    UrlFromUrlOnlyHost(rest, FrontendBase(fileType));
    assert SubdomainFromUrl(url, FrontendBase(fileType)) == "a";
    assert rest == DirSegment(fileType) + "/" + h + "." + fileType by {
      HexHasNoSeparator(h);
      FullPathFromHashShape(h);
    }
  }
}
