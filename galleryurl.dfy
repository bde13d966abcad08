/**
 * `gid_from_url`: the gallery id read from a gallery page URL by
 *
 *   re.match(r"https://hitomi.la/[a-z]+/(?P<name>.+)-(?P<lang>[^-]+)-(?P<gid>\d+).html", url).group("gid")
 *
 * The match is anchored at the start only; both dots are unescaped, so they
 * match any character but a line feed; `.+` is greedy and is backtracked
 * from its longest extent, `\d+` likewise from the longest digit run. A URL
 * that does not match makes `.group` fail on `None` with AttributeError.
 */
module GalleryUrl {
  import opened Common

  /** `\d`, for ASCII digits. */
  predicate IsDigit(c: char)
  {
    '0' <= c <= '9'
  }

  predicate IsDigits(s: string)
  {
    forall i :: 0 <= i < |s| ==> IsDigit(s[i])
  }

  predicate IsLower(c: char)
  {
    'a' <= c <= 'z'
  }

  /** The length of the longest run of digits starting at `i`. */
  function DigitRun(s: string, i: nat): (n: nat)
    requires i <= |s|
    ensures i + n <= |s|
    ensures forall j :: i <= j < i + n ==> IsDigit(s[j])
    ensures i + n == |s| || !IsDigit(s[i + n])
    decreases |s| - i
  {
    if i < |s| && IsDigit(s[i]) then 1 + DigitRun(s, i + 1) else 0
  }

  /** The length of the longest run of `[a-z]` starting at `i`. */
  function LowerRun(s: string, i: nat): (n: nat)
    requires i <= |s|
    ensures i + n <= |s|
    ensures forall j :: i <= j < i + n ==> IsLower(s[j])
    ensures i + n == |s| || !IsLower(s[i + n])
    decreases |s| - i
  {
    if i < |s| && IsLower(s[i]) then 1 + LowerRun(s, i + 1) else 0
  }

  /** The first index at or after `i` holding `c`, or `|s|`. */
  function NextIndex(s: string, i: nat, c: char): (q: nat)
    requires i <= |s|
    ensures i <= q <= |s|
    ensures forall j :: i <= j < q ==> s[j] != c
    ensures q < |s| ==> s[q] == c
    decreases |s| - i
  {
    if i == |s| || s[i] == c then i else NextIndex(s, i + 1, c)
  }

  /** `.html` matched at `p`: any character but a line feed, then "html". */
  predicate HtmlAt(r: string, p: nat)
  {
    p + 5 <= |r| && r[p] != '\n' && r[p + 1] == 'h' && r[p + 2] == 't' && r[p + 3] == 'm' && r[p + 4] == 'l'
  }

  /** `\d+` with `k` digits after the '-' at `q`, then `.html`. */
  predicate GidEndsAt(r: string, q: nat, k: nat)
  {
    HtmlAt(r, q + 1 + k)
  }

  /**
   * The `gid` group after a `lang` ending at `q` (where `r[q]` is the second
   * '-'): `\d+` tried with `k`, `k - 1`, ..., 1 digits, until `.html` follows.
   */
  function GidAfter(r: string, q: nat, k: nat): (g: Option<string>)
    requires q + 1 + k <= |r|
    ensures g.Some? ==> 0 < |g.value| <= k && g.value == r[q + 1..q + 1 + |g.value|] && GidEndsAt(r, q, |g.value|)
    decreases k
  {
    if k == 0 then None
    else if GidEndsAt(r, q, k) then Some(r[q + 1..q + 1 + k])
    else GidAfter(r, q, k - 1)
  }

  /**
   * The rest of the pattern once `name` has taken `r[..l]`: a '-', then
   * `[^-]+` (greedy, and backtracking it cannot help, since the next
   * character must be '-'), then '-', then the digits and `.html`.
   */
  function MatchAfterName(r: string, l: nat): Option<string>
    requires l < |r|
  {
    if r[l] != '-' then None
    else
      var q := NextIndex(r, l + 1, '-');
      if q == l + 1 || q == |r| then None
      else GidAfter(r, q, DigitRun(r, q + 1))
  }

  /** `.+` for `name`, backtracked: the lengths `l`, `l - 1`, ..., 1 in turn. */
  function SearchName(r: string, l: nat): Option<string>
    decreases l
  {
    if l == 0 then None
    else if l < |r| && MatchAfterName(r, l).Some? then MatchAfterName(r, l)
    else SearchName(r, l - 1)
  }

  /** The fixed head `https://hitomi.la/`, whose '.' is any character but a line feed. */
  predicate HeadAt(url: string)
  {
    |url| >= 18 && url[..14] == "https://hitomi" && url[14] != '\n' && url[15..18] == "la/"
  }

  /** The pattern after `https://hitomi.la/[a-z]+/`; `.+` starts at its longest, up to the first line feed. */
  function GidFromRest(r: string): Result<string>
  {
    match SearchName(r, NextIndex(r, 0, '\n'))
    case None => Err(AttributeError)
    case Some(g) => Ok(g)
  }

  function GidFromUrl(url: string): Result<string>
  {
    if !HeadAt(url) then Err(AttributeError)
    else
      var k := LowerRun(url, 18);
      if k == 0 || 18 + k == |url| || url[18 + k] != '/' then Err(AttributeError)
      else GidFromRest(url[18 + k + 1..])
  }

  /**
   * The tail of the pattern matches `r` with `name` = `r[..l]`, `lang` =
   * `r[l + 1..q]` and `gid` = `r[q + 1..q + 1 + k]`.
   */
  predicate TailMatch(r: string, l: nat, q: nat, k: nat)
  {
    && 0 < l && l + 1 < q && 0 < k && q + 1 + k <= |r|
    && (forall j :: 0 <= j < l ==> r[j] != '\n')
    && r[l] == '-' && (forall j :: l < j < q ==> r[j] != '-') && r[q] == '-'
    && (forall j :: q < j <= q + k ==> IsDigit(r[j]))
    && HtmlAt(r, q + 1 + k)
  }

  lemma MatchAfterNameSound(r: string, l: nat) returns (q: nat)
    requires 0 < l < |r| && MatchAfterName(r, l).Some?
    requires forall j :: 0 <= j < l ==> r[j] != '\n'
    ensures var g := MatchAfterName(r, l).value; TailMatch(r, l, q, |g|) && g == r[q + 1..q + 1 + |g|]
  {
    q := NextIndex(r, l + 1, '-');
    var k := DigitRun(r, q + 1);
    var g := MatchAfterName(r, l).value;
  }

  lemma {:induction false} SearchNameSound(r: string, l: nat) returns (l': nat, q: nat)
    requires l <= NextIndex(r, 0, '\n')
    requires SearchName(r, l).Some?
    ensures var g := SearchName(r, l).value; l' <= l && TailMatch(r, l', q, |g|) && g == r[q + 1..q + 1 + |g|]
    decreases l
  {
    if l < |r| && MatchAfterName(r, l).Some? {
      assert SearchName(r, l) == MatchAfterName(r, l);
      assert forall j :: 0 <= j < l ==> r[j] != '\n';
      l' := l;
      q := MatchAfterNameSound(r, l);
    } else {
      assert l > 0;
      assert SearchName(r, l) == SearchName(r, l - 1);
      var g := SearchName(r, l).value;
      var l1, q1 := SearchNameSound(r, l - 1);
      assert TailMatch(r, l1, q1, |g|) && g == r[q1 + 1..q1 + 1 + |g|];
      l', q := l1, q1;
    }
  }

  /** A string cut at four points and put back together. */
  lemma Reassemble(r: string, l: nat, q: nat, m: nat)
    requires l < q < m <= |r| && r[l] == '-' && r[q] == '-'
    ensures r == r[..l] + "-" + r[l + 1..q] + "-" + r[q + 1..m] + r[m..]
  {
    var s := r[..l] + "-" + r[l + 1..q] + "-" + r[q + 1..m] + r[m..];
    assert |s| == |r|;
    forall j | 0 <= j < |r| ensures s[j] == r[j] {
      if j < l {
      } else if j == l {
      } else if j < q {
        assert s[j] == r[l + 1..q][j - l - 1];
      } else if j == q {
      } else if j < m {
        assert s[j] == r[q + 1..m][j - q - 1];
      } else {
        assert s[j] == r[m..][j - m];
      }
    }
  }

  /**
   * Soundness: a gid is only returned when the whole pattern matches a
   * prefix of the URL, the gid is a non-empty run of digits, and the URL
   * reads head, category, '/', name, '-', lang, '-', gid, any character,
   * "html", then anything.
   */
  lemma GidFromUrlSound(url: string) returns (kind: string, name: string, lang: string, tail: string)
    requires GidFromUrl(url).Ok?
    ensures var g := GidFromUrl(url).value;
      && g != [] && IsDigits(g)
      && HeadAt(url) && kind != [] && (forall j :: 0 <= j < |kind| ==> IsLower(kind[j]))
      && name != [] && '\n' !in name && lang != [] && '-' !in lang
      && HtmlAt(tail, 0)
      && url == url[..18] + kind + "/" + (name + "-" + lang + "-" + g + tail)
  {
    var k := LowerRun(url, 18);
    var r := url[18 + k + 1..];
    kind := url[18..18 + k];
    assert GidFromUrl(url) == GidFromRest(r);
    name, lang, tail := GidFromRestSound(r);
    assert url == url[..18] + kind + "/" + r by {
      assert url[18 + k] == '/';
      assert url == url[..18 + k] + url[18 + k..];
      assert url[18 + k..] == [url[18 + k]] + r;
      assert url[..18 + k] == url[..18] + url[18..18 + k];
    }
  }

  /** Soundness of the part after the category. */
  lemma GidFromRestSound(r: string) returns (name: string, lang: string, tail: string)
    requires GidFromRest(r).Ok?
    ensures var g := GidFromRest(r).value;
      && g != [] && IsDigits(g)
      && name != [] && '\n' !in name && lang != [] && '-' !in lang
      && HtmlAt(tail, 0)
      && r == name + "-" + lang + "-" + g + tail
  {
    var g := GidFromRest(r).value;
    var l, q := SearchNameSound(r, NextIndex(r, 0, '\n'));
    name, lang, tail := r[..l], r[l + 1..q], r[q + 1 + |g|..];
    assert IsDigits(g) by {
      forall j | 0 <= j < |g| ensures IsDigit(g[j]) {
        assert g[j] == r[q + 1 + j];
      }
    }
    assert '\n' !in name by {
      forall j | 0 <= j < |name| ensures name[j] != '\n' {
        assert name[j] == r[j];
      }
    }
    assert '-' !in lang by {
      forall j | 0 <= j < |lang| ensures lang[j] != '-' {
        assert lang[j] == r[l + 1 + j];
      }
    }
    assert HtmlAt(tail, 0) by {
      var m := q + 1 + |g|;
      assert tail[0] == r[m] && tail[1] == r[m + 1] && tail[2] == r[m + 2];
      assert tail[3] == r[m + 3] && tail[4] == r[m + 4];
    }
    Reassemble(r, l, q, q + 1 + |g|);
  }

  /** Backtracking past name lengths at which the tail cannot match. */
  lemma {:induction false} SearchNameSkip(r: string, hi: nat, lo: nat)
    requires lo <= hi
    requires forall l :: lo < l <= hi && l < |r| ==> MatchAfterName(r, l).None?
    ensures SearchName(r, hi) == SearchName(r, lo)
    decreases hi
  {
    if hi > lo {
      SearchNameSkip(r, hi - 1, lo);
    }
  }

  lemma {:induction false} LowerRunExact(s: string, i: nat, k: nat)
    requires i + k < |s| && (forall j :: i <= j < i + k ==> IsLower(s[j])) && !IsLower(s[i + k])
    ensures LowerRun(s, i) == k
    decreases k
  {
    if k > 0 {
      LowerRunExact(s, i + 1, k - 1);
    }
  }

  lemma {:induction false} DigitRunExact(s: string, i: nat, k: nat)
    requires i + k < |s| && (forall j :: i <= j < i + k ==> IsDigit(s[j])) && !IsDigit(s[i + k])
    ensures DigitRun(s, i) == k
    decreases k
  {
    if k > 0 {
      DigitRunExact(s, i + 1, k - 1);
    }
  }

  lemma {:induction false} NextIndexExact(s: string, i: nat, q: nat, c: char)
    requires i <= q <= |s| && (q < |s| ==> s[q] == c)
    requires forall j :: i <= j < q ==> s[j] != c
    ensures NextIndex(s, i, c) == q
    decreases q - i
  {
    if i < q {
      NextIndexExact(s, i + 1, q, c);
    }
  }

  /** The head and the category are skipped over, whatever follows the category's '/'. */
  lemma HeadParse(kind: string, r: string)
    requires kind != [] && forall j :: 0 <= j < |kind| ==> IsLower(kind[j])
    ensures GidFromUrl("https://hitomi.la/" + kind + "/" + r) == GidFromRest(r)
  {
    var url := "https://hitomi.la/" + kind + "/" + r;
    var n := 18 + |kind|;
    assert url[..18] == "https://hitomi.la/";
    assert url[..14] == "https://hitomi" && url[14] == '.' && url[15..18] == "la/";
    forall j | 18 <= j < n ensures IsLower(url[j]) {
      assert url[j] == kind[j - 18];
    }
    assert url[n] == '/';
    LowerRunExact(url, 18, |kind|);
    assert url[n + 1..] == r;
  }

  lemma SliceIs(r: string, i: nat, s: string)
    requires i + |s| <= |r| && forall j :: i <= j < i + |s| ==> r[j] == s[j - i]
    ensures r[i..i + |s|] == s
  {
  }

  /** Where the parts of `name-lang-digits<tail>` sit. */
  lemma PartsAt(name: string, lang: string, digits: string, t: string)
    ensures var r, l, q, m := name + "-" + lang + "-" + digits + t, |name|, |name| + 1 + |lang|, |name| + 2 + |lang| + |digits|;
      && |r| == m + |t|
      && (forall j :: 0 <= j < l ==> r[j] == name[j])
      && r[l] == '-' && r[q] == '-'
      && (forall j :: l < j < q ==> r[j] == lang[j - l - 1])
      && (forall j :: q < j < m ==> r[j] == digits[j - q - 1])
      && (forall j :: m <= j < |r| ==> r[j] == t[j - m])
  {
  }

  /**
   * The part after the category, `<name>-<lang>-<digits><tail>`, gives the
   * digits whatever dashes the name holds, when the tail starts with a
   * character that is neither a digit nor a line feed and then "html".
   */
  lemma TailParse(name: string, lang: string, digits: string, t: string)
    requires name != [] && '\n' !in name
    requires lang != [] && '-' !in lang
    requires digits != [] && IsDigits(digits)
    requires HtmlAt(t, 0) && !IsDigit(t[0]) && '-' !in t
    ensures GidFromRest(name + "-" + lang + "-" + digits + t) == Ok(digits)
  {
    var r := name + "-" + lang + "-" + digits + t;
    var l, q := |name|, |name| + 1 + |lang|;
    var m := q + 1 + |digits|;
    PartsAt(name, lang, digits, t);
    forall j | 0 <= j < l ensures r[j] != '\n' {
      assert name[j] in name;
    }
    forall j | l < j < q ensures r[j] != '-' {
      assert lang[j - l - 1] in lang;
    }
    forall j | q < j < |r| ensures r[j] != '-' && (j < m ==> IsDigit(r[j])) {
      if j < m {
        assert IsDigit(digits[j - q - 1]);
      } else {
        assert t[j - m] in t;
      }
    }
    assert HtmlAt(r, m) by {
      assert r[m + 1] == t[1] && r[m + 2] == t[2] && r[m + 3] == t[3] && r[m + 4] == t[4];
    }
    SliceIs(r, q + 1, digits);
    TailMatchAt(r, l, q, m);
  }

  /**
   * Completeness of the tail: when `r` reads a name without line feeds,
   * '-', a lang, '-', digits, one character that is neither a digit nor a
   * line feed, "html", and no '-' follows the second one, the gid is
   * exactly those digits.
   */
  lemma TailMatchAt(r: string, l: nat, q: nat, m: nat)
    requires 0 < l && l + 1 < q && q + 1 < m && m + 5 <= |r|
    requires forall j :: 0 <= j < l ==> r[j] != '\n'
    requires r[l] == '-' && r[q] == '-'
    requires forall j :: l < j < q ==> r[j] != '-'
    requires forall j :: q < j < |r| ==> r[j] != '-'
    requires forall j :: q < j < m ==> IsDigit(r[j])
    requires HtmlAt(r, m) && !IsDigit(r[m])
    ensures GidFromRest(r) == Ok(r[q + 1..m])
  {
    var e := NextIndex(r, 0, '\n');
    NoLongerName(r, l, q, e);
    SearchNameSkip(r, e, l);
    MatchAtName(r, l, q, m);
  }

  /** No name longer than `l` leaves a tail that matches: the only later '-' is at `q`, and none follows it. */
  lemma NoLongerName(r: string, l: nat, q: nat, e: nat)
    requires l < q < |r| && r[q] == '-'
    requires forall j :: l < j < q ==> r[j] != '-'
    requires forall j :: q < j < |r| ==> r[j] != '-'
    ensures forall l' :: l < l' <= e && l' < |r| ==> MatchAfterName(r, l').None?
  {
    forall l' | l < l' <= e && l' < |r| ensures MatchAfterName(r, l').None? {
      if r[l'] == '-' {
        assert l' == q;
        NextIndexExact(r, l' + 1, |r|, '-');
      }
    }
  }

  /** With the name `r[..l]`, the lang runs to `q` and the gid takes every digit after it. */
  lemma MatchAtName(r: string, l: nat, q: nat, m: nat)
    requires l + 1 < q && q + 1 < m && m + 5 <= |r|
    requires r[l] == '-' && r[q] == '-'
    requires forall j :: l < j < q ==> r[j] != '-'
    requires forall j :: q < j < m ==> IsDigit(r[j])
    requires HtmlAt(r, m) && !IsDigit(r[m])
    ensures MatchAfterName(r, l) == Some(r[q + 1..m])
  {
    NextIndexExact(r, l + 1, q, '-');
    DigitRunExact(r, q + 1, m - q - 1);
    MatchAfterNameIs(r, l, q, m - q - 1);
    GidAfterStop(r, q, m - q - 1);
  }

  lemma MatchAfterNameIs(r: string, l: nat, q: nat, k: nat)
    requires l + 1 < q < |r| && r[l] == '-' && NextIndex(r, l + 1, '-') == q
    requires q + 1 + k <= |r| && DigitRun(r, q + 1) == k
    ensures MatchAfterName(r, l) == GidAfter(r, q, k)
  {
  }

  /**
   * A URL in the site's own form, `https://hitomi.la/<kind>/<name>-<lang>-<digits>.html`,
   * gives its digits.
   */
  lemma CanonicalGid(kind: string, name: string, lang: string, digits: string)
    requires kind != [] && forall j :: 0 <= j < |kind| ==> IsLower(kind[j])
    requires name != [] && '\n' !in name
    requires lang != [] && '-' !in lang
    requires digits != [] && IsDigits(digits)
    ensures GidFromUrl("https://hitomi.la/" + kind + "/" + (name + "-" + lang + "-" + digits + ".html")) == Ok(digits)
  {
    HeadParse(kind, name + "-" + lang + "-" + digits + ".html");
    assert '-' !in ".html";
    TailParse(name, lang, digits, ".html");
  }

  /** The URL of the site's examples. */
  lemma GidExample()
    ensures GidFromUrl("https://hitomi.la/" + "galleries" + "/" + ("foo-bar" + "-" + "english" + "-" + "123456" + ".html"))
      == Ok("123456")
  {
    var kind, name, digits := "galleries", "foo-bar", "123456";
    assert forall j :: 0 <= j < |kind| ==> IsLower(kind[j]);
    assert '\n' !in name;
    assert '-' !in "english";
    assert IsDigits(digits);
    CanonicalGid(kind, name, "english", digits);
  }

  /**
   * The dot before `html` is not escaped: when the URL ends with a digit
   * followed by "html", that digit is taken by the dot, and `\d+` gives it
   * up, so the gid loses its last digit.
   */
  lemma UnescapedDot(name: string, lang: string, digits: string, d: char)
    requires name != [] && '\n' !in name
    requires lang != [] && '-' !in lang
    requires digits != [] && IsDigits(digits) && IsDigit(d)
    ensures GidFromRest(name + "-" + lang + "-" + digits + ([d] + "html")) == Ok(digits)
  {
    var t := [d] + "html";
    var r := name + "-" + lang + "-" + digits + t;
    var l, q := |name|, |name| + 1 + |lang|;
    var m := q + 1 + |digits|;
    PartsAt(name, lang, digits, t);
    forall j | 0 <= j < l ensures r[j] != '\n' {
      assert name[j] in name;
    }
    forall j | l < j < q ensures r[j] != '-' {
      assert lang[j - l - 1] in lang;
    }
    forall j | q < j < |r| ensures r[j] != '-' && (j <= m ==> IsDigit(r[j])) {
      if j < m {
        assert IsDigit(digits[j - q - 1]);
      } else {
        assert t[j - m] in t;
      }
    }
    assert r[m + 1] == 'h' && r[m + 2] == 't' && r[m + 3] == 'm' && r[m + 4] == 'l';
    SliceIs(r, q + 1, digits);
    var e := NextIndex(r, 0, '\n');
    NoLongerName(r, l, q, e);
    SearchNameSkip(r, e, l);
    MatchBeforeDigitDot(r, l, q, m);
  }

  lemma MatchBeforeDigitDot(r: string, l: nat, q: nat, m: nat)
    requires l + 1 < q && q + 1 < m && m + 5 == |r|
    requires r[l] == '-' && r[q] == '-'
    requires forall j :: l < j < q ==> r[j] != '-'
    requires forall j :: q < j <= m ==> IsDigit(r[j])
    requires r[m + 1] == 'h' && r[m + 2] == 't' && r[m + 3] == 'm' && r[m + 4] == 'l'
    ensures MatchAfterName(r, l) == Some(r[q + 1..m])
  {
    NextIndexExact(r, l + 1, q, '-');
    DigitRunExact(r, q + 1, m - q);
    MatchAfterNameIs(r, l, q, m - q);
    GidGivesUpDigit(r, q, m);
  }

  /** The longest digit run ends right before "html", so `.` takes its last digit. */
  lemma GidGivesUpDigit(r: string, q: nat, m: nat)
    requires q + 1 < m && m + 5 == |r| && r[m] != '\n'
    requires r[m + 1] == 'h' && r[m + 2] == 't' && r[m + 3] == 'm' && r[m + 4] == 'l'
    ensures GidAfter(r, q, m - q) == Some(r[q + 1..m])
  {
    GidAfterBack(r, q, m - q);
    GidAfterStop(r, q, m - q - 1);
  }

  lemma GidAfterStop(r: string, q: nat, k: nat)
    requires 0 < k && GidEndsAt(r, q, k)
    ensures GidAfter(r, q, k) == Some(r[q + 1..q + 1 + k])
  {
  }

  lemma GidAfterBack(r: string, q: nat, k: nat)
    requires 0 < k && q + 1 + k <= |r| && !GidEndsAt(r, q, k)
    ensures GidAfter(r, q, k) == GidAfter(r, q, k - 1)
  {
  }

  /** "…-1234html" gives the gid "123". */
  lemma UnescapedDotExample()
    ensures GidFromRest("foo" + "-" + "en" + "-" + "123" + (['4'] + "html")) == Ok("123")
  {
    assert '\n' !in "foo" && '-' !in "en";
    assert IsDigits("123");
    UnescapedDot("foo", "en", "123", '4');
  }

  /** A URL that does not start with the head does not match. */
  lemma GidFromUrlRejectsOtherHosts(url: string)
    requires |url| >= 14 && url[..14] != "https://hitomi"
    ensures GidFromUrl(url) == Err(AttributeError)
  {
  }
}
