# hitomi downloader — a verified model of its core

This project models the core of the `hitomi` gallery downloader
(`hitomi/__init__.py`) in Dafny and proves what that code does:

- **Address resolver** (`Resolver`): the sharded path of a file hash, the
  choice of the frontend subdomain letter from the two-hex-digit token of
  the path, and the assembly of a file's source URL with the placeholder
  host `a.hitomi.la` replaced by the chosen subdomain.
- **Manifest normalisation** (`Manifest`): the loop over the file records of
  the gallery manifest, which picks avif, then webp, then jpg, sets `url` and
  rewrites `name` in place (an `array` of records).
- **Gallery id** (`GalleryUrl`): `gid_from_url`, the regex anchored only at the
  start, with a greedy `.+`, an unescaped `.` before `html` and
  AttributeError on a mismatch.
- **Translations** (`Translations`, `Tags`, `GalleryPage`): the five
  dictionaries, the operator as a sequence of answers (`Console`), the
  `TRANSLATIONS_CHANGED` counter, `query_translation`,
  `ask_for_original_names` rewriting a list in place, `save_translations`, the
  tag normaliser and the translated tag list that never asks the operator, and
  the order in which `parse_gallery_page` resolves the categories.
- **Category index** (`SymlinkIndex`, `GalleryIndex`): the file system as a map
  from path to directory, file or symbolic link; `mkdir`, `unlink` and `symlink`
  with their exceptions; `os.path.exists` following links;
  `update_symlinks_generic`, its five wrappers, `Api.update_symlinks` and
  `update_symlinks_all`.
- **Downloads** (`Downloads`): `download_single` with resume, and the
  `is_duplicate` suffix search that chooses the gallery directory.

Python exceptions are constructors of `Common.PyError`. An operation that can
raise returns a `Result` or an `Outcome`. The network is a function from URL to
`Response`. The operator is the list of answers they will type. The file system
and the `_info.yml` files are maps.

The code behaves as follows, which its prompts and messages may not suggest:

- The sharded path is last char, `/`, the two chars before it, `/`, then the
  hash. So `"abcde"` gives `"e/cd/abcde"`, not `"d/de/abcde"`.
- A URL without a `/x/yy/` token gets the bare subdomain `"a"`, without the
  base appended.
- The `except ValueError` branch of `subdomain_from_url` cannot be reached,
  because the regex captures only hex digits. There is no "fall back to a"
  path for a malformed token.
- Answering `n` to "repeat downloading?" marks the directory a duplicate, so a
  numbered suffix is chosen. A directory holding another URL is reused without
  a prompt.
- An empty answer to that prompt raises IndexError, although the prompt calls
  `y` the default.
- A dangling link at `<attr>/<v>/<dirname>` is not removed, because
  `os.path.exists` is false for it. `os.symlink` then raises FileExistsError.
  Stale links are replaced only when their target exists.
- A category value is joined to the category directory as a path, not as one
  name. A value holding `/`, such as the series "Fate/Grand Order", names
  nested directories, and `mkdir` raises FileNotFoundError when the outer one
  is missing. An empty value, which an empty answer to a translation prompt
  stores, puts the link at `<attr>/<dirname>`. That link's `../../_data/...`
  text climbs out of the project, so indexing the gallery again raises
  FileExistsError.

## Model

| member | source | states |
|---|---|---|
| `Resolver.FullPathFromHash` | hitomi/__init__.py:134-137 | `full_path_from_hash`, the `re.sub` that shards a hash; what it gives is stated by the three lemmas below |
| `Resolver.FullPathFromHashShape` | hitomi/__init__.py:134-137 | for a hash holding no line feed: one shorter than 3 chars is returned unchanged; otherwise the path is last char + "/" + the two chars before it + "/" + the whole hash |
| `Resolver.FullPathEndsWithHash` | hitomi/__init__.py:134-137 | for every hash, line feeds included, the sharded path ends with the whole hash |
| `Resolver.FullPathExample` | hitomi/__init__.py:134-137 | "abcde" gives "e/cd/abcde" and "ab" stays "ab" |
| `Resolver.SubdomainFromGalleryId` | hitomi/__init__.py:101-103 | the letter is 'a' + k with k < frontends and k congruent to g modulo frontends |
| `Resolver.FirstToken` | hitomi/__init__.py:110-111 | a token found is two lower-case hex digits |
| `Resolver.FirstTokenNone` | hitomi/__init__.py:110-113 | no token is returned only when no position of the URL starts a `/x/yy/` match |
| `Resolver.FirstTokenLeftmost` | hitomi/__init__.py:110-116 | the token returned is the group of the leftmost match, `findall(...)[0]` |
| `Resolver.SubdomainFromShardRule` | hitomi/__init__.py:115-121 | g < 0x09 gives 'b', 0x09 ≤ g < 0x30 gives chr(97 + g % 2), g ≥ 0x30 gives chr(97 + g % 3); the letter is a, b or c and the base follows it |
| `Resolver.SubdomainFromUrl` | hitomi/__init__.py:106-125 | `subdomain_from_url`, the letter from the first `/x/yy/` token or the bare "a"; stated by `SubdomainFromUrlRule` |
| `Resolver.SubdomainFromUrlRule` | hitomi/__init__.py:106-125 | when no position of the URL starts a `/x/yy/` match the result is "a"; otherwise it is the shard rule applied to the hex value of the two digits at the leftmost match |
| `Resolver.SubdomainExample` | hitomi/__init__.py:106-125 | token "2f" with base "a" gives "ba", token "05" with base "b" gives "bb", no token gives "a" |
| `Resolver.SubstituteHost` | hitomi/__init__.py:129-131 | `re.sub` of `//..?\.hitomi\.la/`: every non-overlapping match, left to right, replaced; stated by `SubstituteHostNoMatch` and `UrlFromUrlOnlyHost` |
| `Resolver.UrlFromUrl` | hitomi/__init__.py:128-131 | `url_from_url`: the host substitution with the subdomain of the whole URL; stated by `UrlFromUrlOnlyHost` |
| `Resolver.HostMatchAt` | hitomi/__init__.py:129-130 | a match of `//..?\.hitomi\.la/` is 14 or 15 chars long, starts with "//" and ends with ".hitomi.la/" |
| `Resolver.SubstituteHostNoMatch` | hitomi/__init__.py:129-131 | a text with at most one '.' is left unchanged by the host substitution |
| `Resolver.UrlFromUrlOnlyHost` | hitomi/__init__.py:128-131 | on a placeholder URL only the host changes: the result is "https://" + subdomain + ".hitomi.la/" + the unchanged rest |
| `Resolver.AfterLastDot` | hitomi/__init__.py:141 | `split(".")[-1]` is the dot-free suffix after the last '.', or the whole name |
| `Resolver.BeforeFirstDot` | hitomi/__init__.py:179 | `split(".")[0]` is the dot-free prefix before the first '.', or the whole name |
| `Resolver.UrlFromHash` | hitomi/__init__.py:140-150 | `url_from_hash`: the extension falls back from `ext` to `dir` to the name's suffix, and "jpg" files live under "images"; stated by `MakeSourceUrlShape` |
| `Resolver.MakeSourceUrl` | hitomi/__init__.py:153-160 | `make_source_url`: base "b" for jpg and "a" otherwise, the type as the directory; stated by `MakeSourceUrlShape` and `MakeSourceUrlShortHash` |
| `Resolver.MakeSourceUrlShape` | hitomi/__init__.py:140-160 | for a hex hash of ≥ 3 chars the URL is "https://" + letter + base + ".hitomi.la/" + dir + "/" + sharded path + "." + type, with dir "images" and base "b" for jpg, dir = type and base "a" otherwise |
| `Resolver.MakeSourceUrlShortHash` | hitomi/__init__.py:106-160 | for a file type avif, webp or jpg and a lower-case hex hash shorter than 3 chars: there is no token, so the host is the bare "a" and the path is the hash itself |
| `Manifest.JsonStart` | hitomi/__init__.py:166 | `js[js.find("{"):]` starts at the first '{'; without one it is the last character alone |
| `Manifest.Find` | hitomi/__init__.py:166 | `find` gives the first index holding the character, or -1 exactly when it is absent |
| `Manifest.FileType` | hitomi/__init__.py:171-176 | the type is always avif, webp or jpg |
| `Manifest.NormaliseFileSpec` | hitomi/__init__.py:169-179 | a record keeps hash and flags, its url is the source URL of its type, and its name is the text before its first '.' + "." + type |
| `Manifest.NormaliseFileIdempotent` | hitomi/__init__.py:169-179 | normalising a normalised record changes nothing |
| `Manifest.MakeSourceUrlUsesHashOnly` | hitomi/__init__.py:140-160 | the source URL depends only on the hash and the type |
| `Manifest.AvifExample` | hitomi/__init__.py:157-179 | hash "0123456789abc" with avif gives "https://aa.hitomi.la/avif/c/ab/0123456789abc.avif" |
| `Manifest.NormaliseAllPointwise` | hitomi/__init__.py:169-179 | record i after the loop is record i normalised on its own |
| `Manifest.NormaliseFiles` | hitomi/__init__.py:169-179 | the loop leaves the array equal to every record of the old array normalised |
| `GalleryUrl.GidFromUrl` | hitomi/__init__.py:184-186 | `gid_from_url`, the backtracking match of the pattern; stated by `GidFromUrlSound`, `CanonicalGid` and `UnescapedDot` |
| `GalleryUrl.GidFromUrlSound` | hitomi/__init__.py:184-186 | a gid is returned only when the URL reads head, [a-z]+ kind, "/", name, "-", lang without '-', "-", gid, any char, "html"; the gid is a non-empty run of digits |
| `GalleryUrl.CanonicalGid` | hitomi/__init__.py:184-186 | a URL `https://hitomi.la/<kind>/<name>-<lang>-<digits>.html` gives its digits, whatever dashes the name holds |
| `GalleryUrl.GidExample` | hitomi/__init__.py:184-186 | "https://hitomi.la/galleries/foo-bar-english-123456.html" gives "123456" |
| `GalleryUrl.UnescapedDot` | hitomi/__init__.py:185 | when the digits run straight into "html", the unescaped '.' takes the last digit and the gid loses it |
| `GalleryUrl.UnescapedDotExample` | hitomi/__init__.py:185 | "foo-en-1234html" gives "123" |
| `GalleryUrl.GidFromUrlRejectsOtherHosts` | hitomi/__init__.py:184-186 | a URL of at least 14 chars not starting with "https://hitomi" raises AttributeError |
| `Translations.Console.Input` | hitomi/__init__.py:88 | `input` takes the next answer, or raises EOFError when none is left |
| `Translations.Dictionary.Load` | hitomi/__init__.py:79-83 | `attr_dic.update(content)`: the file's entries win over the ones in memory |
| `Translations.Dictionary.Save` | hitomi/__init__.py:97-98 | the file afterwards holds exactly the entries in memory |
| `Translations.Translations.LoadTranslations` | hitomi/__init__.py:77-83 | each of the five dictionaries takes in its own file, and the counter is unchanged |
| `Translations.Translations.QueryTranslation` | hitomi/__init__.py:86-91 | the answer is stored under the key and returned, and the counter goes up by one; with no answer left nothing changes |
| `Translations.Translations.OriginalName` | hitomi/__init__.py:257-263 | a name with a non-empty mapping is used as it is without a prompt; otherwise the answer is stored, used and counted |
| `Translations.Translations.AskForOriginalNames` | hitomi/__init__.py:255-263 | the list, the dictionary, the answers left and the counter end as `Resolve` says |
| `Translations.Translations.SaveTranslations` | hitomi/__init__.py:94-98 | the five files are rewritten with the entries in memory when the counter is positive, and are unchanged otherwise |
| `Translations.Resolve` | hitomi/__init__.py:255-263 | the resolved list has the length of the raw list |
| `Translations.ResolveAnswers` | hitomi/__init__.py:255-263 | answers are taken in order, each at most once; the number taken is the count of prompts |
| `Translations.ResolveAfterEof` | hitomi/__init__.py:255-263 | once the answers run out, the remaining names stay as they were |
| `Translations.ResolveAllMapped` | hitomi/__init__.py:255-263 | when every name has a non-empty mapping, nobody is asked, nothing changes, and each position holds its mapping |
| `Translations.ResolveKeepsEntries` | hitomi/__init__.py:255-263 | existing non-empty mappings are kept, and every new key is one of the names |
| `Translations.ResolveComplete` | hitomi/__init__.py:255-263 | when every answer is non-empty and the answers do not run out, every position holds the final non-empty mapping of its name |
| `Tags.LeadingRun` | hitomi/__init__.py:290 | `([a-z ]+)` taken greedily is the longest prefix of `[a-z ]` chars |
| `Tags.StripTrailingSpaces` | hitomi/__init__.py:290 | `rstrip` removes exactly the trailing spaces |
| `Tags.NormaliseTag` | hitomi/__init__.py:290 | `re.match("([a-z ]+)", t).group(1).rstrip()` on one tag; stated by `NormaliseTagSpec` |
| `Tags.NormaliseTagSpec` | hitomi/__init__.py:290 | a tag matches iff it starts with a `[a-z ]` char, and otherwise raises AttributeError; the result is the leading run without its trailing spaces |
| `Tags.NormaliseTagIdempotent` | hitomi/__init__.py:290 | a non-empty normalised tag normalises to itself |
| `Tags.NormaliseTagsSpec` | hitomi/__init__.py:290 | the list is built iff every tag matches, and then holds each tag's normal form at its position |
| `Tags.TagIndex` | hitomi/__init__.py:327-329 | `[TAGS[t] for t in tags-raw if TAGS.get(t)]`: never longer than the raw tags; its members and order are stated by the three lemmas below |
| `Tags.TagIndexMembers` | hitomi/__init__.py:327-329 | v is in the tag list iff v is TAGS[t] for some raw tag t with a non-empty mapping |
| `Tags.TagIndexAppend` | hitomi/__init__.py:344-346 | the tag list keeps the order of the raw tags: it distributes over concatenation |
| `Tags.TagIndexAllMapped` | hitomi/__init__.py:327-329 | when every tag is mapped, the list is the tags translated one by one |
| `GalleryPage.Strip` | hitomi/__init__.py:279-280 | `strip` gives a slice of the text with only whitespace around it and no whitespace at its ends, whitespace being the `str.isspace` set |
| `GalleryPage.ParsePage` | hitomi/__init__.py:249-291 | `parse_gallery_page` after the scraping: categories resolved in the order authors, groups, series, characters, the type and language cells stripped, the tags normalised, and the state left when it raises; stated by the three lemmas below |
| `GalleryPage.ParsePageRaw` | hitomi/__init__.py:265-291 | each raw list is the scraped list taken before resolving, each resolved list has its length, and `original` holds iff the first type cell strips to "original" |
| `GalleryPage.ParsePageTranslated` | hitomi/__init__.py:255-288 | with non-empty answers, each resolved name is its dictionary's final non-empty mapping |
| `GalleryPage.ParsePageAllMapped` | hitomi/__init__.py:255-291 | when every name is mapped, nobody is asked and nothing changes; the page then fails only on an empty type or language cell or a non-matching tag |
| `GalleryPage.AskCategory` | hitomi/__init__.py:266-268 | the raw copy is the list as scraped, and the resolved list is what `Resolve` gives |
| `GalleryPage.ParseGalleryNames` | hitomi/__init__.py:249-291 | the metadata, the dictionaries, the answers and the counter are what `ParsePage` gives, in the source's order of categories |
| `SymlinkIndex.UpdateLinks` | hitomi/__init__.py:350-358 | the loop of `update_symlinks_generic`, stopping at the first exception with the changes so far kept; stated by the `UpdateLinks*` lemmas |
| `SymlinkIndex.StepAt` | hitomi/__init__.py:353-358 | one turn on paths touches only the directory and the link; on success the link is there, every other entry is kept, and a missing directory is made |
| `SymlinkIndex.ValueDirParts` | hitomi/__init__.py:353 | `Path(os.path.join(attr, v))` for a relative value is the category followed by the parts of the value |
| `SymlinkIndex.PartsConcat` | hitomi/__init__.py:353 | a `/` inside a value separates the parts on either side of it |
| `SymlinkIndex.LinkPathComponent` | hitomi/__init__.py:355 | for a one-component gallery name the link is a direct child of the value's directory |
| `SymlinkIndex.LinkTargetIsGallery` | hitomi/__init__.py:353-358 | for a category, value and gallery name of one component each, the link is attr/v/dirname and its text ../../_data/dirname resolves to _data/dirname |
| `SymlinkIndex.EmptyValueLink` | hitomi/__init__.py:353-358 | an empty value gives the category directory itself, the link lands at attr/dirname, and its target leaves the project |
| `SymlinkIndex.SlashValueNested` | hitomi/__init__.py:353-354 | a value "a/b" names attr/a/b, and without attr/a the loop raises FileNotFoundError with nothing changed |
| `SymlinkIndex.LinkStepFrame` | hitomi/__init__.py:352-358 | one turn changes nothing but attr/v and attr/v/dirname |
| `SymlinkIndex.LinkStepMakesLink` | hitomi/__init__.py:352-358 | a turn that raises nothing leaves attr/v/dirname a link to ../../_data/dirname |
| `SymlinkIndex.UpdateLinksFrame` | hitomi/__init__.py:350-358 | paths other than each value's directory and link are untouched, whether the loop finishes or raises |
| `SymlinkIndex.UpdateLinksMakesLinks` | hitomi/__init__.py:350-358 | after a loop that raises nothing, every value's link is in place |
| `SymlinkIndex.UpdateLinksMakesDirs` | hitomi/__init__.py:352-354 | for one-component category, gallery and values, and when every value directory already there is a real directory: after a loop that raises nothing every value's directory is a real directory |
| `SymlinkIndex.LinkStepKeeps` | hitomi/__init__.py:352-358 | a turn that raises nothing keeps every entry except the one at the link's path |
| `SymlinkIndex.DanglingLinkRaises` | hitomi/__init__.py:355-358 | a dangling link at the destination is not unlinked, and `symlink` raises FileExistsError with nothing changed |
| `SymlinkIndex.EmptyValueRelinkRaises` | hitomi/__init__.py:353-358 | indexing a gallery again under an empty value raises FileExistsError and changes nothing |
| `SymlinkIndex.LiveLinkReplaced` | hitomi/__init__.py:355-358 | a link whose target exists is replaced by the link to the gallery |
| `SymlinkIndex.UpdateLinksIdempotent` | hitomi/__init__.py:350-358 | for one-component category, gallery and values, when every value directory already there is a real directory, the first run raises nothing, and _data/dirname exists after it: repeating the loop gives the same state and raises nothing |
| `SymlinkIndex.UpdateLinksAfterFail` | hitomi/__init__.py:352-358 | the first exception ends the loop, and later values change nothing |
| `SymlinkIndex.UpdateLinksKeepsLinks` | hitomi/__init__.py:350-358 | a loop that raises nothing loses no index link already in place to a one-component gallery name |
| `SymlinkIndex.FileSystem.MakeDir` | hitomi/__init__.py:354 | `mkdir(exist_ok=True)` adds a directory, accepts an existing directory, and raises for anything else there or for a missing parent |
| `SymlinkIndex.FileSystem.Unlink` | hitomi/__init__.py:357 | `unlink` removes a file or link, and raises for a directory or a missing path |
| `SymlinkIndex.FileSystem.Symlink` | hitomi/__init__.py:358 | `symlink` adds the link, and raises when anything, even a dangling link, is at the path |
| `SymlinkIndex.UpdateSymlinksGeneric` | hitomi/__init__.py:350-358 | the new file system and the outcome are what `UpdateLinks` gives |
| `SymlinkIndex.UpdateSymlinksTags` | hitomi/__init__.py:361-362 | the loop for category "tags" |
| `SymlinkIndex.UpdateSymlinksAuthors` | hitomi/__init__.py:365-366 | the loop for category "authors" |
| `SymlinkIndex.UpdateSymlinksGroups` | hitomi/__init__.py:369-370 | the loop for category "groups" |
| `SymlinkIndex.UpdateSymlinksSeries` | hitomi/__init__.py:373-374 | the loop for category "series" |
| `SymlinkIndex.UpdateSymlinksCharacters` | hitomi/__init__.py:377-378 | the loop for category "characters" |
| `GalleryIndex.IndexCategoriesMakesLinks` | hitomi/__init__.py:324-331 | for a one-component gallery name, after the category updates raise nothing, every value of every category links to the gallery, and no earlier link to a one-component name is lost |
| `GalleryIndex.UpdateSymlinks` | hitomi/__init__.py:324-331 | authors, groups, translated tags, series, characters in that order, stopping at the first exception |
| `GalleryIndex.TagIndexOf` | hitomi/__init__.py:327-329 | the tag list is `TAGS[t]` for the raw tags with a non-empty mapping, and no prompt is made |
| `GalleryIndex.UpdateSymlinksGallery` | hitomi/__init__.py:340-346 | one gallery of `update_symlinks_all`, with tags last |
| `GalleryIndex.UpdateSymlinksAll` | hitomi/__init__.py:334-347 | every listing entry in turn; .DS_Store is skipped, and a gallery without _info.yml raises FileNotFoundError |
| `GalleryIndex.WithoutDsStore` | hitomi/__init__.py:336-337 | the listing without .DS_Store holds exactly the other entries |
| `GalleryIndex.IndexAllSkipsDsStore` | hitomi/__init__.py:335-337 | .DS_Store entries make no difference to the rebuild |
| `GalleryIndex.IndexAllMakesLinks` | hitomi/__init__.py:334-347 | for listing entries of one component each, after a rebuild that raises nothing, every listed gallery had metadata and every value of each of its categories links to it |
| `Downloads.Download` | hitomi/__init__.py:313-322 | `download_single` on the directory's files and the requests made; stated by the three lemmas below |
| `Downloads.DownloadResumes` | hitomi/__init__.py:313-316 | a file present with size > 0 is left alone and no request is made |
| `Downloads.DownloadFetches` | hitomi/__init__.py:317-322 | when the file is missing or empty and the record has a `url`: one request is made; non-200 raises naming the URL and writes nothing; 200 writes the body under the name only |
| `Downloads.DownloadAgain` | hitomi/__init__.py:313-322 | after a successful non-empty download, downloading again changes nothing and makes no request; an empty body is fetched again |
| `Downloads.GalleryDir.DownloadSingle` | hitomi/__init__.py:313-322 | the directory, the requests and the outcome are what `Download` gives |
| `Downloads.IsDuplicate` | hitomi/__init__.py:225-235 | a duplicate iff the directory exists, its stored URL equals this URL, and the answer starts with 'n' |
| `Downloads.DecimalString` | hitomi/__init__.py:241 | `str(i)` is decimal digits with no leading zero that denote i |
| `Downloads.CandidateInjective` | hitomi/__init__.py:241 | `dir + "_" + str(i)` differs for different i and from the name itself |
| `Downloads.SuffixFrom` | hitomi/__init__.py:238-243 | the `while True` loop from a suffix on; stated by `ChooseDirnameLeast` |
| `Downloads.ChooseDirname` | hitomi/__init__.py:237-244 | the own name unless it is a duplicate, else the suffix search; stated by `ChooseDirnameLeast` |
| `Downloads.OtherUrlReused` | hitomi/__init__.py:225-245 | a directory that is absent or holds another URL is used as it is, with no prompt |
| `Downloads.EmptyAnswerRaises` | hitomi/__init__.py:229-233 | an empty answer for the same URL raises IndexError |
| `Downloads.ChooseDirnameLeast` | hitomi/__init__.py:237-244 | the names asked are the own name, then `_1`, `_2`, ..., each judged with the next answer; every name before the i-th was a duplicate, the i-th was not, and the result is the i-th name or the exception raised judging it; the own name is chosen iff it is not a duplicate |
| `Downloads.FirstSuffixExample` | hitomi/__init__.py:237-244 | one "n" for the gallery's directory and no `_1` gives the name with `_1` |
| `Downloads.IsDuplicateAt` | hitomi/__init__.py:225-235 | `is_duplicate` asking through the console agrees with `IsDuplicate` |
| `Downloads.ChooseDirnameLoop` | hitomi/__init__.py:237-244 | the `while True` search returns what `ChooseDirname` gives and consumes the same answers |

## Left out

- HTTP: `requests.get`, the Session and its headers. A download's server is a function from URL to status and body.
- HTML scraping with lxml XPath. The scraped link texts of each field are inputs (`GalleryPage.Scraped`).
- JSON decoding and YAML load and dump. The manifest records, the `_info.yml` contents and the translation files are values. Only `js[js.find("{"):]` is modelled.
- The thread pool of `Api.download`. Each file's `download_single` is modelled on its own; the files are independent.
- `sanitize_filename` and `urllib.parse.unquote` are foreign calls. The gallery directory name is an input to the suffix search.
- `os.chdir`, the `HENTAI_DIR` handling, logging, `init_directory`, `write_metadata`, the `mkdir` at line 247 and the argparse `main` are plumbing.
- `check_title` and the title prompt are interactive plumbing.
- Python's `\d` also matches non-ASCII digits. `GalleryUrl` matches ASCII digits only.
- Following symbolic links stops after 40 hops, as on Linux. Absolute link targets are not modelled: the index only makes relative links.
- A link in the middle of a path is not followed when a path is looked up. The index makes such a path only for a value holding `/` whose outer part is a gallery link made before. The model then puts the new link under that path, not inside the gallery directory the link leads to.
- Nothing outside the project directory is taken to exist: a link whose text climbs above the project root reads as dangling.
- A category value holding a `..` component is not modelled faithfully: `attr/..` is taken as a new directory, not as the project root. An absolute value is taken relative to the project root.
- `SymlinkIndex.LinkTargetIsGallery` is stated for a category, a value and a gallery name of one path component each. `EmptyValueLink` and `SlashValueNested` state what the empty value and a value holding `/` give instead.
- `SymlinkIndex.UpdateSymlinksGeneric` follows `UpdateLinks` for every value, but the lemmas about whole runs (`UpdateLinksMakesDirs`, `UpdateLinksIdempotent`, `UpdateLinksKeepsLinks`, `IndexCategoriesMakesLinks`, `IndexAllMakesLinks`) assume one-component names. In `update_symlinks_all` the gallery names are `os.listdir` entries, which are one component. In `Api.update_symlinks` the name is `sanitize_filename(title) + "|" + language` (hitomi/__init__.py:220-222). The title part is sanitised. The language part is the stripped language cell of the page (hitomi/__init__.py:280), which is not sanitised. So those lemmas cover that call only when the language holds no '/'.
- `Resolver.SubdomainFromGalleryId` takes at most 0xD800 - 97 frontends, to stay clear of the surrogate code points. The program uses 2 or 3.
