# md-webcrawl-mcp: link mapping and batch saving, modelled in Dafny

This project models the two crawling tools of the `md-webcrawl-mcp` server (`server.py`):

- `map_links(url)` fetches a page and builds an insertion-ordered dictionary from the `href` of every
  anchor to its trimmed text. An `href` is kept only when it starts with `http` and mentions neither
  `youtube.com` nor `youtu.be`. A later anchor with the same `href` overwrites the text but keeps the
  key's first position. A failed fetch gives an error result carrying the message.
- `batch_save(urls, path)` accepts a list of URLs or the dictionary `map_links` returns. For each URL it
  fetches the page and derives a location from the URL's netloc and path:
  - the domain directory is the netloc with `:` replaced by `_`;
  - there is one sub-directory per non-empty path segment except the last;
  - the file name stem is the last segment with `.html` and `.php` removed, or `index`.
- It then creates the directories and probes `stem.md`, `stem_1.md`, `stem_2.md`, ... until a name is
  free. It writes a front-matter block and the converted page, and records a `saved` or `error` outcome.
  When the loop ends it writes `index.md`, grouping the saved pages by netloc in first-seen order, and
  returns the outcomes with the saved and error totals.

Modules, one per file:

| file | module | what it holds |
|---|---|---|
| `text.dfy` | `Text` | the Python `str` operations used: `startswith`, `in`, `replace`, `split`, `join`, `strip`, `str(n)` |
| `ordered_map.dfy` | `OrderedMaps` | an insertion-ordered `dict`, and "each element once, in first-seen order" |
| `web.dfy` | `Wrappers`, `Web` | `Option`; what a fetch yields: the title tag, the description, the anchors and the converted body |
| `urls.dfy` | `Urls` | the netloc and path that `urllib.parse.urlparse` returns, and its "Invalid IPv6 URL" error |
| `links.dfy` | `Links` | `map_links` as a function over the anchors and as a method with the source's loop |
| `paths.dfy` | `Paths` | the domain directory, the segments, the stem and the numbered candidate names |
| `files.dfy` | `Files` | the filesystem: the value `Disk` and the class `FileSystem` with `makedirs`, the collision probe and `open(...).write` |
| `documents.dfy` | `Documents` | the title fallback and the saved file's front-matter format, with a parser that reads it back |
| `outcomes.dfy` | `Outcomes` | one `processed` entry, and the saved and error totals |
| `index.dfy` | `Index` | `index.md`: grouping by netloc and rendering, as functions and as the source's loops |
| `batch.dfy` | `Batch` | `batch_save` as a specification (`SaveUrl`, `RunBatch`, `BatchSpec`) and as methods on `FileSystem` |

Paths are sequences of components (`seq<string>`), and `os.path.join` appends components. A URL's
network fetch is a parameter `fetch: string -> Fetch`. The timestamp of the i-th URL is a parameter
`clock(i)`. The fallback output directory (`get_filepath()`) is a parameter `defaultBase`.

The model follows the code where it departs from what its comments suggest:

- The docstring of `map_links` (server.py:223) speaks of URLs starting with `http://` or `https://`.
  The code tests only the prefix `http`, so `httpfoo` is kept (`Links.IsEligible`).
- `.html` and `.php` are removed wherever they occur in the last segment, not only as a suffix
  (`Paths.StemOfInnerHtml`: `a.html.bak` gives `a.bak`).
- Saved files never overwrite an existing file, but a pre-existing `index.md` in the base directory
  is overwritten by the index. It is the one file the call may overwrite (`Batch.BatchKeepsFiles`).
- The HTTP status is never checked (server.py:276-278): a 404 or 500 response is converted and saved
  like any other page. Only a request that raises is an error, so `fetch` fails only with a message.
- `os.path.join` (server.py:298) keeps "." and ".." segments of the URL's path, and the operating
  system resolves them when the directories are made and the file is opened. A path such as
  `/../../x` therefore leaves the base directory (`Paths.DotDotEscapes`, `Batch.DotDotUrlEscapes`).

## Model

| member | source | states |
|---|---|---|
| Text.Contains | server.py:234 | `t in s` holds exactly when `t` occurs in `s` at some index |
| Text.Strip | server.py:235 | `strip()` is the middle of the text between a leading and a trailing run of whitespace; it is empty exactly when the text is all whitespace, and otherwise neither starts nor ends with whitespace |
| Text.NonEmptyAppend | server.py:288 | `[p for p in parts if p]` over two concatenated lists is the concatenation of the two filtered lists |
| Text.JoinSplit | server.py:288 | joining the pieces of `split('/')` with '/' gives the string back |
| Text.DeleteAllChangesIff | server.py:293 | removing every occurrence of a pattern shortens the text exactly when the pattern occurs in it |
| Text.ReplaceAllAbsent | server.py:293 | `replace` leaves a string that does not contain the pattern unchanged |
| Text.ParseDecimalOfDecimal | server.py:305 | the decimal digits of the collision counter read back as the counter |
| Text.DecimalInjective | server.py:305 | different counters have different decimal renderings |
| OrderedMaps.Put | server.py:235 | `links[href] = text`: the key maps to the new value, other keys are unchanged, a new key is appended and a present key keeps its position |
| OrderedMaps.FirstSeen | server.py:235 | the keys of a dict built by assignments are distinct and are exactly the assigned keys |
| OrderedMaps.FirstSeenOrder | server.py:357 | the dict lists its keys in the order of their first assignment |
| Links.IsEligible | server.py:234 | an href is kept exactly when it starts with "http" and contains neither "youtube.com" nor "youtu.be" |
| Links.LinkText | server.py:235 | the trimmed anchor text, or the href when the text is all whitespace; never empty when the text is not |
| Links.EligibleHrefsMembers | server.py:232-234 | an href is kept exactly when it is eligible and some anchor carries it |
| Links.Collect | server.py:230-235 | the dictionary the anchor loop builds; stated by `Links.CollectKeys`, `Links.CollectMembers` and `Links.CollectLastWins` |
| Links.CollectKeys | server.py:230-235 | the dictionary's keys are the kept hrefs, each once, in the order of their first anchor |
| Links.CollectMembers | server.py:232-235 | a URL is a key exactly when some anchor carries it and it is eligible |
| Links.CollectLastWins | server.py:232-235 | each key maps to the text of the last anchor that carries it |
| Links.MapLinks | server.py:227-242 | a failed fetch gives the error with its message; otherwise the loop's dictionary equals the specification over all anchors |
| Urls.SplitUrl | server.py:281-282 | the netloc and path `urlparse` gives; stated by `Urls.SplitUrlOf` |
| Urls.BracketsBalanced | server.py:282 | urlparse's "Invalid IPv6 URL" test; the error it causes is stated by `Batch.SaveUrlErrors` |
| Urls.SplitUrlOf | server.py:281-282 | a URL written as scheme "://" netloc path, with an optional query or fragment, parses to that netloc and that path |
| Paths.DomainDir | server.py:285 | the domain directory has the netloc's length, has no ':', and has '_' where the netloc has ':' |
| Paths.DomainDirOfPort | server.py:285 | "host:port" becomes the single directory name "host_port" |
| Paths.Segments | server.py:288-290 | there is at least one segment, and every segment is non-empty and free of '/' |
| Paths.SegmentsOfPieces | server.py:288-290 | a path written as slash-free pieces joined by '/' has as segments exactly its non-empty pieces, in order, whenever there is one |
| Paths.SegmentsIgnoreEmptyPiece | server.py:288 | an empty piece, as a trailing or doubled '/' makes, adds no segment: "/a/b/" and "/a//b" have the segments of "/a/b" |
| Paths.SegmentsOfJoined | server.py:288 | a path written from non-empty, slash-free segments gives those segments back |
| Paths.SegmentsOfRoot | server.py:289-290 | a path that is empty or only slashes gives the single segment "index" |
| Paths.Stem | server.py:293-295 | the stem is never empty |
| Paths.StemOfPlain | server.py:293 | a last segment without ".html" or ".php" is its own stem |
| Paths.StemOfHtml | server.py:293 | "c.html" has stem "c" |
| Paths.StemOfInnerHtml | server.py:293 | ".html" is removed inside the segment too: "a.html.bak" has stem "a.bak" |
| Paths.StemOfBareHtml | server.py:294-295 | a segment that is only ".html" falls back to "index" |
| Paths.Locate | server.py:285-295 | the stem is non-empty, the domain directory has no ':', and every sub-directory name is non-empty and free of '/' |
| Paths.LocateExample | server.py:285-298 | "example.com:8080" with "/a/b/c.html" gives directory "example.com_8080", sub-directories a and b, and stem "c" |
| Paths.CandidateNamesDistinct | server.py:302-305 | the names `stem.md`, `stem_1.md`, `stem_2.md`, ... differ pairwise |
| Paths.CandidatesBound | server.py:304-306 | when the first k candidate names exist, at least k paths exist |
| Paths.FreeIndex | server.py:301-306 | the chosen index names a free candidate, and every lower index names an existing one |
| Paths.FileDir | server.py:298 | `os.path.join(base_path, domain_dir, *path_parts[:-1])`; its properties are stated by `Paths.CandidateResolved` and `Batch.SaveUrlFacts` |
| Paths.CandidateName | server.py:302-305 | `stem.md`, then `stem_1.md`, `stem_2.md`, ...; its properties are stated by `Paths.CandidateNamesDistinct` and `Paths.CandidatePlain` |
| Paths.ResolveAppendPlain | server.py:298-306 | components other than "." and ".." reach the filesystem as they are, after whatever the path before them resolves to |
| Paths.ResolveDot | server.py:298-306 | a "." component names the same file as the path without it |
| Paths.CandidatePlain | server.py:302-305 | a candidate file name ends in ".md", so it is never "." or ".." |
| Paths.CandidateResolved | server.py:297-306 | below a base and a location without "." or "..", every candidate is the file the operating system probes and opens, and it lies below the base |
| Paths.DotDotEscapes | server.py:288-306 | "h" with "/../../x" gives candidates that the operating system resolves into the base's parent directory |
| Paths.DotSameFile | server.py:288-306 | "/./b" and "/b" give different candidate paths that the operating system resolves to the same file |
| Files.Blocked | server.py:299 | `makedirs` fails when a file stands at the directory or above it; stated by `Files.FileSystem.MakeDirs` |
| Files.AfterMakeDirs | server.py:299 | the disk after `makedirs`; stated by `Files.MakeDirsValid` and `Files.FileSystem.MakeDirs` |
| Files.CanWrite | server.py:326 | `open(p, 'w')` succeeds; stated by `Files.FileSystem.Write` and `Batch.SavedWritable` |
| Files.AfterWrite | server.py:326-327 | the disk after writing a file; stated by `Files.WriteValid` and `Files.FileSystem.Write` |
| Files.MakeDirsValid | server.py:299 | `makedirs` keeps the disk consistent, leaves files alone, keeps what existed, and makes the directory exist |
| Files.WriteValid | server.py:326-327 | writing a file whose parent directory exists keeps the disk consistent |
| Files.FileSystem.MakeDirs | server.py:299 | `makedirs` fails exactly when a file stands at the directory or above it; otherwise the directories are added and nothing else changes |
| Files.FileSystem.FreeName | server.py:301-306 | the probe loop returns the first candidate that does not exist, and all earlier candidates exist |
| Files.FileSystem.Write | server.py:326-327 | opening succeeds exactly when the parent is a directory and the path is not one; then the file holds the text |
| Documents.TitleOf | server.py:309 | `soup.title.string if soup.title else filename`; its properties are stated by `Batch.SavedTitle` |
| Documents.Show | server.py:314 | how the f-string renders a title that may be None; its properties are stated by `Batch.SavedTitle` |
| Documents.DescriptionOf | server.py:310-311 | the description's content, or "" without one; it reaches the file as stated by `Batch.SavedTitle` |
| Documents.FrontMatterLines | server.py:313-320 | the front-matter lines; they read back as stated by `Documents.ParseDocumentRoundTrip` |
| Documents.Document | server.py:313-323 | the metadata block followed by the Markdown; it reads back as stated by `Documents.ParseDocumentRoundTrip` |
| Documents.Field | server.py:314-322 | a field found in a line is the text after "key: " |
| Documents.TakeLinesOf | server.py:314-323 | lines without newlines, written one per line before a body, read back as the same lines and the same body |
| Documents.ParseDocumentRoundTrip | server.py:314-323 | a saved file reads back as its five front-matter fields and the page body, when no field spans several lines |
| Outcomes.CountSaved | server.py:375 | the number of saved outcomes, at most the number of outcomes |
| Outcomes.CountErrors | server.py:376 | the number of failed outcomes, at most the number of outcomes |
| Outcomes.CountsAddUp | server.py:375-376 | `total_saved + total_errors` equals the number of processed URLs |
| Outcomes.AllSaved | server.py:375-376 | every URL was saved exactly when there are no errors |
| Index.SavedNetlocs | server.py:351-354 | there is one netloc per saved outcome |
| Index.Group | server.py:351-354 | a group holds only saved outcomes of its netloc |
| Index.GroupByDomain | server.py:348-354 | the grouping loop builds a dictionary whose keys are the saved netlocs in first-seen order and whose lists are the saved outcomes of each netloc, in order |
| Index.GroupsOfAppend | server.py:351-354 | one more result keeps the dictionary in step with the results |
| Index.AppendOutcome | server.py:351-354 | a failed result changes no group or key; a saved one is appended to its netloc's group, with a new key only for a new netloc |
| Index.AppendEntries | server.py:359-361 | the inner loop appends one entry line per outcome of a group |
| Index.BuildIndex | server.py:344-361 | the rendering loops produce the heading followed by, for each netloc in first-seen order, its section head and entry lines |
| Index.SavedNetlocsMembers | server.py:351-354 | a netloc is among the saved netlocs exactly when some saved outcome has it |
| Index.DomainsMembers | server.py:351-358 | a netloc has a section exactly when some page of it was saved |
| Index.GroupMembers | server.py:351-354 | a section lists exactly the saved outcomes of its netloc |
| Index.IndexListsEverySave | server.py:351-361 | the index lists as many entries as pages were saved |
| Index.RenderIndex | server.py:344-361 | the index text; stated by `Index.BuildIndex`, `Index.DomainsMembers`, `Index.IndexListsEverySave` and `Index.EmptyIndex` |
| Index.Entry | server.py:359-361 | one `- [title](relative_path)` line; stated by `Index.AppendEntries` |
| Index.RelPath | server.py:360 | `os.path.relpath` of a saved path below the base: its components after the base |
| Index.EmptyIndex | server.py:345-361 | with nothing saved, the index is the heading alone |
| Batch.ResolveBase | server.py:271 | `path if path else get_filepath()`; the call's base path as stated by `Batch.BatchResultFacts` |
| Batch.Normalize | server.py:259-265 | the URLs to process; stated by `Batch.MapLinksFeedsBatch` and `Batch.BatchResultFacts` |
| Batch.Target | server.py:281-295 | the domain directory, sub-directories and stem of a URL; stated by `Paths.Locate`, `Batch.QueryIgnored` and `Batch.DotDotUrlEscapes` |
| Batch.PageDocument | server.py:309-323 | the saved file's text; stated by `Batch.RunBatchDocuments` and `Batch.SavedTitle` |
| Batch.SaveUrl | server.py:274-341 | one iteration of the loop as a function of the disk; stated by `Batch.SaveUrlFacts`, `Batch.SaveUrlErrors`, `Batch.SaveUrlNaming` and `Batch.ProcessUrl` |
| Batch.RunBatch | server.py:273-341 | the loop as a function of the disk; stated by `Batch.RunBatchFacts`, `Batch.RunBatchDocuments` and `Batch.BatchSave` |
| Batch.BatchSpec | server.py:246-377 | the whole call as a function of the disk; stated by `Batch.BatchResultFacts`, `Batch.BatchKeepsFiles`, `Batch.IndexWritten` and `Batch.BatchSave` |
| Batch.MapLinksFeedsBatch | server.py:259-265 | `map_links` output hands over its URLs, each once, in first-seen order; its error result is rejected |
| Batch.SavedWritable | server.py:297-327 | after `makedirs`, the file name the probe chooses can always be opened for writing |
| Batch.SaveUrlFacts | server.py:274-341 | saving one URL keeps the disk consistent, changes nothing on error, and on success writes the page's document to a new file below the base and touches no other file |
| Batch.SaveUrlErrors | server.py:274-341 | a fetch error, an invalid IPv6 netloc and a blocked directory each occur exactly under their condition, with the fetch message and the blocked directory recorded |
| Batch.SaveUrlNaming | server.py:301-306 | a saved page goes to the first candidate name that was free after creating its directory |
| Batch.SavedTitle | server.py:308-323 | a saved page's title is the title element's text, the stem without a title element, or None; its file reads back with that title (None shown as "None"), the URL, the netloc, the description and the timestamp when none spans several lines |
| Batch.SavedPathResolved | server.py:297-327 | when neither the base nor the URL's directories are "." or "..", the file the operating system writes is the one the outcome names, below the base |
| Batch.DotDotUrlEscapes | server.py:281-327 | `http://h/../../x` is saved to a file the operating system places in the base's parent directory |
| Batch.SaveUrlPath | server.py:297-334 | with no failure, the page goes to the first free candidate, and that file is the only one added |
| Batch.RunBatchFacts | server.py:273-341 | the loop keeps the disk consistent, records one outcome per URL in order, never overwrites a file, gives each saved page its own new file below the base, and adds no other file |
| Batch.RunBatchDocuments | server.py:313-334 | after the loop, each saved page's file holds that page's front matter and body with its own timestamp |
| Batch.RunBatchPair | server.py:273-341 | a two-URL batch saves the second URL on the disk the first left behind |
| Batch.SameStemTwice | server.py:297-306 | two URLs of a batch with the same directory and stem, written into a directory without `stem.md` and `stem_1.md`, go to `stem.md` and then `stem_1.md` |
| Batch.QueryIgnored | server.py:281-295 | two URLs that differ only in the query or fragment get the same directory, stem and netloc |
| Batch.BatchResultFacts | server.py:258-377 | a rejected argument gives the error text and changes nothing; otherwise one outcome per URL in order, totals adding up to their number, and as base path the explicit non-empty path or else the fallback |
| Batch.BatchKeepsFiles | server.py:273-366 | after the call the disk is consistent, and every earlier file keeps its contents except `base/index.md` |
| Batch.IndexWritten | server.py:364-366 | when the base directory exists and `index.md` is not a directory, the index is written there |
| Batch.ProcessUrl | server.py:274-341 | one loop iteration on the filesystem gives the outcome and the new disk that the specification `SaveUrl` gives |
| Batch.BatchSave | server.py:246-377 | the whole call on the filesystem gives the result and the disk that the specification `BatchSpec` gives |

## Left out

- Network and HTML: `requests.get`, BeautifulSoup and html2text are a parameter `fetch`. It returns
  a page already parsed into its title tag, its description, its anchors that have an `href`, and
  the Markdown body, or it fails with a message. The anchor text is the text BeautifulSoup gives.
- Exceptions: `str(e)` becomes a `Failure` value. It records the fetch message, "Invalid IPv6 URL",
  or the blocked directory. Other errors (permissions, a full disk, encoding) are not modelled.
- `datetime.datetime.now().isoformat()` is the parameter `clock(i)` for the i-th URL.
- `get_filepath()` (server.py:151-192) is the parameter `defaultBase`. Its environment and
  configuration lookup, and its own `makedirs`, are not modelled.
- Urls.SplitUrl: does not model urlparse's removal of leading control characters, spaces, tabs and
  newlines, its splitting of `;params` off the last path segment, or its bracketed-host validation.
  Only the "one bracket without the other" error is modelled.
- The disk is keyed by paths as `os.path.join` spells them, with "." and ".." kept as ordinary
  names. The operating system's reading of them is the separate function `Paths.Resolve`, used only
  to state where the model's paths and the files actually touched agree and where they do not.
  Paths are component sequences, so `os.path.join`'s reset at an absolute component does not arise.
- Batch.SaveUrlFacts: "a new file below the base" holds for the file the source writes only when
  neither the base nor the URL's netloc and directory segments are "." or ".." (`Batch.SavedPathResolved`);
  `http://h/../../x` is written in the base's parent directory (`Batch.DotDotUrlEscapes`).
- Batch.RunBatchFacts: "below the base" and "a new file of its own" hold for the files the source
  writes only when no URL's netloc or directory segment is "." or ".." and the base has neither. With
  "/./b" the source's probe sees the file of "/b" (`Paths.DotSameFile`) where the model's does not.
- Batch.SaveUrlNaming: the chosen candidate is the first free one among paths as the model spells
  them; with a "." or ".." segment the source's `os.path.exists` probes the resolved file instead.
- Batch.SameStemTwice: stated for paths as the model spells them, with the same caveat.
- Index.RelPath: `os.path.relpath` is modelled only for paths below the base. The loop produces only
  such paths as the model spells them (`Batch.RunBatchFacts`); for a URL with ".." segments the
  source's relpath normalises and may start with "..", which the model does not give.
- The `print` of a failed index write (server.py:369) is not modelled. A failed write leaves the
  result and the disk unchanged.
- Input values: list elements that are not strings, and a "links" entry that is not a dictionary,
  are outside the model. `Input` distinguishes a list, a dictionary with or without "links", and any
  other value.
- Documents.ParseDocumentRoundTrip: holds only when no front-matter field contains a newline. A
  title with a newline, which the source would write as is, does not read back.
- Concurrency between calls, the FastMCP tool registration, `mcp.run()` and the other tools of the
  server are not part of this model.
