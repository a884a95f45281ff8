/**
 * `batch_save`: accept a list of URLs or the output of `map_links`, save each page as a Markdown
 * file below the base directory (one outcome per URL, failures recorded and skipped), write the
 * index, and report the totals.
 */
module Batch {
  import opened Wrappers
  import opened OrderedMaps
  import opened Web
  import opened Urls
  import opened Links
  import opened Paths
  import opened Files
  import opened Documents
  import opened Outcomes
  import opened Index

  const InputError := "urls must be either a list of URLs or map_links() output dictionary"
  const IndexName := "index.md"

  /**
   * The `urls` argument: a list of URLs, a dictionary (with the keys of its "links" entry, when it
   * has one), or any other value.
   */
  datatype Input = ListInput(items: seq<string>) | DictInput(links: Option<seq<string>>) | OtherInput

  datatype BatchResult =
    | InputRejected(error: string)
    | Completed(processed: seq<Outcome>, basePath: Path, totalSaved: nat, totalErrors: nat)

  /** The URLs to process, or None when the argument is rejected. */
  function Normalize(input: Input): Option<seq<string>> {
    match input
    case ListInput(items) => Some(items)
    case DictInput(links) => links
    case OtherInput => None
  }

  /** The dictionary `map_links` returns, handed on to `batch_save`. */
  function AsInput(r: LinkResult): Input {
    match r
    case LinksFound(links) => DictInput(Some(links.keys))
    case LinksFailed(_) => DictInput(None)
  }

  /**
   * `path if path else get_filepath()`: an explicit, non-empty path wins; `defaultBase` is what
   * the fallback lookup returns.
   */
  function ResolveBase(path: Option<Path>, defaultBase: Path): Path {
    if path.Some? && path.value != [] then path.value else defaultBase
  }

  /** The saved file's contents for a fetched page. */
  function PageDocument(url: string, page: Page, title: Option<string>, stamp: string): string {
    Document(FrontMatter(Show(title), url, Netloc(url), DescriptionOf(page), stamp), page.body)
  }

  /** Where a URL's page goes: the domain directory, the sub-directories and the file name stem. */
  function Target(url: string): Location {
    var parts := SplitUrl(url);
    Locate(parts.netloc, parts.path)
  }

  /**
   * Saving one URL on disk `d`: the outcome and the disk afterwards. A failed fetch, an
   * unbalanced bracket in the netloc, or a file in the way of the directory ends it with an error
   * and the disk as it was; otherwise the page goes to the first free candidate name.
   */
  function SaveUrl(d: Disk, base: Path, url: string, fetch: string -> Fetch, stamp: string): (Outcome, Disk) {
    match fetch(url)
    case FetchFailed(message) => (Failed(url, FetchError(message)), d)
    case Fetched(page) =>
      if !BracketsBalanced(Netloc(url)) then (Failed(url, InvalidIPv6Url), d)
      else
        var loc := Target(url);
        var dir := FileDir(base, loc);
        match AfterMakeDirs(d, dir)
        case None => (Failed(url, DirectoryBlocked(dir)), d)
        case Some(made) =>
          var path := Candidate(dir, loc.stem, FreeIndex(made.existing, dir, loc.stem, 0));
          var title := TitleOf(page.title, loc.stem);
          (Saved(url, path, title), AfterWrite(made, path, PageDocument(url, page, title, stamp)))
  }

  /** The loop over the URLs: the outcomes in order and the disk after the last one. */
  function RunBatch(d: Disk, base: Path, urls: seq<string>, fetch: string -> Fetch, clock: nat -> string): (seq<Outcome>, Disk) {
    if urls == [] then ([], d)
    else
      var n := |urls| - 1;
      var (os, d1) := RunBatch(d, base, urls[..n], fetch, clock);
      var (o, d2) := SaveUrl(d1, base, urls[n], fetch, clock(n));
      (os + [o], d2)
  }

  /**
   * The whole call: the result and the disk afterwards. The index is written to `base/index.md`
   * when that can be opened for writing; when it cannot, the result is the same.
   */
  function BatchSpec(input: Input, path: Option<Path>, defaultBase: Path, d: Disk,
                     fetch: string -> Fetch, clock: nat -> string): (BatchResult, Disk)
  {
    match Normalize(input)
    case None => (InputRejected(InputError), d)
    case Some(urls) =>
      var base := ResolveBase(path, defaultBase);
      var (os, d1) := RunBatch(d, base, urls, fetch, clock);
      var indexPath := base + [IndexName];
      var d2 := if CanWrite(d1, indexPath) then AfterWrite(d1, indexPath, RenderIndex(os, base)) else d1;
      (Completed(os, base, CountSaved(os), CountErrors(os)), d2)
  }

  /** The file name chosen for a page can always be opened: it is new and its directory exists. */
  lemma SavedWritable(d: Disk, dir: Path, stem: string)
    requires DiskValid(d) && !Blocked(d, dir)
    ensures var made := AfterMakeDirs(d, dir).value;
            CanWrite(made, Candidate(dir, stem, FreeIndex(made.existing, dir, stem, 0)))
  {
    MakeDirsValid(d, dir);
    var made := AfterMakeDirs(d, dir).value;
    var p := Candidate(dir, stem, FreeIndex(made.existing, dir, stem, 0));
    assert p[..|p| - 1] == dir;
  }

  /** The successful path of `SaveUrl`, spelled out. */
  lemma SaveUrlSaved(d: Disk, base: Path, url: string, fetch: string -> Fetch, stamp: string)
    requires fetch(url).Fetched? && BracketsBalanced(Netloc(url))
    requires !Blocked(d, FileDir(base, Target(url)))
    ensures var dir, stem := FileDir(base, Target(url)), Target(url).stem;
            var made := AfterMakeDirs(d, dir).value;
            var path := Candidate(dir, stem, FreeIndex(made.existing, dir, stem, 0));
            var title := TitleOf(fetch(url).page.title, stem);
            SaveUrl(d, base, url, fetch, stamp)
              == (Saved(url, path, title), AfterWrite(made, path, PageDocument(url, fetch(url).page, title, stamp)))
  {
  }

  /** What saving one URL does to the disk. */
  lemma SaveUrlFacts(d: Disk, base: Path, url: string, fetch: string -> Fetch, stamp: string)
    requires DiskValid(d)
    ensures var (o, d') := SaveUrl(d, base, url, fetch, stamp);
      && o.url == url && DiskValid(d') && d.existing <= d'.existing
      && (o.Failed? ==> d' == d)
      && (o.Saved? ==>
            && fetch(url).Fetched?
            && o.path !in d.existing
            && |base| < |o.path| && o.path[..|base|] == base
            && d'.contents == d.contents[o.path := PageDocument(url, fetch(url).page, o.title, stamp)])
  {
    var dir := FileDir(base, Target(url));
    if fetch(url).Fetched? && BracketsBalanced(Netloc(url)) && !Blocked(d, dir) {
      var stem := Target(url).stem;
      SaveUrlSaved(d, base, url, fetch, stamp);
      MakeDirsValid(d, dir);
      SavedWritable(d, dir, stem);
      var made := AfterMakeDirs(d, dir).value;
      var path := Candidate(dir, stem, FreeIndex(made.existing, dir, stem, 0));
      WriteValid(made, path, PageDocument(url, fetch(url).page, TitleOf(fetch(url).page.title, stem), stamp));
      assert path[..|base|] == base;
    }
  }

  /** Which failure a URL gets, and when. */
  lemma SaveUrlErrors(d: Disk, base: Path, url: string, fetch: string -> Fetch, stamp: string)
    ensures var o := SaveUrl(d, base, url, fetch, stamp).0;
      && (fetch(url).FetchFailed? <==> o.Failed? && o.error.FetchError?)
      && (fetch(url).FetchFailed? ==> o == Failed(url, FetchError(fetch(url).message)))
      && (o == Failed(url, InvalidIPv6Url) <==> fetch(url).Fetched? && !BracketsBalanced(Netloc(url)))
      && (o.Failed? && o.error.DirectoryBlocked? <==>
            fetch(url).Fetched? && BracketsBalanced(Netloc(url)) && Blocked(d, FileDir(base, Target(url))))
      && (o.Failed? && o.error.DirectoryBlocked? ==> o.error.dir == FileDir(base, Target(url)))
  {
    if fetch(url).Fetched? && BracketsBalanced(Netloc(url)) && !Blocked(d, FileDir(base, Target(url))) {
      SaveUrlSaved(d, base, url, fetch, stamp);
    }
  }

  /** A saved page is written to the first candidate name that did not exist after creating its directory. */
  lemma SaveUrlNaming(d: Disk, base: Path, url: string, fetch: string -> Fetch, stamp: string)
    requires SaveUrl(d, base, url, fetch, stamp).0.Saved?
    ensures var dir, stem := FileDir(base, Target(url)), Target(url).stem;
            var made := AfterMakeDirs(d, dir).value;
            exists k: nat ::
              && SaveUrl(d, base, url, fetch, stamp).0.path == Candidate(dir, stem, k)
              && Candidate(dir, stem, k) !in made.existing
              && forall j :: 0 <= j < k ==> Candidate(dir, stem, j) in made.existing
  {
    SaveUrlErrors(d, base, url, fetch, stamp);
    SaveUrlSaved(d, base, url, fetch, stamp);
    var dir, stem := FileDir(base, Target(url)), Target(url).stem;
    var made := AfterMakeDirs(d, dir).value;
    var k := FreeIndex(made.existing, dir, stem, 0);
    assert SaveUrl(d, base, url, fetch, stamp).0.path == Candidate(dir, stem, k);
  }

  /**
   * The title a saved page is recorded with: the title element's text, the file name stem when the
   * page has no title element, and None when the element has no single string. The saved file
   * reads back with that title, shown as the f-string shows it, beside the URL, the netloc, the
   * description and the timestamp, when none of them spans several lines.
   */
  lemma SavedTitle(d: Disk, base: Path, url: string, fetch: string -> Fetch, stamp: string)
    ensures var (o, d') := SaveUrl(d, base, url, fetch, stamp);
      o.Saved? ==>
        var page := fetch(url).page;
        && fetch(url).Fetched?
        && (page.title.Absent? ==> o.title == Some(Target(url).stem))
        && (page.title.NoString? ==> o.title == None)
        && (page.title.Text? ==> o.title == Some(page.title.s))
        && o.path in d'.contents
        && (SingleLine(Show(o.title)) && SingleLine(url) && SingleLine(Netloc(url))
            && SingleLine(DescriptionOf(page)) && SingleLine(stamp) ==>
              ParseDocument(d'.contents[o.path])
                == Some((FrontMatter(Show(o.title), url, Netloc(url), DescriptionOf(page), stamp), page.body)))
  {
    if fetch(url).Fetched? && BracketsBalanced(Netloc(url)) && !Blocked(d, FileDir(base, Target(url))) {
      SaveUrlSaved(d, base, url, fetch, stamp);
      var (o, d') := SaveUrl(d, base, url, fetch, stamp);
      var page := fetch(url).page;
      var fm := FrontMatter(Show(o.title), url, Netloc(url), DescriptionOf(page), stamp);
      assert d'.contents[o.path] == Document(fm, page.body);
      if SingleLine(fm.title) && SingleLine(fm.url) && SingleLine(fm.domain)
         && SingleLine(fm.description) && SingleLine(fm.dateSaved) {
        ParseDocumentRoundTrip(fm, page.body);
      }
    }
  }

  /**
   * When neither the base nor the URL's domain directory and sub-directories are "." or "..", the
   * file the operating system writes for a saved page is the one the outcome names, below the base.
   */
  lemma SavedPathResolved(d: Disk, base: Path, url: string, fetch: string -> Fetch, stamp: string)
    requires Plain(base) && PlainLocation(Target(url))
    ensures var o := SaveUrl(d, base, url, fetch, stamp).0;
            o.Saved? ==> Resolve(o.path) == o.path && |base| < |o.path| && o.path[..|base|] == base
  {
    var dir, stem := FileDir(base, Target(url)), Target(url).stem;
    if fetch(url).Fetched? && BracketsBalanced(Netloc(url)) && !Blocked(d, dir) {
      SaveUrlSaved(d, base, url, fetch, stamp);
      var made := AfterMakeDirs(d, dir).value;
      CandidateResolved(base, Target(url), FreeIndex(made.existing, dir, stem, 0));
    }
  }

  /**
   * `http://h/../../x` is saved, and the file the operating system writes for it lies in the
   * base's parent directory, not below the base.
   */
  lemma DotDotUrlEscapes(d: Disk, base: Path, url: string, fetch: string -> Fetch, stamp: string)
    requires url == "http://h/../../x" && base != [] && Plain(base)
    requires fetch(url).Fetched? && !Blocked(d, FileDir(base, Target(url)))
    ensures var o := SaveUrl(d, base, url, fetch, stamp).0;
            && o.Saved?
            && |Resolve(o.path)| == |base|
            && Resolve(o.path)[..|base| - 1] == base[..|base| - 1]
  {
    DotDotTarget(url);
    var dir, stem := FileDir(base, Target(url)), Target(url).stem;
    SaveUrlSaved(d, base, url, fetch, stamp);
    var made := AfterMakeDirs(d, dir).value;
    var k := FreeIndex(made.existing, dir, stem, 0);
    DotDotEscapes("h", "/../../x", base, k);
  }

  lemma DotDotTarget(url: string)
    requires url == "http://h/../../x"
    ensures Netloc(url) == "h" && BracketsBalanced(Netloc(url))
    ensures Target(url) == Locate("h", "/../../x")
  {
    assert SchemeChars("http"[3..]) && SchemeChars("http"[2..]) && SchemeChars("http"[1..]);
    assert "http" + "://" + "h" + "/../../x" + "" == url;
    SplitUrlOf("http", "h", "/../../x", "");
  }

  /** One outcome per URL, in the order of the URLs. */
  ghost predicate InOrder(urls: seq<string>, os: seq<Outcome>) {
    |os| == |urls| && forall i :: 0 <= i < |os| ==> os[i].url == urls[i]
  }

  /** Files that existed keep their contents; nothing that existed disappears. */
  ghost predicate KeepsFiles(d: Disk, d': Disk) {
    && d.existing <= d'.existing
    && forall p :: p in d.contents ==> p in d'.contents && d'.contents[p] == d.contents[p]
  }

  /** A saved page's file is new, lies below the base directory, and exists. */
  ghost predicate Placed(d: Disk, base: Path, o: Outcome, d': Disk)
    requires o.Saved?
  {
    o.path !in d.existing && |base| < |o.path| && o.path[..|base|] == base && o.path in d'.contents
  }

  /** Every file is one that existed or one a saved outcome names. */
  ghost predicate OnlySaves(d: Disk, os: seq<Outcome>, d': Disk) {
    forall p :: p in d'.contents ==> p in d.contents || exists i :: 0 <= i < |os| && os[i].Saved? && os[i].path == p
  }

  ghost predicate DistinctPaths(os: seq<Outcome>) {
    forall i, j :: 0 <= i < j < |os| && os[i].Saved? && os[j].Saved? ==> os[i].path != os[j].path
  }

  /** The state after the first URLs of a batch, as seen from the disk before it. */
  ghost predicate BatchState(d: Disk, base: Path, urls: seq<string>, os: seq<Outcome>, d': Disk) {
    && InOrder(urls, os) && DiskValid(d') && KeepsFiles(d, d') && OnlySaves(d, os, d') && DistinctPaths(os)
    && forall i :: 0 <= i < |os| && os[i].Saved? ==> Placed(d, base, os[i], d')
  }

  /**
   * The batch loop keeps the disk consistent, records one outcome per URL in order, never
   * overwrites a file, gives every saved page a new file of its own below the base directory,
   * and adds no other file.
   */
  lemma {:induction false} RunBatchFacts(d: Disk, base: Path, urls: seq<string>, fetch: string -> Fetch, clock: nat -> string)
    requires DiskValid(d)
    ensures var (os, d') := RunBatch(d, base, urls, fetch, clock); BatchState(d, base, urls, os, d')
  {
    if urls != [] {
      var n := |urls| - 1;
      var prev := RunBatch(d, base, urls[..n], fetch, clock);
      RunBatchFacts(d, base, urls[..n], fetch, clock);
      var step := SaveUrl(prev.1, base, urls[n], fetch, clock(n));
      SaveUrlFacts(prev.1, base, urls[n], fetch, clock(n));
      BatchStateStep(d, base, urls, prev.0, prev.1, step.0, step.1);
    }
  }

  /** One more URL handled as `SaveUrlFacts` describes keeps the batch state. */
  lemma BatchStateStep(d: Disk, base: Path, urls: seq<string>, os: seq<Outcome>, d1: Disk, o: Outcome, d2: Disk)
    requires urls != [] && BatchState(d, base, urls[..|urls| - 1], os, d1)
    requires o.url == urls[|urls| - 1] && DiskValid(d2) && d1.existing <= d2.existing
    requires o.Failed? ==> d2 == d1
    requires o.Saved? ==>
      && o.path !in d1.existing && |base| < |o.path| && o.path[..|base|] == base
      && o.path in d2.contents && d2.contents == d1.contents[o.path := d2.contents[o.path]]
    ensures BatchState(d, base, urls, os + [o], d2)
  {
    StepInOrder(urls, os, o);
    if o.Saved? {
      StepSaved(d, base, urls[..|urls| - 1], os, d1, o, d2);
    } else {
      StepFailed(d, base, urls[..|urls| - 1], os, d1, o);
    }
  }

  lemma StepInOrder(urls: seq<string>, os: seq<Outcome>, o: Outcome)
    requires urls != [] && InOrder(urls[..|urls| - 1], os) && o.url == urls[|urls| - 1]
    ensures InOrder(urls, os + [o])
  {
    var n := |urls| - 1;
    forall i | 0 <= i < n + 1 ensures (os + [o])[i].url == urls[i] {
      if i < n {
        assert (os + [o])[i] == os[i] && urls[..n][i] == urls[i];
      }
    }
  }

  lemma StepFailed(d: Disk, base: Path, urls: seq<string>, os: seq<Outcome>, d1: Disk, o: Outcome)
    requires o.Failed? && BatchState(d, base, urls, os, d1)
    ensures OnlySaves(d, os + [o], d1) && DistinctPaths(os + [o])
    ensures forall i :: 0 <= i < |os + [o]| && (os + [o])[i].Saved? ==> Placed(d, base, (os + [o])[i], d1)
  {
    var os' := os + [o];
    forall i | 0 <= i < |os'| && os'[i].Saved? ensures Placed(d, base, os'[i], d1) {
      assert os'[i] == os[i];
    }
    forall p | p in d1.contents && p !in d.contents
      ensures exists i :: 0 <= i < |os'| && os'[i].Saved? && os'[i].path == p
    {
      var i :| 0 <= i < |os| && os[i].Saved? && os[i].path == p;
      assert os'[i] == os[i];
    }
  }

  lemma StepSaved(d: Disk, base: Path, urls: seq<string>, os: seq<Outcome>, d1: Disk, o: Outcome, d2: Disk)
    requires o.Saved? && BatchState(d, base, urls, os, d1)
    requires d1.existing <= d2.existing && o.path in d2.contents
    requires d2.contents == d1.contents[o.path := d2.contents[o.path]]
    requires o.path !in d1.existing && |base| < |o.path| && o.path[..|base|] == base
    ensures KeepsFiles(d, d2) && OnlySaves(d, os + [o], d2) && DistinctPaths(os + [o])
    ensures forall i :: 0 <= i < |os + [o]| && (os + [o])[i].Saved? ==> Placed(d, base, (os + [o])[i], d2)
  {
    var n := |os|;
    var os' := os + [o];
    forall i | 0 <= i < n && os[i].Saved? ensures os[i].path != o.path {
      assert Placed(d, base, os[i], d1);
    }
    forall i | 0 <= i < |os'| && os'[i].Saved? ensures Placed(d, base, os'[i], d2) {
      if i < n {
        assert os'[i] == os[i];
        assert Placed(d, base, os[i], d1);
      }
    }
    forall p | p in d2.contents && p !in d.contents
      ensures exists i :: 0 <= i < |os'| && os'[i].Saved? && os'[i].path == p
    {
      if p == o.path {
        assert os'[n] == o;
      } else {
        var i :| 0 <= i < |os| && os[i].Saved? && os[i].path == p;
        assert os'[i] == os[i];
      }
    }
  }

  /** The file of every saved outcome holds its page's document. */
  ghost predicate HoldDocuments(urls: seq<string>, fetch: string -> Fetch, clock: nat -> string, os: seq<Outcome>, d': Disk) {
    forall i :: 0 <= i < |os| && os[i].Saved? ==>
      && i < |urls| && fetch(urls[i]).Fetched? && os[i].path in d'.contents
      && d'.contents[os[i].path] == PageDocument(urls[i], fetch(urls[i]).page, os[i].title, clock(i))
  }

  /** After the batch loop, the file of every saved page holds that page's document. */
  lemma {:induction false} RunBatchDocuments(d: Disk, base: Path, urls: seq<string>, fetch: string -> Fetch, clock: nat -> string)
    requires DiskValid(d)
    ensures var (os, d') := RunBatch(d, base, urls, fetch, clock); HoldDocuments(urls, fetch, clock, os, d')
  {
    if urls != [] {
      var n := |urls| - 1;
      var (os, d1) := RunBatch(d, base, urls[..n], fetch, clock);
      RunBatchDocuments(d, base, urls[..n], fetch, clock);
      RunBatchFacts(d, base, urls[..n], fetch, clock);
      var (o, d2) := SaveUrl(d1, base, urls[n], fetch, clock(n));
      SaveUrlFacts(d1, base, urls[n], fetch, clock(n));
      StepDocuments(d, base, urls, fetch, clock, os, d1, o, d2);
    }
  }

  lemma StepDocuments(d: Disk, base: Path, urls: seq<string>, fetch: string -> Fetch, clock: nat -> string,
                      os: seq<Outcome>, d1: Disk, o: Outcome, d2: Disk)
    requires urls != []
    requires BatchState(d, base, urls[..|urls| - 1], os, d1) && HoldDocuments(urls[..|urls| - 1], fetch, clock, os, d1)
    requires o.Failed? ==> d2 == d1
    requires o.Saved? ==>
      var url := urls[|urls| - 1];
      && fetch(url).Fetched? && o.path !in d1.existing
      && d2.contents == d1.contents[o.path := PageDocument(url, fetch(url).page, o.title, clock(|urls| - 1))]
    ensures HoldDocuments(urls, fetch, clock, os + [o], d2)
  {
    var n := |urls| - 1;
    var os' := os + [o];
    forall i | 0 <= i < |os'| && os'[i].Saved?
      ensures && i < |urls| && fetch(urls[i]).Fetched? && os'[i].path in d2.contents
              && d2.contents[os'[i].path] == PageDocument(urls[i], fetch(urls[i]).page, os'[i].title, clock(i))
    {
      if i < n {
        assert os'[i] == os[i] && urls[..n][i] == urls[i];
        assert Placed(d, base, os[i], d1);
      }
    }
  }

  /**
   * The call's result: a rejected argument changes nothing; otherwise the status is success, there
   * is one outcome per URL in order, and the totals add up to the number of URLs.
   */
  lemma BatchResultFacts(input: Input, path: Option<Path>, defaultBase: Path, d: Disk,
                         fetch: string -> Fetch, clock: nat -> string)
    requires DiskValid(d)
    ensures var (r, d') := BatchSpec(input, path, defaultBase, d, fetch, clock);
      && (Normalize(input).None? <==> r == InputRejected(InputError))
      && (r.InputRejected? ==> d' == d)
      && (r.Completed? ==>
            && |r.processed| == |Normalize(input).value|
            && (forall i :: 0 <= i < |r.processed| ==> r.processed[i].url == Normalize(input).value[i])
            && r.totalSaved + r.totalErrors == |r.processed|
            && r.basePath == (if path.Some? && path.value != [] then path.value else defaultBase))
  {
    if Normalize(input).Some? {
      var base := ResolveBase(path, defaultBase);
      var (os, d1) := RunBatch(d, base, Normalize(input).value, fetch, clock);
      RunBatchFacts(d, base, Normalize(input).value, fetch, clock);
      CountsAddUp(os);
    }
  }

  /**
   * After the call the disk is consistent, and every file that existed before keeps its contents,
   * except `base/index.md`, which the index overwrites.
   */
  lemma BatchKeepsFiles(input: Input, path: Option<Path>, defaultBase: Path, d: Disk,
                        fetch: string -> Fetch, clock: nat -> string)
    requires DiskValid(d)
    ensures var (r, d') := BatchSpec(input, path, defaultBase, d, fetch, clock);
      && DiskValid(d')
      && forall p :: p in d.contents && (r.Completed? ==> p != r.basePath + [IndexName]) ==>
           p in d'.contents && d'.contents[p] == d.contents[p]
  {
    if Normalize(input).Some? {
      var base := ResolveBase(path, defaultBase);
      var (os, d1) := RunBatch(d, base, Normalize(input).value, fetch, clock);
      RunBatchFacts(d, base, Normalize(input).value, fetch, clock);
      var indexPath := base + [IndexName];
      if CanWrite(d1, indexPath) {
        WriteValid(d1, indexPath, RenderIndex(os, base));
      }
    }
  }

  /**
   * When the base directory exists after the loop and `index.md` in it is not a directory, the index
   * is written there.
   */
  lemma IndexWritten(input: Input, path: Option<Path>, defaultBase: Path, d: Disk,
                     fetch: string -> Fetch, clock: nat -> string)
    requires DiskValid(d) && Normalize(input).Some?
    requires var base := ResolveBase(path, defaultBase);
             var d1 := RunBatch(d, base, Normalize(input).value, fetch, clock).1;
             (base == [] || IsDir(d1, base)) && !IsDir(d1, base + [IndexName])
    ensures var (r, d') := BatchSpec(input, path, defaultBase, d, fetch, clock);
            var indexPath := r.basePath + [IndexName];
            indexPath in d'.contents && d'.contents[indexPath] == RenderIndex(r.processed, r.basePath)
  {
    var base := ResolveBase(path, defaultBase);
    var indexPath := base + [IndexName];
    assert indexPath[..|indexPath| - 1] == base;
  }

  /**
   * Two URLs of one batch that lead to the same directory and stem, such as one path under two
   * query strings, do not share a file: into a directory where neither `stem.md` nor `stem_1.md`
   * exists, the first is written to `stem.md` and the second to `stem_1.md`.
   */
  lemma SameStemTwice(d: Disk, base: Path, a: string, b: string, fetch: string -> Fetch, clock: nat -> string)
    requires fetch(a).Fetched? && BracketsBalanced(Netloc(a))
    requires fetch(b).Fetched? && BracketsBalanced(Netloc(b))
    requires FileDir(base, Target(a)) == FileDir(base, Target(b)) && Target(a).stem == Target(b).stem
    requires var dir, stem := FileDir(base, Target(a)), Target(a).stem;
             && !Blocked(d, dir)
             && Candidate(dir, stem, 0) !in d.existing && Candidate(dir, stem, 1) !in d.existing
    ensures var os := RunBatch(d, base, [a, b], fetch, clock).0;
            var dir, stem := FileDir(base, Target(a)), Target(a).stem;
            && |os| == 2
            && os[0].Saved? && os[0].path == Candidate(dir, stem, 0)
            && os[1].Saved? && os[1].path == Candidate(dir, stem, 1)
  {
    var dir, stem := FileDir(base, Target(a)), Target(a).stem;
    var first := SaveUrl(d, base, a, fetch, clock(0));
    var second := SaveUrl(first.1, base, b, fetch, clock(1));
    RunBatchPair(d, base, a, b, fetch, clock);
    SaveUrlPath(d, base, a, fetch, clock(0));
    FirstCandidateFree(d, dir, stem);
    SecondCandidateFree(d, first.1, dir, stem);
    SaveUrlPath(first.1, base, b, fetch, clock(1));
    assert first.0.path == Candidate(dir, stem, 0);
    assert second.0.path == Candidate(dir, stem, 1);
  }

  /** The query and the fragment play no part in where a page goes. */
  lemma QueryIgnored(scheme: string, netloc: string, path: string, q1: string, q2: string)
    requires |scheme| > 0 && IsAsciiLetter(scheme[0]) && SchemeChars(scheme)
    requires forall k :: 0 <= k < |netloc| ==> netloc[k] !in {'/', '?', '#'}
    requires path == [] || path[0] == '/'
    requires forall k :: 0 <= k < |path| ==> path[k] !in {'?', '#'}
    requires q1 == [] || q1[0] in {'?', '#'}
    requires q2 == [] || q2[0] in {'?', '#'}
    ensures Target(scheme + "://" + netloc + path + q1) == Target(scheme + "://" + netloc + path + q2)
    ensures Netloc(scheme + "://" + netloc + path + q1) == Netloc(scheme + "://" + netloc + path + q2)
  {
    SplitUrlOf(scheme, netloc, path, q1);
    SplitUrlOf(scheme, netloc, path, q2);
  }

  /** A batch of two URLs saves the first on the disk as it was and the second on the disk after that. */
  lemma RunBatchPair(d: Disk, base: Path, a: string, b: string, fetch: string -> Fetch, clock: nat -> string)
    ensures var first := SaveUrl(d, base, a, fetch, clock(0));
            var second := SaveUrl(first.1, base, b, fetch, clock(1));
            RunBatch(d, base, [a, b], fetch, clock) == ([first.0, second.0], second.1)
  {
    var first := SaveUrl(d, base, a, fetch, clock(0));
    var second := SaveUrl(first.1, base, b, fetch, clock(1));
    assert [a, b][..1] == [a] && [a][..0] == [];
    RunBatchLast(d, base, [a], fetch, clock);
    assert [] + [first.0] == [first.0];
    assert RunBatch(d, base, [a], fetch, clock) == ([first.0], first.1);
    RunBatchLast(d, base, [a, b], fetch, clock);
    assert [first.0] + [second.0] == [first.0, second.0];
  }

  /** The loop's last step, as one equation. */
  lemma RunBatchLast(d: Disk, base: Path, urls: seq<string>, fetch: string -> Fetch, clock: nat -> string)
    requires urls != []
    ensures var n := |urls| - 1;
            var prev := RunBatch(d, base, urls[..n], fetch, clock);
            var step := SaveUrl(prev.1, base, urls[n], fetch, clock(n));
            RunBatch(d, base, urls, fetch, clock) == (prev.0 + [step.0], step.1)
  {
  }

  /** When nothing fails, the page goes to the first free candidate and that file is the only change. */
  lemma SaveUrlPath(d: Disk, base: Path, url: string, fetch: string -> Fetch, stamp: string)
    requires fetch(url).Fetched? && BracketsBalanced(Netloc(url)) && !Blocked(d, FileDir(base, Target(url)))
    ensures var (o, d') := SaveUrl(d, base, url, fetch, stamp);
            var dir, stem := FileDir(base, Target(url)), Target(url).stem;
            var made := AfterMakeDirs(d, dir).value;
            && o.Saved? && o.path == Candidate(dir, stem, FreeIndex(made.existing, dir, stem, 0))
            && d'.existing == made.existing + {o.path}
            && d'.contents.Keys == d.contents.Keys + {o.path}
  {
    SaveUrlSaved(d, base, url, fetch, stamp);
  }

  /** On a disk without `stem.md`, creating the directory leaves that name free and it is chosen. */
  lemma FirstCandidateFree(d: Disk, dir: Path, stem: string)
    requires !Blocked(d, dir) && Candidate(dir, stem, 0) !in d.existing
    ensures FreeIndex(AfterMakeDirs(d, dir).value.existing, dir, stem, 0) == 0
  {
    assert Candidate(dir, stem, 0) !in Prefixes(dir);
  }

  /** Once `stem.md` is written, the next save of the same stem gets `stem_1.md` when that is free. */
  lemma SecondCandidateFree(d: Disk, d1: Disk, dir: Path, stem: string)
    requires !Blocked(d, dir) && Candidate(dir, stem, 1) !in d.existing
    requires d1.existing == AfterMakeDirs(d, dir).value.existing + {Candidate(dir, stem, 0)}
    requires d1.contents.Keys == d.contents.Keys + {Candidate(dir, stem, 0)}
    ensures !Blocked(d1, dir)
    ensures FreeIndex(AfterMakeDirs(d1, dir).value.existing, dir, stem, 0) == 1
  {
    var c0, c1 := Candidate(dir, stem, 0), Candidate(dir, stem, 1);
    CandidateNamesDistinct(stem, 0, 1);
    assert c0[|dir|] != c1[|dir|];
    forall n | 0 < n <= |dir| ensures dir[..n] !in d1.contents {
      assert dir[..n] != c0;
    }
    assert c1 !in Prefixes(dir);
    var e := AfterMakeDirs(d1, dir).value.existing;
    assert c0 in e && c1 !in e;
  }

  /**
   * `batch_save(map_links(url))`: a successful link map hands over its URLs, each once, in the
   * order they first appear on the page; a failed one is rejected as an argument without "links".
   */
  lemma MapLinksFeedsBatch(anchors: seq<Anchor>, message: string)
    ensures Normalize(AsInput(LinksFound(Collect(anchors)))) == Some(FirstSeen(EligibleHrefs(anchors)))
    ensures Normalize(AsInput(LinksFailed(message))).None?
  {
    CollectKeys(anchors);
  }

  /** `batch_save` for one URL, against the filesystem. */
  method ProcessUrl(fs: FileSystem, base: Path, url: string, fetch: string -> Fetch, stamp: string) returns (o: Outcome)
    requires fs.Valid()
    modifies fs
    ensures fs.Valid()
    ensures (o, fs.Model()) == SaveUrl(old(fs.Model()), base, url, fetch, stamp)
  {
    match fetch(url)
    case FetchFailed(message) =>
      o := Failed(url, FetchError(message));
    case Fetched(page) =>
      var parts := SplitUrl(url);
      if !BracketsBalanced(parts.netloc) {
        o := Failed(url, InvalidIPv6Url);
        return;
      }
      var loc := Locate(parts.netloc, parts.path);
      var dir := FileDir(base, loc);
      ghost var before := fs.Model();
      var made := fs.MakeDirs(dir);
      if !made {
        o := Failed(url, DirectoryBlocked(dir));
        return;
      }
      var path, k := fs.FreeName(dir, loc.stem);
      var title := TitleOf(page.title, loc.stem);
      var doc := PageDocument(url, page, title, stamp);
      SavedWritable(before, dir, loc.stem);
      var written := fs.Write(path, doc);
      assert written;
      o := Saved(url, path, title);
  }

  /** `batch_save(urls, path)` against the filesystem; `defaultBase` stands for the fallback path lookup. */
  method BatchSave(fs: FileSystem, input: Input, path: Option<Path>, defaultBase: Path,
                   fetch: string -> Fetch, clock: nat -> string) returns (r: BatchResult)
    requires fs.Valid()
    modifies fs
    ensures fs.Valid()
    ensures (r, fs.Model()) == BatchSpec(input, path, defaultBase, old(fs.Model()), fetch, clock)
  {
    var urls := Normalize(input);
    if urls.None? {
      return InputRejected(InputError);
    }
    var base := ResolveBase(path, defaultBase);
    ghost var start := fs.Model();
    var results := [];
    for i := 0 to |urls.value|
      invariant fs.Valid()
      invariant (results, fs.Model()) == RunBatch(start, base, urls.value[..i], fetch, clock)
    {
      assert urls.value[..i + 1][..i] == urls.value[..i];
      var o := ProcessUrl(fs, base, urls.value[i], fetch, clock(i));
      results := results + [o];
    }
    assert urls.value[..|urls.value|] == urls.value;
    var index := BuildIndex(results, base);
    var indexWritten := fs.Write(base + [IndexName], index);
    r := Completed(results, base, CountSaved(results), CountErrors(results));
  }
}
