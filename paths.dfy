/**
 * Where `batch_save` puts a page: a directory named after the URL's netloc, one directory per
 * path segment but the last, and a file named after the last segment, numbered on collision.
 * A path is the sequence of its components; `os.path.join` of them is their '/'-joined text.
 */
module Paths {
  import opened Text

  type Path = seq<string>

  /** The domain directory, the sub-directories below it, and the file name stem. */
  datatype Location = Location(domainDir: string, dirs: seq<string>, stem: string)

  /** `netloc.replace(':', '_')`: a port does not make a nested directory. */
  function DomainDir(netloc: string): (r: string)
    ensures |r| == |netloc| && ':' !in r
    ensures forall i :: 0 <= i < |netloc| ==> r[i] == if netloc[i] == ':' then '_' else netloc[i]
  {
    ReplaceChar(netloc, ':', '_')
  }

  /** The non-empty pieces of the path between slashes, or ["index"] when there are none. */
  function Segments(path: string): (r: seq<string>)
    ensures |r| >= 1
    ensures forall k :: 0 <= k < |r| ==> r[k] != "" && '/' !in r[k]
  {
    var parts := NonEmpty(Split(path, '/'));
    if parts == [] then ["index"] else parts
  }

  /**
   * The last segment with every ".html" and then every ".php" removed, anywhere in it,
   * or "index" when nothing is left.
   */
  function Stem(last: string): (r: string)
    ensures r != ""
  {
    var s := ReplaceAll(ReplaceAll(last, ".html", ""), ".php", "");
    if s == "" then "index" else s
  }

  function Locate(netloc: string, path: string): (loc: Location)
    ensures loc.stem != "" && ':' !in loc.domainDir
    ensures forall k :: 0 <= k < |loc.dirs| ==> loc.dirs[k] != "" && '/' !in loc.dirs[k]
  {
    var segs := Segments(path);
    Location(DomainDir(netloc), segs[..|segs| - 1], Stem(segs[|segs| - 1]))
  }

  /** `os.path.join(base, domain_dir, *dirs)`; an empty domain directory adds no component. */
  function FileDir(base: Path, loc: Location): Path {
    base + (if loc.domainDir == "" then [] else [loc.domainDir]) + loc.dirs
  }

  /** `stem.md`, then `stem_1.md`, `stem_2.md`, ... */
  function CandidateName(stem: string, k: nat): string {
    if k == 0 then stem + ".md" else stem + "_" + Decimal(k) + ".md"
  }

  function Candidate(dir: Path, stem: string, k: nat): Path {
    dir + [CandidateName(stem, k)]
  }

  lemma {:induction false} SplitJoin(parts: seq<string>, sep: char)
    requires |parts| >= 1
    requires forall k :: 0 <= k < |parts| ==> sep !in parts[k]
    ensures Split(Join(parts, sep), sep) == parts
    decreases |Join(parts, sep)|, |parts|
  {
    var p := parts[0];
    if p == [] {
      if |parts| > 1 {
        var rest := Join(parts[1..], sep);
        assert Join(parts, sep) == [sep] + rest;
        assert ([sep] + rest)[1..] == rest;
        SplitJoin(parts[1..], sep);
      }
    } else {
      var s := Join(parts, sep);
      var tailParts := [p[1..]] + parts[1..];
      assert tailParts[1..] == parts[1..];
      if |parts| == 1 {
        assert Join(tailParts, sep) == p[1..];
      } else {
        assert Join(tailParts, sep) == p[1..] + [sep] + Join(parts[1..], sep);
      }
      assert s[1..] == Join(tailParts, sep);
      SplitJoin(tailParts, sep);
      assert [p[0]] + p[1..] == p;
    }
  }

  lemma {:induction false} NonEmptyKeeps(parts: seq<string>)
    requires forall k :: 0 <= k < |parts| ==> parts[k] != ""
    ensures NonEmpty(parts) == parts
  {
    if parts != [] {
      NonEmptyKeeps(parts[1..]);
    }
  }

  /**
   * The segments of a path are its non-empty pieces between slashes, in order, whenever there is
   * one: the empty pieces a leading, trailing or doubled '/' makes are dropped.
   */
  lemma SegmentsOfPieces(pieces: seq<string>)
    requires |pieces| >= 1
    requires forall k :: 0 <= k < |pieces| ==> '/' !in pieces[k]
    requires NonEmpty(pieces) != []
    ensures Segments(Join(pieces, '/')) == NonEmpty(pieces)
  {
    SplitJoin(pieces, '/');
  }

  /** An empty piece adds no segment: "/a/b/" and "/a//b" have the segments of "/a/b". */
  lemma SegmentsIgnoreEmptyPiece(pre: seq<string>, post: seq<string>)
    requires |pre + post| >= 1
    requires forall k :: 0 <= k < |pre + post| ==> '/' !in (pre + post)[k]
    requires NonEmpty(pre + post) != []
    ensures Segments(Join(pre + [""] + post, '/')) == Segments(Join(pre + post, '/'))
  {
    InsertSlashFree(pre, post);
    NonEmptyInsert(pre, post);
    SegmentsOfPieces(pre + [""] + post);
    SegmentsOfPieces(pre + post);
  }

  lemma InsertSlashFree(pre: seq<string>, post: seq<string>)
    requires forall k :: 0 <= k < |pre + post| ==> '/' !in (pre + post)[k]
    ensures forall k :: 0 <= k < |pre + [""] + post| ==> '/' !in (pre + [""] + post)[k]
  {
    var joined, with := pre + post, pre + [""] + post;
    forall k | 0 <= k < |with| ensures '/' !in with[k] {
      if k < |pre| {
        assert with[k] == joined[k];
      } else if k > |pre| {
        assert with[k] == joined[k - 1];
      }
    }
  }

  lemma NonEmptyInsert(pre: seq<string>, post: seq<string>)
    ensures NonEmpty(pre + [""] + post) == NonEmpty(pre + post)
  {
    NonEmptyAppend(pre + [""], post);
    NonEmptyAppend(pre, [""]);
    NonEmptyAppend(pre, post);
    assert NonEmpty([""]) == [];
    assert NonEmpty(pre) + [] == NonEmpty(pre);
  }

  /** Segments give back the non-empty, slash-free pieces a path was written from. */
  lemma SegmentsOfJoined(segs: seq<string>)
    requires |segs| >= 1
    requires forall k :: 0 <= k < |segs| ==> segs[k] != "" && '/' !in segs[k]
    ensures Segments("/" + Join(segs, '/')) == segs
  {
    var parts := [""] + segs;
    assert parts[1..] == segs;
    assert Join(parts, '/') == "/" + Join(segs, '/');
    NonEmptyKeeps(segs);
    assert NonEmpty(parts) == segs;
    SegmentsOfPieces(parts);
  }

  /** A URL with no path, or only slashes, is saved as `index`. */
  lemma SegmentsOfRoot(path: string)
    requires forall k :: 0 <= k < |path| ==> path[k] == '/'
    ensures Segments(path) == ["index"]
  {
    AllSeparators(path);
  }

  lemma {:induction false} AllSeparators(path: string)
    requires forall k :: 0 <= k < |path| ==> path[k] == '/'
    ensures NonEmpty(Split(path, '/')) == []
  {
    if path != [] {
      AllSeparators(path[1..]);
      var rest := Split(path[1..], '/');
      assert Split(path, '/') == [""] + rest;
      assert ([""] + rest)[1..] == rest;
    }
  }

  /** A last segment mentioning neither ".html" nor ".php" is its own stem. */
  lemma StemOfPlain(last: string)
    requires last != "" && !Contains(last, ".html") && !Contains(last, ".php")
    ensures Stem(last) == last
  {
    ReplaceAllAbsent(last, ".html", "");
    ReplaceAllAbsent(last, ".php", "");
  }

  lemma ReplaceAllFront(pat: string, rest: string, rep: string)
    requires |pat| > 0
    ensures ReplaceAll(pat + rest, pat, rep) == rep + ReplaceAll(rest, pat, rep)
  {
    assert (pat + rest)[..|pat|] == pat;
    assert (pat + rest)[|pat|..] == rest;
  }

  lemma ReplaceAllSkip(c: char, rest: string, pat: string, rep: string)
    requires |pat| > 0 && c != pat[0]
    ensures ReplaceAll([c] + rest, pat, rep) == [c] + ReplaceAll(rest, pat, rep)
  {
    var s := [c] + rest;
    if |s| >= |pat| {
      assert s[..|pat|][0] == c;
    }
    assert s[1..] == rest;
  }

  lemma ReplaceAllShort(s: string, pat: string, rep: string)
    requires 0 < |pat| && |s| < |pat|
    ensures ReplaceAll(s, pat, rep) == s
  {
  }

  /** "c.html" has stem "c". */
  lemma StemOfHtml()
    ensures Stem("c.html") == "c"
  {
    ReplaceAllFront(".html", "", "");
    ReplaceAllSkip('c', ".html", ".html", "");
    assert "c.html" == ['c'] + ".html";
    ReplaceAllShort("c", ".php", "");
  }

  /** Replacement is not suffix stripping: ".html" is removed wherever it stands. */
  lemma StemOfInnerHtml()
    ensures Stem("a.html.bak") == "a.bak"
  {
    var s := "a.html.bak";
    assert s == ['a'] + (".html" + ".bak");
    ReplaceAllShort(".bak", ".html", "");
    ReplaceAllFront(".html", ".bak", "");
    ReplaceAllSkip('a', ".html" + ".bak", ".html", "");
    assert ['a'] + "" + ".bak" == "a.bak";
    var once := ReplaceAll(s, ".html", "");
    assert once == "a.bak";
    ReplaceAllShort("bak", ".php", "");
    assert ".bak"[..4] != ".php" by { assert ".bak"[1] != ".php"[1]; }
    assert ".bak"[1..] == "bak";
    assert ReplaceAll(".bak", ".php", "") == ".bak";
    ReplaceAllSkip('a', ".bak", ".php", "");
    assert "a.bak" == ['a'] + ".bak";
    assert ReplaceAll(once, ".php", "") == "a.bak";
  }

  /** A last segment that is nothing but ".html" falls back to "index". */
  lemma StemOfBareHtml()
    ensures Stem(".html") == "index"
  {
    ReplaceAllFront(".html", "", "");
    assert ".html" == ".html" + "";
  }

  lemma SegmentsExample()
    ensures Segments("/a/b/c.html") == ["a", "b", "c.html"]
  {
    var segs := ["a", "b", "c.html"];
    assert Join(segs[2..], '/') == "c.html";
    assert Join(segs[1..], '/') == "b" + "/" + "c.html";
    assert Join(segs, '/') == "a/b/c.html";
    SegmentsOfJoined(segs);
  }

  /** A "host:port" netloc becomes the single directory name "host_port". */
  lemma DomainDirOfPort(host: string, port: string)
    requires ':' !in host && ':' !in port
    ensures DomainDir(host + ":" + port) == host + "_" + port
  {
    var n := host + ":" + port;
    var r := DomainDir(n);
    var want := host + "_" + port;
    forall i | 0 <= i < |n| ensures r[i] == want[i] {
      if i < |host| {
        assert n[i] == host[i] && want[i] == host[i];
      } else if i > |host| {
        assert n[i] == port[i - |host| - 1] && want[i] == port[i - |host| - 1];
      }
    }
  }

  lemma LocateExampleDirs(path: string)
    requires path == "/a/b/c.html"
    ensures var segs := Segments(path); segs[..|segs| - 1] == ["a", "b"] && Stem(segs[|segs| - 1]) == "c"
  {
    var segs := Segments(path);
    SegmentsExample();
    assert segs[..|segs| - 1] == ["a", "b"];
    assert segs[|segs| - 1] == "c.html";
    StemOfHtml();
  }

  lemma LocateExampleDomain(netloc: string)
    requires netloc == "example.com:8080"
    ensures DomainDir(netloc) == "example.com_8080"
  {
    DomainDirOfPort("example.com", "8080");
    assert "example.com" + ":" + "8080" == netloc;
    assert "example.com" + "_" + "8080" == "example.com_8080";
  }

  /** A port-bearing host and a nested path give one domain directory and nested sub-directories. */
  lemma LocateExample(netloc: string, path: string)
    requires netloc == "example.com:8080" && path == "/a/b/c.html"
    ensures Locate(netloc, path) == Location("example.com_8080", ["a", "b"], "c")
  {
    LocateExampleDirs(path);
    LocateExampleDomain(netloc);
  }

  /** Candidate names differ pairwise, so the numbered probe never revisits a name. */
  lemma CandidateNamesDistinct(stem: string, a: nat, b: nat)
    requires a != b
    ensures CandidateName(stem, a) != CandidateName(stem, b)
  {
    var x, y := CandidateName(stem, a), CandidateName(stem, b);
    if a != 0 && b != 0 && x == y {
      var da, db := Decimal(a), Decimal(b);
      assert |da| == |db|;
      assert x[|stem| + 1..|stem| + 1 + |da|] == da;
      assert y[|stem| + 1..|stem| + 1 + |db|] == db;
      DecimalInjective(a, b);
    }
  }

  ghost function Tried(dir: Path, stem: string, k: nat): set<Path> {
    set j | 0 <= j < k :: Candidate(dir, stem, j)
  }

  lemma {:induction false} TriedSize(dir: Path, stem: string, k: nat)
    ensures |Tried(dir, stem, k)| == k
  {
    if k > 0 {
      TriedSize(dir, stem, k - 1);
      var c := Candidate(dir, stem, k - 1);
      assert Tried(dir, stem, k) == Tried(dir, stem, k - 1) + {c};
      forall j | 0 <= j < k - 1 ensures Candidate(dir, stem, j) != c {
        CandidateNamesDistinct(stem, j, k - 1);
        assert Candidate(dir, stem, j)[|dir|] == CandidateName(stem, j);
      }
      assert c !in Tried(dir, stem, k - 1);
    }
  }

  /** When the first k candidates all exist, there are at least k existing paths. */
  lemma CandidatesBound(existing: set<Path>, dir: Path, stem: string, k: nat)
    requires forall j :: 0 <= j < k ==> Candidate(dir, stem, j) in existing
    ensures k <= |existing|
  {
    var t := Tried(dir, stem, k);
    TriedSize(dir, stem, k);
    assert t <= existing;
    assert existing == t + (existing - t);
  }

  /**
   * The index of the first candidate at or after k that is not taken. It exists because the
   * candidates are pairwise distinct and only finitely many paths exist.
   */
  function FreeIndex(existing: set<Path>, dir: Path, stem: string, k: nat): (r: nat)
    requires forall j :: 0 <= j < k ==> Candidate(dir, stem, j) in existing
    ensures k <= r && Candidate(dir, stem, r) !in existing
    ensures forall j :: 0 <= j < r ==> Candidate(dir, stem, j) in existing
    decreases |existing| - k
  {
    if Candidate(dir, stem, k) !in existing then k
    else
      CandidatesBound(existing, dir, stem, k + 1);
      FreeIndex(existing, dir, stem, k + 1)
  }

  /**
   * How the operating system reads a path when it opens, probes or creates it: a "." component
   * names the directory it stands in and ".." the directory above. `os.path.join` does neither,
   * so a URL's "." and ".." segments reach the filesystem as they are.
   */
  function Resolve(p: Path): Path {
    if p == [] then []
    else
      var init, c := Resolve(p[..|p| - 1]), p[|p| - 1];
      if c == "." then init
      else if c == ".." && init != [] && init[|init| - 1] != ".." then init[..|init| - 1]
      else init + [c]
  }

  /** No component is "." or "..". */
  predicate Plain(p: Path) {
    forall k :: 0 <= k < |p| ==> p[k] != "." && p[k] != ".."
  }

  /** A location whose domain directory and sub-directories are all ordinary names. */
  predicate PlainLocation(loc: Location) {
    loc.domainDir != "." && loc.domainDir != ".." && Plain(loc.dirs)
  }

  /** Ordinary components are kept as they are, after whatever the path before them resolves to. */
  lemma {:induction false} ResolveAppendPlain(a: Path, b: Path)
    requires Plain(b)
    ensures Resolve(a + b) == Resolve(a) + b
    decreases |b|
  {
    if b == [] {
      assert a + b == a;
    } else {
      var init := b[..|b| - 1];
      assert (a + b)[..|a + b| - 1] == a + init;
      assert Plain(init);
      ResolveAppendPlain(a, init);
      assert b == init + [b[|b| - 1]];
    }
  }

  /** A "." component changes nothing the operating system sees. */
  lemma ResolveDot(a: Path, b: Path)
    requires Plain(b)
    ensures Resolve(a + ["."] + b) == Resolve(a + b)
  {
    ResolveAppendPlain(a + ["."], b);
    ResolveAppendPlain(a, b);
    assert (a + ["."])[..|a|] == a;
  }

  /** A candidate file name ends in ".md", so it is never "." or "..". */
  lemma CandidatePlain(dir: Path, stem: string, k: nat)
    requires Plain(dir)
    ensures Plain(Candidate(dir, stem, k))
  {
    var name := CandidateName(stem, k);
    assert |name| >= 3;
    assert Candidate(dir, stem, k) == dir + [name];
  }

  /**
   * Below a base and a location of ordinary names, every candidate resolves to itself: the file the
   * operating system probes and writes is the one the model names, and it lies below the base.
   */
  lemma CandidateResolved(base: Path, loc: Location, k: nat)
    requires Plain(base) && PlainLocation(loc)
    ensures var p := Candidate(FileDir(base, loc), loc.stem, k);
            Resolve(p) == p && |base| < |p| && p[..|base|] == base
  {
    var dir := FileDir(base, loc);
    FileDirPlain(base, loc);
    CandidatePlain(dir, loc.stem, k);
    var p := Candidate(dir, loc.stem, k);
    ResolveAppendPlain([], p);
    assert [] + p == p;
    assert p[..|base|] == base;
  }

  lemma FileDirPlain(base: Path, loc: Location)
    requires Plain(base) && PlainLocation(loc)
    ensures Plain(FileDir(base, loc))
  {
    var dir := FileDir(base, loc);
    var dd: Path := if loc.domainDir == "" then [] else [loc.domainDir];
    assert dir == base + dd + loc.dirs;
    forall k | 0 <= k < |dir| ensures dir[k] != "." && dir[k] != ".." {
      if k < |base| {
        assert dir[k] == base[k];
      } else if k < |base| + |dd| {
        assert dir[k] == dd[k - |base|];
      } else {
        assert dir[k] == loc.dirs[k - |base| - |dd|];
      }
    }
  }


  lemma SegmentsOfDotDot()
    ensures Segments("/../../x") == ["..", "..", "x"]
  {
    var segs := ["..", "..", "x"];
    assert Join(segs[2..], '/') == "x";
    assert Join(segs[1..], '/') == ".." + "/" + "x";
    assert Join(segs, '/') == "../../x";
    SegmentsOfJoined(segs);
  }

  /** A path "/../../x" climbs two directories: the domain directory and the base's last one. */
  lemma LocateDotDot(netloc: string, path: string)
    requires netloc == "h" && path == "/../../x"
    ensures Locate(netloc, path) == Location("h", ["..", ".."], "x")
  {
    SegmentsOfDotDot();
    assert ["..", "..", "x"][..2] == ["..", ".."];
    StemOfPlain("x");
    assert |DomainDir(netloc)| == 1 && DomainDir(netloc)[0] == 'h';
  }

  /**
   * The candidate files of "h" with "/../../x" below a base of ordinary names resolve into the
   * base's parent directory: the operating system writes them outside the base.
   */
  lemma DotDotEscapes(netloc: string, path: string, base: Path, k: nat)
    requires netloc == "h" && path == "/../../x"
    requires base != [] && Plain(base)
    ensures var loc := Locate(netloc, path);
            var r := Resolve(Candidate(FileDir(base, loc), loc.stem, k));
            r == base[..|base| - 1] + [CandidateName("x", k)] && |r| == |base|
  {
    LocateDotDot(netloc, path);
    EscapeOf(base, Locate(netloc, path), k);
  }

  lemma EscapeOf(base: Path, loc: Location, k: nat)
    requires loc == Location("h", ["..", ".."], "x")
    requires base != [] && Plain(base)
    ensures Resolve(Candidate(FileDir(base, loc), loc.stem, k)) == base[..|base| - 1] + [CandidateName("x", k)]
  {
    var name := CandidateName("x", k);
    CandidatePlain([], "x", k);
    assert [name] == Candidate([], "x", k);
    assert Candidate(FileDir(base, loc), loc.stem, k) == base + ["h", "..", ".."] + [name];
    ClimbShape(base, name);
    ResolveAppendPlain([], base);
    assert [] + base == base;
    ClimbOut(base, name);
  }

  lemma ClimbOut(base: Path, name: string)
    requires base != [] && Plain(base) && Resolve(base) == base && name != "." && name != ".."
    ensures Resolve(base + ["h"] + [".."] + [".."] + [name]) == base[..|base| - 1] + [name]
  {
    var p1 := base + ["h"];
    var p2 := p1 + [".."];
    var p3 := p2 + [".."];
    ResolveOrdinary(base, "h");
    assert p1[..|base|] == base;
    ResolveUp(p1);
    assert Resolve(p2) == base;
    assert base[|base| - 1] != "..";
    ResolveUp(p2);
    ResolveOrdinary(p3, name);
  }

  lemma ClimbShape(base: Path, name: string)
    ensures base + ["h", "..", ".."] + [name] == base + ["h"] + [".."] + [".."] + [name]
  {
  }

  /** An ordinary component is appended to what the path before it resolves to. */
  lemma ResolveOrdinary(p: Path, c: string)
    requires c != "." && c != ".."
    ensures Resolve(p + [c]) == Resolve(p) + [c]
  {
    assert (p + [c])[..|p|] == p;
  }

  /** ".." removes the last component the path before it resolves to. */
  lemma ResolveUp(p: Path)
    requires Resolve(p) != [] && Resolve(p)[|Resolve(p)| - 1] != ".."
    ensures Resolve(p + [".."]) == Resolve(p)[..|Resolve(p)| - 1]
  {
    assert (p + [".."])[..|p|] == p;
  }



  /**
   * "/./b" and "/b" under the same netloc name different candidates in the model, but the
   * operating system opens the same file for both, so the probe for one sees the file of the other.
   */
  lemma DotSameFile(netloc: string, dotted: string, plain: string, base: Path, k: nat)
    requires netloc == "h" && dotted == "/./b" && plain == "/b" && Plain(base)
    ensures var a, b := Locate(netloc, dotted), Locate(netloc, plain);
            && a == Location("h", ["."], "b") && b == Location("h", [], "b")
            && Candidate(FileDir(base, a), a.stem, k) != Candidate(FileDir(base, b), b.stem, k)
            && Resolve(Candidate(FileDir(base, a), a.stem, k)) == Candidate(FileDir(base, b), b.stem, k)
  {
    LocateDot(netloc, dotted, plain);
    SameFileOf(base, k);
  }

  lemma LocateDot(netloc: string, dotted: string, plain: string)
    requires netloc == "h" && dotted == "/./b" && plain == "/b"
    ensures Locate(netloc, dotted) == Location("h", ["."], "b") && Locate(netloc, plain) == Location("h", [], "b")
  {
    var segs := [".", "b"];
    assert Join(segs, '/') == "./b";
    SegmentsOfJoined(segs);
    SegmentsOfJoined(["b"]);
    StemOfPlain("b");
    assert |DomainDir(netloc)| == 1 && DomainDir(netloc)[0] == 'h';
  }

  lemma SameFileOf(base: Path, k: nat)
    requires Plain(base)
    ensures var a, b := Location("h", ["."], "b"), Location("h", [], "b");
            var pa, pb := Candidate(FileDir(base, a), "b", k), Candidate(FileDir(base, b), "b", k);
            pa != pb && Resolve(pa) == pb
  {
    var a, b := Location("h", ["."], "b"), Location("h", [], "b");
    var name := CandidateName("b", k);
    CandidatePlain([], "b", k);
    assert [name] == Candidate([], "b", k);
    var pa, pb := Candidate(FileDir(base, a), "b", k), Candidate(FileDir(base, b), "b", k);
    assert pa == base + ["h"] + ["."] + [name] && pb == base + ["h"] + [name];
    assert |pa| != |pb|;
    ResolveDot(base + ["h"], [name]);
    CandidateResolved(base, b, k);
  }
}
