/**
 * The filesystem as `batch_save` sees it: the set of paths that exist (files and directories)
 * and the contents of the files. `Disk` is its value; `FileSystem` is the state the batch changes.
 */
module Files {
  import opened Wrappers
  import opened Paths

  datatype Disk = Disk(existing: set<Path>, contents: map<Path, string>)

  /**
   * Every file exists, the root is not an entry, and every proper prefix of an existing path is
   * an existing directory (so nothing exists below a file).
   */
  ghost predicate DiskValid(d: Disk) {
    && d.contents.Keys <= d.existing
    && [] !in d.existing
    && forall p, n {:trigger p[..n]} :: p in d.existing && 0 < n < |p| ==> p[..n] in d.existing && p[..n] !in d.contents
  }

  predicate IsDir(d: Disk, p: Path) {
    p in d.existing && p !in d.contents
  }

  /** The directory itself and all its ancestors below the root. */
  function Prefixes(dir: Path): (r: set<Path>)
    ensures forall q :: q in r ==> |q| <= |dir|
  {
    set n | 0 < n <= |dir| :: dir[..n]
  }

  /** Some ancestor of `dir`, or `dir` itself, is a file. */
  predicate Blocked(d: Disk, dir: Path) {
    exists n :: 0 < n <= |dir| && dir[..n] in d.contents
  }

  /**
   * `os.makedirs(dir, exist_ok=True)`: raises when a file stands at `dir` or above it;
   * otherwise `dir` and its ancestors are directories afterwards.
   */
  function AfterMakeDirs(d: Disk, dir: Path): Option<Disk> {
    if Blocked(d, dir) then None else Some(Disk(d.existing + Prefixes(dir), d.contents))
  }

  /** `open(p, 'w')` succeeds when `p` is not a directory and its parent directory exists. */
  predicate CanWrite(d: Disk, p: Path) {
    |p| > 0 && !IsDir(d, p) && (|p| == 1 || IsDir(d, p[..|p| - 1]))
  }

  /** The disk after writing `text` to the file `p`. */
  function AfterWrite(d: Disk, p: Path, text: string): Disk {
    Disk(d.existing + {p}, d.contents[p := text])
  }

  /** Creating the directories keeps the disk consistent, leaves files alone and makes `dir` a directory. */
  lemma MakeDirsValid(d: Disk, dir: Path)
    requires DiskValid(d) && !Blocked(d, dir)
    ensures DiskValid(AfterMakeDirs(d, dir).value)
    ensures AfterMakeDirs(d, dir).value.contents == d.contents
    ensures d.existing <= AfterMakeDirs(d, dir).value.existing
    ensures dir != [] ==> IsDir(AfterMakeDirs(d, dir).value, dir)
  {
    var e := AfterMakeDirs(d, dir).value;
    forall p, n | p in e.existing && 0 < n < |p| ensures p[..n] in e.existing && p[..n] !in e.contents {
      if p !in d.existing {
        var m :| 0 < m <= |dir| && p == dir[..m];
        assert p[..n] == dir[..n];
      }
    }
    if dir != [] {
      assert dir == dir[..|dir|];
    }
  }

  /** Writing a file the parent of which is a directory keeps the disk consistent. */
  lemma WriteValid(d: Disk, p: Path, text: string)
    requires DiskValid(d) && CanWrite(d, p)
    ensures DiskValid(AfterWrite(d, p, text))
  {
    var e := AfterWrite(d, p, text);
    forall q, n | q in e.existing && 0 < n < |q| ensures q[..n] in e.existing && q[..n] !in e.contents {
      if q == p {
        if n < |p| - 1 {
          assert q[..n] == p[..|p| - 1][..n];
        }
      } else {
        assert q in d.existing;
        assert q[..n] in d.existing && q[..n] !in d.contents;
      }
    }
  }

  class FileSystem {
    var existing: set<Path>
    var contents: map<Path, string>

    function Model(): Disk
      reads this
    {
      Disk(existing, contents)
    }

    ghost predicate Valid()
      reads this
    {
      DiskValid(Model())
    }

    constructor (d: Disk)
      requires DiskValid(d)
      ensures Valid() && Model() == d
    {
      existing := d.existing;
      contents := d.contents;
    }

    /** `os.makedirs(dir, exist_ok=True)`; `ok` is false when it raises. */
    method MakeDirs(dir: Path) returns (ok: bool)
      requires Valid()
      modifies this
      ensures Valid()
      ensures ok == AfterMakeDirs(old(Model()), dir).Some?
      ensures Model() == if ok then AfterMakeDirs(old(Model()), dir).value else old(Model())
    {
      ok := !Blocked(Model(), dir);
      if ok {
        MakeDirsValid(Model(), dir);
        existing := existing + Prefixes(dir);
      }
    }

    /**
     * The collision loop: probe `stem.md`, `stem_1.md`, `stem_2.md`, ... in `dir` until one does
     * not exist. It ends because the names are pairwise distinct and only finitely many paths exist;
     * the result is the first free candidate.
     */
    method FreeName(dir: Path, stem: string) returns (path: Path, k: nat)
      ensures path == Candidate(dir, stem, k) && path !in existing
      ensures forall j :: 0 <= j < k ==> Candidate(dir, stem, j) in existing
      ensures k == FreeIndex(existing, dir, stem, 0)
    {
      path := Candidate(dir, stem, 0);
      var counter := 1;
      while path in existing
        invariant 1 <= counter && path == Candidate(dir, stem, counter - 1)
        invariant forall j :: 0 <= j < counter - 1 ==> Candidate(dir, stem, j) in existing
        decreases |existing| - counter + 1
      {
        CandidatesBound(existing, dir, stem, counter);
        path := Candidate(dir, stem, counter);
        counter := counter + 1;
      }
      k := counter - 1;
    }

    /** `open(p, 'w').write(text)`; `ok` is false when opening raises. */
    method Write(p: Path, text: string) returns (ok: bool)
      requires Valid()
      modifies this
      ensures Valid()
      ensures ok == CanWrite(old(Model()), p)
      ensures Model() == if ok then AfterWrite(old(Model()), p, text) else old(Model())
    {
      ok := CanWrite(Model(), p);
      if ok {
        WriteValid(Model(), p, text);
        existing := existing + {p};
        contents := contents[p := text];
      }
    }
  }
}
