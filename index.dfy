/**
 * The `index.md` that `batch_save` writes into the base directory: a heading, then one section per
 * netloc of the saved pages, in the order the netlocs first appear, listing each saved page.
 */
module Index {
  import opened Wrappers
  import opened Text
  import opened OrderedMaps
  import opened Urls
  import opened Paths
  import opened Documents
  import opened Outcomes

  const Header := "# Crawled Content Index\n\n"

  /** The netloc of every saved outcome, in order, repeats included. */
  function SavedNetlocs(os: seq<Outcome>): (r: seq<string>)
    ensures |r| == CountSaved(os)
  {
    if os == [] then []
    else
      var o := os[|os| - 1];
      SavedNetlocs(os[..|os| - 1]) + if o.Saved? then [Netloc(o.url)] else []
  }

  /** The keys of `by_domain`: the netlocs of the saved outcomes, each once, in first-seen order. */
  function Domains(os: seq<Outcome>): seq<string> {
    FirstSeen(SavedNetlocs(os))
  }

  /** `by_domain[domain]`: the saved outcomes of that netloc, in the order of the results. */
  function Group(os: seq<Outcome>, domain: string): (g: seq<Outcome>)
    ensures forall k :: 0 <= k < |g| ==> g[k].Saved? && Netloc(g[k].url) == domain
  {
    if os == [] then []
    else
      var o := os[|os| - 1];
      Group(os[..|os| - 1], domain) + if o.Saved? && Netloc(o.url) == domain then [o] else []
  }

  /** `os.path.relpath(path, base)` for a path below `base`. */
  function RelPath(path: Path, base: Path): Path {
    if |base| <= |path| && path[..|base|] == base then path[|base|..] else path
  }

  /** `- [title](relative_path)` */
  function Entry(o: Outcome, base: Path): string
    requires o.Saved?
  {
    "- [" + Show(o.title) + "](" + Join(RelPath(o.path, base), '/') + ")\n"
  }

  function Entries(g: seq<Outcome>, base: Path): string
    requires forall k :: 0 <= k < |g| ==> g[k].Saved?
  {
    if g == [] then "" else Entries(g[..|g| - 1], base) + Entry(g[|g| - 1], base)
  }

  function SectionHead(domain: string): string {
    "\n## " + domain + "\n\n"
  }

  /** The sections of `domains`, one after another. */
  function Sections(os: seq<Outcome>, domains: seq<string>, base: Path): string {
    if domains == [] then ""
    else
      var d := domains[|domains| - 1];
      Sections(os, domains[..|domains| - 1], base) + SectionHead(d) + Entries(Group(os, d), base)
  }

  function RenderIndex(os: seq<Outcome>, base: Path): string {
    Header + Sections(os, Domains(os), base)
  }

  /** `by_domain` holds, for the results `os`, each netloc's saved results under its first-seen key. */
  ghost predicate GroupsOf(os: seq<Outcome>, byDomain: OrderedMap<seq<Outcome>>) {
    && Valid(byDomain) && byDomain.keys == Domains(os)
    && forall d :: Group(os, d) == if d in byDomain.values then byDomain.values[d] else []
  }

  /**
   * The grouping loop: `by_domain[netloc].append(result)` for each saved result, in an
   * insertion-ordered dictionary of lists.
   */
  method GroupByDomain(os: seq<Outcome>) returns (byDomain: OrderedMap<seq<Outcome>>)
    ensures GroupsOf(os, byDomain)
  {
    byDomain := Empty();
    for i := 0 to |os|
      invariant GroupsOf(os[..i], byDomain)
    {
      var o := os[i];
      assert os[..i + 1] == os[..i] + [o];
      var before := byDomain;
      if o.Saved? {
        var domain := Netloc(o.url);
        var entries := if domain in byDomain.values then byDomain.values[domain] else [];
        byDomain := Put(byDomain, domain, entries + [o]);
      }
      GroupsOfAppend(os[..i], o, before, byDomain);
    }
    assert os[..|os|] == os;
  }

  /** One more result keeps the dictionary in step with the results. */
  lemma GroupsOfAppend(os: seq<Outcome>, o: Outcome, m: OrderedMap<seq<Outcome>>, m': OrderedMap<seq<Outcome>>)
    requires GroupsOf(os, m)
    requires !o.Saved? ==> m' == m
    requires o.Saved? ==>
      var n := Netloc(o.url);
      m' == Put(m, n, (if n in m.values then m.values[n] else []) + [o])
    ensures GroupsOf(os + [o], m')
  {
    AppendOutcome(os, o);
    if o.Saved? {
      GroupsOfSaved(os, o, m, m');
    }
  }

  lemma GroupsOfSaved(os: seq<Outcome>, o: Outcome, m: OrderedMap<seq<Outcome>>, m': OrderedMap<seq<Outcome>>)
    requires GroupsOf(os, m) && o.Saved?
    requires var n := Netloc(o.url); m' == Put(m, n, (if n in m.values then m.values[n] else []) + [o])
    requires forall d :: Group(os + [o], d) == Group(os, d) + if Netloc(o.url) == d then [o] else []
    ensures forall d :: Group(os + [o], d) == if d in m'.values then m'.values[d] else []
  {
    var n := Netloc(o.url);
    forall d ensures Group(os + [o], d) == if d in m'.values then m'.values[d] else [] {
      if d == n {
        assert Group(os, n) == if n in m.values then m.values[n] else [];
      } else {
        assert Group(os, d) == if d in m.values then m.values[d] else [];
      }
    }
  }

  /** How the keys and the groups change when one more result comes in. */
  lemma AppendOutcome(os: seq<Outcome>, o: Outcome)
    ensures !o.Saved? ==> Domains(os + [o]) == Domains(os)
    ensures o.Saved? && Netloc(o.url) in Domains(os) ==> Domains(os + [o]) == Domains(os)
    ensures o.Saved? && Netloc(o.url) !in Domains(os) ==> Domains(os + [o]) == Domains(os) + [Netloc(o.url)]
    ensures forall d :: Group(os + [o], d) == Group(os, d) + if o.Saved? && Netloc(o.url) == d then [o] else []
  {
    var s := SavedNetlocs(os);
    assert (os + [o])[..|os|] == os;
    if o.Saved? {
      assert SavedNetlocs(os + [o]) == s + [Netloc(o.url)];
      assert (s + [Netloc(o.url)])[..|s|] == s;
    } else {
      assert SavedNetlocs(os + [o]) == s;
    }
  }

  lemma SectionsStep(os: seq<Outcome>, keys: seq<string>, j: nat, base: Path)
    requires j < |keys|
    ensures Sections(os, keys[..j + 1], base)
         == Sections(os, keys[..j], base) + SectionHead(keys[j]) + Entries(Group(os, keys[j]), base)
  {
    assert keys[..j + 1][..j] == keys[..j];
  }

  lemma Regroup(a: string, b: string, c: string, d: string)
    ensures a + b + c + d == a + (b + c + d)
  {
  }

  lemma AppendEntry(text: string, r: string, entries: seq<Outcome>, e: nat, base: Path)
    requires e < |entries| && forall k :: 0 <= k < |entries| ==> entries[k].Saved?
    requires r == text + Entries(entries[..e], base)
    ensures r + Entry(entries[e], base) == text + Entries(entries[..e + 1], base)
  {
    assert entries[..e + 1][..e] == entries[..e];
  }

  /** The inner rendering loop: one entry line per saved result of a netloc. */
  method AppendEntries(text: string, entries: seq<Outcome>, base: Path) returns (r: string)
    requires forall k :: 0 <= k < |entries| ==> entries[k].Saved?
    ensures r == text + Entries(entries, base)
  {
    r := text;
    for e := 0 to |entries|
      invariant r == text + Entries(entries[..e], base)
    {
      AppendEntry(text, r, entries, e, base);
      r := r + Entry(entries[e], base);
    }
    assert entries[..|entries|] == entries;
  }

  /** The rendering loop: the heading, then per netloc its section head and its entries. */
  method BuildIndex(os: seq<Outcome>, base: Path) returns (text: string)
    ensures text == RenderIndex(os, base)
  {
    var byDomain := GroupByDomain(os);
    text := Header;
    var keys := byDomain.keys;
    for j := 0 to |keys|
      invariant text == Header + Sections(os, keys[..j], base)
    {
      var domain := keys[j];
      var entries := byDomain.values[domain];
      assert entries == Group(os, domain);
      var done := Sections(os, keys[..j], base);
      text := AppendEntries(text + SectionHead(domain), entries, base);
      SectionsStep(os, keys, j, base);
      Regroup(Header, done, SectionHead(domain), Entries(entries, base));
    }
    assert keys[..|keys|] == keys;
  }

  /** Every saved outcome's netloc is among the saved netlocs. */
  lemma {:induction false} SavedNetlocOf(os: seq<Outcome>, i: nat)
    requires i < |os| && os[i].Saved?
    ensures Netloc(os[i].url) in SavedNetlocs(os)
  {
    var init := os[..|os| - 1];
    if i < |init| {
      SavedNetlocOf(init, i);
      assert init[i] == os[i];
    }
  }

  /** Every saved netloc comes from a saved outcome. */
  lemma {:induction false} SavedNetlocSource(os: seq<Outcome>, d: string) returns (i: nat)
    requires d in SavedNetlocs(os)
    ensures i < |os| && os[i].Saved? && Netloc(os[i].url) == d
  {
    var init, last := os[..|os| - 1], os[|os| - 1];
    if d in SavedNetlocs(init) {
      i := SavedNetlocSource(init, d);
      assert init[i] == os[i];
    } else {
      i := |os| - 1;
    }
  }

  lemma SavedNetlocsMembers(os: seq<Outcome>, d: string)
    ensures d in SavedNetlocs(os) <==> exists i :: 0 <= i < |os| && os[i].Saved? && Netloc(os[i].url) == d
  {
    if d in SavedNetlocs(os) {
      var i := SavedNetlocSource(os, d);
    }
    if exists i :: 0 <= i < |os| && os[i].Saved? && Netloc(os[i].url) == d {
      var i :| 0 <= i < |os| && os[i].Saved? && Netloc(os[i].url) == d;
      SavedNetlocOf(os, i);
    }
  }

  /** A netloc has a section exactly when some page of it was saved. */
  lemma DomainsMembers(os: seq<Outcome>, d: string)
    ensures d in Domains(os) <==> exists i :: 0 <= i < |os| && os[i].Saved? && Netloc(os[i].url) == d
  {
    SavedNetlocsMembers(os, d);
  }

  /** A section lists exactly the saved outcomes of its netloc. */
  lemma {:induction false} GroupMembers(os: seq<Outcome>, d: string, o: Outcome)
    ensures o in Group(os, d) <==> o in os && o.Saved? && Netloc(o.url) == d
  {
    if os != [] {
      var init, last := os[..|os| - 1], os[|os| - 1];
      GroupMembers(init, d, o);
      assert os == init + [last];
      GroupAppend(init, last, d);
      assert o in os <==> o in init || o == last;
    }
  }

  /** The number of entries listed under `domains`. */
  ghost function ListedCount(os: seq<Outcome>, domains: seq<string>): nat {
    if domains == [] then 0
    else ListedCount(os, domains[..|domains| - 1]) + |Group(os, domains[|domains| - 1])|
  }

  lemma GroupAppend(os: seq<Outcome>, o: Outcome, d: string)
    ensures Group(os + [o], d) == Group(os, d) + if o.Saved? && Netloc(o.url) == d then [o] else []
  {
    assert (os + [o])[..|os|] == os;
  }

  lemma {:induction false} ListedCountAppend(os: seq<Outcome>, o: Outcome, domains: seq<string>)
    requires Distinct(domains) && o.Saved?
    ensures ListedCount(os + [o], domains)
         == ListedCount(os, domains) + if Netloc(o.url) in domains then 1 else 0
  {
    if domains != [] {
      var init, last := domains[..|domains| - 1], domains[|domains| - 1];
      var x := Netloc(o.url);
      assert domains == init + [last];
      assert Distinct(init) by {
        forall i, j | 0 <= i < j < |init| ensures init[i] != init[j] {
          assert init[i] == domains[i] && init[j] == domains[j];
        }
      }
      ListedCountAppend(os, o, init);
      GroupAppend(os, o, last);
      assert x in domains <==> x in init || x == last;
      if x == last {
        assert x !in init by {
          forall k | 0 <= k < |init| ensures init[k] != last {
            assert domains[k] == init[k];
          }
        }
      }
    }
  }

  lemma {:induction false} ListedCountSame(os: seq<Outcome>, o: Outcome, domains: seq<string>)
    requires o.Failed?
    ensures ListedCount(os + [o], domains) == ListedCount(os, domains)
  {
    if domains != [] {
      assert (os + [o])[..|os|] == os;
      ListedCountSame(os, o, domains[..|domains| - 1]);
    }
  }

  /** Every saved page is listed in the index exactly once: the sections' entries add up to the saves. */
  lemma {:induction false} IndexListsEverySave(os: seq<Outcome>)
    ensures ListedCount(os, Domains(os)) == CountSaved(os)
  {
    if os != [] {
      var init, o := os[..|os| - 1], os[|os| - 1];
      assert os == init + [o];
      IndexListsEverySave(init);
      if o.Failed? {
        assert SavedNetlocs(os) == SavedNetlocs(init);
        ListedCountSame(init, o, Domains(init));
      } else {
        var n := Netloc(o.url);
        var s := SavedNetlocs(init);
        assert SavedNetlocs(os) == s + [n];
        assert (s + [n])[..|s|] == s;
        ListedCountAppend(init, o, Domains(os));
        if n !in Domains(init) {
          assert Domains(os) == Domains(init) + [n];
          assert Domains(os)[..|Domains(os)| - 1] == Domains(init);
          assert Group(init, n) == [] by {
            if Group(init, n) != [] {
              GroupMembers(init, n, Group(init, n)[0]);
              SavedNetlocsMembers(init, n);
            }
          }
        }
      }
    }
  }

  /** With nothing saved, the index is the heading alone. */
  lemma EmptyIndex(os: seq<Outcome>, base: Path)
    requires CountSaved(os) == 0
    ensures RenderIndex(os, base) == Header
  {
    assert SavedNetlocs(os) == [];
  }
}
