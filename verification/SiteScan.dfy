/**
 The export of nginx sites: configuration blocks are sorted by domain, and the HTTP and HTTPS
 blocks of one domain are merged.
 */
module SiteScan {
  import opened Text
  import Releases

  datatype Site = Site(domain: string, ssl: bool, details: string)

  // ---- sort_by, which is stable ------------------------------------------------------------

  function Insert(x: Site, s: seq<Site>): seq<Site> {
    if s == [] || !Releases.Less(s[0].domain, x.domain) then [x] + s else [s[0]] + Insert(x, s[1..])
  }

  function SortByDomain(s: seq<Site>): seq<Site> {
    if s == [] then [] else Insert(s[0], SortByDomain(s[1..]))
  }

  // ---- dedup_by with the export's closure -----------------------------------------------------

  /** Each site goes into the entry before it, if that has its domain: only its SSL flag is kept. */
  function Collapse(entry: Site, rest: seq<Site>): seq<Site>
    decreases |rest|
  {
    if rest == [] then [entry]
    else if rest[0].domain == entry.domain then Collapse(entry.(ssl := entry.ssl || rest[0].ssl), rest[1..])
    else [entry] + Collapse(rest[0], rest[1..])
  }

  function Dedup(s: seq<Site>): seq<Site> {
    if s == [] then [] else Collapse(s[0], s[1..])
  }

  method MergeSites(scanned: seq<Site>) returns (sites: seq<Site>)
    ensures sites == Dedup(SortByDomain(scanned))
  {
    var sorted := SortByDomain(scanned);
    if sorted == [] {
      return [];
    }
    sites := [sorted[0]];
    for i := 1 to |sorted|
      invariant sites != []
      invariant Dedup(sorted) == sites[..|sites| - 1] + Collapse(sites[|sites| - 1], sorted[i..])
    {
      var a, b := sorted[i], sites[|sites| - 1];
      assert sorted[i..][1..] == sorted[i + 1..];
      if a.domain == b.domain {
        if a.ssl {
          sites := sites[|sites| - 1 := b.(ssl := true)];
        }
      } else {
        assert sites == sites[..|sites| - 1] + [b];
        sites := sites + [a];
      }
    }
    assert sites == sites[..|sites| - 1] + [sites[|sites| - 1]];
  }

  // ---- What is exported for a domain ------------------------------------------------------------

  predicate AnySsl(s: seq<Site>, domain: string) {
    s != [] && ((s[0].domain == domain && s[0].ssl) || AnySsl(s[1..], domain))
  }

  /** The first site scanned for a domain, with SSL if any site of that domain has it. */
  function EntryOf(s: seq<Site>, domain: string): Option<Site> {
    if s == [] then None
    else if s[0].domain == domain then Some(s[0].(ssl := s[0].ssl || AnySsl(s[1..], domain)))
    else EntryOf(s[1..], domain)
  }

  lemma AnySslCons(x: Site, s: seq<Site>, domain: string)
    ensures AnySsl([x] + s, domain) <==> (x.domain == domain && x.ssl) || AnySsl(s, domain)
    ensures EntryOf([x] + s, domain) ==
              if x.domain == domain then Some(x.(ssl := x.ssl || AnySsl(s, domain))) else EntryOf(s, domain)
  {
    assert ([x] + s)[1..] == s;
  }

  predicate Ascending(s: seq<Site>) {
    forall i, j | 0 <= i < j < |s| :: !Releases.Less(s[j].domain, s[i].domain)
  }

  predicate StrictlyAscending(s: seq<Site>) {
    forall i, j | 0 <= i < j < |s| :: Releases.Less(s[i].domain, s[j].domain)
  }

  /** Inserting before the sites of the same domain changes no entry. */
  lemma {:induction false} InsertEntries(x: Site, s: seq<Site>, domain: string)
    ensures AnySsl(Insert(x, s), domain) <==> AnySsl([x] + s, domain)
    ensures EntryOf(Insert(x, s), domain) == EntryOf([x] + s, domain)
  {
    if s != [] && Releases.Less(s[0].domain, x.domain) {
      var y, t := s[0], s[1..];
      assert s == [y] + t;
      InsertEntries(x, t, domain);
      Releases.LessTotal(y.domain, x.domain);
      hide Releases.Less, AnySsl, EntryOf;
      AnySslCons(y, Insert(x, t), domain);
      AnySslCons(x, t, domain);
      AnySslCons(x, s, domain);
      AnySslCons(y, t, domain);
    }
  }

  lemma {:induction false} SortEntries(s: seq<Site>, domain: string)
    ensures AnySsl(SortByDomain(s), domain) <==> AnySsl(s, domain)
    ensures EntryOf(SortByDomain(s), domain) == EntryOf(s, domain)
  {
    if s == [] {
    } else {
      SortEntries(s[1..], domain);
      InsertEntries(s[0], SortByDomain(s[1..]), domain);
      hide AnySsl, EntryOf, Insert;
      AnySslCons(s[0], SortByDomain(s[1..]), domain);
      AnySslCons(s[0], s[1..], domain);
      assert s == [s[0]] + s[1..];
    }
  }

  lemma {:induction false} InsertMembers(x: Site, s: seq<Site>)
    ensures forall y :: y in Insert(x, s) <==> y == x || y in s
  {
    hide Releases.Less;
    if s != [] && Releases.Less(s[0].domain, x.domain) {
      InsertMembers(x, s[1..]);
      assert s == [s[0]] + s[1..];
    }
  }

  /** A site goes in front of an ascending list if no site in it is less. */
  predicate Bounds(x: Site, s: seq<Site>) {
    forall y <- s :: !Releases.Less(y.domain, x.domain)
  }

  lemma AscendingCons(x: Site, s: seq<Site>)
    ensures Ascending([x] + s) <==> Bounds(x, s) && Ascending(s)
  {
    hide Releases.Less;
    var r := [x] + s;
    assert forall i | 0 <= i < |s| :: r[i + 1] == s[i];
    if Ascending(r) {
      forall i, j | 0 <= i < j < |s|
        ensures !Releases.Less(s[j].domain, s[i].domain)
      {
        assert !Releases.Less(r[j + 1].domain, r[i + 1].domain);
      }
      forall y | y in s
        ensures !Releases.Less(y.domain, x.domain)
      {
        var j :| 0 <= j < |s| && s[j] == y;
        assert !Releases.Less(r[j + 1].domain, r[0].domain);
      }
    }
  }

  lemma NotLessTransitive(a: Site, b: Site, c: Site)
    requires !Releases.Less(b.domain, a.domain) && !Releases.Less(c.domain, b.domain)
    ensures !Releases.Less(c.domain, a.domain)
  {
    Releases.LessTotal(a.domain, b.domain);
    Releases.LessTotal(b.domain, c.domain);
    Releases.LessTotal(a.domain, c.domain);
    if Releases.Less(a.domain, b.domain) && Releases.Less(b.domain, c.domain) {
      Releases.LessTransitive(a.domain, b.domain, c.domain);
    }
    hide Releases.Less;
  }

  lemma {:induction false} InsertAscends(x: Site, s: seq<Site>)
    requires Ascending(s)
    ensures Ascending(Insert(x, s))
  {
    if s == [] {
      AscendingCons(x, s);
    } else {
      var y, t := s[0], s[1..];
      assert s == [y] + t;
      AscendingCons(y, t);
      if Releases.Less(y.domain, x.domain) {
        InsertAscends(x, t);
        InsertMembers(x, t);
        Releases.LessTotal(y.domain, x.domain);
        AscendingCons(y, Insert(x, t));
      } else {
        forall z | z in s
          ensures !Releases.Less(z.domain, x.domain)
        {
          if z != y {
            NotLessTransitive(x, y, z);
          }
        }
        AscendingCons(x, s);
      }
    }
  }

  lemma {:induction false} SortAscends(s: seq<Site>)
    ensures Ascending(SortByDomain(s))
  {
    if s == [] {
    } else {
      SortAscends(s[1..]);
      InsertAscends(s[0], SortByDomain(s[1..]));
    }
  }

  // ---- The merged list ------------------------------------------------------------------------------

  predicate Above(domain: string, s: seq<Site>) {
    forall y <- s :: Releases.Less(domain, y.domain)
  }

  lemma {:induction false} NothingBelow(domain: string, s: seq<Site>)
    requires Above(domain, s)
    ensures !AnySsl(s, domain) && EntryOf(s, domain) == None
  {
    if s == [] {
    } else {
      assert s[0] in s && forall y <- s[1..] :: y in s;
      Releases.LessTotal(domain, s[0].domain);
      NothingBelow(domain, s[1..]);
    }
  }

  lemma StrictCons(x: Site, s: seq<Site>)
    requires Above(x.domain, s) && StrictlyAscending(s)
    ensures StrictlyAscending([x] + s)
  {
    hide Releases.Less;
    var r := [x] + s;
    forall i, j | 0 <= i < j < |r|
      ensures Releases.Less(r[i].domain, r[j].domain)
    {
      if i == 0 {
        assert r[j] in s;
      } else {
        assert r[i] == s[i - 1] && r[j] == s[j - 1];
      }
    }
  }

  /** The merged list: strictly ascending, not below the first site, holding exactly the entries. */
  ghost predicate Merged(out: seq<Site>, s: seq<Site>) {
    StrictlyAscending(out) && forall x :: x in out <==> EntryOf(s, x.domain) == Some(x)
  }

  lemma CollapseSame(entry: Site, rest: seq<Site>, domain: string)
    requires rest != [] && rest[0].domain == entry.domain
    ensures EntryOf([entry] + rest, domain) == EntryOf([entry.(ssl := entry.ssl || rest[0].ssl)] + rest[1..], domain)
  {
    hide AnySsl, EntryOf;
    AnySslCons(entry, rest, domain);
    AnySslCons(entry.(ssl := entry.ssl || rest[0].ssl), rest[1..], domain);
    AnySslCons(rest[0], rest[1..], domain);
    assert rest == [rest[0]] + rest[1..];
  }

  lemma EntryDomain(s: seq<Site>, domain: string)
    ensures EntryOf(s, domain).Some? ==> EntryOf(s, domain).value.domain == domain && domain in Domains(s)
  {
  }

  function Domains(s: seq<Site>): set<string> {
    set y | y in s :: y.domain
  }

  /** An entry in front of greater ones. */
  lemma CollapseNew(entry: Site, rest: seq<Site>, out: seq<Site>)
    requires Above(entry.domain, rest) && Merged(out, rest)
    ensures Merged([entry] + out, [entry] + rest)
  {
    NothingBelow(entry.domain, rest);
    forall x | x in out
      ensures Releases.Less(entry.domain, x.domain)
    {
      EntryDomain(rest, x.domain);
    }
    StrictCons(entry, out);
    hide AnySsl, EntryOf, StrictlyAscending, Releases.Less;
    forall x
      ensures x in [entry] + out <==> EntryOf([entry] + rest, x.domain) == Some(x)
    {
      AnySslCons(entry, rest, x.domain);
    }
  }

  lemma AboveNext(entry: Site, rest: seq<Site>)
    requires rest != [] && Ascending([entry] + rest) && rest[0].domain != entry.domain
    ensures Above(entry.domain, rest)
  {
    AscendingCons(entry, rest);
    assert rest == [rest[0]] + rest[1..];
    AscendingCons(rest[0], rest[1..]);
    forall y | y in rest
      ensures Releases.Less(entry.domain, y.domain)
    {
      Releases.LessTotal(entry.domain, rest[0].domain);
      Releases.LessTotal(entry.domain, y.domain);
      Releases.LessTotal(rest[0].domain, y.domain);
      assert y == rest[0] || y in rest[1..];
    }
  }

  lemma {:induction false} CollapseMerges(entry: Site, rest: seq<Site>)
    requires Ascending([entry] + rest)
    ensures Merged(Collapse(entry, rest), [entry] + rest)
    decreases |rest|
  {
    if rest == [] {
      NothingMerged();
      CollapseNew(entry, [], []);
      assert [entry] + [] == [entry];
    } else {
      assert rest == [rest[0]] + rest[1..];
      AscendingCons(entry, rest);
      AscendingCons(rest[0], rest[1..]);
      if rest[0].domain == entry.domain {
        var next := entry.(ssl := entry.ssl || rest[0].ssl);
        AscendingCons(next, rest[1..]);
        CollapseMerges(next, rest[1..]);
        forall domain
          ensures EntryOf([entry] + rest, domain) == EntryOf([next] + rest[1..], domain)
        {
          CollapseSame(entry, rest, domain);
        }
        hide EntryOf, StrictlyAscending, Ascending;
      } else {
        CollapseMerges(rest[0], rest[1..]);
        AboveNext(entry, rest);
        CollapseNew(entry, rest, Collapse(rest[0], rest[1..]));
      }
    }
  }

  lemma NothingMerged()
    ensures Merged([], [])
  {
  }

  /**
   The exported sites are strictly ascending by domain, so no domain appears twice, and they are
   exactly these: for each domain scanned its first block, marked SSL if any of its blocks is.
   */
  lemma MergeExactly(scanned: seq<Site>)
    ensures Merged(Dedup(SortByDomain(scanned)), scanned)
  {
    var sorted := SortByDomain(scanned);
    SortAscends(scanned);
    forall domain
      ensures EntryOf(sorted, domain) == EntryOf(scanned, domain)
    {
      SortEntries(scanned, domain);
    }
    if sorted == [] {
      NothingMerged();
    } else {
      assert sorted == [sorted[0]] + sorted[1..];
      CollapseMerges(sorted[0], sorted[1..]);
    }
    hide EntryOf, StrictlyAscending, SortByDomain, Collapse;
  }
}
