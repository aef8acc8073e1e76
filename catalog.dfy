/**
 * The read helpers over the faculty and publications collections of the document store
 * (mongodb_utils.py:8-21, 41-42). A collection is a sequence in the store's natural order.
 */
module Catalog {
  import opened Wrappers
  import opened Seqs
  import opened StringOrder

  /** A faculty document: its id, name, `affiliation.name` and publication ids. */
  datatype FacultyRecord = FacultyRecord(id: int, name: string, affiliation: string, publications: seq<int>)

  datatype Publication = Publication(id: int, title: string, numCitations: int)

  // ---------------------------------------------------------------------------------------
  // get_all_universities (mongodb_utils.py:8-9)

  function Affiliations(fs: seq<FacultyRecord>): (r: seq<string>)
    ensures forall u :: u in r <==> exists f :: f in fs && f.affiliation == u
  {
    if fs == [] then []
    else
      var r := [fs[0].affiliation] + Affiliations(fs[1..]);
      assert forall f :: f in fs <==> f == fs[0] || f in fs[1..];
      r
  }

  /** `sorted(distinct("affiliation.name"))`: every university once, in ascending order. */
  function AllUniversities(fs: seq<FacultyRecord>): (r: seq<string>)
    ensures StrictlySorted(r)
    ensures forall u :: u in r <==> exists f :: f in fs && f.affiliation == u
  {
    SortDistinct(Affiliations(fs))
  }

  // ---------------------------------------------------------------------------------------
  // get_faculty_by_university (mongodb_utils.py:11-12)

  /** `find({"affiliation.name": university})`, in collection order. */
  function FacultyByUniversity(fs: seq<FacultyRecord>, university: string): (r: seq<FacultyRecord>)
    ensures forall f :: f in r <==> f in fs && f.affiliation == university
    ensures forall f: FacultyRecord :: multiset(r)[f] == if f.affiliation == university then multiset(fs)[f] else 0
    ensures IsSubsequence(r, fs)
  {
    if fs == [] then []
    else
      assert fs == [fs[0]] + fs[1..];
      if fs[0].affiliation == university then [fs[0]] + FacultyByUniversity(fs[1..], university)
      else FacultyByUniversity(fs[1..], university)
  }

  // ---------------------------------------------------------------------------------------
  // get_all_faculty_names (mongodb_utils.py:14-15)

  function Names(fs: seq<FacultyRecord>): (r: seq<string>)
    ensures |r| == |fs|
    ensures forall i :: 0 <= i < |fs| ==> r[i] == fs[i].name
    ensures forall n :: n in r <==> exists f :: f in fs && f.name == n
  {
    if fs == [] then []
    else
      var r := [fs[0].name] + Names(fs[1..]);
      assert forall f :: f in fs <==> f == fs[0] || f in fs[1..];
      r
  }

  /** `sorted` of every faculty name, duplicates kept. */
  function AllFacultyNames(fs: seq<FacultyRecord>): (r: seq<string>)
    ensures Sorted(r)
    ensures |r| == |fs|
    ensures multiset(r) == multiset(Names(fs))
    ensures forall n :: n in r <==> exists f :: f in fs && f.name == n
  {
    var names := Names(fs);
    var r := Sort(names);
    assert |r| == |multiset(r)| == |multiset(names)| == |names|;
    MultisetMembers(r, names);
    r
  }

  // ---------------------------------------------------------------------------------------
  // get_faculty_by_name and get_faculty_by_id (mongodb_utils.py:17-18, 41-42)

  /** The equality filters the two single-document lookups use. */
  datatype Filter = NameIs(name: string) | IdIs(id: int)

  predicate Satisfies(f: FacultyRecord, q: Filter)
  {
    match q
    case NameIs(n) => f.name == n
    case IdIs(i) => f.id == i
  }

  /** `find_one(filter)`: the first document in collection order that matches, or nothing. */
  function FindOne(fs: seq<FacultyRecord>, q: Filter): (r: Option<FacultyRecord>)
    ensures r.None? <==> forall f :: f in fs ==> !Satisfies(f, q)
    ensures r.Some? ==> exists i :: FirstMatch(fs, q, i) && fs[i] == r.value
  {
    if fs == [] then None
    else if Satisfies(fs[0], q) then Some(fs[0])
    else
      var r := FindOne(fs[1..], q);
      assert forall f :: f in fs <==> f == fs[0] || f in fs[1..];
      FirstInTail(fs, q, r);
      r
  }

  /** A first match of the tail, behind a head that does not match, is the first match of the whole sequence. */
  lemma FirstInTail(fs: seq<FacultyRecord>, q: Filter, r: Option<FacultyRecord>)
    requires fs != [] && !Satisfies(fs[0], q)
    requires r.Some? ==> exists i :: FirstMatch(fs[1..], q, i) && fs[1..][i] == r.value
    ensures r.Some? ==> exists i :: FirstMatch(fs, q, i) && fs[i] == r.value
  {
    if r.Some? {
      var i :| FirstMatch(fs[1..], q, i) && fs[1..][i] == r.value;
      assert fs[i + 1] == r.value;
      assert forall j :: 1 <= j < i + 1 ==> fs[j] == fs[1..][j - 1];
      assert FirstMatch(fs, q, i + 1);
    }
  }

  /** Position `i` holds the first document satisfying `q`. */
  predicate FirstMatch(fs: seq<FacultyRecord>, q: Filter, i: int)
  {
    0 <= i < |fs| && Satisfies(fs[i], q) && forall j :: 0 <= j < i ==> !Satisfies(fs[j], q)
  }

  function FacultyByName(fs: seq<FacultyRecord>, name: string): (r: Option<FacultyRecord>)
    ensures r.None? <==> forall f :: f in fs ==> f.name != name
    ensures r.Some? ==> r.value.name == name && exists i :: 0 <= i < |fs| && fs[i] == r.value && (forall j :: 0 <= j < i ==> fs[j].name != name)
  {
    FindOne(fs, NameIs(name))
  }

  function FacultyById(fs: seq<FacultyRecord>, id: int): (r: Option<FacultyRecord>)
    ensures r.None? <==> forall f :: f in fs ==> f.id != id
    ensures r.Some? ==> r.value.id == id && exists i :: 0 <= i < |fs| && fs[i] == r.value && (forall j :: 0 <= j < i ==> fs[j].id != id)
  {
    FindOne(fs, IdIs(id))
  }

  // ---------------------------------------------------------------------------------------
  // get_publications_by_ids (mongodb_utils.py:20-21)

  /** The limit `get_publications_by_ids` uses when its caller passes none. */
  const DefaultPublicationLimit := 5

  /** `find({"id": {"$in": ids}})`, in collection order. */
  function Selected(pubs: seq<Publication>, ids: seq<int>): (r: seq<Publication>)
    ensures forall p :: p in r <==> p in pubs && p.id in ids
    ensures forall p: Publication :: p.id in ids ==> multiset(r)[p] == multiset(pubs)[p]
    ensures IsSubsequence(r, pubs)
  {
    if pubs == [] then []
    else
      assert pubs == [pubs[0]] + pubs[1..];
      if pubs[0].id in ids then [pubs[0]] + Selected(pubs[1..], ids)
      else Selected(pubs[1..], ids)
  }

  /** Most cited first. */
  predicate ByCitationsDescending(s: seq<Publication>)
  {
    forall i, j :: 0 <= i < j < |s| ==> s[i].numCitations >= s[j].numCitations
  }

  function InsertByCitations(p: Publication, s: seq<Publication>): (r: seq<Publication>)
    requires ByCitationsDescending(s)
    ensures ByCitationsDescending(r)
    ensures multiset(r) == multiset(s) + multiset{p}
  {
    if s == [] then [p]
    else if p.numCitations >= s[0].numCitations then [p] + s
    else
      var rest := InsertByCitations(p, s[1..]);
      assert s == [s[0]] + s[1..];
      MostCitedHead(s[0], p, s[1..], rest);
      [s[0]] + rest
  }

  /** A head cited at least as often as `p` and as everything in `rest` stays first once `p` joins `rest`. */
  lemma MostCitedHead(h: Publication, p: Publication, rest: seq<Publication>, r: seq<Publication>)
    requires h.numCitations >= p.numCitations && ByCitationsDescending([h] + rest)
    requires ByCitationsDescending(r) && multiset(r) == multiset(rest) + multiset{p}
    ensures ByCitationsDescending([h] + r)
  {
    forall j | 0 <= j < |r| ensures h.numCitations >= r[j].numCitations {
      assert r[j] in multiset(r);
      if r[j] != p {
        assert r[j] in rest;
        var k :| 0 <= k < |rest| && rest[k] == r[j];
        assert ([h] + rest)[0] == h && ([h] + rest)[k + 1] == r[j];
      }
    }
    var t := [h] + r;
    assert forall i, j :: 0 < i < j < |t| ==> t[i] == r[i - 1] && t[j] == r[j - 1];
  }

  /** `sort("numCitations", -1)`; the order among equal counts is left to the store. */
  function SortByCitations(s: seq<Publication>): (r: seq<Publication>)
    ensures ByCitationsDescending(r)
    ensures multiset(r) == multiset(s)
  {
    if s == [] then []
    else
      assert s == [s[0]] + s[1..];
      InsertByCitations(s[0], SortByCitations(s[1..]))
  }

  /** How many documents `limit(limit)` lets through out of `n`: 0 means no limit, a negative limit counts as its absolute value. */
  function LimitCount(limit: int, n: nat): (r: nat)
    ensures r <= n
    ensures limit == 0 ==> r == n
    ensures limit != 0 ==> (r == n || r == if limit < 0 then -limit else limit)
    ensures limit != 0 ==> r <= (if limit < 0 then -limit else limit)
  {
    var bound := if limit < 0 then -limit else limit;
    if limit == 0 || n <= bound then n else bound
  }

  /** The publications among `ids`, most cited first, at most `limit` of them. */
  function PublicationsByIds(pubs: seq<Publication>, ids: seq<int>, limit: int := DefaultPublicationLimit): (r: seq<Publication>)
    ensures |r| == LimitCount(limit, |Selected(pubs, ids)|)
    ensures forall p :: p in r ==> p in pubs && p.id in ids
    ensures ByCitationsDescending(r)
    ensures multiset(r) <= multiset(Selected(pubs, ids))
  {
    var selected := Selected(pubs, ids);
    var sorted := SortByCitations(selected);
    assert |sorted| == |multiset(sorted)| == |selected|;
    var n := LimitCount(limit, |sorted|);
    TakeMostCited(sorted, n, selected);
    sorted[..n]
  }

  /** A prefix of a citation-ordered permutation of `selected` is ordered and drawn from `selected`. */
  lemma TakeMostCited(sorted: seq<Publication>, n: nat, selected: seq<Publication>)
    requires n <= |sorted| && ByCitationsDescending(sorted) && multiset(sorted) == multiset(selected)
    ensures ByCitationsDescending(sorted[..n])
    ensures multiset(sorted[..n]) <= multiset(selected)
    ensures forall p :: p in sorted[..n] ==> p in selected
  {
    assert sorted == sorted[..n] + sorted[n..];
    forall p | p in sorted[..n] ensures p in selected {
      assert p in multiset(sorted);
    }
  }

  /** Only the most cited are returned: a wanted publication left out is cited no more than any returned one. */
  lemma TopCited(pubs: seq<Publication>, ids: seq<int>, limit: int, p: Publication)
    requires p in pubs && p.id in ids
    requires p !in PublicationsByIds(pubs, ids, limit)
    ensures forall q :: q in PublicationsByIds(pubs, ids, limit) ==> q.numCitations >= p.numCitations
  {
    var selected := Selected(pubs, ids);
    var sorted := SortByCitations(selected);
    assert PublicationsByIds(pubs, ids, limit) == sorted[..LimitCount(limit, |sorted|)];
    assert p in multiset(selected);
    PrefixMostCited(sorted, LimitCount(limit, |sorted|), p);
  }

  /** In a citation-ordered sequence, an element outside a prefix is cited no more than anything in it. */
  lemma PrefixMostCited(sorted: seq<Publication>, n: nat, p: Publication)
    requires n <= |sorted| && ByCitationsDescending(sorted)
    requires p in sorted && p !in sorted[..n]
    ensures forall q :: q in sorted[..n] ==> q.numCitations >= p.numCitations
  {
    var k :| 0 <= k < |sorted| && sorted[k] == p;
    forall q | q in sorted[..n] ensures q.numCitations >= p.numCitations {
      var m :| 0 <= m < n && sorted[..n][m] == q;
      assert sorted[m] == q;
    }
  }

  /** When the limit does not bind, every wanted publication is returned. */
  lemma AllReturnedWithinLimit(pubs: seq<Publication>, ids: seq<int>, limit: int, p: Publication)
    requires limit == 0 || |Selected(pubs, ids)| <= (if limit < 0 then -limit else limit)
    requires p in pubs && p.id in ids
    ensures p in PublicationsByIds(pubs, ids, limit)
  {
    var sorted := SortByCitations(Selected(pubs, ids));
    assert PublicationsByIds(pubs, ids, limit) == sorted[..|sorted|];
    assert sorted[..|sorted|] == sorted;
    assert p in multiset(sorted);
  }
}
