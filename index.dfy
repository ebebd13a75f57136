/** The five read-only queries of the client library. Each is one `find` or
    `filter` over the collection; the collection itself is a parameter (the
    remote document that the library fetches once, or the empty sequence
    when the fetch or its JSON parse fails). */
module ProcessIndex {
  import opened Seqs
  import opened Text
  import opened ProcessTypes

  /** The base that a process's `@id` is formed from. */
  const IdBase: string := "https://process.org.ai/"

  // ---- get ----

  predicate MatchesCode(p: ProcessRecord, code: string) {
    p.code == code || p.atId == IdBase + code
  }

  /** `get(code)`: the first record with that code or with the `@id` formed
      from it; absent exactly when no record matches. */
  function Get(items: seq<ProcessRecord>, code: string): (r: Option<ProcessRecord>)
    ensures r.None? <==> forall i :: 0 <= i < |items| ==> !MatchesCode(items[i], code)
    ensures r.Some? ==> exists i :: 0 <= i < |items| && items[i] == r.value &&
                                   MatchesCode(items[i], code) &&
                                   forall j :: 0 <= j < i ==> !MatchesCode(items[j], code)
  {
    Find(items, (p: ProcessRecord) => MatchesCode(p, code))
  }

  // ---- search ----

  /** `name` or `description`, lower-cased, contains the (already lower-cased)
      query; a missing description never matches. */
  predicate MatchesQuery(p: ProcessRecord, q: string) {
    Includes(Lower(p.name), q) || (p.description.Some? && Includes(Lower(p.description.value), q))
  }

  /** `search(query)`: in their original order, exactly the records whose
      lower-cased name or description contains the lower-cased query. */
  function Search(items: seq<ProcessRecord>, query: string): (r: seq<ProcessRecord>)
    ensures IsSubseq(r, items)
    ensures forall p :: p in r <==> p in items && MatchesQuery(p, Lower(query))
    ensures forall p :: multiset(r)[p] == if MatchesQuery(p, Lower(query)) then multiset(items)[p] else 0
  {
    Filter(items, (p: ProcessRecord) => MatchesQuery(p, Lower(query)))
  }

  /** The query matters only through its lower-cased form. */
  lemma SearchCaseInsensitive(items: seq<ProcessRecord>, q1: string, q2: string)
    requires Lower(q1) == Lower(q2)
    ensures Search(items, q1) == Search(items, q2)
  {
    FilterCongruent(items, (p: ProcessRecord) => MatchesQuery(p, Lower(q1)), p => MatchesQuery(p, Lower(q2)));
  }

  lemma SearchUpperEqualsLower(items: seq<ProcessRecord>)
    ensures Search(items, "SALES") == Search(items, "sales")
  {
    assert Lower("SALES") == "sales";
    SearchCaseInsensitive(items, "SALES", "sales");
  }

  /** Every record has a name and every name contains the empty string, so
      the empty query returns the whole collection. */
  lemma SearchEmptyQuery(items: seq<ProcessRecord>)
    ensures Search(items, "") == items
  {
    assert Lower("") == "";
    forall i | 0 <= i < |items|
      ensures MatchesQuery(items[i], "")
    {
      IncludesEmpty(Lower(items[i].name));
    }
    FilterAll(items, (p: ProcessRecord) => MatchesQuery(p, Lower("")));
  }

  /** Any search returns a subsequence of the empty-query search. */
  lemma SearchWithinEmptyQuery(items: seq<ProcessRecord>, query: string)
    ensures IsSubseq(Search(items, query), Search(items, ""))
  {
    SearchEmptyQuery(items);
  }

  // ---- getByHierarchyId ----

  /** `getByHierarchyId(h)`: the first record whose hierarchy id is exactly
      `h`; absent exactly when none is. */
  function GetByHierarchyId(items: seq<ProcessRecord>, h: string): (r: Option<ProcessRecord>)
    ensures r.None? <==> forall i :: 0 <= i < |items| ==> items[i].hierarchyId != h
    ensures r.Some? ==> r.value.hierarchyId == h &&
                        exists i :: 0 <= i < |items| && items[i] == r.value &&
                                    forall j :: 0 <= j < i ==> items[j].hierarchyId != h
  {
    Find(items, (p: ProcessRecord) => p.hierarchyId == h)
  }

  // ---- getChildren ----

  /** The number of dot-separated segments, `h.split('.').length`. */
  function Depth(h: string): nat {
    |Split(h, '.')|
  }

  /** The test `getChildren` applies to a record's hierarchy id. */
  predicate IsChildId(id: string, h: string) {
    StartsWith(id, h + ".") && Depth(id) == Depth(h) + 1
  }

  /** Below the prefix `h.`, a direct child's id has no further dot. */
  predicate DirectChildId(id: string, h: string) {
    StartsWith(id, h + ".") && '.' !in id[|h| + 1..]
  }

  /** Segment counting is the same as "no dot after the prefix". */
  lemma ChildIdIffNoFurtherDot(id: string, h: string)
    ensures IsChildId(id, h) <==> DirectChildId(id, h)
  {
    if StartsWith(id, h + ".") {
      var t := id[|h| + 1..];
      assert id == h + ['.'] + t;
      SplitLength(id, '.');
      SplitLength(h, '.');
      CountAppend(h + ['.'], t, '.');
      CountAppend(h, ['.'], '.');
    }
  }

  /** `getChildren(h)`: in order, exactly the records one level below `h`. */
  function GetChildren(items: seq<ProcessRecord>, h: string): (r: seq<ProcessRecord>)
    ensures IsSubseq(r, items)
    ensures forall p :: p in r <==> p in items && DirectChildId(p.hierarchyId, h)
    ensures forall p :: multiset(r)[p] == if DirectChildId(p.hierarchyId, h) then multiset(items)[p] else 0
  {
    var r := Filter(items, (p: ProcessRecord) => IsChildId(p.hierarchyId, h));
    forall p: ProcessRecord
      ensures IsChildId(p.hierarchyId, h) <==> DirectChildId(p.hierarchyId, h)
    {
      ChildIdIffNoFurtherDot(p.hierarchyId, h);
    }
    r
  }

  /** A grandchild is not a child: "3.4.2.5" is not returned for "3.4". */
  lemma GrandchildExcluded()
    ensures !DirectChildId("3.4.2.5", "3.4")
  {
    assert "3.4.2.5"[4..] == "2.5" && "2.5"[1] == '.';
  }

  /** The dot boundary keeps "10.1" out of the children of "1". */
  lemma ChildPrefixBoundary()
    ensures !DirectChildId("10.1", "1")
  {
    assert "10.1"[..2][1] == '0';
  }

  // ---- getByCategory ----

  /** The test `getByCategory` applies to a record's hierarchy id. */
  predicate InCategoryId(id: string, c: string) {
    StartsWith(id, c + ".") || id == c + ".0"
  }

  /** `getByCategory(c)`: in order, the records whose hierarchy id starts
      with `c.`; the second test of the source (`== c + ".0"`) adds nothing. */
  function GetByCategory(items: seq<ProcessRecord>, c: string): (r: seq<ProcessRecord>)
    ensures IsSubseq(r, items)
    ensures forall p :: p in r <==> p in items && StartsWith(p.hierarchyId, c + ".")
    ensures forall p :: multiset(r)[p] == if StartsWith(p.hierarchyId, c + ".") then multiset(items)[p] else 0
  {
    var r := Filter(items, (p: ProcessRecord) => InCategoryId(p.hierarchyId, c));
    forall p: ProcessRecord
      ensures InCategoryId(p.hierarchyId, c) <==> StartsWith(p.hierarchyId, c + ".")
    {
      if p.hierarchyId == c + ".0" {
        assert (c + ".0")[..|c + "."|] == c + ".";
      }
    }
    r
  }

  /** "10.1" is never in category "1". */
  lemma CategoryPrefixBoundary(items: seq<ProcessRecord>, p: ProcessRecord)
    requires p.hierarchyId == "10.1"
    ensures p !in GetByCategory(items, "1")
  {
    assert "10.1"[..2][1] == '0';
  }

  /** The children of a category are among the records of that category, in
      the same order. */
  lemma ChildrenWithinCategory(items: seq<ProcessRecord>, c: string)
    ensures IsSubseq(GetChildren(items, c), GetByCategory(items, c))
  {
    var child := (p: ProcessRecord) => IsChildId(p.hierarchyId, c);
    var inCat := (p: ProcessRecord) => InCategoryId(p.hierarchyId, c);
    FilterStronger(items, child, inCat);
  }

  // ---- the collection as a whole ----

  /** A failed fetch leaves the empty collection: every query finds nothing. */
  lemma EmptyCollection(code: string, query: string, h: string, c: string)
    ensures Get([], code).None? && GetByHierarchyId([], h).None?
    ensures Search([], query) == [] && GetChildren([], h) == [] && GetByCategory([], c) == []
  {
  }

  /** Codes unique across the collection. */
  predicate UniqueCodes(items: seq<ProcessRecord>) {
    forall i, j :: 0 <= i < j < |items| ==> items[i].code != items[j].code
  }

  /** Every `@id` is the one formed from its record's code. */
  predicate CanonicalIds(items: seq<ProcessRecord>) {
    forall i :: 0 <= i < |items| ==> items[i].atId == IdBase + items[i].code
  }

  /** In a collection with unique codes and canonical `@id`s, `get(code)`
      finds a record exactly when one has that code, and it is that record. */
  lemma GetUniqueByCode(items: seq<ProcessRecord>, code: string, p: ProcessRecord)
    requires UniqueCodes(items) && CanonicalIds(items)
    ensures Get(items, code) == Some(p) <==> p in items && p.code == code
  {
    forall i | 0 <= i < |items|
      ensures MatchesCode(items[i], code) <==> items[i].code == code
    {
      if items[i].atId == IdBase + code {
        assert items[i].code == (IdBase + items[i].code)[|IdBase|..];
        assert code == (IdBase + code)[|IdBase|..];
      }
    }
    if p in items && p.code == code {
      var k :| 0 <= k < |items| && items[k] == p;
      assert Get(items, code).Some?;
    }
  }

  /** The example collection: a category, its process group, and that group's process. */
  function Record(code: string, h: string, level: ProcessLevel): ProcessRecord {
    ProcessRecord(ContextIri, ProcessTypeIri, IdBase + code, code, None, code, h, level,
                  "", "", None, None, false)
  }

  function ScenarioA(): ProcessRecord { Record("A", "3", Category) }
  function ScenarioB(): ProcessRecord { Record("B", "3.1", ProcessGroup) }
  function ScenarioC(): ProcessRecord { Record("C", "3.1.1", Process) }
  function Scenario(): seq<ProcessRecord> { [ScenarioA(), ScenarioB(), ScenarioC()] }

  lemma ScenarioChildren()
    ensures GetChildren(Scenario(), "3") == [ScenarioB()]
  {
    var items := Scenario();
    assert DirectChildId("3.1", "3") && !DirectChildId("3.1.1", "3") && !DirectChildId("3", "3");
    FilterUnique(items, (p: ProcessRecord) => DirectChildId(p.hierarchyId, "3"), [ScenarioB()]);
  }

  lemma ScenarioGrandchildren()
    ensures GetChildren(Scenario(), "3.1") == [ScenarioC()]
  {
    var items, c := Scenario(), ScenarioC();
    assert DirectChildId("3.1.1", "3.1") && !DirectChildId("3.1", "3.1") && !DirectChildId("3", "3.1");
    assert items[1..][1..] == [c];
    assert IsSubseq([c], items[1..]);
    FilterUnique(items, (p: ProcessRecord) => DirectChildId(p.hierarchyId, "3.1"), [c]);
  }

  /** Of three records, a category outside itself and two inside it. */
  lemma CategoryOfThree(a: ProcessRecord, b: ProcessRecord, c: ProcessRecord, cat: string)
    requires !InCategoryId(a.hierarchyId, cat)
    requires InCategoryId(b.hierarchyId, cat) && InCategoryId(c.hierarchyId, cat)
    ensures GetByCategory([a, b, c], cat) == [b, c]
  {
    var items, r := [a, b, c], [b, c];
    var inCat := (p: ProcessRecord) => InCategoryId(p.hierarchyId, cat);
    assert items[1..] == r && r[1..] == [c] && [c][1..] == [];
    assert IsSubseq(r[1..], r[1..]);
    assert IsSubseq(r, items[1..]);
    assert items == [a] + r;
    assert multiset(items) == multiset{a} + multiset(r);
    forall x | true
      ensures multiset(r)[x] == if inCat(x) then multiset(items)[x] else 0
    {
      if x == a {
        assert a != b && a != c;
      }
    }
    FilterUnique(items, inCat, r);
  }

  lemma ScenarioCategory()
    ensures GetByCategory(Scenario(), "3") == [ScenarioB(), ScenarioC()]
  {
    assert !InCategoryId("3", "3") && InCategoryId("3.1", "3") && InCategoryId("3.1.1", "3");
    CategoryOfThree(ScenarioA(), ScenarioB(), ScenarioC(), "3");
  }

  lemma ScenarioGet()
    ensures Get(Scenario(), "A") == Some(ScenarioA())
    ensures Get(Scenario(), "Z") == None
  {
    assert "A" != "Z" && "B" != "Z" && "C" != "Z";
    assert (IdBase + "Z")[|IdBase|] == 'Z';
    assert (IdBase + "A")[|IdBase|] == 'A' && (IdBase + "B")[|IdBase|] == 'B' && (IdBase + "C")[|IdBase|] == 'C';
  }
}
