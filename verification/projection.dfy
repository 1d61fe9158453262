/**
 The view projection of `filterAchievements` and the counts of `updateStats`:
 a type filter (`'all'` or one record type) followed by a case-insensitive
 substring search over a record's text fields.
 */
module Projection {
  import opened Text
  import opened Records

  const AllTypes := "all"

  /** The record passes the type filter of the navigation buttons. */
  function TypeIs(kind: string): Record -> bool {
    (r: Record) => r.data.kind == kind
  }

  /** The search predicate for an already lower-cased term: title or description,
      or a non-empty grade, institution or category, contains the term. */
  predicate SearchHit(term: string, r: Record)
    ensures term == "" ==> SearchHit(term, r)
    ensures SearchHit(term, r) ==>
      |term| <= |r.data.title| || |term| <= |r.data.description| || |term| <= |r.data.grade|
      || |term| <= |r.data.institution| || |term| <= |r.data.category|
  {
    || Contains(Lower(r.data.title), term)
    || Contains(Lower(r.data.description), term)
    || (r.data.grade != "" && Contains(Lower(r.data.grade), term))
    || (r.data.institution != "" && Contains(Lower(r.data.institution), term))
    || (r.data.category != "" && Contains(Lower(r.data.category), term))
  }

  function Matches(term: string): Record -> bool {
    (r: Record) => SearchHit(term, r)
  }

  /** Whether a record belongs in the view for a filter and a lower-cased term. */
  predicate Keep(filter: string, term: string, r: Record)
    ensures filter == AllTypes && term == "" ==> Keep(filter, term, r)
    ensures Keep(filter, term, r) ==> filter == AllTypes || r.data.kind == filter
    ensures Keep(filter, term, r) ==> SearchHit(term, r)
  {
    (filter == AllTypes || r.data.kind == filter) && (term == "" || SearchHit(term, r))
  }

  /** `filterAchievements` before it hands its result to `renderAchievements`:
      the records that pass both filters, in mirror order, each as often as in the mirror. */
  function FilterView(recs: seq<Record>, filter: string, search: string): (view: seq<Record>)
    ensures IsSubseq(view, recs)
    ensures forall r :: multiset(view)[r] == if Keep(filter, Lower(search), r) then multiset(recs)[r] else 0
  {
    var term := Lower(search);
    var byType := if filter != AllTypes then Select(recs, TypeIs(filter)) else recs;
    var view := if term != "" then Select(byType, Matches(term)) else byType;
    SubseqReflexive(recs);
    SubseqReflexive(byType);
    SubseqTransitive(view, byType, recs);
    forall r ensures multiset(view)[r] == if Keep(filter, term, r) then multiset(recs)[r] else 0 {
      if filter != AllTypes {
        SelectCount(recs, TypeIs(filter), r);
      }
      if term != "" {
        SelectCount(byType, Matches(term), r);
      }
    }
    view
  }

  /** Every record in the view passes the filter and the search; every record of the
      mirror that passes both is in the view. */
  lemma FilterViewMembership(recs: seq<Record>, filter: string, search: string, r: Record)
    ensures r in FilterView(recs, filter, search) <==> r in recs && Keep(filter, Lower(search), r)
  {
    var view := FilterView(recs, filter, search);
    assert r in view <==> multiset(view)[r] > 0;
    assert r in recs <==> multiset(recs)[r] > 0;
  }

  /** The search does not depend on the case of the typed term. */
  lemma {:induction false} SearchIgnoresCase(recs: seq<Record>, filter: string, search: string)
    ensures FilterView(recs, filter, search) == FilterView(recs, filter, Lower(search))
  {
    LowerIdempotent(search);
  }

  /** Filter `'all'` with an empty search shows the whole mirror, in order. */
  lemma {:induction false} FilterAllShowsMirror(recs: seq<Record>)
    ensures FilterView(recs, AllTypes, "") == recs
  {
    assert Lower("") == "";
  }

  /** The header counters of `updateStats`. */
  datatype Stats = Stats(total: nat, achievements: nat, results: nat, records: nat)

  /** `achievements.filter(a => a.type === kind).length`: never more than the total. */
  function CountOf(recs: seq<Record>, kind: string): (c: nat)
    ensures c <= |recs|
  {
    |Select(recs, TypeIs(kind))|
  }

  /** A counter equals the total when every record has that type. */
  lemma CountAllOfKind(recs: seq<Record>, kind: string)
    requires forall r :: r in recs ==> r.data.kind == kind
    ensures CountOf(recs, kind) == |recs|
  {
    SelectAll(recs, TypeIs(kind));
  }

  /** `updateStats`: the total and the per-type counts, which never exceed the total. */
  function StatsOf(recs: seq<Record>): (st: Stats)
    ensures st.total == |recs|
    ensures st.achievements <= st.total && st.results <= st.total && st.records <= st.total
  {
    Stats(|recs|, CountOf(recs, "achievement"), CountOf(recs, "result"), CountOf(recs, "record"))
  }

  predicate KnownType(r: Record) {
    r.data.kind in {"achievement", "result", "record"}
  }

  /** The three per-type counters and the records of any other type add up to the total. */
  lemma {:induction false} StatsPartition(recs: seq<Record>)
    ensures var st := StatsOf(recs);
      st.achievements + st.results + st.records + |Select(recs, (r: Record) => !KnownType(r))| == st.total
  {
    if recs != [] {
      StatsPartition(recs[1..]);
    }
  }

  /** Each per-type counter equals the size of the view that type's filter button shows
      with an empty search. */
  lemma {:induction false} StatsMatchFilter(recs: seq<Record>, kind: string)
    requires kind != AllTypes
    ensures CountOf(recs, kind) == |FilterView(recs, kind, "")|
  {
    assert Lower("") == "";
  }
}
