/**
 * The search box: which records the (already lower-cased) query selects
 * (`filteredData` in ClientRecordManager.js).
 */
module Search {
  import opened Text
  import opened Records
  import opened Seqs

  /**
   * `item.id?.toString().includes(q) || item.name?.toLowerCase().includes(q)
   *  || item.email?.toLowerCase().includes(q)`; a missing field matches nothing.
   * The id text is not lower-cased.
   */
  predicate Matches(q: string, r: Record) {
    || (r.id.Val? && Includes(IdText(r.id.value), q))
    || (r.name.Val? && Includes(Lower(r.name.value), q))
    || (r.email.Val? && Includes(Lower(r.email.value), q))
  }

  function MatchesQuery(q: string): Record -> bool {
    (r: Record) => Matches(q, r)
  }

  /** The records the search box lets through, in list order. */
  function Filtered(xs: seq<Record>, q: string): (r: seq<Record>)
    ensures IsSubseq(r, xs)
    ensures |r| <= |xs|
    ensures forall i :: 0 <= i < |r| ==> Matches(q, r[i])
    ensures forall x :: x in r <==> x in xs && Matches(q, x)
    ensures forall x :: multiset(r)[x] == if Matches(q, x) then multiset(xs)[x] else 0
  {
    var r := Filter(xs, MatchesQuery(q));
    SubseqLength(r, xs);
    FilterMembers(xs, MatchesQuery(q));
    FilterCounts(xs, MatchesQuery(q));
    r
  }

  /**
   * Each record the search keeps has the query at some offset of its id text,
   * its lower-cased name or its lower-cased email.
   */
  lemma FilteredContainsQuery(xs: seq<Record>, q: string, i: int)
    requires 0 <= i < |Filtered(xs, q)|
    ensures var r := Filtered(xs, q)[i];
      || (r.id.Val? && exists k :: OccursAt(IdText(r.id.value), q, k))
      || (r.name.Val? && exists k :: OccursAt(Lower(r.name.value), q, k))
      || (r.email.Val? && exists k :: OccursAt(Lower(r.email.value), q, k))
  {
    var r := Filtered(xs, q)[i];
    if r.id.Val? {
      IncludesIffOccurs(IdText(r.id.value), q);
    }
    if r.name.Val? {
      IncludesIffOccurs(Lower(r.name.value), q);
    }
    if r.email.Val? {
      IncludesIffOccurs(Lower(r.email.value), q);
    }
  }

  /** The empty query shows every record that has a value in at least one of its three fields. */
  lemma EmptyQueryShowsAll(xs: seq<Record>)
    requires forall i :: 0 <= i < |xs| ==> xs[i].id.Val? || xs[i].name.Val? || xs[i].email.Val?
    ensures Filtered(xs, "") == xs
  {
    forall i | 0 <= i < |xs|
      ensures MatchesQuery("")(xs[i])
    {
      var r := xs[i];
      if r.id.Val? {
        IncludesEmpty(IdText(r.id.value));
      } else if r.name.Val? {
        IncludesEmpty(Lower(r.name.value));
      } else {
        IncludesEmpty(Lower(r.email.value));
      }
    }
    FilterAll(xs, MatchesQuery(""));
  }

  /** A record whose three fields are all missing or `null` is hidden even by the empty query. */
  lemma EmptyRecordNeverShown(q: string, r: Record)
    requires !r.id.Val? && !r.name.Val? && !r.email.Val?
    ensures !Matches(q, r)
  {
  }
}
