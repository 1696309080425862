/**
 * Merge-by-email: how the records of a further uploaded file are appended to
 * the live record list (`mergeData` in ClientRecordManager.js).
 */
module Merge {
  import opened Records
  import opened Seqs

  /**
   * The filter pass of `mergeData`: walk `xs` with the running set `seen`;
   * drop a record whose email is falsy or already seen, otherwise keep it
   * and add its email to the set.
   */
  function Appended(seen: set<Field<string>>, xs: seq<Record>): (r: seq<Record>)
    ensures IsSubseq(r, xs)
    ensures forall i :: 0 <= i < |r| ==> HasEmail(r[i]) && r[i].email !in seen
    ensures forall i, j :: 0 <= i < j < |r| ==> r[i].email != r[j].email
    decreases |xs|
  {
    if xs == [] then []
    else if !HasEmail(xs[0]) || xs[0].email in seen then Appended(seen, xs[1..])
    else [xs[0]] + Appended(seen + {xs[0].email}, xs[1..])
  }

  /**
   * Whether `xs[i]` survives a merge into `base`, stated without the running
   * set: its email is truthy and appears neither in `base` nor earlier in `xs`.
   */
  predicate Survives(base: seq<Record>, xs: seq<Record>, i: nat)
    requires i < |xs|
  {
    HasEmail(xs[i]) && xs[i].email !in Emails(base) && xs[i].email !in Emails(xs[..i])
  }

  /** Reference definition: the positions of `xs` that survive, in order. */
  function Survivors(base: seq<Record>, xs: seq<Record>): seq<Record>
    decreases |xs|
  {
    if xs == [] then []
    else
      var n := |xs| - 1;
      Survivors(base, xs[..n]) + (if Survives(base, xs, n) then [xs[n]] else [])
  }

  /** Processing one more record appends it exactly when its email is truthy and new. */
  lemma {:induction false} AppendedSnoc(seen: set<Field<string>>, xs: seq<Record>, y: Record)
    ensures Appended(seen, xs + [y])
         == Appended(seen, xs) + (if HasEmail(y) && y.email !in seen + Emails(xs) then [y] else [])
    decreases |xs|
  {
    if xs == [] {
      assert xs + [y] == [y];
      assert [y][1..] == [];
    } else {
      var x := xs[0];
      assert (xs + [y])[0] == x;
      assert (xs + [y])[1..] == xs[1..] + [y];
      assert xs == [x] + xs[1..];
      EmailsAppend([x], xs[1..]);
      assert Emails([x]) == {x.email};
      if !HasEmail(x) || x.email in seen {
        AppendedSnoc(seen, xs[1..], y);
      } else {
        AppendedSnoc(seen + {x.email}, xs[1..], y);
        assert seen + {x.email} + Emails(xs[1..]) == seen + Emails(xs);
      }
    }
  }

  /**
   * The running-set filter computes exactly the reference survivors: the
   * records of `xs`, in their original order, whose email is truthy, absent
   * from `base` and absent from every earlier record of `xs`.
   */
  lemma {:induction false} AppendedMatchesSurvivors(base: seq<Record>, xs: seq<Record>)
    ensures Appended(Emails(base), xs) == Survivors(base, xs)
    decreases |xs|
  {
    if xs != [] {
      var n := |xs| - 1;
      var p := xs[..n];
      assert xs == p + [xs[n]];
      AppendedMatchesSurvivors(base, p);
      AppendedSnoc(Emails(base), p, xs[n]);
    }
  }

  /**
   * Every new truthy email ends up among the appended records; together with
   * the pairwise-distinct emails of `Appended` this means exactly once.
   */
  lemma {:induction false} AppendedEmails(seen: set<Field<string>>, xs: seq<Record>)
    ensures Emails(Appended(seen, xs)) == PresentEmails(xs) - seen
    decreases |xs|
  {
    if xs != [] {
      var x := xs[0];
      assert xs == [x] + xs[1..];
      EmailsAppend([x], xs[1..]);
      assert PresentEmails([x]) == if HasEmail(x) then {x.email} else {};
      if !HasEmail(x) || x.email in seen {
        AppendedEmails(seen, xs[1..]);
      } else {
        AppendedEmails(seen + {x.email}, xs[1..]);
        EmailsAppend([x], Appended(seen + {x.email}, xs[1..]));
        assert Emails([x]) == {x.email};
      }
    }
  }

  /**
   * `mergeData(base, newData)`: `base` followed by the records of `newData`
   * whose truthy email is not yet known; the first occurrence of an email wins.
   */
  function MergeData(base: seq<Record>, newData: seq<Record>): (r: seq<Record>)
    ensures |base| <= |r| <= |base| + |newData|
    ensures r[..|base|] == base
    ensures r[|base|..] == Survivors(base, newData)
    ensures forall i :: |base| <= i < |r| ==> HasEmail(r[i]) && r[i].email !in Emails(base)
    ensures forall i, j :: |base| <= i < j < |r| ==> r[i].email != r[j].email
  {
    var extra := Appended(Emails(base), newData);
    AppendedMatchesSurvivors(base, newData);
    SubseqLength(extra, newData);
    assert (base + extra)[|base|..] == extra;
    base + extra
  }

  /** The email set after a merge: the old one plus every truthy email of the new file. */
  lemma MergeEmails(base: seq<Record>, newData: seq<Record>)
    ensures Emails(MergeData(base, newData)) == Emails(base) + PresentEmails(newData)
  {
    var r := MergeData(base, newData);
    assert r == base + r[|base|..];
    EmailsAppend(base, r[|base|..]);
    AppendedMatchesSurvivors(base, newData);
    AppendedEmails(Emails(base), newData);
  }

  /** Merging never introduces a second record with a known truthy email. */
  lemma MergeKeepsDistinct(base: seq<Record>, newData: seq<Record>)
    requires DistinctEmails(base)
    ensures DistinctEmails(MergeData(base, newData))
  {
    var r := MergeData(base, newData);
    forall i, j | 0 <= i < j < |r| && HasEmail(r[i])
      ensures r[i].email != r[j].email
    {
      if j < |base| {
        assert r[i] == base[i] && r[j] == base[j];
      } else if i < |base| {
        assert r[i] == base[i];
        assert r[i].email in Emails(base);
      }
    }
  }

  /**
   * Merging a file whose records all carry distinct truthy emails into an
   * empty list yields the whole file.
   */
  lemma {:induction false} MergeIntoEmpty(newData: seq<Record>)
    requires forall i :: 0 <= i < |newData| ==> HasEmail(newData[i])
    requires DistinctEmails(newData)
    ensures MergeData([], newData) == newData
  {
    assert Emails([]) == {};
    AppendedDistinctAll({}, newData);
  }

  lemma {:induction false} AppendedDistinctAll(seen: set<Field<string>>, xs: seq<Record>)
    requires forall i :: 0 <= i < |xs| ==> HasEmail(xs[i]) && xs[i].email !in seen
    requires DistinctEmails(xs)
    ensures Appended(seen, xs) == xs
    decreases |xs|
  {
    if xs != [] {
      var x := xs[0];
      forall i | 0 <= i < |xs[1..]|
        ensures xs[1..][i].email !in seen + {x.email}
      {
        assert xs[1..][i] == xs[i + 1];
      }
      assert DistinctEmails(xs[1..]) by {
        forall i, j | 0 <= i < j < |xs[1..]| && HasEmail(xs[1..][i])
          ensures xs[1..][i].email != xs[1..][j].email
        {
          assert xs[1..][i] == xs[i + 1] && xs[1..][j] == xs[j + 1];
        }
      }
      AppendedDistinctAll(seen + {x.email}, xs[1..]);
    }
  }
}
