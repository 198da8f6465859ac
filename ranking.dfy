/**
 * The overheated shortlist: the panel rows that pass the overheated test,
 * ordered by RSI from highest to lowest (rows with equal RSI keep their
 * panel order), cut to the first three.
 */
module Ranking {
  import opened Wrappers
  import opened Orders
  import opened SectorData
  import opened Classification
  import opened Chart

  /** One shortlist entry: sector name, rebased index at the last date, RSI. */
  datatype Entry = Entry(sector: string, indexVal: Option<real>, rsi: real)

  const TopCount: nat := 3

  /** The position of `name` among `names`, or `|names|` when it is absent. */
  function ColumnOf(names: seq<string>, name: string): (j: nat)
    ensures j <= |names|
    ensures j < |names| ==> names[j] == name
    ensures j == |names| <==> name !in names
  {
    if names == [] then 0
    else if names[0] == name then 0
    else 1 + ColumnOf(names[1..], name)
  }

  /**
   * `index_val`: the sector's rebased value at the table's last date (which
   * may itself be missing), or 0 when the table has no column for it.
   */
  function IndexValue(t: Table, sector: string): (v: Option<real>)
    requires WellFormed(t) && |t.dates| > 0
    ensures sector !in t.names ==> v == Some(0.0)
    ensures sector in t.names ==> exists j :: 0 <= j < |t.names| && t.names[j] == sector && v == t.cols[j][|t.dates| - 1]
  {
    var j := ColumnOf(t.names, sector);
    if j < |t.names| then t.cols[j][|t.dates| - 1] else Some(0.0)
  }

  function EntryOf(t: Table, r: Row): Entry
    requires WellFormed(t) && |t.dates| > 0
  {
    Entry(r.name, IndexValue(t, r.name), r.rsi)
  }

  /** The entries of the overheated panel rows, in panel order. */
  function Candidates(panel: seq<Row>, t: Table): seq<Entry>
    requires WellFormed(t) && |t.dates| > 0
  {
    if panel == [] then []
    else
      var last := panel[|panel| - 1];
      Candidates(panel[..|panel| - 1], t) + (if IsOverheated(last.rsi, last.pctB) then [EntryOf(t, last)] else [])
  }

  /** Ascending order of this key is descending RSI. */
  function NegRsi(e: Entry): real
  {
    -e.rsi
  }

  /** The candidates by descending RSI, stably. */
  function Ranked(panel: seq<Row>, t: Table): seq<Entry>
    requires WellFormed(t) && |t.dates| > 0
  {
    SortBy(Candidates(panel, t), NegRsi)
  }

  /** The shortlist: nothing for an empty panel or table, otherwise the first three ranked candidates. */
  function Top3(panel: seq<Row>, t: Table): seq<Entry>
    requires WellFormed(t)
  {
    if panel == [] || IsEmpty(t) then [] else Take(Ranked(panel, t), TopCount)
  }

  /** Builds the candidate list by a loop over the panel, then sorts it and keeps three. */
  method OverheatedTop3(panel: seq<Row>, t: Table) returns (top: seq<Entry>)
    requires WellFormed(t)
    ensures top == Top3(panel, t)
  {
    if panel == [] || IsEmpty(t) {
      return [];
    }
    var overheated: seq<Entry> := [];
    for k := 0 to |panel|
      invariant overheated == Candidates(panel[..k], t)
    {
      var row := panel[k];
      if IsOverheated(row.rsi, row.pctB) {
        overheated := overheated + [EntryOf(t, row)];
      }
      assert panel[..k + 1][..k] == panel[..k];
    }
    assert panel[..|panel|] == panel;
    var sorted := SortBy(overheated, NegRsi);
    top := Take(sorted, TopCount);
  }

  // ---------------------------------------------------------------------------
  // Lemmas

  /** The candidates are exactly the entries of the panel rows that pass the overheated test. */
  lemma {:induction false} CandidatesSpec(panel: seq<Row>, t: Table)
    requires WellFormed(t) && |t.dates| > 0
    ensures forall i :: 0 <= i < |panel| && IsOverheated(panel[i].rsi, panel[i].pctB) ==>
      EntryOf(t, panel[i]) in Candidates(panel, t)
    ensures forall e :: e in Candidates(panel, t) ==>
      exists i :: 0 <= i < |panel| && IsOverheated(panel[i].rsi, panel[i].pctB) && e == EntryOf(t, panel[i])
  {
    if panel != [] {
      var n := |panel| - 1;
      var p := panel[..n];
      CandidatesSpec(p, t);
      assert forall i :: 0 <= i < n ==> p[i] == panel[i];
      forall e | e in Candidates(panel, t)
        ensures exists i :: 0 <= i < |panel| && IsOverheated(panel[i].rsi, panel[i].pctB) && e == EntryOf(t, panel[i])
      {
        if e !in Candidates(p, t) {
          assert e == EntryOf(t, panel[n]);
        }
      }
    }
  }

  /** Candidates agree with the panel's status: entries come exactly from rows classified overheated. */
  lemma CandidatesAreOverheated(panel: seq<Row>, t: Table)
    requires WellFormed(t) && |t.dates| > 0
    ensures forall i :: 0 <= i < |panel| && Classify(panel[i].rsi, panel[i].pctB) == Overheated ==>
      EntryOf(t, panel[i]) in Candidates(panel, t)
    ensures forall e :: e in Candidates(panel, t) ==>
      exists i :: 0 <= i < |panel| && Classify(panel[i].rsi, panel[i].pctB) == Overheated && e == EntryOf(t, panel[i])
  {
    CandidatesSpec(panel, t);
  }

  /** RSI never rises along `s`. */
  predicate DescendingRsi(s: seq<Entry>)
  {
    forall a, b :: 0 <= a < b < |s| ==> s[a].rsi >= s[b].rsi
  }

  /**
   * The ranking is descending by RSI, a permutation of the candidates, and
   * stable: the entries with any one RSI appear in panel order.
   */
  lemma RankedSpec(panel: seq<Row>, t: Table)
    requires WellFormed(t) && |t.dates| > 0
    ensures DescendingRsi(Ranked(panel, t))
    ensures multiset(Ranked(panel, t)) == multiset(Candidates(panel, t))
    ensures forall k :: WithKey(Ranked(panel, t), NegRsi, k) == WithKey(Candidates(panel, t), NegRsi, k)
  {
    var r := Ranked(panel, t);
    SortBySpec(Candidates(panel, t), NegRsi);
    forall a, b | 0 <= a < b < |r| ensures r[a].rsi >= r[b].rsi {
      assert NegRsi(r[a]) <= NegRsi(r[b]);
    }
  }

  /** The first `n` of a descending sequence descend, and none after them is higher. */
  lemma DescendingPrefix(r: seq<Entry>, n: nat)
    requires DescendingRsi(r) && n <= |r|
    ensures DescendingRsi(r[..n])
    ensures forall a, b :: 0 <= a < n <= b < |r| ==> r[b].rsi <= r[a].rsi
  {
    forall a, b | 0 <= a < b < n ensures r[..n][a].rsi >= r[..n][b].rsi {
      assert r[..n][a] == r[a] && r[..n][b] == r[b];
    }
  }

  /**
   * The shortlist has at most three entries (three whenever there are that
   * many candidates), descends by RSI, holds only candidates, and every
   * candidate left out has an RSI no higher than any entry kept.
   */
  lemma Top3Spec(panel: seq<Row>, t: Table)
    requires WellFormed(t) && !IsEmpty(t) && panel != []
    ensures |Top3(panel, t)| == if |Candidates(panel, t)| < TopCount then |Candidates(panel, t)| else TopCount
    ensures DescendingRsi(Top3(panel, t))
    ensures forall a, b :: 0 <= a < |Top3(panel, t)| <= b < |Ranked(panel, t)| ==>
      Ranked(panel, t)[b].rsi <= Top3(panel, t)[a].rsi
    ensures multiset(Top3(panel, t)) + multiset(Ranked(panel, t)[|Top3(panel, t)|..]) == multiset(Candidates(panel, t))
    ensures forall e :: e in Top3(panel, t) ==> e in Candidates(panel, t)
  {
    RankedSpec(panel, t);
    ShortlistOf(Candidates(panel, t), Ranked(panel, t));
  }

  /** Cutting a descending permutation `r` of `c` to its first three. */
  lemma ShortlistOf(c: seq<Entry>, r: seq<Entry>)
    requires DescendingRsi(r) && multiset(r) == multiset(c)
    ensures |Take(r, TopCount)| == if |c| < TopCount then |c| else TopCount
    ensures DescendingRsi(Take(r, TopCount))
    ensures forall a, b :: 0 <= a < |Take(r, TopCount)| <= b < |r| ==> r[b].rsi <= Take(r, TopCount)[a].rsi
    ensures multiset(Take(r, TopCount)) + multiset(r[|Take(r, TopCount)|..]) == multiset(c)
    ensures forall e :: e in Take(r, TopCount) ==> e in c
  {
    var top := Take(r, TopCount);
    assert |r| == |c| by {
      assert |r| == |multiset(r)| && |c| == |multiset(c)|;
    }
    assert top == r[..|top|];
    DescendingPrefix(r, |top|);
    assert r == top + r[|top|..];
    assert multiset(r) == multiset(top) + multiset(r[|top|..]);
    forall e | e in top ensures e in c {
      assert e in multiset(top);
      assert e in multiset(c);
    }
  }

  /** Nothing is shortlisted from an empty panel, an empty table, or a panel with no overheated row. */
  lemma Top3Empty(panel: seq<Row>, t: Table)
    requires WellFormed(t)
    requires panel == [] || IsEmpty(t) || forall i :: 0 <= i < |panel| ==> !IsOverheated(panel[i].rsi, panel[i].pctB)
    ensures Top3(panel, t) == []
  {
    if panel != [] && !IsEmpty(t) {
      NoCandidates(panel, t);
    }
  }

  lemma {:induction false} NoCandidates(panel: seq<Row>, t: Table)
    requires WellFormed(t) && |t.dates| > 0
    requires forall i :: 0 <= i < |panel| ==> !IsOverheated(panel[i].rsi, panel[i].pctB)
    ensures Candidates(panel, t) == []
  {
    if panel != [] {
      NoCandidates(panel[..|panel| - 1], t);
    }
  }

  // ---------------------------------------------------------------------------
  // Ties

  lemma CandidatesOfThree(a: Row, b: Row, c: Row, t: Table)
    requires WellFormed(t) && |t.dates| > 0
    requires IsOverheated(a.rsi, a.pctB) && IsOverheated(b.rsi, b.pctB) && IsOverheated(c.rsi, c.pctB)
    ensures Candidates([a, b, c], t) == [EntryOf(t, a), EntryOf(t, b), EntryOf(t, c)]
  {
    var panel := [a, b, c];
    assert [a][..0] == [];
    assert Candidates([a], t) == [EntryOf(t, a)];
    assert [a, b][..1] == [a];
    assert Candidates([a, b], t) == [EntryOf(t, a), EntryOf(t, b)];
    assert panel[..2] == [a, b];
  }

  lemma SortThree(x: Entry, y: Entry, z: Entry)
    requires x.rsi == z.rsi > y.rsi
    ensures SortBy([x, y, z], NegRsi) == [x, z, y]
  {
    assert [x, y, z][1..] == [y, z] && [y, z][1..] == [z] && [z][1..] == [];
    assert SortBy([z], NegRsi) == [z];
    assert SortBy([y, z], NegRsi) == Insert(y, [z], NegRsi) == [z, y];
    assert Insert(x, [z, y], NegRsi) == [x, z, y];
  }

  /**
   * Three overheated sectors where the first and the third share the higher
   * RSI are shortlisted as first, third, second: the tie keeps panel order.
   */
  lemma EqualRsiKeepsPanelOrder(a: Row, b: Row, c: Row, t: Table)
    requires WellFormed(t) && !IsEmpty(t)
    requires IsOverheated(a.rsi, a.pctB) && IsOverheated(b.rsi, b.pctB) && IsOverheated(c.rsi, c.pctB)
    requires a.rsi == c.rsi > b.rsi
    ensures Top3([a, b, c], t) == [EntryOf(t, a), EntryOf(t, c), EntryOf(t, b)]
  {
    CandidatesOfThree(a, b, c, t);
    SortThree(EntryOf(t, a), EntryOf(t, b), EntryOf(t, c));
  }
}
