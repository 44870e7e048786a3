/** The summary printed after scoring: how many complaints fall in each
    severity tier, and the product with the most High-severity complaints.
 */
module Reporting {
  import opened Frame
  import opened SeverityClassifier
  import opened Scoring

  /** Number of scored rows in tier `s` (one entry of the tier counts). */
  function CountTier(rows: seq<Scored>, s: Severity): (n: nat)
    ensures n <= |rows|
  {
    if |rows| == 0 then 0
    else (if rows[0].severity == s then 1 else 0) + CountTier(rows[1..], s)
  }

  /** Every row is counted in exactly one tier. */
  lemma {:induction false} TierCountsPartition(rows: seq<Scored>)
    ensures CountTier(rows, High) + CountTier(rows, Medium) + CountTier(rows, Low) == |rows|
  {
    if |rows| > 0 {
      TierCountsPartition(rows[1..]);
    }
  }

  /** The rows at or after `from` in tier `s`. */
  ghost function TierRows(rows: seq<Scored>, s: Severity, from: nat): set<nat> {
    set i: nat | from <= i < |rows| && rows[i].severity == s
  }

  lemma {:induction false} CountTierFrom(rows: seq<Scored>, s: Severity, from: nat)
    requires from <= |rows|
    ensures CountTier(rows[from..], s) == |TierRows(rows, s, from)|
    decreases |rows| - from
  {
    if from == |rows| {
      assert TierRows(rows, s, from) == {};
    } else {
      CountTierFrom(rows, s, from + 1);
      assert rows[from..][1..] == rows[from + 1..];
      assert CountTier(rows[from..], s) == (if rows[from].severity == s then 1 else 0) + CountTier(rows[from + 1..], s);
      var rest := TierRows(rows, s, from + 1);
      assert from !in rest;
      if rows[from].severity == s {
        assert TierRows(rows, s, from) == {from} + rest;
      } else {
        assert TierRows(rows, s, from) == rest;
      }
    }
  }

  /** The count of a tier is the number of rows in that tier. */
  lemma CountTierCounts(rows: seq<Scored>, s: Severity)
    ensures CountTier(rows, s) == |set i: nat | i < |rows| && rows[i].severity == s|
  {
    CountTierFrom(rows, s, 0);
    assert rows[0..] == rows;
    assert TierRows(rows, s, 0) == set i: nat | i < |rows| && rows[i].severity == s;
  }

  /** Some row is in tier High. */
  predicate HasHigh(rows: seq<Scored>) {
    exists i :: 0 <= i < |rows| && rows[i].severity == High
  }

  /** The product column of the High rows with its missing cells dropped, as
      the value counting drops them: the product texts of the High rows, in
      row order. */
  function HighProducts(rows: seq<Scored>, k: nat): (ps: seq<string>)
    ensures |ps| <= |rows|
    ensures forall p :: p in ps <==>
              exists i :: 0 <= i < |rows| && rows[i].severity == High && CellAt(rows[i].cells, k) == Present(p)
  {
    if |rows| == 0 then []
    else
      var rest := HighProducts(rows[1..], k);
      assert forall i :: 0 < i < |rows| ==> rows[i] == rows[1..][i - 1];
      match CellAt(rows[0].cells, k)
      case Present(p) =>
        if rows[0].severity == High then [p] + rest else rest
      case Missing => rest
  }

  /** How often `p` occurs in `ps`. */
  function Occurrences(ps: seq<string>, p: string): nat {
    multiset(ps)[p]
  }

  /** The High rows at or after `from` whose product cell holds `p`. */
  ghost function HighRowsWith(rows: seq<Scored>, k: nat, p: string, from: nat): set<nat> {
    set i: nat | from <= i < |rows| && rows[i].severity == High && CellAt(rows[i].cells, k) == Present(p)
  }

  lemma {:induction false} HighProductsFrom(rows: seq<Scored>, k: nat, p: string, from: nat)
    requires from <= |rows|
    ensures Occurrences(HighProducts(rows[from..], k), p) == |HighRowsWith(rows, k, p, from)|
    decreases |rows| - from
  {
    if from == |rows| {
      assert HighRowsWith(rows, k, p, from) == {};
    } else {
      HighProductsFrom(rows, k, p, from + 1);
      assert rows[from..][1..] == rows[from + 1..];
      assert rows[from..][0] == rows[from];
      var rest := HighRowsWith(rows, k, p, from + 1);
      if rows[from].severity == High && CellAt(rows[from].cells, k) == Present(p) {
        assert HighRowsWith(rows, k, p, from) == {from} + rest;
      } else {
        assert HighRowsWith(rows, k, p, from) == rest;
      }
    }
  }

  /** Each product occurs in the list as many times as there are High rows
      holding it: the list carries the counts the top-risk choice compares. */
  lemma HighProductsCounts(rows: seq<Scored>, k: nat)
    ensures forall p :: Occurrences(HighProducts(rows, k), p) == |HighRowsWith(rows, k, p, 0)|
  {
    assert rows[0..] == rows;
    forall p
      ensures Occurrences(HighProducts(rows, k), p) == |HighRowsWith(rows, k, p, 0)|
    {
      HighProductsFrom(rows, k, p, 0);
    }
  }

  /** The most frequent entry of a non-empty list: an element no other
      element outnumbers. Among equally frequent elements the first one met wins. */
  method MostFrequent(ps: seq<string>) returns (best: string)
    requires |ps| > 0
    ensures best in ps
    ensures forall p :: Occurrences(ps, p) <= Occurrences(ps, best)
  {
    best := ps[0];
    var i := 1;
    while i < |ps|
      invariant 1 <= i <= |ps|
      invariant best in ps
      invariant forall j :: 0 <= j < i ==> Occurrences(ps, ps[j]) <= Occurrences(ps, best)
    {
      if Occurrences(ps, ps[i]) > Occurrences(ps, best) {
        best := ps[i];
      }
      i := i + 1;
    }
    forall p | p in ps ensures Occurrences(ps, p) <= Occurrences(ps, best) {
      var j :| 0 <= j < |ps| && ps[j] == p;
    }
  }

  /** The product with the most High complaints. Without High rows the
      answer is "N/A". With High rows it is a product of a High row that no
      other product outnumbers among the High rows; when every High row lacks
      a product the count table is empty and `idxmax` fails, and a frame
      without a Product column fails on the lookup. */
  method TopRiskProduct(t: ScoredTable) returns (r: Result<string>)
    ensures !HasHigh(t.rows) ==> r == Ok("N/A")
    ensures HasHigh(t.rows) && ProductColumn !in t.columns ==> r == Err(KeyError([ProductColumn]))
    ensures HasHigh(t.rows) && ProductColumn in t.columns ==>
              var ps := HighProducts(t.rows, IndexOf(t.columns, ProductColumn).value);
              && (ps == [] ==> r == Err(EmptyArgmax))
              && (ps != [] ==> r.Ok? && r.value in ps && forall p :: Occurrences(ps, p) <= Occurrences(ps, r.value))
    ensures r.Ok? && HasHigh(t.rows) ==>
              var k := IndexOf(t.columns, ProductColumn).value;
              && HighRowsWith(t.rows, k, r.value, 0) != {}
              && forall p :: |HighRowsWith(t.rows, k, p, 0)| <= |HighRowsWith(t.rows, k, r.value, 0)|
  {
    if !HasHigh(t.rows) {
      return Ok("N/A");
    }
    var k := IndexOf(t.columns, ProductColumn);
    if k.None? {
      return Err(KeyError([ProductColumn]));
    }
    var ps := HighProducts(t.rows, k.value);
    if |ps| == 0 {
      return Err(EmptyArgmax);
    }
    var best := MostFrequent(ps);
    HighProductsCounts(t.rows, k.value);
    r := Ok(best);
  }
}
