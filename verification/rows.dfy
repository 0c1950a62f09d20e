/** Tables keyed by an integer row id, and the order in which a full scan returns their rows. */
module Rows {
  import opened Wrappers

  /** Every key of `m` is a row id handed out so far: ids start at 1 and none exceeds `last`. */
  predicate KeysWithin<V>(m: map<int, V>, last: int) {
    forall k :: k in m ==> 1 <= k <= last
  }

  /** Row ids strictly increase along `rows`. */
  predicate Ascending<V>(rows: seq<(int, V)>) {
    forall i, j :: 0 <= i < j < |rows| ==> rows[i].0 < rows[j].0
  }

  /** The rows of `m` whose ids lie in `[lo, hi]`, in ascending id order: the order in which
      SQLite scans a rowid table when a query gives no ORDER BY. */
  function Scan<V(!new)>(m: map<int, V>, lo: int, hi: int): (r: seq<(int, V)>)
    ensures forall p :: p in r <==> lo <= p.0 <= hi && p.0 in m && m[p.0] == p.1
    decreases hi - lo
  {
    if hi < lo then []
    else Scan(m, lo, hi - 1) + (if hi in m then [(hi, m[hi])] else [])
  }

  /** A scan lists its rows in strictly ascending id order. */
  lemma {:induction false} ScanAscending<V(!new)>(m: map<int, V>, lo: int, hi: int)
    ensures Ascending(Scan(m, lo, hi))
    decreases hi - lo
  {
    if lo <= hi {
      ScanAscending(m, lo, hi - 1);
      if hi in m {
        AscendingSnoc(Scan(m, lo, hi - 1), (hi, m[hi]));
      }
    }
  }

  /** Appending a row whose id tops every id of ascending rows keeps them ascending. */
  lemma AscendingSnoc<V>(rows: seq<(int, V)>, p: (int, V))
    requires Ascending(rows) && forall q :: q in rows ==> q.0 < p.0
    ensures Ascending(rows + [p])
  {
    var r := rows + [p];
    forall i, j | 0 <= i < j < |r| ensures r[i].0 < r[j].0 {
      if j == |rows| {
        assert r[i] in rows;
      }
    }
  }

  /** An empty table scans to nothing. */
  lemma {:induction false} ScanEmpty<V(!new)>(m: map<int, V>, lo: int, hi: int)
    requires m == map[]
    ensures Scan(m, lo, hi) == []
    decreases hi - lo
  {
    if lo <= hi {
      ScanEmpty(m, lo, hi - 1);
    }
  }

  /** Changing a row above the scanned range does not change the scan. */
  lemma {:induction false} ScanIgnoresAbove<V(!new)>(m: map<int, V>, lo: int, hi: int, k: int, v: V)
    requires hi < k
    ensures Scan(m[k := v], lo, hi) == Scan(m, lo, hi)
    decreases hi - lo
  {
    if lo <= hi {
      ScanIgnoresAbove(m, lo, hi - 1, k, v);
    }
  }

  /** Adding a row just above the scanned range appends it to the scan. */
  lemma ScanAppend<V(!new)>(m: map<int, V>, lo: int, hi: int, v: V)
    requires lo <= hi + 1
    ensures Scan(m[hi + 1 := v], lo, hi + 1) == Scan(m, lo, hi) + [(hi + 1, v)]
  {
    ScanIgnoresAbove(m, lo, hi, hi + 1, v);
  }

  /** Two maps that agree on `[lo, hi]` scan alike. */
  lemma {:induction false} ScanAgree<V(!new)>(m: map<int, V>, m': map<int, V>, lo: int, hi: int)
    requires forall k :: lo <= k <= hi ==> (k in m <==> k in m') && (k in m ==> m[k] == m'[k])
    ensures Scan(m, lo, hi) == Scan(m', lo, hi)
    decreases hi - lo
  {
    if lo <= hi {
      ScanAgree(m, m', lo, hi - 1);
    }
  }

  /** A non-empty sequence holds exactly what its front and its last element hold. */
  lemma SnocMembers<T>(s: seq<T>)
    requires |s| > 0
    ensures forall x :: x in s <==> x in s[..|s| - 1] || x == s[|s| - 1]
  {
    assert s == s[..|s| - 1] + [s[|s| - 1]];
  }

  /** In ascending rows the front is ascending too, and every id in it is below the last one. */
  lemma AscendingFront<V>(rows: seq<(int, V)>)
    requires |rows| > 0 && Ascending(rows)
    ensures Ascending(rows[..|rows| - 1])
    ensures forall p :: p in rows[..|rows| - 1] ==> p.0 < rows[|rows| - 1].0
  {
  }

  /** The id of the first row in `rows` whose value satisfies `want`, as a query that reads
      one row of a scan returns it. */
  function FirstWhere<V>(rows: seq<(int, V)>, want: V -> bool): (r: Option<int>)
    ensures r.Some? ==> exists p :: p in rows && p.0 == r.value && want(p.1)
    ensures r.None? ==> forall p :: p in rows ==> !want(p.1)
    decreases |rows|
  {
    if |rows| == 0 then None
    else if want(rows[0].1) then Some(rows[0].0)
    else FirstWhere(rows[1..], want)
  }
}
