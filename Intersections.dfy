/**
 * Pairwise intersection detection over full paths: for every pair of drones
 * i < j, every point of path i is compared with every point of path j, and
 * one record is emitted per coincident pair of points, without removing
 * duplicates.
 */
module Intersections {
  import opened Field

  /** A reported intersection: two 1-based drone numbers and the shared point. */
  datatype Intersection = Intersection(drone1: int, drone2: int, x: int, y: int)

  /** A coincidence: point p of path i and point q of path j are both `at`. */
  datatype Match = Match(i: nat, j: nat, p: nat, q: nat, at: Point)

  /** m names two distinct drones, in order, and two equal points of their paths. */
  predicate IsMatch(paths: seq<seq<Point>>, m: Match)
  {
    && m.i < m.j < |paths|
    && m.p < |paths[m.i]| && m.q < |paths[m.j]|
    && paths[m.i][m.p] == m.at && paths[m.j][m.q] == m.at
  }

  /** Lexicographic order on (i, j, p, q): the order in which the loops visit them. */
  predicate Before(a: Match, b: Match)
  {
    a.i < b.i
    || (a.i == b.i && a.j < b.j)
    || (a.i == b.i && a.j == b.j && a.p < b.p)
    || (a.i == b.i && a.j == b.j && a.p == b.p && a.q < b.q)
  }

  /** Every coincidence comes strictly before every later one. */
  predicate Sorted(ms: seq<Match>)
  {
    forall a, b :: 0 <= a < b < |ms| ==> Before(ms[a], ms[b])
  }



  /** Coincidences of point p of path i with the first m points of path j. */
  function RowMatches(paths: seq<seq<Point>>, i: nat, j: nat, p: nat, m: nat): (r: seq<Match>)
    requires i < j < |paths| && p < |paths[i]| && m <= |paths[j]|
  {
    if m == 0 then []
    else
      RowMatches(paths, i, j, p, m - 1)
        + (if paths[i][p] == paths[j][m - 1] then [Match(i, j, p, m - 1, paths[i][p])] else [])
  }

  /** Coincidences of the first m points of path i with all of path j. */
  function PairMatches(paths: seq<seq<Point>>, i: nat, j: nat, m: nat): (r: seq<Match>)
    requires i < j < |paths| && m <= |paths[i]|
  {
    if m == 0 then []
    else PairMatches(paths, i, j, m - 1) + RowMatches(paths, i, j, m - 1, |paths[j]|)
  }

  /** Coincidences of path i with the paths of drones i+1 .. m-1. */
  function DroneMatches(paths: seq<seq<Point>>, i: nat, m: nat): (r: seq<Match>)
    requires i < |paths| && m <= |paths|
  {
    if m <= i + 1 then []
    else DroneMatches(paths, i, m - 1) + PairMatches(paths, i, m - 1, |paths[i]|)
  }

  /** Coincidences between drones i < j < n where the first drone is below m. */
  function AllMatches(paths: seq<seq<Point>>, n: nat, m: nat): (r: seq<Match>)
    requires m <= n <= |paths|
  {
    if m == 0 then []
    else AllMatches(paths, n, m - 1) + DroneMatches(paths, m - 1, n)
  }

  /** All coincidences among the first n drones, in the order the loops find them. */
  function Matches(paths: seq<seq<Point>>, n: nat): seq<Match>
    requires n <= |paths|
  {
    AllMatches(paths, n, n)
  }

  /** The record of a coincidence: 1-based drone numbers and the shared point. */
  function RecordOf(m: Match): Intersection
  {
    Intersection(m.i + 1, m.j + 1, m.at.x, m.at.y)
  }

  /** The records of a sequence of coincidences, one each, in the same order. */
  function RecordsOf(ms: seq<Match>): (r: seq<Intersection>)
  {
    seq(|ms|, k requires 0 <= k < |ms| => RecordOf(ms[k]))
  }

  /** Regrouping a concatenation of three sequences. */
  lemma Assoc<T>(a: seq<T>, b: seq<T>, c: seq<T>)
    ensures a + b + c == a + (b + c)
  {
  }

  lemma RecordsOfConcat(ms: seq<Match>, ns: seq<Match>)
    ensures RecordsOf(ms + ns) == RecordsOf(ms) + RecordsOf(ns)
  {
    assert forall k :: 0 <= k < |ns| ==> (ms + ns)[|ms| + k] == ns[k];
  }

  /** The records the detector reports for the first n drones. */
  function Records(paths: seq<seq<Point>>, n: nat): seq<Intersection>
    requires n <= |paths|
  {
    RecordsOf(Matches(paths, n))
  }

  /**
   * The body of the detector loop for one pair i < j: each point of path i,
   * in order, against each point of path j, in order; one record for each
   * pair of equal points.
   */
  method ComparePaths(paths: seq<seq<Point>>, i: nat, j: nat) returns (records: seq<Intersection>)
    requires i < j < |paths|
    ensures records == RecordsOf(PairMatches(paths, i, j, |paths[i]|))
  {
    var path1 := paths[i];
    var path2 := paths[j];
    records := [];
    ghost var found: seq<Match> := [];
    for p := 0 to |path1|
      invariant found == PairMatches(paths, i, j, p)
      invariant records == RecordsOf(found)
    {
      var coord1 := path1[p];
      ghost var before := found;
      for q := 0 to |path2|
        invariant found == before + RowMatches(paths, i, j, p, q)
        invariant records == RecordsOf(found)
      {
        var coord2 := path2[q];
        if coord1 == coord2 {
          var m := Match(i, j, p, q, coord1);
          assert RowMatches(paths, i, j, p, q + 1) == RowMatches(paths, i, j, p, q) + [m];
          RecordsOfConcat(found, [m]);
          found := found + [m];
          records := records + [Intersection(i + 1, j + 1, coord1.x, coord1.y)];
        } else {
          assert RowMatches(paths, i, j, p, q + 1) == RowMatches(paths, i, j, p, q);
        }
      }
      assert PairMatches(paths, i, j, p + 1) == before + RowMatches(paths, i, j, p, |paths[j]|);
    }
  }

  /**
   * The detector loop over drone pairs in increasing (i, j) order; the
   * records of each pair follow those of the pairs before it.
   */
  method CheckForIntersections(paths: seq<seq<Point>>, numberOfDrones: nat)
    returns (intersections: seq<Intersection>)
    requires numberOfDrones <= |paths|
    ensures intersections == Records(paths, numberOfDrones)
  {
    var n := numberOfDrones;
    intersections := [];
    ghost var found: seq<Match> := [];
    for i := 0 to n
      invariant found == AllMatches(paths, n, i)
      invariant intersections == RecordsOf(found)
    {
      ghost var before := found;
      for j := i + 1 to n
        invariant found == before + DroneMatches(paths, i, j)
        invariant intersections == RecordsOf(found)
      {
        var pairRecords := ComparePaths(paths, i, j);
        ghost var pair := PairMatches(paths, i, j, |paths[i]|);
        Assoc(before, DroneMatches(paths, i, j), pair);
        RecordsOfConcat(found, pair);
        found := found + pair;
        intersections := intersections + pairRecords;
      }
      assert AllMatches(paths, n, i + 1) == before + DroneMatches(paths, i, n);
    }
  }

  // Properties of the coincidences, level by level.

  lemma SortedConcat(a: seq<Match>, b: seq<Match>)
    requires Sorted(a) && Sorted(b)
    requires forall s, t :: 0 <= s < |a| && 0 <= t < |b| ==> Before(a[s], b[t])
    ensures Sorted(a + b)
  {
    forall s, t | 0 <= s < t < |a + b|
      ensures Before((a + b)[s], (a + b)[t])
    {
      if t < |a| {
        assert Before(a[s], a[t]);
      } else if s >= |a| {
        assert Before(b[s - |a|], b[t - |a|]);
      } else {
        assert Before(a[s], b[t - |a|]);
      }
    }
  }

  /** Exactly the coincidences of point p of path i with the first m points of path j, in order. */
  lemma {:induction false} RowMatchesExactly(paths: seq<seq<Point>>, i: nat, j: nat, p: nat, m: nat)
    requires i < j < |paths| && p < |paths[i]| && m <= |paths[j]|
    ensures forall mt :: mt in RowMatches(paths, i, j, p, m) <==>
      IsMatch(paths, mt) && mt.i == i && mt.j == j && mt.p == p && mt.q < m
    ensures Sorted(RowMatches(paths, i, j, p, m))
    decreases m
  {
    if m > 0 {
      var q := m - 1;
      RowMatchesExactly(paths, i, j, p, q);
      var front := RowMatches(paths, i, j, p, q);
      var last := if paths[i][p] == paths[j][q] then [Match(i, j, p, q, paths[i][p])] else [];
      assert RowMatches(paths, i, j, p, m) == front + last;
      assert Sorted(front + last) by {
        forall s, t | 0 <= s < |front| && 0 <= t < |last|
          ensures Before(front[s], last[t])
        {
          assert front[s] in front;
        }
        SortedConcat(front, last);
      }
    }
  }

  /** Exactly the coincidences of the first m points of path i with path j, in order. */
  lemma {:induction false} PairMatchesExactly(paths: seq<seq<Point>>, i: nat, j: nat, m: nat)
    requires i < j < |paths| && m <= |paths[i]|
    ensures forall mt :: mt in PairMatches(paths, i, j, m) <==>
      IsMatch(paths, mt) && mt.i == i && mt.j == j && mt.p < m
    ensures Sorted(PairMatches(paths, i, j, m))
    decreases m
  {
    if m > 0 {
      var p := m - 1;
      PairMatchesExactly(paths, i, j, p);
      RowMatchesExactly(paths, i, j, p, |paths[j]|);
      var front, last := PairMatches(paths, i, j, p), RowMatches(paths, i, j, p, |paths[j]|);
      assert PairMatches(paths, i, j, m) == front + last;
      assert Sorted(front + last) by {
        forall s, t | 0 <= s < |front| && 0 <= t < |last|
          ensures Before(front[s], last[t])
        {
          assert front[s] in front && last[t] in last;
        }
        SortedConcat(front, last);
      }
    }
  }

  /** Exactly the coincidences of path i with the paths of drones below m, in order. */
  lemma {:induction false} DroneMatchesExactly(paths: seq<seq<Point>>, i: nat, m: nat)
    requires i < |paths| && m <= |paths|
    ensures forall mt :: mt in DroneMatches(paths, i, m) <==>
      IsMatch(paths, mt) && mt.i == i && mt.j < m
    ensures Sorted(DroneMatches(paths, i, m))
    decreases m
  {
    if m > i + 1 {
      var j := m - 1;
      DroneMatchesExactly(paths, i, j);
      PairMatchesExactly(paths, i, j, |paths[i]|);
      var front, last := DroneMatches(paths, i, j), PairMatches(paths, i, j, |paths[i]|);
      assert DroneMatches(paths, i, m) == front + last;
      assert Sorted(front + last) by {
        forall s, t | 0 <= s < |front| && 0 <= t < |last|
          ensures Before(front[s], last[t])
        {
          assert front[s] in front && last[t] in last;
        }
        SortedConcat(front, last);
      }
    }
  }

  /** Exactly the coincidences between drones i < j < n with i below m, in order. */
  lemma {:induction false} AllMatchesExactly(paths: seq<seq<Point>>, n: nat, m: nat)
    requires m <= n <= |paths|
    ensures forall mt :: mt in AllMatches(paths, n, m) <==>
      IsMatch(paths, mt) && mt.i < m && mt.j < n
    ensures Sorted(AllMatches(paths, n, m))
    decreases m
  {
    if m > 0 {
      var i := m - 1;
      AllMatchesExactly(paths, n, i);
      DroneMatchesExactly(paths, i, n);
      var front, last := AllMatches(paths, n, i), DroneMatches(paths, i, n);
      assert AllMatches(paths, n, m) == front + last;
      assert Sorted(front + last) by {
        forall s, t | 0 <= s < |front| && 0 <= t < |last|
          ensures Before(front[s], last[t])
        {
          assert front[s] in front && last[t] in last;
        }
        SortedConcat(front, last);
      }
    }
  }

  /**
   * The coincidences the detector finds are exactly those between two of the
   * first n drones, and they come in strictly increasing (i, j, p, q) order,
   * so none is found twice.
   */
  lemma MatchesExactly(paths: seq<seq<Point>>, n: nat)
    requires n <= |paths|
    ensures forall mt :: mt in Matches(paths, n) <==> IsMatch(paths, mt) && mt.j < n
    ensures Sorted(Matches(paths, n))
  {
    AllMatchesExactly(paths, n, n);
  }

  // Properties of the reported records.

  /**
   * Soundness: every record names drones 1 <= d1 < d2 <= n, and its point
   * lies on both of their paths.
   */
  lemma RecordsSound(paths: seq<seq<Point>>, n: nat, k: nat)
    requires n <= |paths| && k < |Records(paths, n)|
    ensures var r := Records(paths, n)[k];
      && 1 <= r.drone1 < r.drone2 <= n
      && Point(r.x, r.y) in paths[r.drone1 - 1]
      && Point(r.x, r.y) in paths[r.drone2 - 1]
  {
    MatchesExactly(paths, n);
    var mt := Matches(paths, n)[k];
    assert mt in Matches(paths, n);
    assert paths[mt.i][mt.p] == mt.at && paths[mt.j][mt.q] == mt.at;
  }

  /**
   * Completeness: whenever point p of path i equals point q of path j, for
   * drones i < j < n, that coincidence is reported, with the point of path i.
   */
  lemma RecordsComplete(paths: seq<seq<Point>>, n: nat, i: nat, j: nat, p: nat, q: nat)
    requires n <= |paths| && i < j < n
    requires p < |paths[i]| && q < |paths[j]| && paths[i][p] == paths[j][q]
    ensures Intersection(i + 1, j + 1, paths[i][p].x, paths[i][p].y) in Records(paths, n)
  {
    MatchesExactly(paths, n);
    var mt := Match(i, j, p, q, paths[i][p]);
    assert mt in Matches(paths, n);
    var k :| 0 <= k < |Matches(paths, n)| && Matches(paths, n)[k] == mt;
    assert Records(paths, n)[k] == RecordOf(mt);
  }

  /** Records come grouped by drone pair, the pairs in increasing (d1, d2) order. */
  lemma RecordsInPairOrder(paths: seq<seq<Point>>, n: nat, a: nat, b: nat)
    requires n <= |paths| && a < b < |Records(paths, n)|
    ensures var ra, rb := Records(paths, n)[a], Records(paths, n)[b];
      ra.drone1 < rb.drone1 || (ra.drone1 == rb.drone1 && ra.drone2 <= rb.drone2)
  {
    MatchesExactly(paths, n);
    assert Before(Matches(paths, n)[a], Matches(paths, n)[b]);
  }

  /** The number of records for the drone pair (d1, d2). */
  function CountPair(records: seq<Intersection>, d1: int, d2: int): nat
  {
    if records == [] then 0
    else
      var last := records[|records| - 1];
      CountPair(records[..|records| - 1], d1, d2) + (if last.drone1 == d1 && last.drone2 == d2 then 1 else 0)
  }

  /** The index pairs (p, q) at which path i and path j share a point. */
  function CoincidentPairs(paths: seq<seq<Point>>, i: nat, j: nat): set<(nat, nat)>
    requires i < |paths| && j < |paths|
  {
    set p: nat, q: nat | p < |paths[i]| && q < |paths[j]| && paths[i][p] == paths[j][q] :: (p, q)
  }

  /** The (p, q) indices of the coincidences in ms that belong to drones i and j, in order. */
  function IndexPairs(ms: seq<Match>, i: nat, j: nat): seq<(nat, nat)>
  {
    if ms == [] then []
    else
      var last := ms[|ms| - 1];
      IndexPairs(ms[..|ms| - 1], i, j) + (if last.i == i && last.j == j then [(last.p, last.q)] else [])
  }

  predicate PairLess(a: (nat, nat), b: (nat, nat))
  {
    a.0 < b.0 || (a.0 == b.0 && a.1 < b.1)
  }

  predicate StrictlyIncreasing(s: seq<(nat, nat)>)
  {
    forall a, b :: 0 <= a < b < |s| ==> PairLess(s[a], s[b])
  }

  lemma {:induction false} IndexPairsMembers(ms: seq<Match>, i: nat, j: nat)
    ensures forall e :: e in IndexPairs(ms, i, j) <==>
      exists mt :: mt in ms && mt.i == i && mt.j == j && (mt.p, mt.q) == e
    decreases |ms|
  {
    if ms != [] {
      var init := ms[..|ms| - 1];
      IndexPairsMembers(init, i, j);
      assert ms == init + [ms[|ms| - 1]];
    }
  }

  lemma {:induction false} IndexPairsIncreasing(ms: seq<Match>, i: nat, j: nat)
    requires Sorted(ms)
    ensures StrictlyIncreasing(IndexPairs(ms, i, j))
    decreases |ms|
  {
    if ms != [] {
      var init, last := ms[..|ms| - 1], ms[|ms| - 1];
      IndexPairsIncreasing(init, i, j);
      IndexPairsMembers(init, i, j);
      var front := IndexPairs(init, i, j);
      if last.i == i && last.j == j {
        forall a | 0 <= a < |front|
          ensures PairLess(front[a], (last.p, last.q))
        {
          assert front[a] in front;
          var mt :| mt in init && mt.i == i && mt.j == j && (mt.p, mt.q) == front[a];
          var s :| 0 <= s < |init| && init[s] == mt;
          assert Before(ms[s], ms[|ms| - 1]);
        }
      }
    }
  }

  lemma {:induction false} CountPairRecords(ms: seq<Match>, i: nat, j: nat)
    ensures CountPair(RecordsOf(ms), i + 1, j + 1) == |IndexPairs(ms, i, j)|
    decreases |ms|
  {
    if ms != [] {
      var init, last := ms[..|ms| - 1], ms[|ms| - 1];
      assert ms == init + [last];
      RecordsOfConcat(init, [last]);
      CountPairRecords(init, i, j);
      var rs := RecordsOf(ms);
      assert rs[..|rs| - 1] == RecordsOf(init);
    }
  }

  lemma {:induction false} IncreasingCard(s: seq<(nat, nat)>)
    requires StrictlyIncreasing(s)
    ensures |set e | e in s| == |s|
    decreases |s|
  {
    if s != [] {
      var init, last := s[..|s| - 1], s[|s| - 1];
      assert StrictlyIncreasing(init);
      IncreasingCard(init);
      assert last !in init by {
        forall a | 0 <= a < |init| ensures init[a] != last {
          assert PairLess(s[a], s[|s| - 1]);
        }
      }
      assert s == init + [last];
      assert (set e | e in s) == (set e | e in init) + {last};
    }
  }

  /**
   * Multiplicity: for drones i < j < n the number of records for the pair
   * (i + 1, j + 1) is the number of index pairs (p, q) with equal points;
   * nothing is merged or dropped.
   */
  lemma Multiplicity(paths: seq<seq<Point>>, n: nat, i: nat, j: nat)
    requires n <= |paths| && i < j < n
    ensures CountPair(Records(paths, n), i + 1, j + 1) == |CoincidentPairs(paths, i, j)|
  {
    var ms := Matches(paths, n);
    MatchesExactly(paths, n);
    CountPairRecords(ms, i, j);
    IndexPairsIncreasing(ms, i, j);
    IncreasingCard(IndexPairs(ms, i, j));
    IndexPairsMembers(ms, i, j);
    var found := set e | e in IndexPairs(ms, i, j);
    forall e | e in CoincidentPairs(paths, i, j) ensures e in found {
      assert Match(i, j, e.0, e.1, paths[i][e.0]) in ms;
    }
    forall e | e in found ensures e in CoincidentPairs(paths, i, j) {
      var mt :| mt in ms && mt.i == i && mt.j == j && (mt.p, mt.q) == e;
      assert IsMatch(paths, mt);
    }
    assert found == CoincidentPairs(paths, i, j);
  }
}
