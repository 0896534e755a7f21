/**
 * The per-cell particle id lists of the grid, as values: removal of the
 * first occurrence of an id, the incremental move of one id between cells,
 * bulk population, the candidate list gathered from a cell and its
 * neighbours, and the i < j pair enumeration over a candidate list.
 *
 * `home` is the sequence of the particles' cached grid indices, indexed by
 * particle id; `Membership` is the invariant tying it to the cell lists.
 */
module CellLists {
  import opened CellIndex

  // ---------------------------------------------------------------------
  // Removing an id from one list

  /** Erases the first occurrence of x, keeping the other entries in order. */
  function RemoveFirst(s: seq<int>, x: int): (r: seq<int>)
    ensures x !in s ==> r == s
    ensures x in s ==> |r| == |s| - 1
  {
    if s == [] then []
    else if s[0] == x then s[1..]
    else [s[0]] + RemoveFirst(s[1..], x)
  }

  /** Erasing x takes exactly one x out of the list when it is there. */
  lemma {:induction false} RemoveFirstMultiset(s: seq<int>, x: int)
    ensures multiset(RemoveFirst(s, x)) == if x in s then multiset(s) - multiset{x} else multiset(s)
  {
    if s != [] {
      assert s == [s[0]] + s[1..];
      if s[0] != x {
        RemoveFirstMultiset(s[1..], x);
      }
    }
  }

  /** When k is the first position of x, erasing x cuts exactly position k. */
  lemma {:induction false} RemoveFirstAt(s: seq<int>, x: int, k: int)
    requires 0 <= k < |s| && s[k] == x
    requires forall m :: 0 <= m < k ==> s[m] != x
    ensures RemoveFirst(s, x) == s[..k] + s[k + 1..]
  {
    if k > 0 {
      var tail := s[1..];
      RemoveFirstAt(tail, x, k - 1);
      calc {
        RemoveFirst(s, x);
        [s[0]] + RemoveFirst(tail, x);
        [s[0]] + (tail[..k - 1] + tail[k..]);
        { assert tail[..k - 1] == s[1..k] && tail[k..] == s[k + 1..]; }
        [s[0]] + (s[1..k] + s[k + 1..]);
        { assert s[..k] == [s[0]] + s[1..k]; }
        s[..k] + s[k + 1..];
      }
    }
  }

  // ---------------------------------------------------------------------
  // The membership invariant

  /**
   * Each particle id p sits exactly once in the cell home[p] and in no
   * other cell, or in no cell at all when home[p] is the sentinel; every
   * id in a list is a particle id.
   */
  ghost predicate Membership(cells: seq<seq<int>>, home: seq<int>)
  {
    && (forall p :: 0 <= p < |home| ==> home[p] == Outside || 0 <= home[p] < |cells|)
    && (forall c, x :: 0 <= c < |cells| && x in cells[c] ==> 0 <= x < |home|)
    && (forall c, p :: 0 <= c < |cells| && 0 <= p < |home| ==>
          multiset(cells[c])[p] == if home[p] == c then 1 else 0)
  }

  /** Under the invariant, an id found in a cell has that cell as its home. */
  lemma MembershipLocates(cells: seq<seq<int>>, home: seq<int>, c: int, x: int)
    requires Membership(cells, home)
    requires 0 <= c < |cells| && x in cells[c]
    ensures 0 <= x < |home| && home[x] == c
  {
    assert multiset(cells[c])[x] > 0;
  }

  /** An empty grid of n cells. */
  function EmptyCells(n: nat): (cells: seq<seq<int>>)
    ensures |cells| == n && forall c :: 0 <= c < n ==> cells[c] == []
  {
    seq(n, _ => [])
  }

  /** Particles that have never been placed (all sentinels) fit any empty grid. */
  lemma EmptyMembership(n: nat, home: seq<int>)
    requires forall p :: 0 <= p < |home| ==> home[p] == Outside
    ensures Membership(EmptyCells(n), home)
  {
  }

  /** Appending unplaced particles keeps the invariant. */
  lemma {:induction false} AppendUnplacedMembership(cells: seq<seq<int>>, home: seq<int>, extra: nat)
    requires Membership(cells, home)
    ensures Membership(cells, home + seq(extra, _ => Outside))
  {
    var home' := home + seq(extra, _ => Outside);
    forall c, p | 0 <= c < |cells| && 0 <= p < |home'|
      ensures multiset(cells[c])[p] == if home'[p] == c then 1 else 0
    {
      if p >= |home| {
        assert p !in cells[c];
      }
    }
  }

  // ---------------------------------------------------------------------
  // Moving one id between cells

  /**
   * `recomputeParticleIndex` on the lists: nothing when the new cell is the
   * given one; otherwise erase the id from the given cell when that cell
   * exists and append it to the new cell.
   */
  function RecomputeCells(cells: seq<seq<int>>, id: int, index: int, newIndex: int): (r: seq<seq<int>>)
    requires 0 <= newIndex < |cells|
    ensures |r| == |cells|
    ensures index == newIndex ==> r == cells
    ensures index != newIndex ==> r[newIndex] == cells[newIndex] + [id]
    ensures index != newIndex && 0 <= index < |cells| ==> r[index] == RemoveFirst(cells[index], id)
    ensures forall c :: 0 <= c < |cells| && c != index && c != newIndex ==> r[c] == cells[c]
  {
    if index == newIndex then cells
    else
      var removed := if 0 <= index < |cells| then cells[index := RemoveFirst(cells[index], id)] else cells;
      removed[newIndex := removed[newIndex] + [id]]
  }

  /** What moving an id does to the multiset of one cell's list. */
  lemma RecomputedCell(cells: seq<seq<int>>, id: int, index: int, newIndex: int, c: int)
    requires 0 <= newIndex < |cells| && index != newIndex && 0 <= c < |cells|
    ensures multiset(RecomputeCells(cells, id, index, newIndex)[c]) ==
      if c == newIndex then multiset(cells[c]) + multiset{id}
      else if c == index && id in cells[c] then multiset(cells[c]) - multiset{id}
      else multiset(cells[c])
  {
    if c == index {
      RemoveFirstMultiset(cells[c], id);
    }
  }

  /** After a move under the invariant, one cell's list still holds only particle ids. */
  lemma RecomputedCellIds(cells: seq<seq<int>>, home: seq<int>, id: int, newIndex: int, c: int)
    requires Membership(cells, home)
    requires 0 <= id < |home| && 0 <= newIndex < |cells| && home[id] != newIndex && 0 <= c < |cells|
    ensures forall x :: x in RecomputeCells(cells, id, home[id], newIndex)[c] ==> 0 <= x < |home|
  {
    var list := RecomputeCells(cells, id, home[id], newIndex)[c];
    RecomputedCell(cells, id, home[id], newIndex, c);
    forall x | x in list
      ensures 0 <= x < |home|
    {
      if x != id {
        assert multiset(list)[x] == multiset(cells[c])[x];
        assert x in cells[c];
      }
    }
  }

  /** After a move under the invariant, one cell's list holds each id as often as its new home says. */
  lemma RecomputedCellCounts(cells: seq<seq<int>>, home: seq<int>, id: int, newIndex: int, c: int)
    requires Membership(cells, home)
    requires 0 <= id < |home| && 0 <= newIndex < |cells| && home[id] != newIndex && 0 <= c < |cells|
    ensures forall p :: 0 <= p < |home| ==>
      multiset(RecomputeCells(cells, id, home[id], newIndex)[c])[p] == if home[id := newIndex][p] == c then 1 else 0
  {
    RecomputedCell(cells, id, home[id], newIndex, c);
  }

  /**
   * Moving an id with its cached home as the given cell keeps the invariant,
   * and the id's home becomes the new cell.
   */
  lemma RecomputePreservesMembership(cells: seq<seq<int>>, home: seq<int>, id: int, newIndex: int)
    requires Membership(cells, home)
    requires 0 <= id < |home| && 0 <= newIndex < |cells|
    ensures Membership(RecomputeCells(cells, id, home[id], newIndex), home[id := newIndex])
  {
    if home[id] != newIndex {
      forall c | 0 <= c < |cells|
        ensures forall x :: x in RecomputeCells(cells, id, home[id], newIndex)[c] ==> 0 <= x < |home|
        ensures forall p :: 0 <= p < |home| ==>
          multiset(RecomputeCells(cells, id, home[id], newIndex)[c])[p] == if home[id := newIndex][p] == c then 1 else 0
      {
        RecomputedCellIds(cells, home, id, newIndex, c);
        RecomputedCellCounts(cells, home, id, newIndex, c);
      }
    } else {
      assert home[id := newIndex] == home;
    }
  }

  // ---------------------------------------------------------------------
  // Bulk population

  /** `std::vector::resize`: keeps the first n lists, pads with empty lists. */
  function Resize(cells: seq<seq<int>>, n: nat): (r: seq<seq<int>>)
    ensures |r| == n
    ensures forall c :: 0 <= c < n && c < |cells| ==> r[c] == cells[c]
    ensures forall c :: |cells| <= c < n ==> r[c] == []
  {
    if |cells| >= n then cells[..n] else cells + seq(n - |cells|, _ => [])
  }

  /** Every placement names an existing cell. */
  ghost predicate PlacementsFit(idx: seq<int>, size: int)
  {
    forall p :: 0 <= p < |idx| ==> 0 <= idx[p] < size
  }

  /** The lists after appending ids[p] to cell idx[p] for p = 0 .. n-1, in order. */
  function Populated(cells: seq<seq<int>>, ids: seq<int>, idx: seq<int>, n: nat): (r: seq<seq<int>>)
    requires |ids| == |idx| && n <= |idx| && PlacementsFit(idx, |cells|)
    ensures |r| == |cells|
  {
    if n == 0 then cells
    else
      var before := Populated(cells, ids, idx, n - 1);
      before[idx[n - 1] := before[idx[n - 1]] + [ids[n - 1]]]
  }

  /** The number of the first n placements that put id x into cell c. */
  function Placed(ids: seq<int>, idx: seq<int>, n: nat, c: int, x: int): nat
    requires |ids| == |idx| && n <= |idx|
  {
    if n == 0 then 0
    else Placed(ids, idx, n - 1, c, x) + (if idx[n - 1] == c && ids[n - 1] == x then 1 else 0)
  }

  /** Population only adds: each cell gains exactly the ids placed into it. */
  lemma {:induction false} PopulatedCount(cells: seq<seq<int>>, ids: seq<int>, idx: seq<int>, n: nat, c: int, x: int)
    requires |ids| == |idx| && n <= |idx| && PlacementsFit(idx, |cells|)
    requires 0 <= c < |cells|
    ensures multiset(Populated(cells, ids, idx, n)[c])[x] == multiset(cells[c])[x] + Placed(ids, idx, n, c, x)
  {
    if n > 0 {
      PopulatedCount(cells, ids, idx, n - 1, c, x);
    }
  }

  /** With ids[p] == p, id x is placed into c once if x < n and idx[x] == c, and never otherwise. */
  lemma {:induction false} PlacedIdentity(ids: seq<int>, idx: seq<int>, n: nat, c: int, x: int)
    requires |ids| == |idx| && n <= |idx|
    requires forall p :: 0 <= p < |ids| ==> ids[p] == p
    ensures Placed(ids, idx, n, c, x) == if 0 <= x < n && idx[x] == c then 1 else 0
  {
    if n > 0 {
      PlacedIdentity(ids, idx, n - 1, c, x);
    }
  }

  /**
   * Populating an empty grid with ids[p] == p placed at idx[p] establishes
   * the invariant with idx as the homes.
   */
  lemma PopulateEmptyMembership(size: nat, ids: seq<int>, idx: seq<int>)
    requires |ids| == |idx| && PlacementsFit(idx, size)
    requires forall p :: 0 <= p < |ids| ==> ids[p] == p
    ensures Membership(Populated(EmptyCells(size), ids, idx, |idx|), idx)
  {
    var r := Populated(EmptyCells(size), ids, idx, |idx|);
    forall c, x | 0 <= c < size
      ensures multiset(r[c])[x] == if 0 <= x < |idx| && idx[x] == c then 1 else 0
    {
      PopulatedEmptyCount(size, ids, idx, c, x);
    }
    forall c, x | 0 <= c < size && x in r[c]
      ensures 0 <= x < |idx|
    {
      PopulatedEmptyCount(size, ids, idx, c, x);
    }
  }

  /** Per-cell count of an id after populating an empty grid with ids[p] == p. */
  lemma PopulatedEmptyCount(size: nat, ids: seq<int>, idx: seq<int>, c: int, x: int)
    requires |ids| == |idx| && PlacementsFit(idx, size)
    requires forall p :: 0 <= p < |ids| ==> ids[p] == p
    requires 0 <= c < size
    ensures multiset(Populated(EmptyCells(size), ids, idx, |idx|)[c])[x] ==
      if 0 <= x < |idx| && idx[x] == c then 1 else 0
  {
    PopulatedCount(EmptyCells(size), ids, idx, |idx|, c, x);
    PlacedIdentity(ids, idx, |idx|, c, x);
  }

  /**
   * Populating a grid that already holds the particles' ids (as after a
   * first population) puts particle 0 into its cell a second time, so the
   * invariant fails.
   */
  lemma RepopulateBreaksMembership(cells: seq<seq<int>>, ids: seq<int>, idx: seq<int>)
    requires Membership(cells, idx)
    requires |ids| == |idx| && |idx| > 0 && PlacementsFit(idx, |cells|)
    requires forall p :: 0 <= p < |ids| ==> ids[p] == p
    ensures !Membership(Populated(Resize(cells, |cells|), ids, idx, |idx|), idx)
  {
    var c := idx[0];
    assert Resize(cells, |cells|) == cells;
    PopulatedCount(cells, ids, idx, |idx|, c, 0);
    PlacedIdentity(ids, idx, |idx|, c, 0);
    assert multiset(Populated(cells, ids, idx, |idx|)[c])[0] == 2;
  }

  /**
   * Populating an empty grid twice over the same particles, as building a
   * grid and then populating it again does, breaks the invariant as soon
   * as there is a particle.
   */
  lemma PopulateTwiceBreaksMembership(size: nat, ids: seq<int>, idx: seq<int>)
    requires |ids| == |idx| && |idx| > 0 && PlacementsFit(idx, size)
    requires forall p :: 0 <= p < |ids| ==> ids[p] == p
    ensures !Membership(Populated(Populated(EmptyCells(size), ids, idx, |idx|), ids, idx, |idx|), idx)
  {
    var first := Populated(EmptyCells(size), ids, idx, |idx|);
    PopulateEmptyMembership(size, ids, idx);
    RepopulateBreaksMembership(first, ids, idx);
    assert Resize(first, |first|) == first;
  }

  // ---------------------------------------------------------------------
  // Candidate lists

  /** Every neighbour entry is the sentinel or an existing cell. */
  ghost predicate EntriesFit(nb: seq<int>, size: int)
  {
    forall n :: 0 <= n < |nb| ==> nb[n] == Outside || 0 <= nb[n] < size
  }

  /** The lists of the non-sentinel entries of nb, concatenated in table order. */
  function Gathered(cells: seq<seq<int>>, nb: seq<int>): seq<int>
    requires EntriesFit(nb, |cells|)
  {
    if nb == [] then []
    else
      var e := nb[|nb| - 1];
      Gathered(cells, nb[..|nb| - 1]) + (if e == Outside then [] else cells[e])
  }

  /** The candidate list of a cell: its own ids, then the ids of each neighbour cell. */
  function Candidates(cells: seq<seq<int>>, index: int, nb: seq<int>): seq<int>
    requires 0 <= index < |cells| && EntriesFit(nb, |cells|)
  {
    cells[index] + Gathered(cells, nb)
  }

  /** The total size of the lists named by the non-sentinel entries of nb. */
  function SizeSum(cells: seq<seq<int>>, nb: seq<int>): nat
    requires EntriesFit(nb, |cells|)
  {
    if nb == [] then 0
    else
      var e := nb[|nb| - 1];
      SizeSum(cells, nb[..|nb| - 1]) + (if e == Outside then 0 else |cells[e]|)
  }

  /** A candidate list is as long as the cell's list plus its neighbours' lists. */
  lemma {:induction false} CandidatesLength(cells: seq<seq<int>>, index: int, nb: seq<int>)
    requires 0 <= index < |cells| && EntriesFit(nb, |cells|)
    ensures |Candidates(cells, index, nb)| == |cells[index]| + SizeSum(cells, nb)
  {
    GatheredLength(cells, nb);
  }

  lemma {:induction false} GatheredLength(cells: seq<seq<int>>, nb: seq<int>)
    requires EntriesFit(nb, |cells|)
    ensures |Gathered(cells, nb)| == SizeSum(cells, nb)
  {
    if nb != [] {
      GatheredLength(cells, nb[..|nb| - 1]);
    }
  }

  /** The non-sentinel entries of nb are pairwise different. */
  ghost predicate EntriesDistinct(nb: seq<int>)
  {
    forall n, m :: 0 <= n < m < |nb| && nb[n] != Outside ==> nb[n] != nb[m]
  }

  /** Under the invariant, an id occurs in the gathered lists once if its home is listed in nb. */
  lemma {:induction false} GatheredCount(cells: seq<seq<int>>, home: seq<int>, nb: seq<int>, x: int)
    requires Membership(cells, home)
    requires EntriesFit(nb, |cells|) && EntriesDistinct(nb)
    ensures multiset(Gathered(cells, nb))[x] ==
      if 0 <= x < |home| && home[x] != Outside && home[x] in nb then 1 else 0
  {
    if nb != [] {
      var init, e := nb[..|nb| - 1], nb[|nb| - 1];
      assert nb == init + [e];
      GatheredCount(cells, home, init, x);
      if e != Outside {
        if !(0 <= x < |home|) {
          assert x !in cells[e];
        }
        forall n | 0 <= n < |init|
          ensures init[n] != e
        {
          assert nb[n] == init[n];
          if init[n] != Outside {
            assert nb[n] != nb[|nb| - 1];
          }
        }
        assert e !in init;
      }
    }
  }

  /**
   * When the neighbour entries are distinct and never the cell itself, no
   * id occurs twice in the cell's candidate list.
   */
  lemma CandidatesUnique(cells: seq<seq<int>>, home: seq<int>, index: int, nb: seq<int>, x: int)
    requires Membership(cells, home)
    requires 0 <= index < |cells| && EntriesFit(nb, |cells|) && EntriesDistinct(nb)
    requires index !in nb
    ensures multiset(Candidates(cells, index, nb))[x] <= 1
  {
    GatheredCount(cells, home, nb, x);
    if multiset(cells[index])[x] > 0 {
      assert x in cells[index];
      MembershipLocates(cells, home, index, x);
    }
  }

  /** A list in which nothing occurs twice has different entries at different positions. */
  lemma DistinctPositions(s: seq<int>, a: int, b: int)
    requires forall x :: multiset(s)[x] <= 1
    requires 0 <= a < b < |s|
    ensures s[a] != s[b]
  {
    assert s == s[..a] + [s[a]] + s[a + 1..b] + [s[b]] + s[b + 1..];
    assert multiset(s)[s[a]] >= 1 + (if s[b] == s[a] then 1 else 0);
  }

  // ---------------------------------------------------------------------
  // Pair enumeration

  /** The pairs (i, i+1), ..., (i, j-1) visited by the inner loop. */
  function Row(i: int, j: int): (r: seq<(int, int)>)
    decreases j - i
  {
    if j <= i + 1 then [] else Row(i, j - 1) + [(i, j - 1)]
  }

  /** All pairs visited by the outer loop's first i rounds over n candidates. */
  function PairsBelow(n: int, i: int): seq<(int, int)>
    decreases i
  {
    if i <= 0 then [] else PairsBelow(n, i - 1) + Row(i - 1, n)
  }

  /** Lexicographic order of positions pairs. */
  predicate LexLess(p: (int, int), q: (int, int))
  {
    p.0 < q.0 || (p.0 == q.0 && p.1 < q.1)
  }

  lemma {:induction false} RowShape(i: int, j: int)
    decreases j - i
    ensures |Row(i, j)| == if j <= i + 1 then 0 else j - i - 1
    ensures forall u :: 0 <= u < |Row(i, j)| ==> Row(i, j)[u] == (i, i + 1 + u)
  {
    if j > i + 1 {
      RowShape(i, j - 1);
    }
  }

  /** Pairs visited in the first i rounds have first position below i and second above the first, below n. */
  lemma {:induction false} PairsBelowBounds(n: int, i: int)
    requires 0 <= i <= n
    ensures forall u :: 0 <= u < |PairsBelow(n, i)| ==>
      0 <= PairsBelow(n, i)[u].0 < i && PairsBelow(n, i)[u].0 < PairsBelow(n, i)[u].1 < n
  {
    if i > 0 {
      PairsBelowBounds(n, i - 1);
      RowShape(i - 1, n);
    }
  }

  /** The pairs come in strictly increasing lexicographic order. */
  lemma {:induction false} PairsBelowSorted(n: int, i: int)
    requires 0 <= i <= n
    ensures forall u, v :: 0 <= u < v < |PairsBelow(n, i)| ==> LexLess(PairsBelow(n, i)[u], PairsBelow(n, i)[v])
  {
    if i > 0 {
      PairsBelowSorted(n, i - 1);
      PairsBelowBounds(n, i - 1);
      RowShape(i - 1, n);
      var prev, row := PairsBelow(n, i - 1), Row(i - 1, n);
      var all := PairsBelow(n, i);
      assert all == prev + row;
      forall u, v | 0 <= u < v < |all|
        ensures LexLess(all[u], all[v])
      {
        if v < |prev| {
          assert all[u] == prev[u] && all[v] == prev[v];
        } else if u < |prev| {
          assert all[u] == prev[u] && all[v] == row[v - |prev|];
        } else {
          assert all[u] == row[u - |prev|] && all[v] == row[v - |prev|];
        }
      }
    }
  }

  /** Round i - 1 visits (i - 1, b) for every b above it. */
  lemma PairInLastRow(n: int, i: int, b: int)
    requires 0 < i <= n && i - 1 < b < n
    ensures (i - 1, b) in PairsBelow(n, i)
  {
    RowShape(i - 1, n);
    var prev := PairsBelow(n, i - 1);
    assert PairsBelow(n, i)[|prev| + b - i] == (i - 1, b);
  }

  /** A single pair (a, b) with a < i and a < b < n has been visited in the first i rounds. */
  lemma {:induction false} PairBelow(n: int, i: int, a: int, b: int)
    requires 0 <= a < i <= n && a < b < n
    ensures (a, b) in PairsBelow(n, i)
  {
    if a == i - 1 {
      PairInLastRow(n, i, b);
    } else {
      PairBelow(n, i - 1, a, b);
      assert PairsBelow(n, i) == PairsBelow(n, i - 1) + Row(i - 1, n);
    }
  }

  /** Every ordered pair with first position below i has been visited in the first i rounds. */
  lemma PairsBelowComplete(n: int, i: int)
    requires 0 <= i <= n
    ensures forall a, b :: 0 <= a < i && a < b < n ==> (a, b) in PairsBelow(n, i)
  {
    forall a, b | 0 <= a < i && a < b < n
      ensures (a, b) in PairsBelow(n, i)
    {
      PairBelow(n, i, a, b);
    }
  }

  /** Twice the number of pairs visited in the first i rounds is i * (2n - i - 1). */
  lemma {:induction false} PairsBelowLength(n: int, i: int)
    requires 0 <= i <= n
    ensures 2 * |PairsBelow(n, i)| == i * (2 * n - i - 1)
  {
    if i > 0 {
      PairsBelowLength(n, i - 1);
      RowShape(i - 1, n);
      assert |PairsBelow(n, i)| == |PairsBelow(n, i - 1)| + (n - i);
      assert (i - 1) * (2 * n - (i - 1) - 1) + 2 * (n - i) == i * (2 * n - i - 1);
    }
  }

  /**
   * The pair loop over n candidates visits exactly the position pairs
   * i < j, each once (in strictly increasing order), n*(n-1)/2 in all.
   */
  lemma AllPairsOnce(n: nat)
    ensures forall a, b :: (a, b) in PairsBelow(n, n) <==> 0 <= a < b < n
    ensures forall u, v :: 0 <= u < v < |PairsBelow(n, n)| ==> PairsBelow(n, n)[u] != PairsBelow(n, n)[v]
    ensures 2 * |PairsBelow(n, n)| == n * (n - 1)
  {
    PairsBelowBounds(n, n);
    PairsBelowSorted(n, n);
    PairsBelowComplete(n, n);
    PairsBelowLength(n, n);
    forall u, v | 0 <= u < v < |PairsBelow(n, n)|
      ensures PairsBelow(n, n)[u] != PairsBelow(n, n)[v]
    {
      assert LexLess(PairsBelow(n, n)[u], PairsBelow(n, n)[v]);
    }
  }
}
