/**
 Floyd's tortoise-and-hare cycle detector (`willLoop`) over a finite
 functional graph: every node has at most one successor. The detector is
 generic in the node type, so it knows nothing of cells or boards; a board
 hands it the map from each cell to its `next` link.
 */
module Floyd {
  import opened Wrappers
  import Sets

  /** Every successor named by the map is itself a node of the map. */
  ghost predicate Closed<T>(next: map<T, Option<T>>) {
    forall x :: x in next && next[x].Some? ==> next[x].value in next
  }

  /** A chain reference is either null or a node of the graph. */
  predicate InGraph<T>(next: map<T, Option<T>>, o: Option<T>) {
    o.Some? ==> o.value in next
  }

  /** One link forward; null stays null. */
  function Step<T>(next: map<T, Option<T>>, o: Option<T>): (r: Option<T>)
    requires Closed(next) && InGraph(next, o)
    ensures InGraph(next, r)
    ensures o.None? ==> r.None?
  {
    match o
    case None => None
    case Some(x) => next[x]
  }

  /** The reference reached after following `n` links from `o`. */
  function Walk<T>(next: map<T, Option<T>>, o: Option<T>, n: nat): (r: Option<T>)
    requires Closed(next) && InGraph(next, o)
    ensures InGraph(next, r)
    decreases n
  {
    if n == 0 then o else Step(next, Walk(next, o, n - 1))
  }

  /** Following links from `first` never reaches null: the chain enters a cycle. */
  ghost predicate Loops<T>(next: map<T, Option<T>>, first: Option<T>)
    requires Closed(next) && InGraph(next, first)
  {
    forall n: nat :: Walk(next, first, n).Some?
  }

  /** A reference definition of the answer: trace as many links as there
      are nodes and see whether the chain is still alive. */
  function TraceLoops<T>(next: map<T, Option<T>>, first: Option<T>): bool
    requires Closed(next) && InGraph(next, first)
  {
    Walk(next, first, |next|).Some?
  }

  // ---------------------------------------------------------------------
  // Facts about walks
  // ---------------------------------------------------------------------

  /** Once a walk reaches null it stays there. */
  lemma {:induction false} NullAbsorbs<T>(next: map<T, Option<T>>, o: Option<T>, m: nat, n: nat)
    requires Closed(next) && InGraph(next, o)
    requires m <= n && Walk(next, o, m).None?
    ensures Walk(next, o, n).None?
    decreases n
  {
    if n > m {
      NullAbsorbs(next, o, m, n - 1);
    }
  }

  /** A walk alive after `n` links was alive at every earlier position. */
  lemma AliveBefore<T>(next: map<T, Option<T>>, o: Option<T>, m: nat, n: nat)
    requires Closed(next) && InGraph(next, o)
    requires m <= n && Walk(next, o, n).Some?
    ensures Walk(next, o, m).Some?
  {
    if Walk(next, o, m).None? {
      NullAbsorbs(next, o, m, n);
    }
  }

  /** Walking `a + b` links is walking `a` links and then `b` more. */
  lemma {:induction false} WalkAdd<T>(next: map<T, Option<T>>, o: Option<T>, a: nat, b: nat)
    requires Closed(next) && InGraph(next, o)
    ensures Walk(next, o, a + b) == Walk(next, Walk(next, o, a), b)
    decreases b
  {
    if b > 0 {
      WalkAdd(next, o, a, b - 1);
    }
  }

  /** Two positions of the walk that hold the same node stay in step. */
  lemma WalkShift<T>(next: map<T, Option<T>>, o: Option<T>, a: nat, b: nat, i: nat)
    requires Closed(next) && InGraph(next, o)
    requires Walk(next, o, a) == Walk(next, o, b)
    ensures Walk(next, o, a + i) == Walk(next, o, b + i)
  {
    WalkAdd(next, o, a, i);
    WalkAdd(next, o, b, i);
  }

  /** A repeat with period `p` starting at `a` repeats at every multiple of `p`. */
  lemma {:induction false} WalkPeriodic<T>(next: map<T, Option<T>>, o: Option<T>, a: nat, p: nat, m: nat, c: nat)
    requires Closed(next) && InGraph(next, o)
    requires Walk(next, o, a) == Walk(next, o, a + p)
    requires a <= m
    ensures Walk(next, o, m) == Walk(next, o, m + c * p)
    decreases c
  {
    if c > 0 {
      WalkPeriodic(next, o, a, p, m, c - 1);
      WalkShift(next, o, a, a + p, m + (c - 1) * p - a);
      assert m + c * p == m + (c - 1) * p + p;
    }
  }

  /** If the tortoise at step `j` meets the hare at step `2j` on a node, the
      chain never reaches null. */
  lemma MeetImpliesLoops<T>(next: map<T, Option<T>>, first: Option<T>, j: nat)
    requires Closed(next) && InGraph(next, first)
    requires j >= 1 && Walk(next, first, j).Some?
    requires Walk(next, first, j) == Walk(next, first, 2 * j)
    ensures Loops(next, first)
  {
    forall n: nat
      ensures Walk(next, first, n).Some?
    {
      MeetAliveAt(next, first, j, n);
    }
  }

  lemma {:induction false} MeetAliveAt<T>(next: map<T, Option<T>>, first: Option<T>, j: nat, n: nat)
    requires Closed(next) && InGraph(next, first)
    requires j >= 1 && Walk(next, first, j).Some?
    requires Walk(next, first, j) == Walk(next, first, 2 * j)
    ensures Walk(next, first, n).Some?
    decreases n
  {
    if n <= 2 * j {
      if Walk(next, first, n).None? {
        NullAbsorbs(next, first, n, 2 * j);
      }
    } else {
      WalkShift(next, first, j, 2 * j, n - 2 * j);
      MeetAliveAt(next, first, j, n - j);
    }
  }

  // ---------------------------------------------------------------------
  // Pigeonhole: a live walk of |next| links repeats a node
  // ---------------------------------------------------------------------

  /** The nodes the walk visits in its first `n + 1` positions. */
  ghost function WalkNodes<T>(next: map<T, Option<T>>, first: Option<T>, n: nat): (s: set<T>)
    requires Closed(next) && InGraph(next, first)
    requires Walk(next, first, n).Some?
    ensures s <= next.Keys
    decreases n
  {
    if n == 0 then assert Walk(next, first, 0) == first; {first.value}
    else
      AliveBefore(next, first, n - 1, n);
      WalkNodes(next, first, n - 1) + {Walk(next, first, n).value}
  }

  /** Every node of the walk prefix sits at some position of the walk. */
  lemma {:induction false} WalkNodesAt<T>(next: map<T, Option<T>>, first: Option<T>, n: nat, x: T) returns (i: nat)
    requires Closed(next) && InGraph(next, first)
    requires Walk(next, first, n).Some? && x in WalkNodes(next, first, n)
    ensures i <= n && Walk(next, first, i) == Some(x)
    decreases n
  {
    if n == 0 {
      i := 0;
    } else {
      AliveBefore(next, first, n - 1, n);
      if x == Walk(next, first, n).value {
        i := n;
      } else {
        i := WalkNodesAt(next, first, n - 1, x);
      }
    }
  }

  /** Either the first `n + 1` positions repeat a node, or they visit
      `n + 1` distinct nodes. */
  lemma {:induction false} RepeatOrDistinct<T>(next: map<T, Option<T>>, first: Option<T>, n: nat)
    requires Closed(next) && InGraph(next, first)
    requires Walk(next, first, n).Some?
    ensures (exists a, b :: 0 <= a < b <= n && Walk(next, first, a) == Walk(next, first, b))
            || |WalkNodes(next, first, n)| == n + 1
    decreases n
  {
    if n > 0 {
      AliveBefore(next, first, n - 1, n);
      RepeatOrDistinct(next, first, n - 1);
      var x := Walk(next, first, n).value;
      var prev := WalkNodes(next, first, n - 1);
      assert WalkNodes(next, first, n) == prev + {x};
      if x in prev {
        var i := WalkNodesAt(next, first, n - 1, x);
        assert Walk(next, first, i) == Walk(next, first, n);
      } else {
        assert |prev + {x}| == |prev| + 1;
      }
    }
  }

  /** A positive multiple of `p` inside the window `[lo, lo + p)`. */
  lemma {:induction false} MultipleInWindow(p: nat, lo: nat) returns (c: nat)
    requires p > 0 && lo >= 1
    ensures c >= 1 && lo <= c * p < lo + p
    decreases lo
  {
    if lo <= p {
      c := 1;
    } else {
      var c' := MultipleInWindow(p, lo - p);
      c := c' + 1;
      assert c * p == c' * p + p;
    }
  }

  /** If the walk is still alive after |next| links, the tortoise and the
      hare meet at some step `j` with `1 <= j <= |next|`. */
  lemma MeetWithin<T>(next: map<T, Option<T>>, first: Option<T>)
    requires Closed(next) && InGraph(next, first)
    requires Walk(next, first, |next|).Some?
    ensures exists j :: 1 <= j <= |next| && Walk(next, first, j) == Walk(next, first, 2 * j)
  {
    var n := |next|;
    RepeatOrDistinct(next, first, n);
    Sets.SubsetCard(WalkNodes(next, first, n), next.Keys);
    var a, b :| 0 <= a < b <= n && Walk(next, first, a) == Walk(next, first, b);
    var j := MeetFromRepeat(next, first, a, b);
  }

  /** A repeat at positions `a < b` yields a meeting step `j <= b`. */
  lemma MeetFromRepeat<T>(next: map<T, Option<T>>, first: Option<T>, a: nat, b: nat) returns (j: nat)
    requires Closed(next) && InGraph(next, first)
    requires a < b && Walk(next, first, a) == Walk(next, first, b)
    ensures 1 <= j <= b && Walk(next, first, j) == Walk(next, first, 2 * j)
  {
    var p := b - a;
    var lo := if a == 0 then 1 else a;
    var c := MultipleInWindow(p, lo);
    j := c * p;
    WalkPeriodic(next, first, a, p, j, c);
    assert j + c * p == 2 * j;
  }

  /** A chain that revisits a node never reaches null. */
  lemma RepeatImpliesLoops<T>(next: map<T, Option<T>>, first: Option<T>, a: nat, b: nat)
    requires Closed(next) && InGraph(next, first)
    requires a < b && Walk(next, first, b).Some?
    requires Walk(next, first, a) == Walk(next, first, b)
    ensures Loops(next, first)
  {
    var j := MeetFromRepeat(next, first, a, b);
    AliveBefore(next, first, j, b);
    MeetImpliesLoops(next, first, j);
  }

  // ---------------------------------------------------------------------
  // The reference definition agrees with the infinite one
  // ---------------------------------------------------------------------

  /** Tracing |next| links decides whether the chain loops. */
  lemma TraceLoopsCorrect<T>(next: map<T, Option<T>>, first: Option<T>)
    requires Closed(next) && InGraph(next, first)
    ensures TraceLoops(next, first) <==> Loops(next, first)
  {
    if TraceLoops(next, first) {
      MeetWithin(next, first);
      var j :| 1 <= j <= |next| && Walk(next, first, j) == Walk(next, first, 2 * j);
      if Walk(next, first, j).None? {
        NullAbsorbs(next, first, j, |next|);
      }
      MeetImpliesLoops(next, first, j);
    }
  }

  // ---------------------------------------------------------------------
  // The detector
  // ---------------------------------------------------------------------

  /** Floyd's algorithm: the tortoise takes one link per round and the hare
      two. Null under either means escape; the two on the same node means a
      loop. Apart from the answer it keeps only the two cursors; `k`, the
      number of rounds, is proof bookkeeping. */
  method WillLoop<T(==)>(next: map<T, Option<T>>, firstCell: Option<T>) returns (result: bool)
    requires Closed(next) && InGraph(next, firstCell)
    ensures firstCell.None? ==> !result
    ensures result <==> Loops(next, firstCell)
    ensures result == TraceLoops(next, firstCell)
  {
    TraceLoopsCorrect(next, firstCell);
    result := false;
    if firstCell.None? {
      assert Walk(next, firstCell, 0).None?;
      return;
    }
    var tortoise := firstCell.value;
    var hare := firstCell.value;
    ghost var k: nat := 0;
    while true
      invariant tortoise in next && hare in next
      invariant Walk(next, firstCell, k) == Some(tortoise)
      invariant Walk(next, firstCell, 2 * k) == Some(hare)
      invariant k < |next|
      invariant forall j :: 1 <= j <= k ==> Walk(next, firstCell, j) != Walk(next, firstCell, 2 * j)
      decreases |next| - k
    {
      var t := next[tortoise];
      assert Walk(next, firstCell, k + 1) == t;
      var hareNext := next[hare];
      assert Walk(next, firstCell, 2 * k + 1) == hareNext;
      if hareNext.None? {
        // escaped: the hare ran off the chain
        return;
      }
      var h := next[hareNext.value];
      assert Walk(next, firstCell, 2 * (k + 1)) == h;
      if t.None? || h.None? {
        // escaped: one of them hit the edge
        if t.None? {
          assert Walk(next, firstCell, k + 1).None?;
        }
        return;
      }
      if t == h {
        // looped
        MeetImpliesLoops(next, firstCell, k + 1);
        result := true;
        return;
      }
      if k + 1 >= |next| {
        NullAbsorbsContra(next, firstCell, k + 1);
      }
      tortoise, hare, k := t.value, h.value, k + 1;
    }
  }

  /** A walk alive for `m >= |next|` links with no meeting up to `m`
      cannot exist. */
  lemma NullAbsorbsContra<T>(next: map<T, Option<T>>, first: Option<T>, m: nat)
    requires Closed(next) && InGraph(next, first)
    requires m >= |next| && Walk(next, first, m).Some?
    ensures exists j :: 1 <= j <= m && Walk(next, first, j) == Walk(next, first, 2 * j)
  {
    if Walk(next, first, |next|).None? {
      NullAbsorbs(next, first, |next|, m);
    }
    MeetWithin(next, first);
  }

  // ---------------------------------------------------------------------
  // Edge cases of the detector
  // ---------------------------------------------------------------------

  /** A node whose own link is null does not loop. */
  lemma DeadEndDoesNotLoop<T>(next: map<T, Option<T>>, x: T)
    requires Closed(next) && x in next && next[x].None?
    ensures !Loops(next, Some(x))
  {
    assert Walk(next, Some(x), 1).None?;
  }

  /** A node whose link points to itself loops. */
  lemma SelfLoopLoops<T>(next: map<T, Option<T>>, x: T)
    requires Closed(next) && x in next && next[x] == Some(x)
    ensures Loops(next, Some(x))
  {
    assert Walk(next, Some(x), 1) == Some(x);
    assert Walk(next, Some(x), 2) == Some(x);
    MeetImpliesLoops(next, Some(x), 1);
  }
}
