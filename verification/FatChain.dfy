/** Cluster chains: following links, and why counting clusters detects exactly the cyclic chains. */
module FatChain {
  import opened Options
  import opened Machine
  import opened Disk
  import opened FatFormat

  /** The cluster n links after first, if the chain gets that far. */
  function Follow(d: Medium, g: Geometry, first: Word, n: nat): (r: Option<Word>)
    requires g.bytesPerSector != 0
    ensures r.Some? ==> ValidCluster(g, r.value)
    decreases n
  {
    if n == 0 then
      if ValidCluster(g, first) then Some(first) else None
    else
      match Follow(d, g, first, n - 1)
      case None => None
      case Some(c) =>
        match LinkOf(d, g, c)
        case Next(x) => Some(x)
        case _ => None
  }

  /** Some cluster occurs twice. */
  ghost predicate Cyclic(d: Medium, g: Geometry, first: Word)
    requires g.bytesPerSector != 0
  {
    exists i: nat, j: nat :: i < j && Follow(d, g, first, j).Some? && Follow(d, g, first, i) == Follow(d, g, first, j)
  }

  ghost predicate Endless(d: Medium, g: Geometry, first: Word)
    requires g.bytesPerSector != 0
  {
    forall n: nat :: Follow(d, g, first, n).Some?
  }

  lemma {:induction false} FollowPrefix(d: Medium, g: Geometry, first: Word, m: nat, n: nat)
    requires g.bytesPerSector != 0 && m <= n && Follow(d, g, first, n).Some?
    ensures Follow(d, g, first, m).Some?
    decreases n
  {
    if m < n {
      FollowPrefix(d, g, first, m, n - 1);
    }
  }

  lemma {:induction false} FollowOn(d: Medium, g: Geometry, first: Word, n: nat, m: nat)
    requires g.bytesPerSector != 0 && Follow(d, g, first, n).Some?
    ensures Follow(d, g, Follow(d, g, first, n).value, m) == Follow(d, g, first, n + m)
    decreases m
  {
    hide LinkOf;
    if m > 0 {
      FollowOn(d, g, first, n, m - 1);
      assert n + m - 1 == n + (m - 1);
    }
  }

  lemma {:induction false} CycleNeverEnds(d: Medium, g: Geometry, first: Word, i: nat, j: nat, n: nat)
    requires g.bytesPerSector != 0 && i < j && Follow(d, g, first, j).Some?
    requires Follow(d, g, first, i) == Follow(d, g, first, j)
    ensures Follow(d, g, first, n).Some?
    decreases n
  {
    hide LinkOf;
    if n <= j {
      FollowPrefix(d, g, first, n, j);
    } else {
      var back := n - (j - i);
      CycleNeverEnds(d, g, first, i, j, back);
      FollowOn(d, g, first, i, back - i);
      FollowOn(d, g, first, j, n - j);
    }
  }

  // ---------------------------------------------------------- pigeonhole

  ghost predicate Distinct(s: seq<int>) {
    forall i, j :: 0 <= i < j < |s| ==> s[i] != s[j]
  }

  lemma {:induction false} DistinctFits(s: seq<int>, m: nat)
    requires Distinct(s) && forall k :: 0 <= k < |s| ==> 0 <= s[k] < m
    ensures |s| <= m
    decreases m
  {
    if |s| > 0 {
      assert 0 <= s[0] < m;
      if k :| 0 <= k < |s| && s[k] == m - 1 {
        var rest := s[..k] + s[k + 1..];
        forall i | 0 <= i < |rest| ensures rest[i] == s[if i < k then i else i + 1] {}
        assert Distinct(rest);
        DistinctFits(rest, m - 1);
      } else {
        DistinctFits(s, m - 1);
      }
    }
  }

  /** The chain of more clusters than the volume has contains one of them twice. */
  lemma TooLongIsCyclic(d: Medium, g: Geometry, first: Word)
    requires g.bytesPerSector != 0 && Follow(d, g, first, g.clusterCount).Some?
    ensures Cyclic(d, g, first)
  {
    hide LinkOf, Follow;
    var n := g.clusterCount;
    forall k: nat | k <= n ensures Follow(d, g, first, k).Some? {
      FollowPrefix(d, g, first, k, n);
    }
    var s: seq<int> := seq(n + 1, k requires 0 <= k < n + 1 => Follow(d, g, first, k).value - 2);
    if Distinct(s) {
      DistinctFits(s, n);
      assert false;
    }
    var i, j :| 0 <= i < j < |s| && s[i] == s[j];
    assert Follow(d, g, first, i) == Follow(d, g, first, j);
  }

  /** A chain outlasts the volume's cluster count exactly when it is cyclic, exactly when it never ends. */
  lemma LoopGuardIsExact(d: Medium, g: Geometry, first: Word)
    requires g.bytesPerSector != 0
    ensures Follow(d, g, first, g.clusterCount).Some? <==> Cyclic(d, g, first)
    ensures Cyclic(d, g, first) <==> Endless(d, g, first)
  {
    if Follow(d, g, first, g.clusterCount).Some? {
      TooLongIsCyclic(d, g, first);
    }
    if Cyclic(d, g, first) {
      var i: nat, j: nat :| i < j && Follow(d, g, first, j).Some? && Follow(d, g, first, i) == Follow(d, g, first, j);
      forall n: nat ensures Follow(d, g, first, n).Some? {
        CycleNeverEnds(d, g, first, i, j, n);
      }
    }
  }

  // --------------------------------------------------------------- walks

  /** The clusters a walk of at most budget clusters visits from a valid cluster. */
  function Visited(d: Medium, g: Geometry, cluster: Word, budget: nat): (cs: seq<Word>)
    requires g.bytesPerSector != 0
    ensures |cs| <= budget
    decreases budget
  {
    if budget == 0 then []
    else
      [cluster] + match LinkOf(d, g, cluster)
                  case Next(x) => Visited(d, g, x, budget - 1)
                  case _ => []
  }

  /** How that walk ends: at an end mark, at a bad link, or out of budget. */
  function WalkEnd(d: Medium, g: Geometry, cluster: Word, budget: nat): Status
    requires g.bytesPerSector != 0
    decreases budget
  {
    if budget == 0 then ELOOP
    else
      match LinkOf(d, g, cluster)
      case Next(x) => WalkEnd(d, g, x, budget - 1)
      case End => OK
      case Bad => EBADFS
  }

  /** A walk visits the chain in order. */
  lemma {:induction false} VisitedFollows(d: Medium, g: Geometry, cluster: Word, budget: nat)
    requires g.bytesPerSector != 0 && ValidCluster(g, cluster)
    ensures forall k :: 0 <= k < |Visited(d, g, cluster, budget)| ==>
                          Follow(d, g, cluster, k) == Some(Visited(d, g, cluster, budget)[k])
    decreases budget
  {
    hide LinkOf;
    if budget > 0 {
      var link := LinkOf(d, g, cluster);
      assert Follow(d, g, cluster, 0) == Some(cluster);
      if link.Next? {
        var x := link.cluster;
        assert Follow(d, g, cluster, 1) == Some(x);
        AfterLink(d, g, cluster, x);
        VisitedFollows(d, g, x, budget - 1);
        forall k | 0 <= k < |Visited(d, g, cluster, budget)|
          ensures Follow(d, g, cluster, k) == Some(Visited(d, g, cluster, budget)[k])
        {
          if k > 0 {
            FollowOn(d, g, cluster, 1, k - 1);
          }
        }
      }
    }
  }

  lemma AfterLink(d: Medium, g: Geometry, cluster: Word, x: Word)
    requires g.bytesPerSector != 0 && LinkOf(d, g, cluster) == Next(x)
    ensures ValidCluster(g, x)
  {
  }

  /** It runs out of budget exactly when the chain goes on past it. */
  lemma {:induction false} WalkEndFollows(d: Medium, g: Geometry, cluster: Word, budget: nat)
    requires g.bytesPerSector != 0 && ValidCluster(g, cluster)
    ensures WalkEnd(d, g, cluster, budget) == ELOOP <==> Follow(d, g, cluster, budget).Some?
    ensures WalkEnd(d, g, cluster, budget) == ELOOP ==> |Visited(d, g, cluster, budget)| == budget
    decreases budget
  {
    hide LinkOf;
    if budget > 0 {
      var link := LinkOf(d, g, cluster);
      assert Follow(d, g, cluster, 0) == Some(cluster);
      if link.Next? {
        assert Follow(d, g, cluster, 1) == Some(link.cluster);
        AfterLink(d, g, cluster, link.cluster);
        WalkEndFollows(d, g, link.cluster, budget - 1);
        FollowOn(d, g, cluster, 1, budget - 1);
      } else {
        assert Follow(d, g, cluster, 1) == None;
        if Follow(d, g, cluster, budget).Some? {
          FollowPrefix(d, g, cluster, 1, budget);
        }
      }
    }
  }

  /** A walk that reaches the end of the chain within its budget ends as the last link says. */
  lemma {:induction false} WalkEndsAt(d: Medium, g: Geometry, cluster: Word, budget: nat, n: nat)
    requires g.bytesPerSector != 0 && ValidCluster(g, cluster) && n < budget && Follow(d, g, cluster, n).Some?
    requires !LinkOf(d, g, Follow(d, g, cluster, n).value).Next?
    ensures WalkEnd(d, g, cluster, budget)
            == if LinkOf(d, g, Follow(d, g, cluster, n).value) == End then OK else EBADFS
    decreases n
  {
    hide LinkOf;
    assert Follow(d, g, cluster, 0) == Some(cluster);
    if n > 0 {
      FollowPrefix(d, g, cluster, 1, n);
      var x := LinkOf(d, g, cluster).cluster;
      AfterLink(d, g, cluster, x);
      FollowOn(d, g, cluster, 1, n - 1);
      WalkEndsAt(d, g, x, budget - 1, n - 1);
    }
  }

  /** With the volume's cluster count as budget, the walk loops exactly on cyclic chains. */
  lemma WalkLoopsIffCyclic(d: Medium, g: Geometry, cluster: Word)
    requires g.bytesPerSector != 0 && ValidCluster(g, cluster)
    ensures WalkEnd(d, g, cluster, g.clusterCount) == ELOOP <==> Cyclic(d, g, cluster)
  {
    WalkEndFollows(d, g, cluster, g.clusterCount);
    LoopGuardIsExact(d, g, cluster);
  }
}
