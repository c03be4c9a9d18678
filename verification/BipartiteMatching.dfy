/**
 The maximum bipartite matching behind UnorderedElementsAre: a depth-first search for
 augmenting paths that tries each left node once, in place on two vectors that are each
 other's inverse. The result is a matching of maximum size.
 */
module BipartiteMatching {

  const UNUSED := -1

  datatype MatchMatrix = MatchMatrix(lhs: nat, rhs: nat, edges: seq<seq<bool>>) {
    predicate Valid() {
      |edges| == lhs && forall l :: 0 <= l < lhs ==> |edges[l]| == rhs
    }

    predicate HasEdge(l: nat, r: nat)
      requires Valid() && l < lhs && r < rhs
    {
      edges[l][r]
    }

    /** All right nodes adjacent to l lie in s. */
    ghost predicate NeighboursIn(l: nat, s: set<nat>)
      requires Valid() && l < lhs
    {
      forall r: nat :: r < rhs && HasEdge(l, r) ==> r in s
    }
  }

  /** left and right are mutually referent along edges; `hole` excuses one right node. */
  ghost predicate Linked(g: MatchMatrix, left: seq<int>, right: seq<int>, hole: int) {
    && g.Valid() && |left| == g.lhs && |right| == g.rhs
    && (forall l: nat :: l < g.lhs && left[l] != UNUSED ==>
          0 <= left[l] < g.rhs && right[left[l]] == l && g.HasEdge(l, left[l]))
    && (forall r: nat :: r < g.rhs && right[r] != UNUSED ==>
          0 <= right[r] < g.lhs && (r != hole ==> left[right[r]] == r))
  }

  function Marked(seen: seq<bool>): (s: set<nat>) {
    set r: nat | r < |seen| && seen[r]
  }

  function Unmarked(seen: seq<bool>): (s: set<nat>) {
    set r: nat | r < |seen| && !seen[r]
  }

  /** Matched right nodes from which the search can never leave: the partners of D have
      all their neighbours in D. */
  ghost predicate DeadEnd(g: MatchMatrix, right: seq<int>, d: set<nat>)
    requires g.Valid() && |right| == g.rhs
  {
    forall r :: r in d ==> r < g.rhs && 0 <= right[r] < g.lhs && g.NeighboursIn(right[r], d)
  }

  /** What a failed search has established about the nodes it marked. */
  ghost predicate Explored(g: MatchMatrix, right: seq<int>, before: set<nat>, after: set<nat>)
    requires g.Valid() && |right| == g.rhs
  {
    && before <= after
    && forall r :: r in after && r !in before ==>
         r < g.rhs && 0 <= right[r] < g.lhs && g.NeighboursIn(right[r], after)
  }

  /** What a search from l leaves alone: the nodes marked before it, the dead ends, the
      other free left nodes; and no left node loses its partner. */
  ghost predicate Kept(left: seq<int>, right: seq<int>, left': seq<int>, right': seq<int>,
                       l: nat, marked: set<nat>, dead: set<nat>)
  {
    && |left'| == |left| && |right'| == |right|
    && (forall r :: r in marked || r in dead ==> r < |right| ==> right'[r] == right[r])
    && (forall k: nat :: k < |left| && k != l && (left[k] < 0 || left[k] in marked) ==> left'[k] == left[k])
    && (forall k: nat :: k < |left| && left[k] != UNUSED ==> left'[k] != UNUSED)
  }

  /** Taking a free right node. */
  lemma LinkFree(g: MatchMatrix, left: seq<int>, right: seq<int>, l: nat, r: nat, marked: set<nat>, dead: set<nat>)
    requires Linked(g, left, right, UNUSED) && l < g.lhs && r < g.rhs && g.HasEdge(l, r)
    requires right[r] == UNUSED && r !in marked && DeadEnd(g, right, dead)
    ensures Linked(g, left[l := r], right[r := l], left[l])
    ensures Kept(left, right, left[l := r], right[r := l], l, marked, dead)
  {
  }

  /** Taking over a right node whose partner has found another one. */
  lemma LinkTaken(g: MatchMatrix, left: seq<int>, right: seq<int>, left': seq<int>, right': seq<int>,
                  l: nat, r: nat, marked: set<nat>, dead: set<nat>)
    requires Linked(g, left, right, UNUSED) && l < g.lhs && r < g.rhs && g.HasEdge(l, r)
    requires right[r] != UNUSED && r !in marked && r !in dead
    requires left[l] != UNUSED ==> left[l] in marked
    requires Linked(g, left', right', r) && left'[right[r]] != UNUSED && left'[right[r]] !in marked + {r}
    requires Kept(left, right, left', right', right[r], marked + {r}, dead)
    ensures Linked(g, left'[l := r], right'[r := l], left[l])
    ensures Kept(left, right, left'[l := r], right'[r := l], l, marked, dead)
  {
    var p := right[r];
    assert left[p] == r && p != l;
    assert left'[l] == left[l];
    assert right'[r] == p;
  }

  lemma DeadEndKept(g: MatchMatrix, right: seq<int>, right': seq<int>, dead: set<nat>)
    requires g.Valid() && |right| == |right'| == g.rhs && DeadEnd(g, right, dead)
    requires forall r :: r in dead ==> r < g.rhs && right'[r] == right[r]
    ensures DeadEnd(g, right', dead)
  {
  }

  lemma DeadEndGrows(g: MatchMatrix, right: seq<int>, dead: set<nat>, marked: set<nat>)
    requires g.Valid() && |right| == g.rhs && DeadEnd(g, right, dead) && Explored(g, right, {}, marked)
    ensures DeadEnd(g, right, dead + marked)
  {
  }

  class MaxBipartiteMatchState {
    const g: MatchMatrix
    const left: array<int>
    const right: array<int>

    constructor (g: MatchMatrix)
      requires g.Valid()
      ensures this.g == g && fresh(left) && fresh(right) && left != right
      ensures left.Length == g.lhs && right.Length == g.rhs
      ensures forall l :: 0 <= l < g.lhs ==> left[l] == UNUSED
      ensures forall r :: 0 <= r < g.rhs ==> right[r] == UNUSED
    {
      this.g := g;
      left := new int[g.lhs](_ => UNUSED);
      right := new int[g.rhs](_ => UNUSED);
    }

    ghost predicate Shaped() {
      g.Valid() && left.Length == g.lhs && right.Length == g.rhs && left != right
    }

    /** Depth-first search from left node l for a free right node; `dead` is what earlier
        failed searches have ruled out. */
    method TryAugment(l: nat, seen: array<bool>, ghost dead: set<nat>) returns (found: bool)
      requires Shaped() && l < g.lhs && seen.Length == g.rhs
      requires Linked(g, left[..], right[..], UNUSED)
      requires left[l] != UNUSED ==> left[l] in Marked(seen[..])
      requires DeadEnd(g, right[..], dead)
      modifies left, right, seen
      ensures Marked(old(seen[..])) <= Marked(seen[..])
      ensures if found then Augmented(l, old(left[..]), old(right[..]), Marked(old(seen[..])), dead)
              else left[..] == old(left[..]) && right[..] == old(right[..])
      ensures !found ==> g.NeighboursIn(l, Marked(seen[..]))
      ensures !found ==> Explored(g, right[..], Marked(old(seen[..])), Marked(seen[..]))
      ensures g.NeighboursIn(l, dead) ==> !found
      decreases Unmarked(seen[..]), 1
    {
      for r := 0 to g.rhs
        invariant left[..] == old(left[..]) && right[..] == old(right[..])
        invariant Marked(old(seen[..])) <= Marked(seen[..])
        invariant forall k: nat :: k < r && g.HasEdge(l, k) ==> k in Marked(seen[..])
        invariant Explored(g, right[..], Marked(old(seen[..])), Marked(seen[..]))
      {
        if seen[r] { continue; }
        if !g.HasEdge(l, r) { continue; }
        UnmarkedShrinks(old(seen[..]), seen[..]);
        found := TryEdge(l, r, seen, dead);
        if found { return; }
      }
      return false;
    }

    /** The main loop: one search from each left node. The dead ends of the failed ones
        hold every neighbour of every node left without partner. */
    method Augment() returns (ghost dead: set<nat>)
      requires Shaped()
      requires forall l :: 0 <= l < g.lhs ==> left[l] == UNUSED
      requires forall r :: 0 <= r < g.rhs ==> right[r] == UNUSED
      modifies left, right
      ensures Linked(g, left[..], right[..], UNUSED) && DeadEnd(g, right[..], dead)
      ensures forall l: nat :: l < g.lhs && left[l] == UNUSED ==> g.NeighboursIn(l, dead)
    {
      dead := {};
      for l := 0 to g.lhs
        invariant Linked(g, left[..], right[..], UNUSED) && DeadEnd(g, right[..], dead)
        invariant forall k: nat :: k < l && left[k] == UNUSED ==> g.NeighboursIn(k, dead)
        invariant forall k: nat :: l <= k < g.lhs ==> left[k] == UNUSED
      {
        assert left[l] == UNUSED;
        var seen := new bool[g.rhs](_ => false);
        assert Marked(seen[..]) == {};
        ghost var left0, right0 := left[..], right[..];
        var found := TryAugment(l, seen, dead);
        if found {
          DeadEndKept(g, right0, right[..], dead);
        } else {
          DeadEndGrows(g, right[..], dead, Marked(seen[..]));
          dead := dead + Marked(seen[..]);
        }
      }
    }

    method Collect() returns (pairs: seq<(nat, nat)>)
      requires Shaped() && Linked(g, left[..], right[..], UNUSED)
      ensures pairs == PairsOf(left[..], g.lhs) && IsMatching(g, ToSet(pairs))
    {
      pairs := [];
      for l := 0 to g.lhs
        invariant pairs == PairsOf(left[..], l)
      {
        var r := left[l];
        if r == UNUSED { continue; }
        pairs := pairs + [(l, r)];
      }
    }

    /** A path was found: l now has a partner and the links are mutual again, except for
        the right node l came from. */
    ghost predicate Augmented(l: nat, left0: seq<int>, right0: seq<int>, marked: set<nat>, dead: set<nat>)
      reads left, right
    {
      && l < |left0| == left.Length
      && left[l] != UNUSED && left[l] !in marked
      && Linked(g, left[..], right[..], left0[l])
      && Kept(left0, right0, left[..], right[..], l, marked, dead)
    }

    /** One edge of the search: take r if it is free or its partner can move away. */
    method TryEdge(l: nat, r: nat, seen: array<bool>, ghost dead: set<nat>) returns (found: bool)
      requires Shaped() && l < g.lhs && r < g.rhs && seen.Length == g.rhs && !seen[r] && g.HasEdge(l, r)
      requires Linked(g, left[..], right[..], UNUSED)
      requires left[l] != UNUSED ==> left[l] in Marked(seen[..])
      requires DeadEnd(g, right[..], dead)
      modifies left, right, seen
      ensures Marked(old(seen[..])) + {r} <= Marked(seen[..])
      ensures if found then Augmented(l, old(left[..]), old(right[..]), Marked(old(seen[..])), dead)
              else left[..] == old(left[..]) && right[..] == old(right[..])
      ensures !found ==> Explored(g, right[..], Marked(old(seen[..])), Marked(seen[..]))
      ensures r in dead ==> !found
      decreases Unmarked(seen[..]), 0
    {
      ghost var left0, right0, marked := left[..], right[..], Marked(seen[..]);
      ghost var seen0 := seen[..];
      seen[r] := true;
      assert Marked(seen[..]) == marked + {r};
      assert r in Unmarked(seen0) && Unmarked(seen[..]) == Unmarked(seen0) - {r};
      if right[r] == UNUSED {
        LinkFree(g, left0, right0, l, r, marked, dead);
        found := true;
      } else {
        found := TryAugment(right[r], seen, dead);
        if found { LinkTaken(g, left0, right0, left[..], right[..], l, r, marked, dead); }
      }
      if found {
        left[l] := r;
        right[r] := l;
      }
    }
  }

  // ---- matchings and their size -------------------------------------------------

  type Pairs = set<(nat, nat)>

  /** Edges of the graph, no two of which share a node. */
  ghost predicate IsMatching(g: MatchMatrix, m: Pairs)
    requires g.Valid()
  {
    && (forall p :: p in m ==> p.0 < g.lhs && p.1 < g.rhs && g.HasEdge(p.0, p.1))
    && (forall p, q :: p in m && q in m && (p.0 == q.0 || p.1 == q.1) ==> p == q)
  }

  /** The pairs (l, left[l]) of the first n left nodes. */
  function PairsOf(left: seq<int>, n: nat): (m: seq<(nat, nat)>)
    requires n <= |left|
    requires forall l :: 0 <= l < n ==> left[l] == UNUSED || 0 <= left[l]
    ensures forall p :: p in m <==> p.0 < n && left[p.0] == p.1
    ensures forall i, j :: 0 <= i < j < |m| ==> m[i].0 < m[j].0
  {
    if n == 0 then []
    else
      var m := PairsOf(left, n - 1);
      if left[n - 1] == UNUSED then m else m + [(n - 1, left[n - 1])]
  }

  lemma {:induction false} InjectionBound<X, Y>(a: set<X>, b: set<Y>, f: map<X, Y>)
    requires forall x :: x in a ==> x in f && f[x] in b
    requires forall x, y :: x in a && y in a && f[x] == f[y] ==> x == y
    ensures |a| <= |b|
    decreases |a|
  {
    if a != {} {
      var x :| x in a;
      InjectionBound(a - {x}, b - {f[x]}, f);
    }
  }

  /** The failed searches form a vertex cover as large as the matching: no matching of the
      graph is larger, although each left node was tried once only. */
  lemma CoverBound(g: MatchMatrix, left: seq<int>, right: seq<int>, dead: set<nat>, m: Pairs, best: Pairs)
    requires Linked(g, left, right, UNUSED) && DeadEnd(g, right, dead)
    requires forall l: nat :: l < g.lhs && left[l] == UNUSED ==> g.NeighboursIn(l, dead)
    requires IsMatching(g, m)
    requires forall p: (nat, nat) :: p in best <==> p.0 < g.lhs && left[p.0] == p.1
    ensures |m| <= |best|
  {
    forall p | p in m && (left[p.0] == UNUSED || left[p.0] in dead) ensures p.1 in dead {
      assert g.NeighboursIn(p.0, dead);
    }
    var f := map p: (nat, nat) | p in m ::
      if p.1 in dead then (right[p.1] as nat, p.1) else (p.0, left[p.0] as nat);
    forall p | p in m ensures f[p] in best {
      if p.1 in dead { assert left[right[p.1]] == p.1; }
    }
    InjectionBound(m, best, f);
  }

  lemma DistinctSize(s: seq<(nat, nat)>, m: Pairs)
    requires forall p :: p in m <==> p in s
    requires forall i, j :: 0 <= i < j < |s| ==> s[i] != s[j]
    ensures |m| == |s|
  {
    if s != [] {
      var n := |s| - 1;
      DistinctSize(s[..n], m - {s[n]});
    } else {
      assert m == {};
    }
  }

  function ToSet(s: seq<(nat, nat)>): (m: Pairs)
    ensures forall p :: p in m <==> p in s
  {
    set p | p in s
  }

  /** FindMaxBipartiteMatching: the pairs are a matching, listed by left node, and no
      matching of the graph has more pairs. */
  method FindMaxBipartiteMatching(g: MatchMatrix) returns (pairs: seq<(nat, nat)>)
    requires g.Valid()
    ensures IsMatching(g, ToSet(pairs)) && |ToSet(pairs)| == |pairs|
    ensures forall i, j :: 0 <= i < j < |pairs| ==> pairs[i].0 < pairs[j].0
    ensures forall m :: IsMatching(g, m) ==> |m| <= |pairs|
  {
    var state := new MaxBipartiteMatchState(g);
    ghost var dead := state.Augment();
    pairs := state.Collect();
    ghost var left, right := state.left[..], state.right[..];
    DistinctSize(pairs, ToSet(pairs));
    forall m | IsMatching(g, m) ensures |m| <= |pairs| {
      CoverBound(g, left, right, dead, m, ToSet(pairs));
    }
  }

  lemma UnmarkedShrinks(before: seq<bool>, after: seq<bool>)
    requires |before| == |after| && Marked(before) <= Marked(after)
    ensures Unmarked(after) <= Unmarked(before)
  {
    forall r | r in Unmarked(after) ensures r in Unmarked(before) {
      assert r !in Marked(after);
      assert r !in Marked(before);
    }
  }

  // ---- FindPairing --------------------------------------------------------------

  datatype MatchFlags = MatchFlags(superset: bool, subset: bool)

  function RightsOf(m: Pairs): set<nat> { set p | p in m :: p.1 }

  function LeftsOf(m: Pairs): set<nat> { set p | p in m :: p.0 }

  ghost predicate CoversRight(g: MatchMatrix, m: Pairs) {
    forall r: nat :: r < g.rhs ==> r in RightsOf(m)
  }

  ghost predicate CoversLeft(g: MatchMatrix, m: Pairs) {
    forall l: nat :: l < g.lhs ==> l in LeftsOf(m)
  }

  function Below(n: nat): (s: set<nat>)
    ensures |s| == n && forall i: nat :: i in s <==> i < n
  {
    if n == 0 then {} else Below(n - 1) + {n - 1}
  }

  lemma FullSubset(a: set<nat>, b: set<nat>)
    requires a <= b && |b| <= |a|
    ensures a == b
  {
    assert |b - a| == |b| - |a|;
  }

  /** A matching covers one side exactly when it has as many pairs as that side has nodes. */
  lemma CoverBySize(g: MatchMatrix, m: Pairs)
    requires g.Valid() && IsMatching(g, m)
    ensures CoversRight(g, m) <==> |m| >= g.rhs
    ensures CoversLeft(g, m) <==> |m| >= g.lhs
  {
    ProjectionSize(g, m);
    if |m| >= g.rhs { FullSubset(RightsOf(m), Below(g.rhs)); }
    if |m| >= g.lhs { FullSubset(LeftsOf(m), Below(g.lhs)); }
    if CoversRight(g, m) { assert Below(g.rhs) == RightsOf(m); }
    if CoversLeft(g, m) { assert Below(g.lhs) == LeftsOf(m); }
  }

  lemma ProjectionSize(g: MatchMatrix, m: Pairs)
    requires g.Valid() && IsMatching(g, m)
    ensures |RightsOf(m)| == |m| == |LeftsOf(m)|
    ensures RightsOf(m) <= Below(g.rhs) && LeftsOf(m) <= Below(g.lhs)
  {
    InjectionBound(m, RightsOf(m), map p | p in m :: p.1);
    InjectionBound(m, LeftsOf(m), map p | p in m :: p.0);
    InjectionBound(RightsOf(m), m, map r | r in RightsOf(m) :: PairAtRight(m, r));
    InjectionBound(LeftsOf(m), m, map l | l in LeftsOf(m) :: PairAtLeft(m, l));
  }

  ghost function PairAtRight(m: Pairs, r: nat): (p: (nat, nat))
    requires r in RightsOf(m)
    ensures p in m && p.1 == r
  {
    var p :| p in m && p.1 == r; p
  }

  ghost function PairAtLeft(m: Pairs, l: nat): (p: (nat, nat))
    requires l in LeftsOf(m)
    ensures p in m && p.0 == l
  {
    var p :| p in m && p.0 == l; p
  }

  /** FindPairing succeeds exactly when one pairing meets all the flags that are set. */
  method FindPairing(g: MatchMatrix, flags: MatchFlags) returns (ok: bool)
    requires g.Valid()
    ensures ok <==> exists m :: && IsMatching(g, m)
                                && (flags.superset ==> CoversRight(g, m))
                                && (flags.subset ==> CoversLeft(g, m))
  {
    var matches := FindMaxBipartiteMatching(g);
    ok := !(flags.superset && |matches| < g.rhs) && !(flags.subset && |matches| < g.lhs);
    CoverBySize(g, ToSet(matches));
    forall m | IsMatching(g, m) { CoverBySize(g, m); }
  }
}
