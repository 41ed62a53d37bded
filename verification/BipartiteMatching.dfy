/**
 Maximum bipartite matching, as Google Mock's UnorderedElementsAre family uses it:
 a depth-first search for augmenting paths that visits every left node (an element)
 once, over two vectors `left` and `right` (a matcher) that refer to each other.
 */
module BipartiteMatching {
  import opened Common

  // A matrix of (elements x matchers); `rows[l][r]` tells whether element l satisfies matcher r.
  datatype MatchMatrix = MatchMatrix(rows: seq<seq<bool>>, rhsSize: nat) {
    predicate Valid() {
      forall row | row in rows :: |row| == rhsSize
    }

    function LhsSize(): nat { |rows| }

    function RhsSize(): nat { rhsSize }

    predicate HasEdge(l: int, r: int)
      requires Valid()
    {
      0 <= l < |rows| && 0 <= r < rhsSize && rows[l][r]
    }
  }

  type Pairing = set<(nat, nat)>

  // Edges of g with distinct left ends and distinct right ends.
  ghost predicate IsMatching(g: MatchMatrix, m: Pairing)
    requires g.Valid()
  {
    && (forall e | e in m :: e.0 < |g.rows| && e.1 < g.rhsSize && g.rows[e.0][e.1])
    && (forall e, f | e in m && f in m && (e.0 == f.0 || e.1 == f.1) :: e == f)
  }

  // --------------------------------------------------------------------------
  // Counting: a matching is as large as each of its projections
  // --------------------------------------------------------------------------

  function Range(n: nat): (s: set<nat>)
    ensures forall i :: i in s <==> 0 <= i < n
    ensures |s| == n
  {
    if n == 0 then {} else Range(n - 1) + {n - 1}
  }

  ghost function Lefts(m: Pairing): set<nat> { set e | e in m :: e.0 }

  ghost function Rights(m: Pairing): set<nat> { set e | e in m :: e.1 }

  lemma {:induction false} LeftsCount(m: Pairing)
    requires forall e, f | e in m && f in m && e.0 == f.0 :: e == f
    ensures |Lefts(m)| == |m|
  {
    if m != {} {
      var e :| e in m;
      LeftsCount(m - {e});
      assert Lefts(m) == Lefts(m - {e}) + {e.0};
    }
  }

  lemma {:induction false} RightsCount(m: Pairing)
    requires forall e, f | e in m && f in m && e.1 == f.1 :: e == f
    ensures |Rights(m)| == |m|
  {
    if m != {} {
      var e :| e in m;
      RightsCount(m - {e});
      assert Rights(m) == Rights(m - {e}) + {e.1};
    }
  }

  lemma DifferenceSize<T>(a: set<T>, b: set<T>)
    requires b <= a
    ensures |a - b| == |a| - |b|
  {
    assert a == b + (a - b);
  }

  lemma DisjointSize<T>(a: set<T>, b: set<T>)
    requires a !! b
    ensures |a + b| == |a| + |b|
  {
  }

  // --------------------------------------------------------------------------
  // The certificate that a matching cannot be enlarged
  // --------------------------------------------------------------------------

  // `dead` is a set of right nodes, all matched by m, that holds every neighbour of the left
  // nodes m leaves unmatched and every neighbour of dead's own mates.
  ghost predicate Certificate(g: MatchMatrix, m: Pairing, dead: set<nat>)
    requires g.Valid()
  {
    && dead <= Rights(m)
    && (forall l, r | 0 <= l < g.LhsSize() && l !in Lefts(m) && g.HasEdge(l, r) :: r in dead)
    && (forall e, r | e in m && e.1 in dead && g.HasEdge(e.0, r) :: r in dead)
  }

  // Left nodes from which every edge leads into `dead`: the unmatched ones and the mates of dead.
  ghost function Trapped(g: MatchMatrix, m: Pairing, dead: set<nat>): set<nat> {
    (Range(g.LhsSize()) - Lefts(m)) + Lefts(MatesOf(m, dead))
  }

  ghost function MatesOf(m: Pairing, dead: set<nat>): Pairing {
    set e | e in m && e.1 in dead
  }

  lemma TrappedCount(g: MatchMatrix, m: Pairing, dead: set<nat>)
    requires g.Valid() && IsMatching(g, m) && dead <= Rights(m)
    ensures Trapped(g, m, dead) <= Range(g.LhsSize())
    ensures |Trapped(g, m, dead)| == g.LhsSize() - |m| + |dead|
  {
    var all, mates := Range(g.LhsSize()), MatesOf(m, dead);
    assert |Lefts(mates)| == |dead| by {
      assert Rights(mates) == dead;
      RightsCount(mates);
      LeftsCount(mates);
    }
    LeftsCount(m);
    assert Lefts(mates) <= Lefts(m) <= all;
    DifferenceSize(all, Lefts(m));
    DisjointSize(all - Lefts(m), Lefts(mates));
  }

  lemma TrappedEdge(g: MatchMatrix, m: Pairing, dead: set<nat>, l: nat, r: nat)
    requires g.Valid() && IsMatching(g, m) && Certificate(g, m, dead)
    requires l in Trapped(g, m, dead) && g.HasEdge(l, r)
    ensures r in dead
  {
    if l in Lefts(m) {
      var e :| e in MatesOf(m, dead) && e.0 == l;
      assert g.HasEdge(e.0, r);
    }
  }

  // Koenig: with such a certificate, no matching has more edges.
  lemma CertificateImpliesMaximum(g: MatchMatrix, m: Pairing, dead: set<nat>, other: Pairing)
    requires g.Valid() && IsMatching(g, m) && Certificate(g, m, dead)
    requires IsMatching(g, other)
    ensures |other| <= |m|
  {
    var all, trapped := Range(g.LhsSize()), Trapped(g, m, dead);
    TrappedCount(g, m, dead);
    // edges of `other` from a trapped node end in dead, the rest start at the remaining nodes
    var inside := set e | e in other && e.0 in trapped;
    assert |inside| <= |dead| by {
      forall e | e in inside
        ensures e.1 in dead
      {
        TrappedEdge(g, m, dead, e.0, e.1);
      }
      RightsCount(inside);
      SubsetSize(Rights(inside), dead);
    }
    assert |other - inside| <= |all| - |trapped| by {
      LeftsCount(other - inside);
      assert Lefts(other - inside) <= all - trapped;
      SubsetSize(Lefts(other - inside), all - trapped);
      DifferenceSize(all, trapped);
    }
    DifferenceSize(other, inside);
  }

  // --------------------------------------------------------------------------
  // The two link vectors, as values
  // --------------------------------------------------------------------------

  // The -1 that marks an entry of `left` or `right` as holding no partner.
  const UNUSED := -1

  datatype Links = Links(left: seq<int>, right: seq<int>)

  ghost predicate Fits(g: MatchMatrix, k: Links) {
    g.Valid() && |k.left| == g.LhsSize() && |k.right| == g.RhsSize()
  }

  // Every used entry of `left` lies on an edge and is answered by `right`.
  ghost predicate LeftLinked(g: MatchMatrix, k: Links)
    requires Fits(g, k)
  {
    forall l | 0 <= l < |k.left| && k.left[l] != UNUSED ::
      g.HasEdge(l, k.left[l]) && k.right[k.left[l]] == l
  }

  // Every used entry of `right`, except possibly the one at `stale`, is answered by `left`.
  ghost predicate RightLinked(g: MatchMatrix, k: Links, stale: int)
    requires Fits(g, k)
  {
    forall r | 0 <= r < |k.right| && r != stale && k.right[r] != UNUSED ::
      0 <= k.right[r] < |k.left| && k.left[k.right[r]] == r
  }

  // Elements of the two vectors are either unused or mutually referent.
  ghost predicate Referent(g: MatchMatrix, k: Links) {
    Fits(g, k) && LeftLinked(g, k) && RightLinked(g, k, UNUSED)
  }

  // A set of matched right nodes that no alternating path leaves.
  ghost predicate DeadEnd(g: MatchMatrix, k: Links, dead: set<nat>)
    requires Fits(g, k)
  {
    && (forall r | r in dead :: r < |k.right| && k.right[r] != UNUSED)
    && (forall r, r': nat | r in dead && g.HasEdge(k.right[r], r') :: r' in dead)
  }

  ghost predicate LeadsOnlyInto(g: MatchMatrix, l: int, rs: set<nat>)
    requires g.Valid()
  {
    forall r: nat | g.HasEdge(l, r) :: r in rs
  }

  ghost predicate SeenGrows(before: seq<bool>, after: seq<bool>) {
    |before| == |after| && forall r | 0 <= r < |before| && before[r] :: after[r]
  }

  // The right nodes marked between two moments are all matched, and all neighbours of their
  // partners are marked as well.
  ghost predicate Explored(g: MatchMatrix, k: Links, before: seq<bool>, after: seq<bool>)
    requires Fits(g, k) && |before| == |after| == |k.right|
  {
    forall r | 0 <= r < |after| && after[r] && !before[r] ::
      k.right[r] != UNUSED && AllSeen(g, k.right[r], |after|, after)
  }

  // All of l's neighbours below `bound` are marked.
  ghost predicate AllSeen(g: MatchMatrix, l: int, bound: nat, seen: seq<bool>)
    requires g.Valid() && bound <= |seen|
  {
    forall r | 0 <= r < bound && g.HasEdge(l, r) :: seen[r]
  }

  // What a successful search from `ilhs` does to the links `k`, giving `k'`.  If ilhs had a
  // partner before, that partner's entry in `right` is stale until the caller overwrites it.
  ghost predicate Augmented(g: MatchMatrix, k: Links, k': Links, seen: seq<bool>, ilhs: nat)
    requires Fits(g, k) && |seen| == |k.right| && ilhs < |k.left|
  {
    && Fits(g, k') && LeftLinked(g, k') && RightLinked(g, k', k.left[ilhs])
    && k'.left[ilhs] != UNUSED && k'.left[ilhs] != k.left[ilhs]
    // no other left node gains or loses a partner
    && (forall l | 0 <= l < |k.left| && l != ilhs :: k'.left[l] == UNUSED <==> k.left[l] == UNUSED)
    // right nodes seen before, and the left nodes linked to them, keep their partners
    && (forall r | 0 <= r < |seen| && seen[r] :: k'.right[r] == k.right[r])
    && (forall l | 0 <= l < |k.left| && l != ilhs && k.left[l] != UNUSED && IsSeen(seen, k.left[l]) ::
          k'.left[l] == k.left[l])
  }

  ghost function Unseen(seen: seq<bool>): set<int> {
    set r | 0 <= r < |seen| && !seen[r]
  }

  ghost function Marked(seen: seq<bool>): set<nat> {
    set r: nat | r < |seen| && seen[r]
  }

  ghost predicate IsSeen(seen: seq<bool>, r: int) { 0 <= r < |seen| && seen[r] }

  ghost predicate Untouched(k: Links, k': Links, dead: set<nat>) {
    |k.right| == |k'.right| && forall r | r in dead && r < |k.right| :: k'.right[r] == k.right[r]
  }

  // A search from ilhs has tried the right nodes below irhs in vain, and marked what it saw.
  ghost predicate Searching(g: MatchMatrix, k: Links, ilhs: nat, irhs: nat, before: seq<bool>, seen: seq<bool>)
    requires Fits(g, k)
  {
    && |before| == |seen| == |k.right| && irhs <= |seen|
    && SeenGrows(before, seen) && AllSeen(g, ilhs, irhs, seen) && Explored(g, k, before, seen)
  }

  lemma SearchBegins(g: MatchMatrix, k: Links, ilhs: nat, seen: seq<bool>, dead: set<nat>)
    requires Fits(g, k) && |seen| == |k.right|
    ensures Searching(g, k, ilhs, 0, seen, seen) && Untouched(k, k, dead)
  {
  }

  lemma SearchSkips(g: MatchMatrix, k: Links, ilhs: nat, irhs: nat, before: seq<bool>, seen: seq<bool>)
    requires Fits(g, k) && Searching(g, k, ilhs, irhs, before, seen) && irhs < |seen|
    requires seen[irhs] || !g.HasEdge(ilhs, irhs)
    ensures Searching(g, k, ilhs, irhs + 1, before, seen)
  {
  }

  // What is known before a right node that was not seen yet is tried.
  lemma MateLeadsBack(g: MatchMatrix, k: Links, seen: seq<bool>, ilhs: nat, irhs: nat, before: seq<bool>, dead: set<nat>)
    requires Referent(g, k) && Searching(g, k, ilhs, irhs, before, seen) && DeadEnd(g, k, dead)
    requires irhs < |seen| && !seen[irhs] && g.HasEdge(ilhs, irhs)
    ensures !before[irhs] && SeenGrows(before, seen[irhs := true])
    ensures |Unseen(seen[irhs := true])| == |Unseen(seen)| - 1
    ensures k.right[irhs] != UNUSED ==> 0 <= k.right[irhs] < |k.left| && k.left[k.right[irhs]] == irhs
    ensures irhs in dead ==> k.right[irhs] != UNUSED && LeadsOnlyInto(g, k.right[irhs], dead)
    ensures LeadsOnlyInto(g, ilhs, dead) ==> irhs in dead
  {
    assert Unseen(seen) == Unseen(seen[irhs := true]) + {irhs as int};
  }

  lemma SearchMarks(g: MatchMatrix, k: Links, ilhs: nat, irhs: nat, before: seq<bool>, here: seq<bool>, seen: seq<bool>)
    requires Fits(g, k) && Searching(g, k, ilhs, irhs, before, here) && irhs < |here|
    requires SeenGrows(here[irhs := true], seen)
    ensures SeenGrows(before, seen) && SeenGrows(before, here[irhs := true])
  {
  }

  // irhs leads nowhere.
  lemma SearchFails(g: MatchMatrix, k: Links, ilhs: nat, irhs: nat, before: seq<bool>, here: seq<bool>, seen: seq<bool>)
    requires Fits(g, k) && Searching(g, k, ilhs, irhs, before, here) && irhs < |here| && |seen| == |here|
    requires SeenGrows(here[irhs := true], seen) && k.right[irhs] != UNUSED
    requires AllSeen(g, k.right[irhs], |seen|, seen) && Explored(g, k, here[irhs := true], seen)
    ensures Searching(g, k, ilhs, irhs + 1, before, seen)
  {
    assert here[irhs := true][irhs] && seen[irhs];
    forall r | 0 <= r < |seen| && seen[r] && !before[r]
      ensures k.right[r] != UNUSED && AllSeen(g, k.right[r], |seen|, seen)
    {
      if here[r] {
        SeenStays(g, k.right[r], here, seen, irhs);
      }
    }
  }

  lemma SeenStays(g: MatchMatrix, l: int, here: seq<bool>, seen: seq<bool>, irhs: nat)
    requires g.Valid() && irhs < |here| && AllSeen(g, l, |here|, here) && SeenGrows(here[irhs := true], seen)
    ensures AllSeen(g, l, |seen|, seen)
  {
    assert forall r | 0 <= r < |here| && here[r] :: here[irhs := true][r];
  }

  lemma SearchEnds(g: MatchMatrix, k: Links, ilhs: nat, before: seq<bool>, seen: seq<bool>)
    requires Fits(g, k) && Searching(g, k, ilhs, g.RhsSize(), before, seen)
    ensures SeenGrows(before, seen) && AllSeen(g, ilhs, g.RhsSize(), seen) && Explored(g, k, before, seen)
  {
  }

  lemma UntouchedOutside(k: Links, k': Links, middle: Links, irhs: nat, ilhs: nat, dead: set<nat>)
    requires Untouched(k, middle, dead) && irhs !in dead && irhs < |middle.right|
    requires k'.right == middle.right[irhs := ilhs]
    ensures Untouched(k, k', dead)
  {
  }

  // The last edge of the path: irhs is free.
  lemma AugmentToFree(g: MatchMatrix, k: Links, seen: seq<bool>, ilhs: nat, irhs: nat)
    requires Referent(g, k) && |seen| == |k.right| && ilhs < |k.left|
    requires g.HasEdge(ilhs, irhs) && !seen[irhs] && k.right[irhs] == UNUSED
    requires k.left[ilhs] == UNUSED || IsSeen(seen, k.left[ilhs])
    ensures Augmented(g, k, Links(k.left[ilhs := irhs], k.right[irhs := ilhs]), seen, ilhs)
  {
  }

  // An inner edge: irhs was taken by some left node, which now has found another partner.
  lemma AugmentThroughTaken(g: MatchMatrix, k: Links, k': Links, seen: seq<bool>, marked: seq<bool>,
                            ilhs: nat, irhs: nat)
    requires Referent(g, k) && |seen| == |k.right| && ilhs < |k.left|
    requires g.HasEdge(ilhs, irhs) && !seen[irhs] && k.right[irhs] != UNUSED
    requires k.left[ilhs] == UNUSED || IsSeen(seen, k.left[ilhs])
    requires SeenGrows(seen, marked) && marked[irhs]
    requires Augmented(g, k, k', marked, k.right[irhs])
    ensures Augmented(g, k, Links(k'.left[ilhs := irhs], k'.right[irhs := ilhs]), seen, ilhs)
  {
  }

  // The edges recorded in the first n entries of `left`.
  ghost function EdgesOf(k: Links, n: nat): (m: Pairing)
    requires n <= |k.left| && forall l | 0 <= l < n :: k.left[l] >= UNUSED
  {
    set l: nat | l < n && k.left[l] != UNUSED :: (l, k.left[l] as nat)
  }

  ghost predicate FailuresTrapped(g: MatchMatrix, k: Links, dead: set<nat>, n: nat)
    requires g.Valid() && n <= |k.left|
  {
    forall l | 0 <= l < n && k.left[l] == UNUSED :: LeadsOnlyInto(g, l, dead)
  }

  lemma ReferentIsMatching(g: MatchMatrix, k: Links)
    requires Referent(g, k)
    ensures forall l | 0 <= l < |k.left| :: k.left[l] >= UNUSED
    ensures IsMatching(g, EdgesOf(k, |k.left|))
  {
  }

  // After a failed search the marked nodes, together with any earlier dead end, are a dead end.
  lemma DeadEndExtends(g: MatchMatrix, k: Links, dead: set<nat>, seen: seq<bool>)
    requires Fits(g, k) && DeadEnd(g, k, dead) && |seen| == |k.right|
    requires Explored(g, k, seq(|seen|, _ => false), seen)
    ensures DeadEnd(g, k, dead + Marked(seen))
  {
    var marked := Marked(seen);
    var unseen := seq(|seen|, _ => false);
    forall r, r': nat | r in marked && g.HasEdge(k.right[r], r')
      ensures r' in marked
    {
      assert seen[r] && !unseen[r];
      assert AllSeen(g, k.right[r], |seen|, seen);
    }
    assert forall r | r in marked :: seen[r] && !unseen[r];
  }

  // An augmentation from a node outside leaves a dead end, and who is trapped by it, as it was.
  lemma AugmentKeepsDeadEnd(g: MatchMatrix, k: Links, k': Links, dead: set<nat>, ilhs: nat)
    requires Fits(g, k) && Fits(g, k') && DeadEnd(g, k, dead) && Untouched(k, k', dead)
    requires ilhs < |k.left| && FailuresTrapped(g, k, dead, ilhs)
    requires k'.left[ilhs] != UNUSED
    requires forall l | 0 <= l < ilhs :: k'.left[l] == UNUSED <==> k.left[l] == UNUSED
    ensures DeadEnd(g, k', dead) && FailuresTrapped(g, k', dead, ilhs + 1)
  {
    forall r, r': nat | r in dead && g.HasEdge(k'.right[r], r')
      ensures r' in dead
    {
      assert g.HasEdge(k.right[r], r');
    }
  }

  // A dead end that traps every unmatched left node certifies the matching as maximum.
  lemma DeadEndCertifies(g: MatchMatrix, k: Links, dead: set<nat>)
    requires Referent(g, k) && DeadEnd(g, k, dead) && FailuresTrapped(g, k, dead, |k.left|)
    requires forall l | 0 <= l < |k.left| :: k.left[l] >= UNUSED
    ensures Certificate(g, EdgesOf(k, |k.left|), dead)
  {
    var m := EdgesOf(k, |k.left|);
    forall r | r in dead
      ensures r in Rights(m)
    {
      var l: nat := k.right[r];
      assert (l, r) in m;
    }
    forall l: nat | l < g.LhsSize() && k.left[l] != UNUSED
      ensures l in Lefts(m)
    {
      assert (l, k.left[l] as nat) in m;
    }
    assert forall l | 0 <= l < g.LhsSize() && l !in Lefts(m) :: LeadsOnlyInto(g, l, dead);
  }

  ghost predicate IsMaximum(g: MatchMatrix, m: Pairing)
    requires g.Valid()
  {
    IsMatching(g, m) && forall other | IsMatching(g, other) :: |other| <= |m|
  }

  lemma DeadEndImpliesMaximum(g: MatchMatrix, k: Links, dead: set<nat>)
    requires Referent(g, k) && DeadEnd(g, k, dead) && FailuresTrapped(g, k, dead, |k.left|)
    ensures forall l | 0 <= l < |k.left| :: k.left[l] >= UNUSED
    ensures IsMaximum(g, EdgesOf(k, |k.left|))
  {
    ReferentIsMatching(g, k);
    var m := EdgesOf(k, |k.left|);
    DeadEndCertifies(g, k, dead);
    forall other | IsMatching(g, other)
      ensures |other| <= |m|
    {
      CertificateImpliesMaximum(g, m, dead, other);
    }
  }

  // --------------------------------------------------------------------------
  // The search
  // --------------------------------------------------------------------------

  // Between two searches: the left nodes below n have been tried, those that failed are trapped.
  ghost predicate Between(g: MatchMatrix, k: Links, dead: set<nat>, n: nat)
    requires Fits(g, k)
  {
    && n <= |k.left| && DeadEnd(g, k, dead) && FailuresTrapped(g, k, dead, n)
    && forall l | n <= l < |k.left| :: k.left[l] == UNUSED
  }

  lemma NothingTriedYet(g: MatchMatrix, k: Links)
    requires Fits(g, k) && forall l | 0 <= l < |k.left| :: k.left[l] == UNUSED
    ensures Between(g, k, {}, 0)
  {
  }

  lemma SuccessGoesOn(g: MatchMatrix, k: Links, k': Links, dead: set<nat>, ilhs: nat)
    requires Fits(g, k) && Between(g, k, dead, ilhs) && ilhs < |k.left|
    requires Augmented(g, k, k', seq(|k.right|, _ => false), ilhs) && Untouched(k, k', dead)
    ensures Referent(g, k') && Between(g, k', dead, ilhs + 1)
  {
    hide DeadEnd, FailuresTrapped, LeftLinked, Untouched;
    AugmentKeepsDeadEnd(g, k, k', dead, ilhs);
  }

  lemma FailureGoesOn(g: MatchMatrix, k: Links, dead: set<nat>, ilhs: nat, seen: seq<bool>)
    requires Fits(g, k) && Between(g, k, dead, ilhs) && ilhs < |k.left| && |seen| == |k.right|
    requires Explored(g, k, seq(|seen|, _ => false), seen) && AllSeen(g, ilhs, |seen|, seen)
    ensures Between(g, k, dead + Marked(seen), ilhs + 1)
  {
    hide DeadEnd, Explored;
    assert forall r: nat | r < |seen| && seen[r] :: r in Marked(seen);
    DeadEndExtends(g, k, dead, seen);
  }

  class MaxBipartiteMatchState {
    const graph: MatchMatrix
    const left: array<int>
    const right: array<int>

    ghost function State(): Links
      reads left, right
    {
      Links(left[..], right[..])
    }

    ghost predicate Valid()
      reads left, right
    {
      left != right && Referent(graph, State())
    }

    constructor (g: MatchMatrix)
      requires g.Valid()
      ensures Valid() && graph == g && fresh(left) && fresh(right)
      ensures forall l | 0 <= l < left.Length :: left[l] == UNUSED
    {
      graph := g;
      left := new int[g.LhsSize()](_ => UNUSED);
      right := new int[g.RhsSize()](_ => UNUSED);
    }

    // Looks for an augmenting path from left node `ilhs` over right nodes not yet `seen`.
    // `ilhs` may hold a partner already (when the search recurses); then that partner is seen.
    // `dead` is any dead end: the search never changes the partners inside it.
    method TryAugment(ilhs: nat, seen: array<bool>, ghost dead: set<nat>) returns (found: bool, ghost calls: nat)
      requires Valid() && DeadEnd(graph, State(), dead)
      requires seen.Length == right.Length && ilhs < left.Length
      requires left[ilhs] == UNUSED || IsSeen(seen[..], left[ilhs])
      modifies left, right, seen
      ensures SeenGrows(old(seen[..]), seen[..])
      ensures found ==> Augmented(graph, old(State()), State(), old(seen[..]), ilhs)
      ensures !found ==> State() == old(State())
      ensures !found ==> AllSeen(graph, ilhs, graph.RhsSize(), seen[..])
      ensures !found ==> Explored(graph, State(), old(seen[..]), seen[..])
      ensures Untouched(old(State()), State(), dead)
      ensures LeadsOnlyInto(graph, ilhs, dead) ==> !found
      // a left node other than the first is explored only for a right node that was not seen before
      ensures 1 <= calls && calls + |Unseen(seen[..])| <= |Unseen(old(seen[..]))| + 1
      decreases |Unseen(seen[..])|
    {
      hide Augmented, AllSeen, SeenGrows, Explored, Untouched, LeadsOnlyInto, DeadEnd, Unseen, LeftLinked, RightLinked;
      ghost var start, seenAtStart := State(), seen[..];
      calls := 1;
      SearchBegins(graph, start, ilhs, seenAtStart, dead);
      for irhs := 0 to graph.RhsSize()
        invariant State() == start && Searching(graph, start, ilhs, irhs, seenAtStart, seen[..])
        invariant 1 <= calls && calls + |Unseen(seen[..])| <= |Unseen(seenAtStart)| + 1
      {
        ghost var here := seen[..];
        if seen[irhs] || !graph.HasEdge(ilhs, irhs) {
          SearchSkips(graph, start, ilhs, irhs, seenAtStart, here);
        } else {
          MateLeadsBack(graph, start, here, ilhs, irhs, seenAtStart, dead);
          seen[irhs] := true;
          ghost var marked := seen[..];
          assert marked == here[irhs := true];
          if right[irhs] == UNUSED {
            AugmentToFree(graph, start, seenAtStart, ilhs, irhs);
            left[ilhs], right[irhs] := irhs, ilhs;
            assert State() == Links(start.left[ilhs := irhs], start.right[irhs := ilhs]);
            UntouchedOutside(start, State(), start, irhs, ilhs, dead);
            return true, calls;
          }
          ghost var more;
          found, more := TryAugment(right[irhs], seen, dead);
          calls := calls + more;
          if found {
            ghost var reached := State();
            SearchMarks(graph, start, ilhs, irhs, seenAtStart, here, seen[..]);
            AugmentThroughTaken(graph, start, reached, seenAtStart, marked, ilhs, irhs);
            left[ilhs], right[irhs] := irhs, ilhs;
            assert State() == Links(reached.left[ilhs := irhs], reached.right[irhs := ilhs]);
            UntouchedOutside(start, State(), reached, irhs, ilhs, dead);
            return true, calls;
          }
          SearchFails(graph, start, ilhs, irhs, seenAtStart, here, seen[..]);
        }
      }
      SearchEnds(graph, start, ilhs, seenAtStart, seen[..]);
      return false, calls;
    }

    // One search from each left node, in order; then the links are read off as pairs.
    method Compute() returns (result: seq<(nat, nat)>)
      requires Valid()
      requires forall l | 0 <= l < left.Length :: left[l] == UNUSED
      modifies left, right
      ensures IsMaximum(graph, Elements(result)) && |Elements(result)| == |result|
    {
      hide DeadEnd, FailuresTrapped, Augmented, Explored, AllSeen, SeenGrows, Untouched, LeftLinked, RightLinked;
      ghost var dead: set<nat> := {};
      NothingTriedYet(graph, State());
      for ilhs := 0 to graph.LhsSize()
        invariant Valid() && Between(graph, State(), dead, ilhs)
      {
        ghost var before := State();
        assert left[ilhs] == UNUSED;  // the original checks this
        var seen := new bool[graph.RhsSize()](_ => false);
        assert seen[..] == seq(graph.RhsSize(), _ => false);
        var found, _ := TryAugment(ilhs, seen, dead);
        if found {
          SuccessGoesOn(graph, before, State(), dead, ilhs);
        } else {
          FailureGoesOn(graph, before, dead, ilhs, seen[..]);
          dead := dead + Marked(seen[..]);
        }
      }
      DeadEndImpliesMaximum(graph, State(), dead);
      result := UsedEntries();
    }

    // The used entries of `left`, as pairs in order of their left ends.
    method UsedEntries() returns (result: seq<(nat, nat)>)
      requires forall l | 0 <= l < left.Length :: left[l] >= UNUSED
      ensures Elements(result) == EdgesOf(State(), left.Length) && |Elements(result)| == |result|
    {
      result := [];
      for ilhs := 0 to left.Length
        invariant Elements(result) == EdgesOf(State(), ilhs) && |Elements(result)| == |result|
      {
        var irhs := left[ilhs];
        if irhs != UNUSED {
          var pair: (nat, nat) := (ilhs, irhs);
          assert pair !in EdgesOf(State(), ilhs);
          assert Elements(result + [pair]) == Elements(result) + {pair};
          assert EdgesOf(State(), ilhs + 1) == EdgesOf(State(), ilhs) + {pair};
          result := result + [pair];
        }
      }
    }
  }

  ghost function Elements(pairs: seq<(nat, nat)>): Pairing { set p | p in pairs }

  // The matching of largest size, as pairs in order of their left ends.
  method FindMaxBipartiteMatching(g: MatchMatrix) returns (pairs: seq<(nat, nat)>)
    requires g.Valid()
    ensures IsMaximum(g, Elements(pairs)) && |Elements(pairs)| == |pairs|
  {
    var state := new MaxBipartiteMatchState(g);
    pairs := state.Compute();
  }

  // --------------------------------------------------------------------------
  // Deciding UnorderedElementsAre, IsSupersetOf and IsSubsetOf
  // --------------------------------------------------------------------------

  // The match flags: bit 0 asks that every matcher be used, bit 1 that every element be used.
  datatype MatchFlags = Superset | Subset | ExactMatch {
    predicate EveryMatcher() { this != Subset }
    predicate EveryElement() { this != Superset }
  }

  ghost predicate Covers(s: set<nat>, n: nat) {
    forall i: nat | i < n :: i in s
  }

  lemma CoversIffSize(s: set<nat>, n: nat)
    requires s <= Range(n)
    ensures Covers(s, n) <==> |s| >= n
    ensures |s| <= n
  {
    SubsetSize(s, Range(n));
    if Covers(s, n) {
      assert s == Range(n);
    }
  }

  // A matching covers one side exactly when it has as many edges as that side has nodes.
  lemma CoversIffLarge(g: MatchMatrix, m: Pairing)
    requires g.Valid() && IsMatching(g, m)
    ensures Covers(Rights(m), g.RhsSize()) <==> |m| >= g.RhsSize()
    ensures Covers(Lefts(m), g.LhsSize()) <==> |m| >= g.LhsSize()
    ensures |m| <= g.LhsSize() && |m| <= g.RhsSize()
  {
    RightsCount(m);
    LeftsCount(m);
    CoversIffSize(Rights(m), g.RhsSize());
    CoversIffSize(Lefts(m), g.LhsSize());
  }

  method FindPairing(flags: MatchFlags, matrix: MatchMatrix) returns (ok: bool)
    requires matrix.Valid()
    ensures flags == Superset ==>
              (ok <==> exists m: Pairing :: IsMatching(matrix, m) && Covers(Rights(m), matrix.rhsSize))
    ensures flags == Subset ==>
              (ok <==> exists m: Pairing :: IsMatching(matrix, m) && Covers(Lefts(m), |matrix.rows|))
    ensures flags == ExactMatch ==>
              (ok <==> exists m: Pairing ::
                         IsMatching(matrix, m) && Covers(Rights(m), matrix.rhsSize) && Covers(Lefts(m), |matrix.rows|))
  {
    var matches := FindMaxBipartiteMatching(matrix);
    CoversIffLarge(matrix, Elements(matches));
    forall m | IsMatching(matrix, m)
      ensures |m| <= |matches|
      ensures Covers(Rights(m), matrix.RhsSize()) ==> |matches| >= matrix.RhsSize()
      ensures Covers(Lefts(m), matrix.LhsSize()) ==> |matches| >= matrix.LhsSize()
    {
      CoversIffLarge(matrix, m);
    }
    var maxFlow := |matches|;
    if flags.EveryMatcher() && maxFlow < matrix.RhsSize() {
      return false;
    }
    if flags.EveryElement() && maxFlow < matrix.LhsSize() {
      return false;
    }
    assert IsMatching(matrix, Elements(matches));
    return true;
  }

  // Element l satisfies one of the first n matchers.
  ghost predicate ElementMatches(g: MatchMatrix, l: int, n: nat)
    requires g.Valid()
  {
    0 <= l < |g.rows| && exists r | 0 <= r < g.rhsSize :: r < n && g.rows[l][r]
  }

  // Matcher r is satisfied by one of the first n elements.
  ghost predicate MatcherMatches(g: MatchMatrix, r: int, n: nat)
    requires g.Valid()
  {
    0 <= r < g.rhsSize && exists l | 0 <= l < |g.rows| :: l < n && g.rows[l][r]
  }

  ghost predicate EveryElementMatches(g: MatchMatrix)
    requires g.Valid()
  {
    forall l | 0 <= l < |g.rows| :: ElementMatches(g, l, g.rhsSize)
  }

  ghost predicate EveryMatcherMatches(g: MatchMatrix)
    requires g.Valid()
  {
    forall r | 0 <= r < g.rhsSize :: MatcherMatches(g, r, |g.rows|)
  }

  // Which elements match some matcher, and which matchers match some element.
  method MarkMatched(matrix: MatchMatrix) returns (elementMatched: array<bool>, matcherMatched: array<bool>)
    requires matrix.Valid()
    ensures elementMatched.Length == matrix.LhsSize() && matcherMatched.Length == matrix.RhsSize()
    ensures forall l | 0 <= l < matrix.LhsSize() :: elementMatched[l] <==> ElementMatches(matrix, l, matrix.RhsSize())
    ensures forall r | 0 <= r < matrix.RhsSize() :: matcherMatched[r] <==> MatcherMatches(matrix, r, matrix.LhsSize())
  {
    elementMatched := new bool[matrix.LhsSize()](_ => false);
    matcherMatched := new bool[matrix.RhsSize()](_ => false);
    for ilhs := 0 to matrix.LhsSize()
      invariant forall l | 0 <= l < ilhs :: elementMatched[l] <==> ElementMatches(matrix, l, matrix.RhsSize())
      invariant forall l | ilhs <= l < matrix.LhsSize() :: !elementMatched[l]
      invariant forall r | 0 <= r < matrix.RhsSize() :: matcherMatched[r] <==> MatcherMatches(matrix, r, ilhs)
    {
      for irhs := 0 to matrix.RhsSize()
        invariant forall l | 0 <= l < ilhs :: elementMatched[l] <==> ElementMatches(matrix, l, matrix.RhsSize())
        invariant forall l | ilhs < l < matrix.LhsSize() :: !elementMatched[l]
        invariant elementMatched[ilhs] <==> ElementMatches(matrix, ilhs, irhs)
        invariant forall r | 0 <= r < irhs :: matcherMatched[r] <==> MatcherMatches(matrix, r, ilhs + 1)
        invariant forall r | irhs <= r < matrix.RhsSize() :: matcherMatched[r] <==> MatcherMatches(matrix, r, ilhs)
      {
        var matched := matrix.HasEdge(ilhs, irhs);
        elementMatched[ilhs] := elementMatched[ilhs] || matched;
        matcherMatched[irhs] := matcherMatched[irhs] || matched;
      }
    }
  }

  method VerifyMatchMatrix(flags: MatchFlags, matrix: MatchMatrix) returns (result: bool)
    requires matrix.Valid()
    ensures flags == Superset ==> (result <==> EveryMatcherMatches(matrix))
    ensures flags == Subset ==> (result <==> EveryElementMatches(matrix))
    ensures flags == ExactMatch ==>
              (result <==> |matrix.rows| == matrix.rhsSize && EveryMatcherMatches(matrix) && EveryElementMatches(matrix))
  {
    hide ElementMatches, MatcherMatches;
    if matrix.LhsSize() == 0 && matrix.RhsSize() == 0 {
      return true;
    }
    result := !(flags == ExactMatch && matrix.LhsSize() != matrix.RhsSize());
    var elementMatched, matcherMatched := MarkMatched(matrix);
    if flags.EveryMatcher() {
      ghost var before := result;
      for mi := 0 to matcherMatched.Length
        invariant result <==> before && forall r | 0 <= r < mi :: MatcherMatches(matrix, r, matrix.LhsSize())
      {
        if !matcherMatched[mi] {
          result := false;
        }
      }
    }
    if flags.EveryElement() {
      ghost var before := result;
      for ei := 0 to elementMatched.Length
        invariant result <==> before && forall l | 0 <= l < ei :: ElementMatches(matrix, l, matrix.RhsSize())
      {
        if !elementMatched[ei] {
          result := false;
        }
      }
    }
  }

  // The prefilter is sound: whatever has a pairing passes it.
  lemma PairedNodesAreNotIsolated(g: MatchMatrix, m: Pairing)
    requires g.Valid() && IsMatching(g, m)
    ensures Covers(Rights(m), g.rhsSize) ==> EveryMatcherMatches(g)
    ensures Covers(Lefts(m), |g.rows|) ==> EveryElementMatches(g)
    ensures Covers(Rights(m), g.rhsSize) && Covers(Lefts(m), |g.rows|) ==> |g.rows| == g.rhsSize
  {
    assert forall r | r in Rights(m) :: MatcherMatches(g, r, |g.rows|);
    assert forall l | l in Lefts(m) :: ElementMatches(g, l, g.rhsSize);
    CoversIffLarge(g, m);
  }

  // The matcher's verdict: prefilter first, then the pairing.
  method MatchAndExplain(flags: MatchFlags, matrix: MatchMatrix) returns (ok: bool)
    requires matrix.Valid()
    ensures flags == Superset ==>
              (ok <==> exists m: Pairing :: IsMatching(matrix, m) && Covers(Rights(m), matrix.rhsSize))
    ensures flags == Subset ==>
              (ok <==> exists m: Pairing :: IsMatching(matrix, m) && Covers(Lefts(m), |matrix.rows|))
    ensures flags == ExactMatch ==>
              (ok <==> exists m: Pairing ::
                         IsMatching(matrix, m) && Covers(Rights(m), matrix.rhsSize) && Covers(Lefts(m), |matrix.rows|))
  {
    hide EveryMatcherMatches, EveryElementMatches, IsMatching, Covers;
    var plausible := VerifyMatchMatrix(flags, matrix);
    forall m | IsMatching(matrix, m)
      ensures Covers(Rights(m), matrix.rhsSize) ==> EveryMatcherMatches(matrix)
      ensures Covers(Lefts(m), |matrix.rows|) ==> EveryElementMatches(matrix)
      ensures Covers(Rights(m), matrix.rhsSize) && Covers(Lefts(m), |matrix.rows|) ==> |matrix.rows| == matrix.rhsSize
    {
      PairedNodesAreNotIsolated(matrix, m);
    }
    if !plausible {
      return false;
    }
    ok := FindPairing(flags, matrix);
  }
}
