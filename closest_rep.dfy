/**
 Nearest-representative assignment on a species tree (the selection part of
 `determineClosestRep`). The tree library is abstracted away: the leaves are
 given in traversal order, and the tree distance is an arbitrary function
 of two leaf names. The representatives are the names read from the listing.
 */
module ClosestRep {
  import opened Outcomes
  import opened PyOrder

  /** The source's `assert(cr != None)` fails for a leaf with no candidate. */
  datatype RepError = NoCandidate(leaf: string)

  predicate Distinct(leaves: seq<string>)
  {
    forall i, j :: 0 <= i < j < |leaves| ==> leaves[i] != leaves[j]
  }

  /**
   The candidate distances recorded for leaf `l` (`ltl_dists[l]`): every other
   leaf in `leaves` that is a representative, with its distance from `l`.
   */
  function CandidateDists(leaves: seq<string>, reps: set<string>, dist: (string, string) -> real, l: string): map<string, real>
  {
    map c | c in leaves && c in reps && c != l :: dist(l, c)
  }

  /** Some other leaf is a representative, so `ltl_dists[l]` gets an entry. */
  predicate HasCandidate(leaves: seq<string>, reps: set<string>, l: string)
  {
    exists c :: c in leaves && c in reps && c != l
  }

  /** Reading the default-empty dictionary `ltl_dists` at `l`. */
  function Row(ltlDists: map<string, map<string, real>>, l: string): map<string, real>
  {
    if l in ltlDists then ltlDists[l] else map[]
  }

  /** Candidate `a` comes before `b`: strictly closer, or as close and smaller by name. */
  predicate Precedes(cands: map<string, real>, a: string, b: string)
    requires a in cands && b in cands
  {
    cands[a] < cands[b] || (cands[a] == cands[b] && StrLess(a, b))
  }

  /** `cr` is the candidate that precedes every other candidate. */
  predicate ClosestIn(cands: map<string, real>, cr: string)
  {
    cr in cands && forall c :: c in cands && c != cr ==> Precedes(cands, cr, c)
  }

  lemma PrecedesTransitive(cands: map<string, real>, a: string, b: string, c: string)
    requires a in cands && b in cands && c in cands
    requires Precedes(cands, a, b) && Precedes(cands, b, c)
    ensures Precedes(cands, a, c)
  {
    if cands[a] == cands[b] == cands[c] {
      StrLessTransitive(a, b, c);
    }
  }

  /** At most one candidate is closest, so the selection is determined by the candidates alone. */
  lemma ClosestUnique(cands: map<string, real>, a: string, b: string)
    requires ClosestIn(cands, a) && ClosestIn(cands, b)
    ensures a == b
  {
    if a != b {
      StrLessAsymmetric(a, b);
    }
  }

  /**
   The candidate a stable sort by distance puts first: the earliest one in
   `names` among those at the least distance.
   */
  function StableSortHead(names: seq<string>, cands: map<string, real>): (h: string)
    requires |names| > 0
    requires forall i :: 0 <= i < |names| ==> names[i] in cands
    ensures h in cands
    ensures forall i :: 0 <= i < |names| ==> cands[h] <= cands[names[i]]
    ensures exists k :: 0 <= k < |names| && names[k] == h
                        && forall i :: 0 <= i < k ==> cands[names[i]] > cands[h]
  {
    if |names| == 1 then names[0]
    else
      var rest := StableSortHead(names[1..], cands);
      if cands[names[0]] <= cands[rest] then names[0] else rest
  }

  /**
   Candidates inserted in ascending name order and then stably sorted by
   distance give as their first entry the closest candidate, ties going to
   the smallest name.
   */
  lemma StableSortHeadIsClosest(names: seq<string>, cands: map<string, real>)
    requires |names| > 0
    requires forall i, j :: 0 <= i < j < |names| ==> StrLess(names[i], names[j])
    requires forall c :: c in cands <==> c in names
    ensures ClosestIn(cands, StableSortHead(names, cands))
  {
    var h := StableSortHead(names, cands);
    var k :| 0 <= k < |names| && names[k] == h
             && forall i :: 0 <= i < k ==> cands[names[i]] > cands[h];
    forall c | c in cands && c != h
      ensures Precedes(cands, h, c)
    {
      var i :| 0 <= i < |names| && names[i] == c;
      if k < i {
        assert StrLess(h, c);
      }
    }
  }

  /**
   The candidate chosen by (distance, name) is the one a stable sort by
   distance puts first when the candidates are listed in ascending name order.
   */
  lemma ClosestIsStableSortHead(names: seq<string>, cands: map<string, real>, cr: string)
    requires |names| > 0
    requires forall i, j :: 0 <= i < j < |names| ==> StrLess(names[i], names[j])
    requires forall c :: c in cands <==> c in names
    requires ClosestIn(cands, cr)
    ensures cr == StableSortHead(names, cands)
  {
    StableSortHeadIsClosest(names, cands);
    ClosestUnique(cands, cr, StableSortHead(names, cands));
  }

  /**
   Picks the candidate that comes first by (distance, name). This is the
   entry that sorting `ltl_dists[l]` by distance puts first in util.py, as
   long as the candidates were inserted in ascending name order
   (`ClosestIsStableSortHead`).
   */
  method SelectClosest(cands: map<string, real>) returns (cr: string)
    requires cands != map[]
    ensures ClosestIn(cands, cr)
  {
    var pending := cands.Keys;
    cr :| cr in pending;
    pending := pending - {cr};
    while pending != {}
      invariant pending <= cands.Keys && cr in cands && cr !in pending
      invariant forall c :: c in cands && c !in pending && c != cr ==> Precedes(cands, cr, c)
      decreases pending
    {
      var c :| c in pending;
      if Precedes(cands, c, cr) {
        forall d | d in cands && d !in pending && d != cr
          ensures Precedes(cands, c, d)
        {
          PrecedesTransitive(cands, c, cr, d);
        }
        cr := c;
      } else {
        StrLessTotal(c, cr);
      }
      pending := pending - {c};
    }
  }

  /** Extending the scanned prefix by one leaf adds that leaf when it is another representative. */
  lemma CandidateDistsStep(leaves: seq<string>, reps: set<string>, dist: (string, string) -> real, l: string, j: nat)
    requires j < |leaves|
    ensures CandidateDists(leaves[..j + 1], reps, dist, l)
            == if leaves[j] in reps && leaves[j] != l
               then CandidateDists(leaves[..j], reps, dist, l)[leaves[j] := dist(l, leaves[j])]
               else CandidateDists(leaves[..j], reps, dist, l)
  {
    assert leaves[..j + 1] == leaves[..j] + [leaves[j]];
  }

  /** The double loop over the sorted leaves in util.py that fills `ltl_dists`. */
  method RecordDistances(leaves: seq<string>, reps: set<string>, dist: (string, string) -> real)
    returns (ltlDists: map<string, map<string, real>>)
    requires Distinct(leaves)
    ensures forall l :: l in ltlDists ==> l in leaves
    ensures forall l :: l in leaves ==> Row(ltlDists, l) == CandidateDists(leaves, reps, dist, l)
  {
    ltlDists := map[];
    for i := 0 to |leaves|
      invariant forall l :: l in ltlDists ==> l in leaves[..i]
      invariant forall k :: 0 <= k < i ==> Row(ltlDists, leaves[k]) == CandidateDists(leaves, reps, dist, leaves[k])
    {
      var l1 := leaves[i];
      assert leaves[..i + 1] == leaves[..i] + [l1];
      for j := 0 to |leaves|
        invariant forall l :: l in ltlDists ==> l in leaves[..i + 1]
        invariant forall k :: 0 <= k < i ==> Row(ltlDists, leaves[k]) == CandidateDists(leaves, reps, dist, leaves[k])
        invariant Row(ltlDists, l1) == CandidateDists(leaves[..j], reps, dist, l1)
      {
        var l2 := leaves[j];
        CandidateDistsStep(leaves, reps, dist, l1, j);
        if i != j && l2 in reps {
          ltlDists := ltlDists[l1 := Row(ltlDists, l1)[l2 := dist(l1, l2)]];
        }
      }
      assert leaves[..|leaves|] == leaves;
    }
    assert leaves[..|leaves|] == leaves;
  }

  /**
   `cr` is the representative assigned to leaf `l`: another leaf that is a
   representative, strictly closer to `l` than every other such leaf or as
   close and smaller by name.
   */
  predicate IsNearestRep(leaves: seq<string>, reps: set<string>, dist: (string, string) -> real, l: string, cr: string)
  {
    && cr in leaves && cr in reps && cr != l
    && forall c :: c in leaves && c in reps && c != l && c != cr ==>
         dist(l, cr) < dist(l, c) || (dist(l, cr) == dist(l, c) && StrLess(cr, c))
  }

  /** Selecting the closest entry of `ltl_dists[l]` is choosing the nearest representative of `l`. */
  lemma ClosestInIsNearestRep(leaves: seq<string>, reps: set<string>, dist: (string, string) -> real, l: string, cr: string)
    ensures ClosestIn(CandidateDists(leaves, reps, dist, l), cr) <==> IsNearestRep(leaves, reps, dist, l, cr)
  {
    var cands := CandidateDists(leaves, reps, dist, l);
    if IsNearestRep(leaves, reps, dist, l, cr) {
      assert cr in cands;
      forall c | c in cands && c != cr
        ensures Precedes(cands, cr, c)
      {
        assert c in leaves && c in reps && c != l;
      }
    }
    if ClosestIn(cands, cr) {
      forall c | c in leaves && c in reps && c != l && c != cr
        ensures dist(l, cr) < dist(l, c) || (dist(l, cr) == dist(l, c) && StrLess(cr, c))
      {
        assert c in cands && Precedes(cands, cr, c);
      }
    }
  }

  /**
   Tree ((A:1,B:1):1,(C:1,D:1):1) with representatives A and C: leaves of one
   cherry are 2 apart and leaves of different cherries 4 apart, so B goes to
   A, D to C, and A and C, whose only other representative is across the
   root, go to each other.
   */
  lemma FourLeafScenario()
    ensures var leaves := ["A", "B", "C", "D"];
            var reps := {"A", "C"};
            var dist := (a: string, b: string) =>
              if a == b then 0.0
              else if (a in {"A", "B"}) == (b in {"A", "B"}) then 2.0
              else 4.0;
            && IsNearestRep(leaves, reps, dist, "B", "A")
            && IsNearestRep(leaves, reps, dist, "D", "C")
            && IsNearestRep(leaves, reps, dist, "A", "C")
            && IsNearestRep(leaves, reps, dist, "C", "A")
  {
    var leaves := ["A", "B", "C", "D"];
    assert forall c :: c in leaves ==> c == "A" || c == "B" || c == "C" || c == "D";
    assert StrLess("A", "C");
  }

  /**
   The selection in util.py for one leaf: `cr` stays `None` when `ltl_dists[l]` is empty,
   and is otherwise the first entry of the candidates sorted by distance.
   */
  method NearestOf(leaves: seq<string>, reps: set<string>, dist: (string, string) -> real,
                   ltlDists: map<string, map<string, real>>, l: string) returns (cr: Option<string>)
    requires Row(ltlDists, l) == CandidateDists(leaves, reps, dist, l)
    ensures cr.None? <==> !HasCandidate(leaves, reps, l)
    ensures cr.Some? ==> IsNearestRep(leaves, reps, dist, l, cr.value)
  {
    var cands := Row(ltlDists, l);
    if cands == map[] {
      assert forall c :: c in leaves && c in reps && c != l ==> c in CandidateDists(leaves, reps, dist, l);
      return None;
    }
    var c := SelectClosest(cands);
    ClosestInIsNearestRep(leaves, reps, dist, l, c);
    return Some(c);
  }

  /**
   `determineClosestRep` from the leaf list on: records the distance from each
   leaf to every other leaf that is a representative, then maps each leaf to
   its nearest representative, failing as a whole if some leaf has none.
   */
  method DetermineClosestRep(leaves: seq<string>, reps: set<string>, dist: (string, string) -> real)
    returns (r: Result<map<string, string>, RepError>)
    requires Distinct(leaves)
    ensures r.Ok? <==> forall l :: l in leaves ==> HasCandidate(leaves, reps, l)
    ensures r.Err? ==> exists k :: 0 <= k < |leaves| && r.error == NoCandidate(leaves[k])
                                   && !HasCandidate(leaves, reps, leaves[k])
                                   && forall j :: 0 <= j < k ==> HasCandidate(leaves, reps, leaves[j])
    ensures r.Ok? ==> forall l :: l in r.value <==> l in leaves
    ensures r.Ok? ==> forall l :: l in r.value ==> IsNearestRep(leaves, reps, dist, l, r.value[l])
  {
    var ltlDists := RecordDistances(leaves, reps, dist);

    var genomeToGroup: map<string, string> := map[];
    for k := 0 to |leaves|
      invariant forall l :: l in genomeToGroup <==> l in leaves[..k]
      invariant forall l :: l in genomeToGroup ==> IsNearestRep(leaves, reps, dist, l, genomeToGroup[l])
      invariant forall j :: 0 <= j < k ==> HasCandidate(leaves, reps, leaves[j])
    {
      var l := leaves[k];
      var cr := NearestOf(leaves, reps, dist, ltlDists, l);
      if cr.None? {
        return Err(NoCandidate(l));
      }
      genomeToGroup := genomeToGroup[l := cr.value];
      assert leaves[..k + 1] == leaves[..k] + [l];
    }
    assert leaves[..|leaves|] == leaves;
    return Ok(genomeToGroup);
  }

}
