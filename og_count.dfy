/**
 Core/auxiliary ortholog-group (OG) accounting for a group of genomes
 (`determineOgCount`). The genome-to-OG mapping is a map from genome name
 to its OG set; the group is an ordered sequence of genome names in which
 a repeated name counts once per occurrence.
 */
module OgCount {
  import opened Outcomes

  /** The two numbers the source returns, `[tot_aux_ogs, tot_ogs]`. */
  datatype OgTally = OgTally(aux: nat, total: nat)

  /** `genome_ogs[g]` raises `KeyError` for a genome without an entry. */
  datatype OgError = MissingGenome(genome: string)

  predicate AllKnown(genomeOgs: map<string, set<string>>, group: seq<string>)
  {
    forall i :: 0 <= i < |group| ==> group[i] in genomeOgs
  }

  /** Number of positions of `group` whose genome contains `og` (`og_counts[og]`). */
  function CountOf(genomeOgs: map<string, set<string>>, group: seq<string>, og: string): nat
    requires AllKnown(genomeOgs, group)
  {
    if group == [] then 0
    else CountOf(genomeOgs, group[..|group| - 1], og)
         + (if og in genomeOgs[group[|group| - 1]] then 1 else 0)
  }

  /** Union of the OG sets of the group's genomes (`all_ogs`). */
  function UnionOver(genomeOgs: map<string, set<string>>, group: seq<string>): set<string>
    requires AllKnown(genomeOgs, group)
  {
    if group == [] then {}
    else UnionOver(genomeOgs, group[..|group| - 1]) + genomeOgs[group[|group| - 1]]
  }

  /** Union of each genome's OGs outside `core` (`aux_ogs`, as the source accumulates it). */
  function AuxUnion(genomeOgs: map<string, set<string>>, group: seq<string>, core: set<string>): set<string>
    requires AllKnown(genomeOgs, group)
  {
    if group == [] then {}
    else AuxUnion(genomeOgs, group[..|group| - 1], core) + (genomeOgs[group[|group| - 1]] - core)
  }

  /** The core test: the OG's presence proportion, as a percentage, reaches the threshold. */
  predicate IsCore(count: nat, tot: nat, coreGenome: real)
    requires tot > 0
  {
    (count as real) / (tot as real) * 100.0 >= coreGenome
  }

  /** OGs seen in the group whose count passes the core test (`core_ogs`). */
  function CoreSet(genomeOgs: map<string, set<string>>, group: seq<string>, coreGenome: real): set<string>
    requires AllKnown(genomeOgs, group)
  {
    if group == [] then {}
    else set og | og in UnionOver(genomeOgs, group) && IsCore(CountOf(genomeOgs, group, og), |group|, coreGenome)
  }

  /** An OG is seen in the group exactly when it is counted at least once, and no count exceeds the group size. */
  lemma {:induction false} CountBounds(genomeOgs: map<string, set<string>>, group: seq<string>, og: string)
    requires AllKnown(genomeOgs, group)
    ensures og in UnionOver(genomeOgs, group) <==> CountOf(genomeOgs, group, og) >= 1
    ensures CountOf(genomeOgs, group, og) <= |group|
  {
    if group != [] {
      CountBounds(genomeOgs, group[..|group| - 1], og);
    }
  }

  /** The core test over `real` is the exact cross-multiplied comparison `count * 100 >= threshold * tot`. */
  lemma CoreThresholdExact(count: nat, tot: nat, coreGenome: real)
    requires tot > 0
    ensures IsCore(count, tot, coreGenome) <==> (count * 100) as real >= coreGenome * (tot as real)
  {
    var p := (count as real) / (tot as real);
    assert p * (tot as real) == count as real;
    assert p * 100.0 * (tot as real) == (count * 100) as real;
    if p * 100.0 >= coreGenome {
      assert p * 100.0 * (tot as real) >= coreGenome * (tot as real);
    }
    if (count * 100) as real >= coreGenome * (tot as real) {
      assert (p * 100.0 - coreGenome) * (tot as real) >= 0.0;
    }
  }

  /** The auxiliary union is the set of all group OGs that are not core. */
  lemma {:induction false} AuxIsAllMinusCore(genomeOgs: map<string, set<string>>, group: seq<string>, core: set<string>)
    requires AllKnown(genomeOgs, group)
    ensures AuxUnion(genomeOgs, group, core) == UnionOver(genomeOgs, group) - core
  {
    if group != [] {
      AuxIsAllMinusCore(genomeOgs, group[..|group| - 1], core);
    }
  }

  /** Hence the auxiliary count never exceeds the total count. */
  lemma AuxAtMostTotal(genomeOgs: map<string, set<string>>, group: seq<string>, coreGenome: real)
    requires AllKnown(genomeOgs, group)
    ensures |UnionOver(genomeOgs, group) - CoreSet(genomeOgs, group, coreGenome)| <= |UnionOver(genomeOgs, group)|
  {
    var all := UnionOver(genomeOgs, group);
    assert all - CoreSet(genomeOgs, group, coreGenome) <= all;
  }

  lemma {:induction false} UniformGroup(genomeOgs: map<string, set<string>>, group: seq<string>, ogs: set<string>, og: string)
    requires |group| > 0
    requires forall i :: 0 <= i < |group| ==> group[i] in genomeOgs && genomeOgs[group[i]] == ogs
    ensures UnionOver(genomeOgs, group) == ogs
    ensures CountOf(genomeOgs, group, og) == if og in ogs then |group| else 0
  {
    if |group| > 1 {
      UniformGroup(genomeOgs, group[..|group| - 1], ogs, og);
    }
  }

  /**
   When every genome of a non-empty group has the same OG set and the
   threshold is at most 100, no OG is auxiliary and the total is that set's size.
   */
  lemma UniformGroupHasNoAux(genomeOgs: map<string, set<string>>, group: seq<string>, ogs: set<string>, coreGenome: real)
    requires |group| > 0 && coreGenome <= 100.0
    requires forall i :: 0 <= i < |group| ==> group[i] in genomeOgs && genomeOgs[group[i]] == ogs
    ensures |UnionOver(genomeOgs, group) - CoreSet(genomeOgs, group, coreGenome)| == 0
    ensures |UnionOver(genomeOgs, group)| == |ogs|
  {
    UniformGroup(genomeOgs, group, ogs, "");
    forall og | og in ogs
      ensures og in CoreSet(genomeOgs, group, coreGenome)
    {
      UniformGroup(genomeOgs, group, ogs, og);
      var n := |group| as real;
      assert n / n == 1.0 by {
        assert n > 0.0;
        assert (n / n) * n == n;
      }
      assert IsCore(|group|, |group|, coreGenome);
    }
    assert UnionOver(genomeOgs, group) - CoreSet(genomeOgs, group, coreGenome) == {};
  }

  /** With a threshold at most 100 / group size, every OG seen is core, so none is auxiliary. */
  lemma LowThresholdAllCore(genomeOgs: map<string, set<string>>, group: seq<string>, coreGenome: real)
    requires AllKnown(genomeOgs, group)
    requires coreGenome * (|group| as real) <= 100.0
    ensures CoreSet(genomeOgs, group, coreGenome) == UnionOver(genomeOgs, group)
  {
    forall og | og in UnionOver(genomeOgs, group)
      ensures og in CoreSet(genomeOgs, group, coreGenome)
    {
      CountBounds(genomeOgs, group, og);
      SeenIsCoreAtLowThreshold(CountOf(genomeOgs, group, og), |group|, coreGenome);
    }
  }

  /** A count of at least one passes any threshold of at most 100 / tot. */
  lemma SeenIsCoreAtLowThreshold(count: nat, tot: nat, coreGenome: real)
    requires 0 < count && 0 < tot
    requires coreGenome * (tot as real) <= 100.0
    ensures IsCore(count, tot, coreGenome)
  {
    assert (count * 100) as real >= 100.0;
    CoreThresholdExact(count, tot, coreGenome);
  }

  /** g1:{o1,o2}, g2:{o1,o2}, g3:{o1} at 80%: o1 is core (3/3), o2 is not (2/3), giving (1, 2). */
  lemma ThreeGenomeScenario()
    ensures var m := map["g1" := {"o1", "o2"}, "g2" := {"o1", "o2"}, "g3" := {"o1"}];
            var group := ["g1", "g2", "g3"];
            AllKnown(m, group)
            && |UnionOver(m, group) - CoreSet(m, group, 80.0)| == 1
            && |UnionOver(m, group)| == 2
  {
    var m := map["g1" := {"o1", "o2"}, "g2" := {"o1", "o2"}, "g3" := {"o1"}];
    var group := ["g1", "g2", "g3"];
    assert group[..2] == ["g1", "g2"] && group[..2][..1] == ["g1"] && group[..2][..1][..0] == [];
    assert UnionOver(m, ["g1"]) == {"o1", "o2"};
    assert UnionOver(m, ["g1", "g2"]) == {"o1", "o2"};
    assert UnionOver(m, group) == {"o1", "o2"};
    assert CountOf(m, ["g1"], "o1") == 1 && CountOf(m, ["g1"], "o2") == 1;
    assert CountOf(m, ["g1", "g2"], "o1") == 2 && CountOf(m, ["g1", "g2"], "o2") == 2;
    assert CountOf(m, group, "o1") == 3;
    assert CountOf(m, group, "o2") == 2;
    assert "o1" in CoreSet(m, group, 80.0);
    assert "o2" !in CoreSet(m, group, 80.0);
    assert UnionOver(m, group) - CoreSet(m, group, 80.0) == {"o2"};
  }

  /**
   The counting loop of `determineOgCount` (util.py lines 81-85): fills the
   default-zero dictionary `og_counts`, failing at the first group genome
   that has no entry in the mapping.
   */
  method CountOgs(genomeOgs: map<string, set<string>>, group: seq<string>)
    returns (r: Result<map<string, nat>, OgError>)
    ensures r.Ok? <==> AllKnown(genomeOgs, group)
    ensures r.Err? ==> exists k :: 0 <= k < |group| && r.error == MissingGenome(group[k])
                                   && group[k] !in genomeOgs && AllKnown(genomeOgs, group[..k])
    ensures r.Ok? ==> r.value.Keys == UnionOver(genomeOgs, group)
    ensures r.Ok? ==> forall og :: og in r.value ==> r.value[og] == CountOf(genomeOgs, group, og)
  {
    var ogCounts: map<string, nat> := map[];
    var i := 0;
    while i < |group|
      invariant 0 <= i <= |group|
      invariant AllKnown(genomeOgs, group[..i])
      invariant ogCounts.Keys == UnionOver(genomeOgs, group[..i])
      invariant forall og :: og in ogCounts ==> ogCounts[og] == CountOf(genomeOgs, group[..i], og)
    {
      var g := group[i];
      if g !in genomeOgs {
        return Err(MissingGenome(g));
      }
      assert group[..i + 1][..i] == group[..i] && group[..i + 1][i] == g;
      var todo := genomeOgs[g];
      ghost var done: set<string> := {};
      while todo != {}
        invariant todo + done == genomeOgs[g] && todo !! done
        invariant ogCounts.Keys == UnionOver(genomeOgs, group[..i]) + done
        invariant forall og :: og in ogCounts ==>
                    ogCounts[og] == CountOf(genomeOgs, group[..i], og) + (if og in done then 1 else 0)
        decreases todo
      {
        var og :| og in todo;
        CountBounds(genomeOgs, group[..i], og);
        ogCounts := ogCounts[og := (if og in ogCounts then ogCounts[og] else 0) + 1];
        todo := todo - {og};
        done := done + {og};
      }
      i := i + 1;
    }
    assert group[..i] == group;
    return Ok(ogCounts);
  }

  /**
   `determineOgCount`: counts each OG over the group, collects the core OGs,
   then accumulates the union of all OGs and of each genome's non-core OGs.
   */
  method DetermineOgCount(genomeOgs: map<string, set<string>>, group: seq<string>, coreGenome: real := 80.0)
    returns (r: Result<OgTally, OgError>)
    ensures r.Ok? <==> AllKnown(genomeOgs, group)
    ensures r.Err? ==> exists k :: 0 <= k < |group| && r.error == MissingGenome(group[k])
                                   && group[k] !in genomeOgs && AllKnown(genomeOgs, group[..k])
    ensures r.Ok? ==> r.value.total == |UnionOver(genomeOgs, group)|
    ensures r.Ok? ==> r.value.aux == |UnionOver(genomeOgs, group) - CoreSet(genomeOgs, group, coreGenome)|
    ensures r.Ok? ==> r.value.aux <= r.value.total
    ensures group == [] ==> r == Ok(OgTally(0, 0))
  {
    var counted := CountOgs(genomeOgs, group);
    if counted.Err? {
      return Err(counted.error);
    }
    var ogCounts := counted.value;
    var totGenomes := |group|;

    var coreOgs: set<string> := {};
    var pending := ogCounts.Keys;
    while pending != {}
      invariant pending <= ogCounts.Keys
      invariant forall og :: og in coreOgs <==>
                  og in ogCounts && og !in pending && totGenomes > 0 && IsCore(ogCounts[og], totGenomes, coreGenome)
      decreases pending
    {
      var og :| og in pending;
      CountBounds(genomeOgs, group, og);
      if IsCore(ogCounts[og], totGenomes, coreGenome) {
        coreOgs := coreOgs + {og};
      }
      pending := pending - {og};
    }
    assert coreOgs == CoreSet(genomeOgs, group, coreGenome);

    var allOgs: set<string> := {};
    var auxOgs: set<string> := {};
    var i := 0;
    while i < |group|
      invariant 0 <= i <= |group|
      invariant allOgs == UnionOver(genomeOgs, group[..i])
      invariant auxOgs == AuxUnion(genomeOgs, group[..i], coreOgs)
    {
      assert group[..i + 1][..i] == group[..i] && group[..i + 1][i] == group[i];
      allOgs := allOgs + genomeOgs[group[i]];
      auxOgs := auxOgs + (genomeOgs[group[i]] - coreOgs);
      i := i + 1;
    }
    assert group[..i] == group;
    AuxIsAllMinusCore(genomeOgs, group, coreOgs);
    AuxAtMostTotal(genomeOgs, group, coreGenome);
    return Ok(OgTally(|auxOgs|, |allOgs|));
  }

}
