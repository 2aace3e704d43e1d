# psaps util: ortholog-group accounting and nearest-representative assignment

This project models two routines of `src/psaps/util.py` in Dafny and proves
what they compute.

- `determineOgCount` counts, for a group of genomes, how many of them
  contain each ortholog group (OG). It marks an OG as *core* when its
  presence percentage reaches the threshold (default 80). It returns
  `[number of auxiliary OGs, number of OGs]`. The auxiliary OGs are the
  union of each genome's non-core OGs.
- The selection part of `determineClosestRep` works as follows. For each
  tree leaf, it records the distance to every *other* leaf that is a
  representative. It then assigns the leaf the first candidate after a
  stable sort by distance. The whole call fails if some leaf has no
  candidate.

Modules:

- `Outcomes` (`outcomes.dfy`): `Option` and `Result`. The source's
  `sys.exit(1)` in its `except` blocks becomes an `Err` value.
- `PyOrder` (`py_order.dfy`): Python's `str` ordering (lexicographic by code
  point), used by `sorted`, with its order laws.
- `OgCount` (`og_count.dfy`): the specification functions `CountOf`
  (`og_counts[og]`), `UnionOver` (`all_ogs`), `AuxUnion` (`aux_ogs`),
  `IsCore` and `CoreSet` (`core_ogs`). It also holds the imperative
  `CountOgs` (the counting loop) and `DetermineOgCount`, which calls it and
  runs the two remaining loops, all proved against these functions.
- `ClosestRep` (`closest_rep.dfy`): the specification functions
  `CandidateDists` (the row `ltl_dists[l]` the source builds for leaf `l`)
  and `Row` (reading the default-empty dictionary `ltl_dists`), then
  `RecordDistances` (the double loop that fills `ltl_dists`),
  `SelectClosest` / `NearestOf` (the first entry after sorting by distance)
  and `DetermineClosestRep`. The tree library is
  replaced by two parameters: the leaf names in traversal order, and a
  distance function on names.

Behaviour of the code that the model keeps:

- A group genome with no entry in the mapping is an error. `genome_ogs[g]`
  raises `KeyError`, so the call fails with `MissingGenome` naming the first
  such genome. It is not treated as an empty OG set.
- The code does not require a non-empty group or a threshold in (0, 100].
  The model accepts any group and any real threshold. An empty group gives
  `(0, 0)` without dividing, because no OG is ever counted.
- Ties in nearest-representative selection: candidates are inserted in
  ascending name order (the loops run over `sorted(leaves)`), and Python's
  sort is stable. So the tie goes to the representative with the smallest
  name. `StableSortHeadIsClosest` and `ClosestIsStableSortHead` prove this.
  `SelectClosest` then picks the minimum by (distance, name) directly.

## Model

| member | source | states |
|---|---|---|
| `OgCount.DetermineOgCount` | src/psaps/util.py:79-106 | Fails exactly when some group genome has no OG entry, naming the first such genome. Otherwise the total is the size of the union of the group's OG sets. The auxiliary count is the size of that union minus the core OGs, so it never exceeds the total. An empty group gives (0, 0). The threshold defaults to 80. |
| `OgCount.CountOgs` | src/psaps/util.py:81-85 | Fails exactly when some group genome has no OG entry, naming the first such genome. Otherwise the dictionary's keys are exactly the OGs seen in the group, and each holds the number of group genomes (with repeats) whose set contains it. |
| `OgCount.CountBounds` | src/psaps/util.py:81-85 | An OG's count is at least 1 exactly when some group genome has it. The count never exceeds the group size, with repeated genomes counted once per occurrence. |
| `OgCount.CoreThresholdExact` | src/psaps/util.py:87-91 | The source's core test `count / tot * 100 >= core_genome` is, over the reals, the same as `count * 100 >= core_genome * tot`. |
| `OgCount.AuxIsAllMinusCore` | src/psaps/util.py:93-102 | Accumulating each genome's OGs minus the core gives exactly all group OGs minus the core. |
| `OgCount.AuxAtMostTotal` | src/psaps/util.py:99-102 | The auxiliary count never exceeds the total count. |
| `OgCount.UniformGroup` | src/psaps/util.py:81-96 | When every genome of a non-empty group has the same OG set, the union is that set. Each of its OGs is counted once per genome, and any other OG zero times. |
| `OgCount.UniformGroupHasNoAux` | src/psaps/util.py:88-100 | In that situation, with a threshold at most 100, no OG is auxiliary and the total is the shared set's size. |
| `OgCount.LowThresholdAllCore` | src/psaps/util.py:87-91 | With a threshold at most 100 / group size, every OG seen in the group is core. |
| `OgCount.SeenIsCoreAtLowThreshold` | src/psaps/util.py:87-91 | A count of at least one passes the core test whenever the threshold times the group size is at most 100. |
| `OgCount.ThreeGenomeScenario` | src/psaps/util.py:79-102 | Example: g1:{o1,o2}, g2:{o1,o2}, g3:{o1} at 80% gives 1 auxiliary OG and 2 OGs in total. |
| `PyOrder.StrLessAsymmetric` | src/psaps/util.py:123-124 | Python's string order never puts two names each before the other. |
| `PyOrder.StrLessTotal` | src/psaps/util.py:123-124 | Of two different names, one sorts before the other. |
| `PyOrder.StrLessTransitive` | src/psaps/util.py:123-124 | Python's string order is transitive. |
| `ClosestRep.PrecedesTransitive` | src/psaps/util.py:131 | The order "closer, or as close and smaller name" is transitive. |
| `ClosestRep.ClosestUnique` | src/psaps/util.py:131-133 | At most one candidate precedes all others, so the selected representative is determined by the candidates. |
| `ClosestRep.StableSortHead` | src/psaps/util.py:131-133 | The first entry of a stable sort by distance is a candidate at the least distance. Every candidate listed before it is strictly farther. |
| `ClosestRep.StableSortHeadIsClosest` | src/psaps/util.py:123-133 | For candidates listed in ascending name order, that first entry is closest, with ties going to the smallest name. |
| `ClosestRep.ClosestIsStableSortHead` | src/psaps/util.py:123-133 | With candidates listed in ascending name order, the candidate that precedes all others by (distance, name) is exactly the first entry of the stable sort by distance. |
| `ClosestRep.SelectClosest` | src/psaps/util.py:131-133 | For a non-empty candidate table, returns the candidate that is closer than every other, or as close with a smaller name. |
| `ClosestRep.CandidateDistsStep` | src/psaps/util.py:124-126 | Scanning one more leaf adds it to the table exactly when it is a representative other than the current leaf. |
| `ClosestRep.RecordDistances` | src/psaps/util.py:116-126 | After the double loop, each leaf's row holds exactly the other leaves that are representatives, each with its distance from the leaf. Only leaves get rows. |
| `ClosestRep.ClosestInIsNearestRep` | src/psaps/util.py:123-133 | Being the closest entry of a leaf's row is the same as being its nearest representative: another leaf, in the representative set, and preceding all other such leaves. |
| `ClosestRep.NearestOf` | src/psaps/util.py:129-134 | `cr` stays `None` exactly when the leaf has no other representative. Otherwise it is the leaf's nearest representative. |
| `ClosestRep.DetermineClosestRep` | src/psaps/util.py:116-139 | Succeeds exactly when every leaf has another leaf that is a representative. It then maps exactly the leaves, each to its nearest representative: a leaf that is a representative and is not itself, with ties to the smallest name. Otherwise it fails as a whole, naming the first such leaf in traversal order, and no partial map is returned. |
| `ClosestRep.FourLeafScenario` | src/psaps/util.py:123-135 | Example: on ((A:1,B:1):1,(C:1,D:1):1) with representatives {A, C}, B goes to A, D to C, A to C and C to A. |

## Left out

- `createLoggerObject`, `closeLoggerObject`: logging setup and teardown; these are I/O and library state.
- `runCmd`: runs a shell command and checks the file system. Both are external effects.
- `determineBranchSumForGroup`: its result depends on the tree library's pruning and on a floating-point sum of branch lengths. That library is not part of this model.
- Reading the representative listing file (`src/psaps/util.py:110-114`): the representatives are an input set.
- Newick parsing, post-order traversal, `is_leaf` and `get_distance`: the leaf names are an input sequence in traversal order, and the distance is a function parameter. No non-negativity is assumed, because the selection does not need it.
- `DetermineClosestRep` requires distinct leaf names. The tree library identifies leaves by name, and with distinct names the source's index test `i != j` is the same as comparing the names.
- `RecordDistances`: visits the leaves in traversal order, not in `sorted(leaves)` order. Insertion order only matters for ties, and the tie rule it implies (smallest name first) is stated explicitly in `SelectClosest` and justified by `StableSortHeadIsClosest`. The model contains no sort routine.
- `OgCount.IsCore`: compares over exact reals, not IEEE doubles. A proportion such as 29/100, whose floating-point product with 100 rounds below 29, is not modelled.
- Printing the traceback to standard error before exiting is not modelled. The failure is returned as an `Err` value.
