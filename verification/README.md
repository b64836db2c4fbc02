# Jump-proposal helpers of a pulsar-timing-array sampler, in Dafny

This project models `utils/sample_helpers.py`, which has two parts:

- `JumpProposal` is the book-keeping a Markov-chain sampler uses to propose
  moves in the flat parameter vector of a pulsar-timing-array model. It holds:
  - `pmap`: each parameter's slice of that vector;
  - `pimap`: each parameter name's position in the name list;
  - `snames`: each signal label's parameters;
  - the four prior-draw proposals.
- Two utilities split the parameters into sampling groups:
  - `get_global_parameters`;
  - `get_parameter_groups`.

The model is purely functional. Every operation is a Dafny function over
immutable values. Each one is paired with a reference definition or an
inverse, and lemmas connect the two.

| file | module | what it holds |
|---|---|---|
| `wrappers.dfy` | `Wrappers` | `Option` and `Result` |
| `seqs.dfy` | `Seqs` | counting, first and last occurrence, filtering, subsequences |
| `model.dfy` | `Model` | parameters, signals, signal collections and the model container (`pta`) |
| `parameter_index.dfy` | `ParameterIndex` | the constructor: `pmap`, `pimap`, `snames`, `ndim` |
| `proposal.dfy` | `Proposal` | the four prior draws, as one function of an optional signal label |
| `groups.dfy` | `Groups` | global/individual parameters and the sampling groups |

Modelling choices:

- **Parameters.** A parameter is a record `Param(name, size)`. Size `0` stands
  for Python's `None` and for `0`, since `p.size or 1` and `if param.size:` treat
  them alike. Its width in the flat vector is `Width(p)`, that is, `size` or 1.
- **Slices.** The slice of the `i`-th parameter is given independently as
  `SliceAt(ps, i)`, from the sum of the widths before it. The dictionary-building
  loops (`PmapLoop`, `PimapLoop`, `SnamesLoop`) are proved to agree with the
  last occurrence of each key. That is Python's "later assignment wins" rule.
- **Randomness and priors.** The random draws arrive as a `Choice`. It holds the
  pool position, the vector component and the sampled value. `InRange` states
  the ranges numpy's generator guarantees. A parameter's prior log density
  (`get_logpdf`) is a function argument.
- **The draws.** `draw_from_prior`, `draw_from_gwb_prior`,
  `draw_from_bwm_prior` and `draw_from_ephem_prior` are one function,
  `DrawFromPrior`, taking `None` or the label (`"red noise"`, `"bwm"`,
  `"phys_ephem"`). The three labelled methods are textually identical apart
  from that label.
- **Errors.** Each exception the source can raise is a `Failure`:
  - `randint(0, 0)` on a model with no parameters;
  - a missing `snames` key;
  - `np.random.choice` of an empty list;
  - a `pmap` miss;
  - `list.index` of a name not in `param_names`.

Behaviours of the code a reader may not expect; the model follows the code:

- **`snames` is overwritten.** When two signals in different collections share
  a label, `snames` keeps the parameters of the LAST one. They are not merged
  (`SnamesLastSignalWins`).
- **Global parameters are found per collection.** A name is global when it
  occurs more than once in the concatenation of the collections' own name lists
  (`sc.param_names`). A name repeated inside one collection therefore counts as
  global too.
- **Global names are judged by truthiness.** `any(gpars)` looks at the names as strings.
  A global-name list whose only entry is the empty string produces no global
  group (`EmptyGlobalNameGetsNoGroup`).
- **The first group counts names, not coordinates.** It is `range(len(param_names))`,
  the number of parameter NAMES, even when vector parameters make the flat vector
  longer.
- **The unrestricted draw writes scalars at the wrong position.** For a scalar
  parameter it writes the sample at the parameter's ordinal `idx`, not at its
  slice. It is modelled as written (see Findings).

## Model

| member | source | states |
|---|---|---|
| ParameterIndex.New | utils/sample_helpers.py:14-34 | the constructed proposal is consistent:<br>• `npar` is the parameter count<br>• `ndim` is the total width<br>• `pmap` maps every parameter to the slice of its last occurrence<br>• `pimap` maps every name to its last position<br>• `snames` maps every signal label to the parameters of the last signal with that label |
| ParameterIndex.PmapLoop | utils/sample_helpers.py:19-24 | the loop's final counter equals the sum of widths (`ndim`)<br>• its keys are exactly the parameters<br>• each key's slice is the one computed for its last occurrence |
| ParameterIndex.SumWidthsAtLeastCount | utils/sample_helpers.py:15-16 | `ndim >= npar`<br>• equality holds iff every parameter occupies exactly one coordinate |
| ParameterIndex.SlicesSpan | utils/sample_helpers.py:20-24 | the first slice starts at 0 and the last ends at `ndim` |
| ParameterIndex.SlicesAdjacent | utils/sample_helpers.py:20-24 | each slice starts exactly where the previous one stops (the running counter `ct` is never skipped or reused) |
| ParameterIndex.SlicesOrdered | utils/sample_helpers.py:20-24 | a later parameter's slice starts at or after an earlier one's stop (slices are disjoint) |
| ParameterIndex.Owner | utils/sample_helpers.py:20-24 | every coordinate below `ndim` lies inside some parameter's slice (the slices cover the vector) |
| ParameterIndex.SlicesTile | utils/sample_helpers.py:20-24 | a coordinate inside a parameter's slice is below `ndim`<br>• its owner is that parameter (the slices tile the vector uniquely) |
| ParameterIndex.PmapOfDistinct | utils/sample_helpers.py:21-24 | with distinct parameters, `pmap[params[i]]` starts at the sum of the widths of the parameters before `i` |
| ParameterIndex.PimapLoop | utils/sample_helpers.py:27-29 | the keys are exactly the names<br>• each maps to the position of its last occurrence |
| ParameterIndex.SnamesLoop | utils/sample_helpers.py:31-34 | the keys are exactly the signal labels<br>• each maps to the parameter list of the last signal with that label |
| ParameterIndex.SnamesLastSignalWins | utils/sample_helpers.py:31-34 | two collections each holding a signal with the same label: `snames` keeps the second signal's parameters |
| Proposal.Pool | utils/sample_helpers.py:47-50 | the unrestricted pool exists iff there is a parameter, and it is `self.params`, so the pick is `randint(0, npar)`'s range<br>• a labelled pool exists iff the label is in `snames` with a non-empty list, and it is that list<br>• a failure names its cause: no parameters, an unknown label, or a label with an empty list |
| Proposal.Resample | utils/sample_helpers.py:43-60 | the copy has `x`'s length<br>• it holds the sample at the written position<br>• it equals `x` everywhere else<br>• `lqxy` is the log prior of the parameter's slice of `x` minus that of its slice of `q` |
| Proposal.DrawFromPrior | utils/sample_helpers.py:37-128 | errors:<br>• an empty or missing pool is reported as such<br>• a chosen parameter missing from `pmap` is reported<br>on success:<br>• the chosen parameter belongs to the requested signal (or is `params[idx]`)<br>• exactly the write position may change, and it holds the sample<br>• `lqxy` is the log prior of the old slice minus that of the new slice |
| Proposal.DrawStaysInSlice | utils/sample_helpers.py:65-84 | a labelled draw, or any draw of a vector parameter:<br>• changes only coordinates inside the chosen parameter's slice<br>• for a vector, changes only the chosen component |
| Proposal.UnrestrictedScalarWritesAtOrdinal | utils/sample_helpers.py:47-57 | for a parameter list without repeats (`pta.params` lists each parameter once):<br>• the unrestricted scalar draw writes at ordinal `idx`<br>• that is the parameter's own coordinate iff every earlier parameter has width 1 |
| Proposal.DrawFromPriorMisplacesScalar | utils/sample_helpers.py:50-60 | for parameters [a (size 2), b (scalar)], drawing b writes into a's slice and returns log ratio 0 |
| Proposal.DrawFromPriorIntended | utils/sample_helpers.py:72-82 | same failures as the source<br>• on success the sample is written at the chosen parameter's own coordinate (its slice start, plus the component for a vector), as `q[self.pmap[param]] = param.sample()` does<br>• every other coordinate is unchanged<br>• `lqxy` is the slice's log-prior difference |
| Proposal.IntendedAgreesWithSource | utils/sample_helpers.py:51-79 | the corrected and as-written draws coincide for:<br>• labelled draws<br>• vector parameters<br>• scalars preceded only by width-1 parameters, for a parameter list without repeats (`pta.params` lists each parameter once) |
| Proposal.RatioDependsOnlyOnSlice | utils/sample_helpers.py:60 | two points equal on the chosen slice give the same `lqxy` |
| Proposal.HastingsExample | utils/sample_helpers.py:57-62 | with log density `-v^2`, resampling scalar 1 to 2 returns `q = [2]` and `lqxy = 3` |
| Groups.Unique | utils/sample_helpers.py:137 | the result is strictly sorted and has exactly the input's elements (`np.unique`) |
| Groups.SortedListDeterminedByElements | utils/sample_helpers.py:137 | two strictly sorted lists with the same elements are equal, so `np.unique`'s result is determined |
| Groups.GlobalParameters | utils/sample_helpers.py:132-140 | `gpars`:<br>• is sorted<br>• holds exactly the names occurring more than once in the concatenated collection name lists<br>`ipars`:<br>• holds exactly those occurring once<br>• keeps their order and multiplicity, as a subsequence of the concatenation |
| Groups.Ordinals | utils/sample_helpers.py:152 | succeeds iff every name occurs in `param_names`, else reports a missing name<br>• each ordinal is the name's first position (`list.index`) |
| Groups.GlobalGroup | utils/sample_helpers.py:151-152 | no global group when no global name is truthy<br>• otherwise the first positions of the global names, failing on a missing one |
| Groups.SignalGroups | utils/sample_helpers.py:154-158 | succeeds iff every signal's non-global names occur in `param_names`<br>• a failure names a missing name |
| Groups.SignalGroupsNonGlobal | utils/sample_helpers.py:154-158 | every signal group is non-empty (`if ind:`) and refers only to non-global names (`if p not in gpars`) |
| Groups.SignalGroupsFromSignals | utils/sample_helpers.py:154-158 | every signal group is the first-position list of some signal's non-global names |
| Groups.SignalGroupsComplete | utils/sample_helpers.py:154-158 | every signal with a non-global name contributes its group |
| Groups.SignalGroupsKeepNonEmpty | utils/sample_helpers.py:154-158 | the loop's result is the list of non-empty per-signal ordinal lists, in signal order (`if ind: groups.extend([ind])`) |
| Groups.SignalGroupsInOrder | utils/sample_helpers.py:154-158 | one group per contributing signal, in signal order: the j-th group is the ordinal list of the j-th signal with a non-global name, so a repeated signal contributes twice |
| Groups.GroupList | utils/sample_helpers.py:144-160 | succeeds iff every global and signal name is found<br>• the first group is `0 .. len(param_names)-1`<br>• there is room for the global group when a global name is truthy |
| Groups.GroupListStructure | utils/sample_helpers.py:144-160 | when present, the second group holds the first positions of the global names, in sorted order<br>• every later group is non-empty and global-free, and comes from one signal<br>• every signal with a non-global name contributes its group |
| Groups.GroupListInOrder | utils/sample_helpers.py:144-160 | after the range group and the global group, the list has exactly one group per contributing signal, in signal order |
| Groups.ParameterGroups | utils/sample_helpers.py:144-160 | the first group always spans the name count<br>• a failure names a name that is not a parameter name |
| Groups.ParameterGroupsExample | utils/sample_helpers.py:144-160 | names [a, b, g] with collections {a, g} and {b, g} give groups [[0,1,2],[2],[0],[1]] |
| Groups.RepeatedSignalContributesTwice | utils/sample_helpers.py:154-158 | two signals that both name only `a` give `[[0],[0],[0]]`: a repeated group is appended once per signal |
| Groups.EmptyGlobalNameGetsNoGroup | utils/sample_helpers.py:151 | a lone global name `""` is falsy, so no global group is added |

## Left out

- Random number generation (`np.random.randint`, `np.random.choice`) and prior sampling (`param.sample()`). The outcomes are the `Choice` argument. The ranges numpy guarantees are the `InRange` precondition.
- The prior's log density (`param.get_logpdf`) is a function argument. Its content is not modelled.
- Floating point: samples and log ratios are exact reals, and the final `float(lqxy)` conversion is the identity.
- The `iter` and `beta` arguments of the draws are unused by the source and are not modelled.
- Copying (`x.copy()`): sequences are values in Dafny, so "the input vector is not mutated" holds by construction and is not stated.
- Parameter identity: Python dictionary keys are parameter objects. Here parameters are compared by value, as `(name, size)`.
- Model internals: `pta.params`, `pta.param_names`, `_signalcollections`, `_signals`, `param_names` and `signal_name` are plain fields. No consistency between a signal's `params` and its `param_names` is assumed.
- Python 3 behaviour of `np.unique(filter(...))`: a lazy `filter` object is wrapped as an object array rather than filtered. The model follows the list semantics the code evidently intends.
- String order in `np.unique` is code-point lexicographic. numpy's treatment of trailing NUL characters in fixed-width strings is not modelled.
- Proposal.DrawFromPrior: requires the point to have exactly `ndim` coordinates. numpy's clipping or broadcasting for shorter or longer vectors is not modelled.
- Groups.GroupList: the membership test `p not in gpars` is list membership. numpy's element-wise `in` on an array of strings is taken to agree with it.

## Findings

| source | as written | input that shows it | evidently intended | confidence | as-written member | corrected member |
|---|---|---|---|---|---|---|
| utils/sample_helpers.py:57 | the unrestricted draw writes a scalar parameter's sample at `q[idx]`, the parameter's ordinal | parameters [a (size 2), b (scalar)], `idx = 1`, `x = [0, 0, 0]`, sample 5: `q = [0, 5, 0]` (a's second component is overwritten, b's coordinate 2 is untouched), `lqxy = 0` | `q[self.pmap[param]] = param.sample()`, as in lines 79, 101 and 123 | not executed; high | Proposal.DrawFromPriorMisplacesScalar | Proposal.DrawFromPriorIntended |
