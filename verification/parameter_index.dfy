/** The bookkeeping a jump-proposal object builds once per model
    (`JumpProposal.__init__`): the flat-vector slice of every parameter, the
    ordinal of every parameter name, and the parameter list of every signal label. */
module ParameterIndex {
  import opened Seqs
  import opened Model

  /** A half-open range [start, stop) of flat-vector positions (a Python `slice`). */
  datatype Slice = Slice(start: nat, stop: nat)

  /** Total number of flat coordinates of `ps`: every parameter counts with `size or 1`. */
  function SumWidths(ps: seq<Param>): nat
  {
    if |ps| == 0 then 0 else SumWidths(ps[..|ps| - 1]) + Width(ps[|ps| - 1])
  }

  /** Reference placement: parameter `i` starts where all earlier parameters end
      and spans its own width. */
  function SliceAt(ps: seq<Param>, i: nat): Slice
    requires i < |ps|
  {
    Slice(SumWidths(ps[..i]), SumWidths(ps[..i]) + Width(ps[i]))
  }

  /** Every parameter occupies at least one coordinate, so the flat vector is at
      least as long as the parameter list, and exactly as long iff every
      parameter occupies a single coordinate. */
  lemma {:induction false} SumWidthsAtLeastCount(ps: seq<Param>)
    ensures SumWidths(ps) >= |ps|
    ensures SumWidths(ps) == |ps| <==> forall j :: 0 <= j < |ps| ==> Width(ps[j]) == 1
  {
    if |ps| > 0 {
      var init := ps[..|ps| - 1];
      SumWidthsAtLeastCount(init);
      assert forall j :: 0 <= j < |init| ==> init[j] == ps[j];
      if SumWidths(ps) == |ps| {
        forall j | 0 <= j < |ps| ensures Width(ps[j]) == 1 {
          if j < |init| { assert Width(init[j]) == 1; }
        }
      }
    }
  }

  /** Dropping the last parameter leaves the earlier slices where they were. */
  lemma SliceAtOfInit(ps: seq<Param>, i: nat)
    requires i < |ps| - 1
    ensures SliceAt(ps[..|ps| - 1], i) == SliceAt(ps, i)
  {
    assert ps[..|ps| - 1][..i] == ps[..i];
  }

  /** The slice of parameter `i` ends where the prefix of length i + 1 ends. */
  lemma SliceAtStop(ps: seq<Param>, i: nat)
    requires i < |ps|
    ensures SliceAt(ps, i).stop == SumWidths(ps[..i + 1])
  {
    assert ps[..i + 1][..i] == ps[..i];
  }

  /** Longer prefixes never cover fewer coordinates. */
  lemma {:induction false} SumWidthsMonotone(ps: seq<Param>, i: nat, j: nat)
    requires i <= j <= |ps|
    ensures SumWidths(ps[..i]) <= SumWidths(ps[..j])
    decreases j - i
  {
    if i < j {
      SumWidthsMonotone(ps, i, j - 1);
      assert ps[..j][..j - 1] == ps[..j - 1];
    }
  }

  /** Every slice lies inside [0, SumWidths(ps)). */
  lemma SliceWithin(ps: seq<Param>, i: nat)
    requires i < |ps|
    ensures SliceAt(ps, i).stop <= SumWidths(ps)
  {
    SliceAtStop(ps, i);
    SumWidthsMonotone(ps, i + 1, |ps|);
    assert ps[..|ps|] == ps;
  }

  /** True iff flat coordinate `k` lies in `sl`. */
  predicate InSlice(sl: Slice, k: int) {
    sl.start <= k < sl.stop
  }

  /** The parameter whose slice holds flat coordinate `k`. */
  function Owner(ps: seq<Param>, k: nat): (i: nat)
    requires k < SumWidths(ps)
    ensures i < |ps|
    ensures InSlice(SliceAt(ps, i), k)
    decreases |ps|
  {
    var init := ps[..|ps| - 1];
    if k >= SumWidths(init) then
      assert ps[..|ps| - 1] == init;
      |ps| - 1
    else
      var i := Owner(init, k);
      SliceAtOfInit(ps, i);
      i
  }

  /** The slices span the flat vector: the first starts at 0 and the last
      ends at the total width. */
  lemma SlicesSpan(ps: seq<Param>)
    requires |ps| > 0
    ensures SliceAt(ps, 0).start == 0
    ensures SliceAt(ps, |ps| - 1).stop == SumWidths(ps)
  {
    SliceAtStop(ps, |ps| - 1);
    assert ps[..|ps|] == ps;
  }

  /** Consecutive slices are back to back: each starts where the previous one
      ends, leaving neither gap nor overlap. */
  lemma SlicesAdjacent(ps: seq<Param>, i: nat)
    requires i + 1 < |ps|
    ensures SliceAt(ps, i).stop == SliceAt(ps, i + 1).start
  {
    SliceAtStop(ps, i);
  }

  /** A slice ends no later than any later slice starts: the slices do not overlap. */
  lemma SlicesOrdered(ps: seq<Param>, i: nat, j: nat)
    requires i < j < |ps|
    ensures SliceAt(ps, i).stop <= SliceAt(ps, j).start
  {
    SliceAtStop(ps, i);
    SumWidthsMonotone(ps, i + 1, j);
  }

  /** Every coordinate of a slice lies below the total width and is owned by
      that slice's parameter and by no other: with `Owner`, the slices tile
      [0, SumWidths(ps)) exactly. */
  lemma SlicesTile(ps: seq<Param>, k: int, i: nat)
    requires i < |ps| && InSlice(SliceAt(ps, i), k)
    ensures 0 <= k < SumWidths(ps) && Owner(ps, k) == i
  {
    SliceWithin(ps, i);
    var o := Owner(ps, k);
    if o < i {
      SlicesOrdered(ps, o, i);
    } else if i < o {
      SlicesOrdered(ps, i, o);
    }
  }

  /** The pmap loop: after the parameters `ps` have been visited, the map from
      parameter to slice and the running offset `ct`. A repeated parameter keeps
      the slice of its last visit. */
  function PmapLoop(ps: seq<Param>): (r: (map<Param, Slice>, nat))
    ensures r.1 == SumWidths(ps)
    ensures forall p :: p in r.0 <==> p in ps
    ensures forall p :: p in r.0 ==> r.0[p] == SliceAt(ps, LastIndex(ps, p))
    decreases |ps|
  {
    if |ps| == 0 then (map[], 0)
    else
      var init := ps[..|ps| - 1];
      var p := ps[|ps| - 1];
      var (m, ct) := PmapLoop(init);
      var m' := m[p := Slice(ct, ct + Width(p))];
      assert forall p' :: p' in ps <==> p' in init || p' == p;
      assert forall p' :: p' in m' ==> m'[p'] == SliceAt(ps, LastIndex(ps, p')) by {
        forall p' | p' in m' ensures m'[p'] == SliceAt(ps, LastIndex(ps, p')) {
          if p' != p {
            SliceAtOfInit(ps, LastIndex(init, p'));
          }
        }
      }
      (m', ct + Width(p))
  }

  /** The pimap loop (`for ct, p in enumerate(param_names)`): every name maps to
      the position of its last occurrence. */
  function PimapLoop(names: seq<string>): (m: map<string, nat>)
    ensures forall n :: n in m <==> n in names
    ensures forall n :: n in m ==> m[n] == LastIndex(names, n)
    decreases |names|
  {
    if |names| == 0 then map[]
    else
      var init := names[..|names| - 1];
      assert forall n :: n in names ==> n in init || n == names[|names| - 1];
      PimapLoop(init)[names[|names| - 1] := |names| - 1]
  }

  /** The snames loop: every signal label maps to the parameter list of the LAST
      signal carrying it; the lists of earlier signals with that label are
      replaced, not merged. */
  function SnamesLoop(sigs: seq<Signal>): (m: map<string, seq<Param>>)
    ensures forall n :: n in m <==> n in SignalNames(sigs)
    ensures forall n :: n in m ==> m[n] == sigs[LastIndex(SignalNames(sigs), n)].params
    decreases |sigs|
  {
    if |sigs| == 0 then map[]
    else
      var init := sigs[..|sigs| - 1];
      var last := sigs[|sigs| - 1];
      var names, initNames := SignalNames(sigs), SignalNames(init);
      assert names[..|names| - 1] == initNames;
      assert forall n :: n in names <==> n in initNames || n == last.signalName;
      var m := SnamesLoop(init)[last.signalName := last.params];
      assert forall n :: n in m ==> m[n] == sigs[LastIndex(names, n)].params by {
        forall n | n in m
          ensures m[n] == sigs[LastIndex(names, n)].params
        {
          if n != last.signalName {
            var j := LastIndex(initNames, n);
            assert LastIndex(names, n) == j;
            assert init[j] == sigs[j];
          }
        }
      }
      m
  }

  /** The state of a jump-proposal object after construction. */
  datatype JumpProposal = JumpProposal(
    params: seq<Param>,                // `self.params`
    npar: nat,                         // `self.npar`
    ndim: nat,                         // `self.ndim`
    pmap: map<Param, Slice>,           // `self.pmap`
    pimap: map<string, nat>,           // `self.pimap`
    snames: map<string, seq<Param>>)   // `self.snames`

  /** What construction guarantees about the parameter bookkeeping, and what the
      proposals rely on: the counts agree with the parameter list and every
      parameter's slice is its reference placement (the last one for a repeated
      parameter). */
  ghost predicate Valid(jp: JumpProposal) {
    && jp.npar == |jp.params|
    && jp.ndim == SumWidths(jp.params)
    && (forall p :: p in jp.pmap <==> p in jp.params)
    && (forall p :: p in jp.pmap ==> jp.pmap[p] == SliceAt(jp.params, LastIndex(jp.params, p)))
  }

  /** Construction from a model (`JumpProposal.__init__`). */
  function New(pta: Pta): (jp: JumpProposal)
    ensures Valid(jp)
    ensures jp.params == pta.params
    ensures jp.npar == |pta.params| && jp.ndim == SumWidths(pta.params)
    ensures forall n :: n in jp.pimap <==> n in pta.paramNames
    ensures forall n :: n in jp.pimap ==> jp.pimap[n] == LastIndex(pta.paramNames, n)
    ensures forall n :: n in jp.snames <==> n in SignalNames(AllSignals(pta.collections))
    ensures forall n :: n in jp.snames ==>
              var sigs := AllSignals(pta.collections);
              jp.snames[n] == sigs[LastIndex(SignalNames(sigs), n)].params
  {
    var pmap := PmapLoop(pta.params).0;
    JumpProposal(pta.params, |pta.params|, SumWidths(pta.params), pmap,
                 PimapLoop(pta.paramNames), SnamesLoop(AllSignals(pta.collections)))
  }

  /** For a parameter list without repetitions, `pmap[params[i]]` is the i-th
      slice of the tiling: it starts at the total width of the earlier parameters. */
  lemma PmapOfDistinct(jp: JumpProposal, i: nat)
    requires Valid(jp) && Distinct(jp.params) && i < |jp.params|
    ensures jp.params[i] in jp.pmap
    ensures jp.pmap[jp.params[i]] == SliceAt(jp.params, i)
    ensures jp.pmap[jp.params[i]].start == SumWidths(jp.params[..i])
  {
    LastIndexOfDistinct(jp.params, i);
  }

  /** Two signals with the same label: the second one's list replaces the first's. */
  lemma SnamesLastSignalWins(pta: Pta, a: Signal, b: Signal)
    requires a.signalName == b.signalName
    requires pta.collections == [SignalCollection([], [a]), SignalCollection([], [b])]
    ensures New(pta).snames[a.signalName] == b.params
  {
    var sigs := AllSignals(pta.collections);
    assert pta.collections[..1] == [SignalCollection([], [a])];
    assert pta.collections[..1][..0] == [];
    assert AllSignals(pta.collections[..1]) == [a];
    assert sigs == [a, b];
    assert SignalNames(sigs)[1] == a.signalName;
  }
}
