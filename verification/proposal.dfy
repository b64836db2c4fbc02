/** The prior-draw jump proposals (`draw_from_prior`, `draw_from_gwb_prior`,
    `draw_from_bwm_prior`, `draw_from_ephem_prior`) as one function of the
    signal label to restrict to (`None` for the unrestricted draw). The random
    draws and the prior's log density are arguments. */
module Proposal {
  import opened Wrappers
  import opened Seqs
  import opened Model
  import opened ParameterIndex

  /** The random outcomes one proposal step consumes:
      `pick` is `np.random.randint(0, npar)` for the unrestricted draw, or the
      position in the signal's list that `np.random.choice` selects;
      `component` is `np.random.randint(0, param.size)`, drawn for a vector
      parameter only; `value` is the prior sample written into the vector
      (`param.sample()` for a scalar, its `component`-th entry for a vector). */
  datatype Choice = Choice(pick: nat, component: nat, value: real)

  /** The ways a proposal step aborts. */
  datatype DrawError =
    | NoParameters                    // `np.random.randint(0, 0)` raises ValueError
    | UnknownSignal(name: string)     // `self.snames[signal_name]` raises KeyError
    | EmptyPool(name: string)         // `np.random.choice([])` raises ValueError
    | UnknownParameter(param: Param)  // `self.pmap[param]` raises KeyError

  /** The new point `q` and the Hastings log ratio `lqxy`. */
  datatype Proposal = Proposal(q: seq<real>, lqxy: real)

  /** A parameter's prior log density (`param.get_logpdf`), supplied by the model. */
  type LogPdf = (Param, seq<real>) -> real

  /** The parameters a step chooses from: all of them, or those of the last
      signal carrying the requested label. */
  function Pool(jp: JumpProposal, signal: Option<string>): (r: Result<seq<Param>, DrawError>)
    requires Valid(jp)
    ensures r.Success? ==> |r.value| > 0
    ensures signal.None? ==> (r.Success? <==> jp.npar > 0)
    ensures signal.None? && r.Success? ==> r.value == jp.params
    ensures signal.Some? ==>
              (r.Success? <==> signal.value in jp.snames && jp.snames[signal.value] != [])
    ensures signal.Some? && r.Success? ==> r.value == jp.snames[signal.value]
    ensures r.Failure? ==>
              r.error == if signal.None? then NoParameters
                         else if signal.value !in jp.snames then UnknownSignal(signal.value)
                         else EmptyPool(signal.value)
  {
    match signal
    case None =>
      if jp.npar == 0 then Failure(NoParameters) else Success(jp.params)
    case Some(name) =>
      if name !in jp.snames then Failure(UnknownSignal(name))
      else if jp.snames[name] == [] then Failure(EmptyPool(name))
      else Success(jp.snames[name])
  }

  /** The ranges numpy's generator draws from: a position inside the pool and,
      for a vector parameter, a component inside its size. */
  ghost predicate InRange(jp: JumpProposal, signal: Option<string>, c: Choice)
    requires Valid(jp)
  {
    match Pool(jp, signal)
    case Failure(_) => true
    case Success(pool) =>
      c.pick < |pool| && (IsVector(pool[c.pick]) ==> c.component < pool[c.pick].size)
  }

  /** The parameter the step resamples. */
  function Chosen(jp: JumpProposal, signal: Option<string>, c: Choice): Param
    requires Valid(jp) && Pool(jp, signal).Success? && InRange(jp, signal, c)
  {
    Pool(jp, signal).value[c.pick]
  }

  /** Where the source writes the sample: the chosen component of a vector
      parameter's slice; for a scalar, the slice's single coordinate when a
      signal is named, but the parameter's ORDINAL `pick` in the unrestricted
      draw (`q[idx] = param.sample()`). */
  function WritePosition(jp: JumpProposal, signal: Option<string>, param: Param, c: Choice): nat
    requires param in jp.pmap
  {
    if IsVector(param) then jp.pmap[param].start + c.component
    else if signal.None? then c.pick
    else jp.pmap[param].start
  }

  /** Where the sample belongs: always inside the chosen parameter's slice. */
  function IntendedPosition(jp: JumpProposal, param: Param, c: Choice): nat
    requires param in jp.pmap
  {
    if IsVector(param) then jp.pmap[param].start + c.component else jp.pmap[param].start
  }

  /** Copies `x`, writes `value` at `pos`, and computes the log ratio of the old
      and the new sub-vector of `param`'s slice under its prior. */
  function Resample(jp: JumpProposal, x: seq<real>, param: Param, pos: nat, value: real, logpdf: LogPdf)
    : (r: Proposal)
    requires Valid(jp) && |x| == jp.ndim && param in jp.pmap && pos < |x|
    ensures |r.q| == |x| && r.q[pos] == value
    ensures forall k :: 0 <= k < |x| && k != pos ==> r.q[k] == x[k]
    ensures r.lqxy == logpdf(param, SliceOf(jp, param, x)) - logpdf(param, SliceOf(jp, param, r.q))
  {
    SliceWithin(jp.params, LastIndex(jp.params, param));
    var sl := jp.pmap[param];
    var q := x[pos := value];
    Proposal(q, logpdf(param, x[sl.start..sl.stop]) - logpdf(param, q[sl.start..sl.stop]))
  }

  /** The chosen parameter's slice, read from `v`. */
  function SliceOf(jp: JumpProposal, param: Param, v: seq<real>): seq<real>
    requires Valid(jp) && |v| == jp.ndim && param in jp.pmap
  {
    SliceWithin(jp.params, LastIndex(jp.params, param));
    v[jp.pmap[param].start..jp.pmap[param].stop]
  }

  /** One prior-draw proposal step as the source performs it. */
  function DrawFromPrior(jp: JumpProposal, signal: Option<string>, x: seq<real>, c: Choice, logpdf: LogPdf)
    : (r: Result<Proposal, DrawError>)
    requires Valid(jp) && |x| == jp.ndim && InRange(jp, signal, c)
    ensures Pool(jp, signal).Failure? ==> r == Failure(Pool(jp, signal).error)
    ensures Pool(jp, signal).Success? ==>
              if Chosen(jp, signal, c) in jp.pmap then r.Success?
              else r == Failure(UnknownParameter(Chosen(jp, signal, c)))
    ensures r.Success? ==>
              && Pool(jp, signal).Success?
              && Chosen(jp, signal, c) in jp.pmap
              && var param := Chosen(jp, signal, c);
                 var pos := WritePosition(jp, signal, param, c);
                 && (signal.Some? ==> param in jp.snames[signal.value])
                 && (signal.None? ==> param == jp.params[c.pick])
                 && pos < |x|
                 && |r.value.q| == |x|
                 && r.value.q[pos] == c.value
                 && (forall k :: 0 <= k < |x| && k != pos ==> r.value.q[k] == x[k])
                 && r.value.lqxy == logpdf(param, SliceOf(jp, param, x)) - logpdf(param, SliceOf(jp, param, r.value.q))
  {
    match Pool(jp, signal)
    case Failure(e) => Failure(e)
    case Success(pool) =>
      var param := pool[c.pick];
      if param !in jp.pmap then Failure(UnknownParameter(param))
      else
        var pos := WritePosition(jp, signal, param, c);
        SliceWithin(jp.params, LastIndex(jp.params, param));
        SumWidthsAtLeastCount(jp.params);
        Success(Resample(jp, x, param, pos, c.value, logpdf))
  }

  /** The step with the scalar write of the unrestricted draw placed at the
      parameter's slice, as in the signal-restricted draws. */
  function DrawFromPriorIntended(jp: JumpProposal, signal: Option<string>, x: seq<real>, c: Choice, logpdf: LogPdf)
    : (r: Result<Proposal, DrawError>)
    requires Valid(jp) && |x| == jp.ndim && InRange(jp, signal, c)
    ensures r.Failure? <==> DrawFromPrior(jp, signal, x, c, logpdf).Failure?
    ensures r.Failure? ==> r == DrawFromPrior(jp, signal, x, c, logpdf)
    ensures r.Success? ==>
              var param := Chosen(jp, signal, c);
              && param in jp.pmap
              && InSlice(jp.pmap[param], IntendedPosition(jp, param, c))
              && IntendedPosition(jp, param, c) < |x|
              && |r.value.q| == |x|
              && r.value.q[IntendedPosition(jp, param, c)] == c.value
              && (forall k :: 0 <= k < |x| && k != IntendedPosition(jp, param, c) ==> r.value.q[k] == x[k])
              && (forall k :: 0 <= k < |x| && r.value.q[k] != x[k] ==> InSlice(jp.pmap[param], k))
              && r.value.lqxy == logpdf(param, SliceOf(jp, param, x)) - logpdf(param, SliceOf(jp, param, r.value.q))
  {
    match Pool(jp, signal)
    case Failure(e) => Failure(e)
    case Success(pool) =>
      var param := pool[c.pick];
      if param !in jp.pmap then Failure(UnknownParameter(param))
      else
        var pos := IntendedPosition(jp, param, c);
        SliceWithin(jp.params, LastIndex(jp.params, param));
        Success(Resample(jp, x, param, pos, c.value, logpdf))
  }

  /** A signal-restricted draw, or any draw of a vector parameter, changes at
      most one coordinate and that coordinate lies inside the chosen
      parameter's slice; a restricted draw chooses only parameters of the
      named signal. */
  lemma DrawStaysInSlice(jp: JumpProposal, signal: Option<string>, x: seq<real>, c: Choice, logpdf: LogPdf)
    requires Valid(jp) && |x| == jp.ndim && InRange(jp, signal, c)
    requires DrawFromPrior(jp, signal, x, c, logpdf).Success?
    requires signal.Some? || IsVector(Chosen(jp, signal, c))
    ensures signal.Some? ==> Chosen(jp, signal, c) in jp.snames[signal.value]
    ensures forall k :: 0 <= k < |x| && DrawFromPrior(jp, signal, x, c, logpdf).value.q[k] != x[k] ==>
              InSlice(jp.pmap[Chosen(jp, signal, c)], k)
    ensures IsVector(Chosen(jp, signal, c)) ==>
              forall k :: 0 <= k < |x| && DrawFromPrior(jp, signal, x, c, logpdf).value.q[k] != x[k] ==>
                k == jp.pmap[Chosen(jp, signal, c)].start + c.component
  {
    var param := Chosen(jp, signal, c);
    assert jp.pmap[param] == SliceAt(jp.params, LastIndex(jp.params, param));
    assert InSlice(jp.pmap[param], WritePosition(jp, signal, param, c));
  }

  /** The quirk of the unrestricted draw: for a scalar parameter it writes at
      the parameter's ordinal, which is the parameter's own coordinate exactly
      when every earlier parameter occupies a single coordinate. */
  lemma UnrestrictedScalarWritesAtOrdinal(jp: JumpProposal, c: Choice)
    requires Valid(jp) && Distinct(jp.params) && InRange(jp, None, c) && jp.npar > 0
    requires !IsVector(Chosen(jp, None, c))
    ensures Chosen(jp, None, c) == jp.params[c.pick] && jp.params[c.pick] in jp.pmap
    ensures WritePosition(jp, None, jp.params[c.pick], c) == c.pick
    ensures c.pick == jp.pmap[jp.params[c.pick]].start <==>
              forall j :: 0 <= j < c.pick ==> Width(jp.params[j]) == 1
  {
    PmapOfDistinct(jp, c.pick);
    var pre := jp.params[..c.pick];
    SumWidthsAtLeastCount(pre);
    assert forall j :: 0 <= j < c.pick ==> pre[j] == jp.params[j];
  }

  /** With a vector parameter before it, the unrestricted draw of a scalar
      parameter overwrites a component of the vector parameter and leaves its
      own coordinate alone, so the returned log ratio is 0 whatever the prior:
      parameters [a (2 components), b (scalar)], choosing b. */
  lemma DrawFromPriorMisplacesScalar(logpdf: LogPdf)
    ensures var a, b := Param("a", 2), Param("b", 0);
            var jp := New(Pta([a, b], ["a", "b"], []));
            && jp.pmap[a] == Slice(0, 2) && jp.pmap[b] == Slice(2, 3)
            && DrawFromPrior(jp, None, [0.0, 0.0, 0.0], Choice(1, 0, 5.0), logpdf)
               == Success(Proposal([0.0, 5.0, 0.0], 0.0))
  {
    var a, b := Param("a", 2), Param("b", 0);
    var ps := [a, b];
    var jp := New(Pta(ps, ["a", "b"], []));
    assert ps[..0] == [] && ps[..1] == [a] && ps[..1][..0] == [];
    assert LastIndex(ps, a) == 0 && LastIndex(ps, b) == 1;
    assert jp.pmap[a] == Slice(0, 2) && jp.pmap[b] == Slice(2, 3);
    var r := DrawFromPrior(jp, None, [0.0, 0.0, 0.0], Choice(1, 0, 5.0), logpdf);
    assert r.value.q == [0.0, 5.0, 0.0];
    assert r.value.q[2..3] == [0.0, 0.0, 0.0][2..3];
  }

  /** The intended draw agrees with the source's whenever the quirk cannot
      show: a named signal, a vector parameter, or (in a parameter list
      without repeats) only single-coordinate parameters before the chosen one. */
  lemma IntendedAgreesWithSource(jp: JumpProposal, signal: Option<string>, x: seq<real>, c: Choice, logpdf: LogPdf)
    requires Valid(jp) && |x| == jp.ndim && InRange(jp, signal, c)
    requires Pool(jp, signal).Success?
    requires signal.Some? || IsVector(Chosen(jp, signal, c)) ||
             (Distinct(jp.params) && forall j :: 0 <= j < c.pick ==> Width(jp.params[j]) == 1)
    ensures DrawFromPriorIntended(jp, signal, x, c, logpdf) == DrawFromPrior(jp, signal, x, c, logpdf)
  {
    var param := Chosen(jp, signal, c);
    if signal.None? && !IsVector(param) {
      UnrestrictedScalarWritesAtOrdinal(jp, c);
    }
  }

  /** The log ratio depends on `x` only through the chosen parameter's slice. */
  lemma RatioDependsOnlyOnSlice(jp: JumpProposal, signal: Option<string>, x: seq<real>, y: seq<real>,
                                c: Choice, logpdf: LogPdf)
    requires Valid(jp) && |x| == jp.ndim && |y| == jp.ndim && InRange(jp, signal, c)
    requires DrawFromPrior(jp, signal, x, c, logpdf).Success?
    requires forall k :: 0 <= k < |x| && InSlice(jp.pmap[Chosen(jp, signal, c)], k) ==> x[k] == y[k]
    ensures DrawFromPrior(jp, signal, y, c, logpdf).Success?
    ensures DrawFromPrior(jp, signal, x, c, logpdf).value.lqxy
            == DrawFromPrior(jp, signal, y, c, logpdf).value.lqxy
  {
    var param := Chosen(jp, signal, c);
    var rx := DrawFromPrior(jp, signal, x, c, logpdf).value;
    var ry := DrawFromPrior(jp, signal, y, c, logpdf).value;
    SliceWithin(jp.params, LastIndex(jp.params, param));
    var sl := jp.pmap[param];
    assert SliceOf(jp, param, x) == SliceOf(jp, param, y);
    assert SliceOf(jp, param, rx.q) == SliceOf(jp, param, ry.q) by {
      var pos := WritePosition(jp, signal, param, c);
      forall k | sl.start <= k < sl.stop ensures rx.q[k] == ry.q[k] {
        if k != pos {
          assert InSlice(sl, k);
        }
      }
    }
  }

  /** The worked example of the Hastings term: a scalar prior with log density
      -v^2, old value 1 and new value 2, gives -1 - (-4) = 3. */
  lemma HastingsExample()
    ensures var h := Param("h", 0);
            var jp := New(Pta([h], ["h"], []));
            var logpdf := (p: Param, v: seq<real>) => if |v| == 1 then -(v[0] * v[0]) else 0.0;
            DrawFromPrior(jp, None, [1.0], Choice(0, 0, 2.0), logpdf) == Success(Proposal([2.0], 3.0))
  {
    var h := Param("h", 0);
    var ps := [h];
    var jp := New(Pta(ps, ["h"], []));
    var logpdf := (p: Param, v: seq<real>) => if |v| == 1 then -(v[0] * v[0]) else 0.0;
    assert ps[..0] == [];
    assert LastIndex(ps, h) == 0;
    assert jp.pmap[h] == Slice(0, 1);
    var r := DrawFromPrior(jp, None, [1.0], Choice(0, 0, 2.0), logpdf);
    assert r.value.q == [2.0];
    assert SliceOf(jp, h, [1.0]) == [1.0];
    assert SliceOf(jp, h, r.value.q) == [2.0];
  }
}
