/** The parts of the external model (an enterprise PTA object) that the jump
    proposals and the grouping utility read: parameters, signals and signal
    collections, each reduced to the names, sizes and lists the core uses. */
module Model {

  /** A prior parameter. `size` is 0 for a scalar parameter (the source treats
      a size of `None` and a size of 0 alike, both being falsy) and k > 0 for a
      vector parameter with k components. Parameters are compared by value. */
  datatype Param = Param(name: string, size: nat)

  /** True iff the parameter is vector-valued (`if param.size:`). */
  predicate IsVector(p: Param) {
    p.size > 0
  }

  /** Number of flat-vector coordinates the parameter occupies (`p.size or 1`). */
  function Width(p: Param): (w: nat)
    ensures w >= 1
    ensures IsVector(p) ==> w == p.size
  {
    if p.size == 0 then 1 else p.size
  }

  /** One signal of a collection: its label (`signal.signal_name`), its
      parameter objects (`signal.params`) and their names (`signal.param_names`). */
  datatype Signal = Signal(signalName: string, params: seq<Param>, paramNames: seq<string>)

  /** A signal collection (`sc`): its own name list (`sc.param_names`) and its
      signals in order (`sc._signals`). */
  datatype SignalCollection = SignalCollection(paramNames: seq<string>, signals: seq<Signal>)

  /** The model: its flat parameter list (`pta.params`), the flat name list
      (`pta.param_names`) and its signal collections (`pta._signalcollections`). */
  datatype Pta = Pta(params: seq<Param>, paramNames: seq<string>, collections: seq<SignalCollection>)

  /** Every signal of every collection, in the order of the source's nested loops. */
  function AllSignals(cs: seq<SignalCollection>): (r: seq<Signal>)
    ensures forall c, s :: 0 <= c < |cs| && s in cs[c].signals ==> s in r
  {
    if |cs| == 0 then [] else AllSignals(cs[..|cs| - 1]) + cs[|cs| - 1].signals
  }

  /** The labels of `sigs`, position by position. */
  function SignalNames(sigs: seq<Signal>): (r: seq<string>)
    ensures |r| == |sigs|
    ensures forall i :: 0 <= i < |sigs| ==> r[i] == sigs[i].signalName
  {
    if |sigs| == 0 then [] else SignalNames(sigs[..|sigs| - 1]) + [sigs[|sigs| - 1].signalName]
  }

  /** All collections' name lists concatenated (the `pars.extend(sc.param_names)` loop). */
  function CollectionNames(cs: seq<SignalCollection>): (r: seq<string>)
    ensures forall c, n :: 0 <= c < |cs| && n in cs[c].paramNames ==> n in r
  {
    if |cs| == 0 then [] else cs[0].paramNames + CollectionNames(cs[1..])
  }
}
