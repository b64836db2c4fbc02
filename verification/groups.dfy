/** Global-parameter detection and parameter grouping
    (`get_global_parameters`, `get_parameter_groups`): list and multiset logic
    over the model's name lists. */
module Groups {
  import opened Wrappers
  import opened Seqs
  import opened Model

  /** Code-point lexicographic order on names, the order `np.unique` sorts strings in. */
  predicate Below(a: string, b: string)
    decreases |a|
  {
    if |a| == 0 then |b| > 0
    else |b| > 0 && (a[0] < b[0] || (a[0] == b[0] && Below(a[1..], b[1..])))
  }

  /** No string is below itself. */
  lemma {:induction false} BelowIrreflexive(a: string)
    ensures !Below(a, a)
    decreases |a|
  {
    if |a| > 0 {
      BelowIrreflexive(a[1..]);
    }
  }

  /** The order is transitive. */
  lemma {:induction false} BelowTransitive(a: string, b: string, c: string)
    requires Below(a, b) && Below(b, c)
    ensures Below(a, c)
    decreases |a|
  {
    if |a| > 0 && a[0] == b[0] && b[0] == c[0] {
      BelowTransitive(a[1..], b[1..], c[1..]);
    }
  }

  /** Any two different strings are ordered one way or the other. */
  lemma {:induction false} BelowTotal(a: string, b: string)
    requires a != b
    ensures Below(a, b) || Below(b, a)
    decreases |a|
  {
    if |a| > 0 && |b| > 0 && a[0] == b[0] {
      assert a == [a[0]] + a[1..] && b == [b[0]] + b[1..];
      BelowTotal(a[1..], b[1..]);
    }
  }

  /** At most one of two strings is below the other. */
  lemma BelowAsymmetric(a: string, b: string)
    requires Below(a, b)
    ensures !Below(b, a)
  {
    if Below(b, a) {
      BelowTransitive(a, b, a);
      BelowIrreflexive(a);
    }
  }

  /** Sorted in increasing order and free of duplicates. */
  predicate StrictlySorted(s: seq<string>) {
    forall i, j :: 0 <= i < j < |s| ==> Below(s[i], s[j])
  }

  /** Inserts `x` into a strictly sorted list unless it is already there. */
  function Insert(s: seq<string>, x: string): (r: seq<string>)
    requires StrictlySorted(s)
    ensures StrictlySorted(r)
    ensures forall y :: y in r <==> y in s || y == x
  {
    if |s| == 0 then [x]
    else if x == s[0] then s
    else if Below(x, s[0]) then
      assert forall j :: 0 <= j < |s| ==> Below(x, s[j]) by {
        forall j | 0 <= j < |s| ensures Below(x, s[j]) {
          if j > 0 { BelowTransitive(x, s[0], s[j]); }
        }
      }
      [x] + s
    else
      BelowTotal(x, s[0]);
      var rest := Insert(s[1..], x);
      assert forall y :: y in rest ==> Below(s[0], y) by {
        forall y | y in rest ensures Below(s[0], y) {
          if y != x {
            var j :| 0 <= j < |s[1..]| && s[1..][j] == y;
            assert s[j + 1] == y;
          }
        }
      }
      [s[0]] + rest
  }

  /** `np.unique`: the distinct elements of `s`, sorted. */
  function Unique(s: seq<string>): (r: seq<string>)
    ensures StrictlySorted(r)
    ensures forall y :: y in r <==> y in s
  {
    if |s| == 0 then []
    else
      var init := s[..|s| - 1];
      assert forall y :: y in s <==> y in init || y == s[|s| - 1];
      Insert(Unique(init), s[|s| - 1])
  }

  /** A strictly sorted list is determined by its elements: `Unique`'s result
      is the only sorted duplicate-free list of the input's names. */
  lemma {:induction false} SortedListDeterminedByElements(a: seq<string>, b: seq<string>)
    requires StrictlySorted(a) && StrictlySorted(b)
    requires forall y :: y in a <==> y in b
    ensures a == b
    decreases |a|
  {
    if |a| > 0 {
      assert a[0] in a;
    }
    if |b| > 0 {
      assert b[0] in b;
    }
    if |a| > 0 && |b| > 0 {
      if a[0] != b[0] {
        var j :| 0 <= j < |b| && b[j] == a[0];
        var i :| 0 <= i < |a| && a[i] == b[0];
        BelowTotal(a[0], b[0]);
        if Below(a[0], b[0]) {
          assert j > 0;
          BelowAsymmetric(b[0], b[j]);
        }
      }
      forall y ensures y in a[1..] <==> y in b[1..] {
        if y in a[1..] {
          var i :| 0 <= i < |a[1..]| && a[1..][i] == y;
          assert Below(a[0], a[i + 1]);
          BelowIrreflexive(y);
        }
        if y in b[1..] {
          var i :| 0 <= i < |b[1..]| && b[1..][i] == y;
          assert Below(b[0], b[i + 1]);
          BelowIrreflexive(y);
        }
        assert y in a <==> y == a[0] || y in a[1..];
        assert y in b <==> y == b[0] || y in b[1..];
      }
      SortedListDeterminedByElements(a[1..], b[1..]);
      assert a == [a[0]] + a[1..] && b == [b[0]] + b[1..];
    }
  }

  /** `get_global_parameters`: `gpars`, the sorted distinct names that occur
      more than once across the collections' name lists, and `ipars`, the
      remaining names in their original order. */
  function GlobalParameters(cs: seq<SignalCollection>): (r: (seq<string>, seq<string>))
    ensures StrictlySorted(r.0)
    ensures forall n :: n in r.0 <==> Count(CollectionNames(cs), n) > 1
    ensures forall n :: n in r.1 <==> Count(CollectionNames(cs), n) == 1
    ensures forall n :: Count(r.1, n) == if n in r.0 then 0 else Count(CollectionNames(cs), n)
    ensures Subsequence(r.1, CollectionNames(cs))
  {
    var pars := CollectionNames(cs);
    var gpars := Unique(Filter(pars, n => Count(pars, n) > 1));
    var ipars := Filter(pars, n => n !in gpars);
    CountPositiveAll(pars);
    FilterIsSubsequence(pars, n => n !in gpars);
    assert forall n :: Count(ipars, n) == if n in gpars then 0 else Count(pars, n) by {
      forall n ensures Count(ipars, n) == if n in gpars then 0 else Count(pars, n) {
        CountFilter(pars, n => n !in gpars, n);
      }
    }
    (gpars, ipars)
  }

  /** Python truthiness of a list of names (`any(gpars)`): some name is non-empty. */
  predicate AnyTruthy(names: seq<string>) {
    exists i :: 0 <= i < |names| && names[i] != ""
  }

  /** `list.index` raised ValueError: a name is not among the model's names. */
  datatype GroupError = NotAParameter(name: string)

  /** `[params.index(p) for p in ps]`: the ordinal of the first occurrence of
      each name, failing at the first name that is missing. */
  function Ordinals(names: seq<string>, ps: seq<string>): (r: Result<seq<nat>, GroupError>)
    ensures r.Success? <==> forall p :: p in ps ==> p in names
    ensures r.Failure? ==> r.error.name in ps && r.error.name !in names
    ensures r.Success? ==> |r.value| == |ps|
    ensures r.Success? ==> forall i :: 0 <= i < |ps| ==> r.value[i] == FirstIndex(names, ps[i])
    ensures r.Success? ==> forall k :: k in r.value ==> k < |names| && names[k] in ps
  {
    if |ps| == 0 then Success([])
    else if ps[0] !in names then Failure(NotAParameter(ps[0]))
    else
      match Ordinals(names, ps[1..])
      case Failure(e) => Failure(e)
      case Success(rest) =>
        assert forall p :: p in ps <==> p == ps[0] || p in ps[1..];
        Success([FirstIndex(names, ps[0])] + rest)
  }

  /** A signal's names that are not global (`if p not in gpars`). */
  function NonGlobal(gpars: seq<string>, ps: seq<string>): (r: seq<string>)
    ensures forall p :: p in r <==> p in ps && p !in gpars
  {
    Filter(ps, p => p !in gpars)
  }

  /** The ordinals of one signal's non-global names (`ind`). */
  function SignalGroup(names: seq<string>, gpars: seq<string>, s: Signal): Result<seq<nat>, GroupError>
  {
    Ordinals(names, NonGlobal(gpars, s.paramNames))
  }

  /** The per-signal loop of `get_parameter_groups`: every signal whose
      non-global ordinal list is non-empty contributes it as a group; the first
      signal naming an unknown parameter aborts the loop. */
  function SignalGroups(names: seq<string>, gpars: seq<string>, sigs: seq<Signal>)
    : (r: Result<seq<seq<nat>>, GroupError>)
    ensures r.Success? <==> forall i :: 0 <= i < |sigs| ==> SignalGroup(names, gpars, sigs[i]).Success?
    ensures r.Failure? ==> r.error.name !in names
    decreases |sigs|
  {
    if |sigs| == 0 then Success([])
    else
      assert forall i :: 1 <= i < |sigs| ==> sigs[i] == sigs[1..][i - 1];
      match SignalGroup(names, gpars, sigs[0])
      case Failure(e) => Failure(e)
      case Success(ind) =>
        match SignalGroups(names, gpars, sigs[1..])
        case Failure(e) => Failure(e)
        case Success(rest) => Success((if |ind| > 0 then [ind] else []) + rest)
  }

  /** Every per-signal group is non-empty and holds only ordinals of
      non-global names. */
  lemma {:induction false} SignalGroupsNonGlobal(names: seq<string>, gpars: seq<string>, sigs: seq<Signal>)
    requires SignalGroups(names, gpars, sigs).Success?
    ensures forall g :: g in SignalGroups(names, gpars, sigs).value ==>
              |g| > 0 && forall k :: k in g ==> k < |names| && names[k] !in gpars
    decreases |sigs|
  {
    if |sigs| > 0 {
      var ind := SignalGroup(names, gpars, sigs[0]).value;
      var rest := SignalGroups(names, gpars, sigs[1..]).value;
      SignalGroupsNonGlobal(names, gpars, sigs[1..]);
      assert SignalGroups(names, gpars, sigs).value == (if |ind| > 0 then [ind] else []) + rest;
    }
  }

  /** Every per-signal group is the ordinal list of some signal. */
  lemma {:induction false} SignalGroupsFromSignals(names: seq<string>, gpars: seq<string>, sigs: seq<Signal>)
    requires SignalGroups(names, gpars, sigs).Success?
    ensures forall g :: g in SignalGroups(names, gpars, sigs).value ==>
              exists i :: 0 <= i < |sigs| && SignalGroup(names, gpars, sigs[i]) == Success(g)
    decreases |sigs|
  {
    if |sigs| > 0 {
      var gs := SignalGroups(names, gpars, sigs).value;
      var ind := SignalGroup(names, gpars, sigs[0]).value;
      var rest := SignalGroups(names, gpars, sigs[1..]).value;
      SignalGroupsFromSignals(names, gpars, sigs[1..]);
      assert gs == (if |ind| > 0 then [ind] else []) + rest;
      forall g | g in gs
        ensures exists i :: 0 <= i < |sigs| && SignalGroup(names, gpars, sigs[i]) == Success(g)
      {
        if g in rest {
          var i :| 0 <= i < |sigs[1..]| && SignalGroup(names, gpars, sigs[1..][i]) == Success(g);
          assert sigs[i + 1] == sigs[1..][i];
        } else {
          assert SignalGroup(names, gpars, sigs[0]) == Success(g);
        }
      }
    }
  }

  /** Every signal with a non-global name contributes its ordinal list. */
  lemma {:induction false} SignalGroupsComplete(names: seq<string>, gpars: seq<string>, sigs: seq<Signal>)
    requires SignalGroups(names, gpars, sigs).Success?
    ensures forall i :: 0 <= i < |sigs| && NonGlobal(gpars, sigs[i].paramNames) != [] ==>
              SignalGroup(names, gpars, sigs[i]).value in SignalGroups(names, gpars, sigs).value
    decreases |sigs|
  {
    if |sigs| > 0 {
      var gs := SignalGroups(names, gpars, sigs).value;
      var ind := SignalGroup(names, gpars, sigs[0]).value;
      var rest := SignalGroups(names, gpars, sigs[1..]).value;
      SignalGroupsComplete(names, gpars, sigs[1..]);
      assert gs == (if |ind| > 0 then [ind] else []) + rest;
      forall i | 0 <= i < |sigs| && NonGlobal(gpars, sigs[i].paramNames) != []
        ensures SignalGroup(names, gpars, sigs[i]).value in gs
      {
        if i > 0 {
          assert sigs[i] == sigs[1..][i - 1];
        } else {
          assert |ind| == |NonGlobal(gpars, sigs[0].paramNames)|;
        }
      }
    }
  }

  /** Whether signal `s` has a non-global name, so that its group is appended (`if ind:`). */
  predicate Contributes(gpars: seq<string>, s: Signal) {
    NonGlobal(gpars, s.paramNames) != []
  }

  /** The positions, in increasing order, of the signals that contribute a group
      (`Positions` gives their order, soundness and completeness). */
  function Contributors(gpars: seq<string>, sigs: seq<Signal>): seq<nat> {
    Positions(seq(|sigs|, i requires 0 <= i < |sigs| => Contributes(gpars, sigs[i])))
  }

  /** Unfolding `SignalGroups` by its first signal: its group comes first
      when it contributes one. */
  lemma SignalGroupsOfCons(names: seq<string>, gpars: seq<string>, sigs: seq<Signal>)
    requires |sigs| > 0 && SignalGroups(names, gpars, sigs).Success?
    ensures SignalGroup(names, gpars, sigs[0]).Success? && SignalGroups(names, gpars, sigs[1..]).Success?
    ensures SignalGroups(names, gpars, sigs).value
            == (if Contributes(gpars, sigs[0]) then [SignalGroup(names, gpars, sigs[0]).value] else [])
               + SignalGroups(names, gpars, sigs[1..]).value
  {
    assert |SignalGroup(names, gpars, sigs[0]).value| == |NonGlobal(gpars, sigs[0].paramNames)|;
  }

  /** Every signal's ordinal list, empty ones included (the `ind` of each
      iteration), for a loop that does not abort. */
  function PerSignal(names: seq<string>, gpars: seq<string>, sigs: seq<Signal>): seq<seq<nat>> {
    seq(|sigs|, i requires 0 <= i < |sigs| =>
      if SignalGroup(names, gpars, sigs[i]).Success? then SignalGroup(names, gpars, sigs[i]).value else [])
  }

  /** The per-signal loop keeps the non-empty ordinal lists, in signal order. */
  lemma {:induction false} SignalGroupsKeepNonEmpty(names: seq<string>, gpars: seq<string>, sigs: seq<Signal>)
    requires SignalGroups(names, gpars, sigs).Success?
    ensures SignalGroups(names, gpars, sigs).value == NonEmpty(PerSignal(names, gpars, sigs))
    decreases |sigs|
  {
    if |sigs| > 0 {
      SignalGroupsOfCons(names, gpars, sigs);
      SignalGroupsKeepNonEmpty(names, gpars, sigs[1..]);
      var parts := PerSignal(names, gpars, sigs);
      assert parts[1..] == PerSignal(names, gpars, sigs[1..]);
      assert Contributes(gpars, sigs[0]) <==> parts[0] != [];
    }
  }

  /** A signal contributes exactly when its ordinal list is non-empty. */
  lemma ContributorsArePositions(names: seq<string>, gpars: seq<string>, sigs: seq<Signal>)
    requires SignalGroups(names, gpars, sigs).Success?
    ensures Contributors(gpars, sigs) == Positions(NonEmptyFlags(PerSignal(names, gpars, sigs)))
  {
    var parts := PerSignal(names, gpars, sigs);
    forall i | 0 <= i < |sigs|
      ensures Contributes(gpars, sigs[i]) == (parts[i] != [])
    {
      assert |SignalGroup(names, gpars, sigs[i]).value| == |NonGlobal(gpars, sigs[i].paramNames)|;
    }
    assert seq(|sigs|, i requires 0 <= i < |sigs| => Contributes(gpars, sigs[i])) == NonEmptyFlags(parts);
  }

  /** The per-signal groups are exactly one ordinal list per contributing
      signal, in signal order: a signal listed twice contributes twice. */
  lemma SignalGroupsInOrder(names: seq<string>, gpars: seq<string>, sigs: seq<Signal>)
    requires SignalGroups(names, gpars, sigs).Success?
    ensures var gs, ix := SignalGroups(names, gpars, sigs).value, Contributors(gpars, sigs);
            && |gs| == |ix|
            && forall j :: 0 <= j < |gs| ==>
                 ix[j] < |sigs| && gs[j] == SignalGroup(names, gpars, sigs[ix[j]]).value
  {
    var parts := PerSignal(names, gpars, sigs);
    SignalGroupsKeepNonEmpty(names, gpars, sigs);
    ContributorsArePositions(names, gpars, sigs);
    NonEmptyInOrder(parts);
  }

  /** Index of the first per-signal group: after the full group and, when
      present, the global group. */
  function FirstSignalGroup(gpars: seq<string>): nat {
    if AnyTruthy(gpars) then 2 else 1
  }

  /** The global group: the ordinals of the global names, present only when
      some global name is truthy (`if any(gpars):`). */
  function GlobalGroup(names: seq<string>, gpars: seq<string>): (r: Result<seq<seq<nat>>, GroupError>)
    ensures r.Success? <==> (AnyTruthy(gpars) ==> forall g :: g in gpars ==> g in names)
    ensures r.Failure? ==> r.error.name !in names
    ensures r.Success? ==> |r.value| == if AnyTruthy(gpars) then 1 else 0
    ensures r.Success? && AnyTruthy(gpars) ==> Ordinals(names, gpars) == Success(r.value[0])
  {
    if AnyTruthy(gpars) then
      match Ordinals(names, gpars)
      case Failure(e) => Failure(e)
      case Success(g) => Success([g])
    else Success([])
  }

  /** The groups for name list `names`, global names `gpars` and signals
      `sigs`: the group of all name ordinals, then the global group when there
      are truthy global names, then one group per signal with non-global names.
      The first unknown name aborts with the error `list.index` raises. */
  function GroupList(names: seq<string>, gpars: seq<string>, sigs: seq<Signal>)
    : (r: Result<seq<seq<nat>>, GroupError>)
    ensures r.Success? <==>
              && (AnyTruthy(gpars) ==> forall g :: g in gpars ==> g in names)
              && forall i :: 0 <= i < |sigs| ==> SignalGroup(names, gpars, sigs[i]).Success?
    ensures r.Failure? ==> r.error.name !in names
    ensures r.Success? ==>
              && |r.value| >= FirstSignalGroup(gpars)
              && |r.value[0]| == |names|
              && forall i :: 0 <= i < |names| ==> r.value[0][i] == i
  {
    match GlobalGroup(names, gpars)
    case Failure(e) => Failure(e)
    case Success(gg) =>
      match SignalGroups(names, gpars, sigs)
      case Failure(e) => Failure(e)
      case Success(sg) => Success([seq(|names|, i => i)] + gg + sg)
  }

  /** What follows the full group: the global group lists the first ordinal of
      every global name in sorted order; every later group is non-empty, holds
      no global name, comes from one signal, and every signal with a non-global
      name contributes its group. */
  lemma GroupListStructure(names: seq<string>, gpars: seq<string>, sigs: seq<Signal>)
    requires GroupList(names, gpars, sigs).Success?
    ensures var r := GroupList(names, gpars, sigs).value;
            AnyTruthy(gpars) ==>
              && |r[1]| == |gpars|
              && forall i :: 0 <= i < |gpars| ==> r[1][i] == FirstIndex(names, gpars[i])
    ensures var r := GroupList(names, gpars, sigs).value;
            forall j :: FirstSignalGroup(gpars) <= j < |r| ==>
              && |r[j]| > 0
              && forall k :: k in r[j] ==> k < |names| && names[k] !in gpars
    ensures var r := GroupList(names, gpars, sigs).value;
            forall j :: FirstSignalGroup(gpars) <= j < |r| ==>
              exists i :: 0 <= i < |sigs| && SignalGroup(names, gpars, sigs[i]) == Success(r[j])
    ensures var r := GroupList(names, gpars, sigs).value;
            forall i :: 0 <= i < |sigs| && NonGlobal(gpars, sigs[i].paramNames) != [] ==>
              SignalGroup(names, gpars, sigs[i]).value in r[FirstSignalGroup(gpars)..]
  {
    var gg := GlobalGroup(names, gpars).value;
    var sg := SignalGroups(names, gpars, sigs).value;
    var r := GroupList(names, gpars, sigs).value;
    assert r == [seq(|names|, i => i)] + gg + sg;
    SignalGroupsNonGlobal(names, gpars, sigs);
    SignalGroupsFromSignals(names, gpars, sigs);
    SignalGroupsComplete(names, gpars, sigs);
    assert r[FirstSignalGroup(gpars)..] == sg;
    forall j | FirstSignalGroup(gpars) <= j < |r|
      ensures r[j] in sg
    {
      assert r[j] == sg[j - FirstSignalGroup(gpars)];
    }
  }

  /** A successful group list is the range group, the global group (if any)
      and the per-signal groups, concatenated. */
  lemma GroupListParts(names: seq<string>, gpars: seq<string>, sigs: seq<Signal>)
    requires GroupList(names, gpars, sigs).Success?
    ensures GlobalGroup(names, gpars).Success? && SignalGroups(names, gpars, sigs).Success?
    ensures var r, sg := GroupList(names, gpars, sigs).value, SignalGroups(names, gpars, sigs).value;
            && |r| == FirstSignalGroup(gpars) + |sg|
            && forall j :: 0 <= j < |sg| ==> r[FirstSignalGroup(gpars) + j] == sg[j]
  {
    var gg := GlobalGroup(names, gpars).value;
    var sg := SignalGroups(names, gpars, sigs).value;
    assert GroupList(names, gpars, sigs).value == [seq(|names|, i => i)] + gg + sg;
  }

  /** After the range group and the global group, the list holds exactly one
      group per contributing signal, in signal order. */
  lemma GroupListInOrder(names: seq<string>, gpars: seq<string>, sigs: seq<Signal>)
    requires GroupList(names, gpars, sigs).Success?
    ensures var r, ix := GroupList(names, gpars, sigs).value, Contributors(gpars, sigs);
            && |r| == FirstSignalGroup(gpars) + |ix|
            && forall j :: 0 <= j < |ix| ==>
                 ix[j] < |sigs| && r[FirstSignalGroup(gpars) + j] == SignalGroup(names, gpars, sigs[ix[j]]).value
  {
    GroupListParts(names, gpars, sigs);
    SignalGroupsInOrder(names, gpars, sigs);
  }

  /** `get_parameter_groups` on a model: the groups of its name list, its
      global names and its signals. */
  function ParameterGroups(pta: Pta): (r: Result<seq<seq<nat>>, GroupError>)
    ensures r.Failure? ==> r.error.name !in pta.paramNames
    ensures r.Success? ==>
              && |r.value| >= 1
              && |r.value[0]| == |pta.paramNames|
              && forall i :: 0 <= i < |pta.paramNames| ==> r.value[0][i] == i
  {
    GroupList(pta.paramNames, GlobalParameters(pta.collections).0, AllSignals(pta.collections))
  }

  /** Occurrence counts in the name list [x, g, y, g]. */
  lemma CountsOfSharedName(x: string, y: string, g: string)
    requires x != g && y != g && x != y
    ensures Count([x, g, y, g], g) == 2
    ensures forall n :: n != g ==> Count([x, g, y, g], n) <= 1
  {
    var pars := [x, g, y, g];
    var p1, p2, p3 := pars[1..], pars[1..][1..], pars[1..][1..][1..];
    assert pars[1..] == p1 && p1[1..] == p2 && p2[1..] == p3;
    assert p1 == [g, y, g] && p2 == [y, g] && p3 == [g] && p3[1..] == [];
    assert Count(p3[1..], g) == 0;
    assert Count(p3, g) == 1;
    assert Count(p2, g) == 1;
    assert Count(p1, g) == 2;
    forall n | n != g ensures Count(pars, n) <= 1 {
      assert Count(p3[1..], n) == 0;
      assert Count(p3, n) == 0;
      assert Count(p2, n) <= 1;
      assert Count(p1, n) == Count(p2, n);
    }
  }

  /** The global names of two collections whose name lists are [x, g] and
      [y, g] with x, y and g distinct: g alone. */
  lemma GlobalOfTwoCollections(cs: seq<SignalCollection>, x: string, y: string, g: string)
    requires |cs| == 2 && cs[0].paramNames == [x, g] && cs[1].paramNames == [y, g]
    requires x != g && y != g && x != y
    ensures GlobalParameters(cs).0 == [g]
  {
    assert cs[1..][1..] == [];
    assert CollectionNames(cs[1..]) == [y, g] + CollectionNames(cs[1..][1..]);
    assert CollectionNames(cs) == [x, g, y, g];
    CountsOfSharedName(x, y, g);
    var gpars := GlobalParameters(cs).0;
    assert forall n :: n in gpars <==> n == g;
    SortedListDeterminedByElements(gpars, [g]);
  }

  /** The signals of two one-signal collections, in order. */
  lemma SignalsOfTwoCollections(c1: SignalCollection, c2: SignalCollection)
    requires |c1.signals| == 1 && |c2.signals| == 1
    ensures AllSignals([c1, c2]) == [c1.signals[0], c2.signals[0]]
  {
    var cs := [c1, c2];
    assert cs[..1] == [c1] && cs[..1][..0] == [];
    assert AllSignals(cs[..1]) == c1.signals;
  }

  /** The ordinal list of a single name. */
  lemma OrdinalsOfOne(names: seq<string>, p: string)
    requires p in names
    ensures Ordinals(names, [p]) == Success([FirstIndex(names, p)])
  {
    assert [p][1..] == [];
    var r := Ordinals(names, [p]);
    assert r.value == [FirstIndex(names, p)];
  }

  /** The per-signal groups of two signals that both contribute. */
  lemma SignalGroupsOfTwo(names: seq<string>, gpars: seq<string>, s1: Signal, s2: Signal, g1: seq<nat>, g2: seq<nat>)
    requires SignalGroup(names, gpars, s1) == Success(g1) && |g1| > 0
    requires SignalGroup(names, gpars, s2) == Success(g2) && |g2| > 0
    ensures SignalGroups(names, gpars, [s1, s2]) == Success([g1, g2])
  {
    var sigs := [s1, s2];
    assert sigs[1..] == [s2] && sigs[1..][1..] == [];
    assert SignalGroups(names, gpars, sigs[1..][1..]) == Success([]);
    var rest := SignalGroups(names, gpars, sigs[1..]);
    assert rest.value == [g2];
    var r := SignalGroups(names, gpars, sigs);
    assert r.value == [g1, g2];
  }

  /** The group list from its global and signal parts. */
  lemma GroupListOfParts(names: seq<string>, gpars: seq<string>, sigs: seq<Signal>,
                         gg: seq<seq<nat>>, sg: seq<seq<nat>>)
    requires GlobalGroup(names, gpars) == Success(gg)
    requires SignalGroups(names, gpars, sigs) == Success(sg)
    ensures GroupList(names, gpars, sigs) == Success([seq(|names|, i => i)] + gg + sg)
  {
  }

  /** The global group of [a, b, g] with global name g. */
  lemma GlobalGroupOfSharedName()
    ensures GlobalGroup(["a", "b", "g"], ["g"]) == Success([[2]])
  {
    var names := ["a", "b", "g"];
    assert names[0] == "a" && names[1] == "b" && names[2] == "g";
    OrdinalsOfOne(names, "g");
  }

  /** The signal groups of [a, b, g] with global name g for signals naming
      [a, g] and [b, g]: the shared name is dropped from both. */
  lemma SignalGroupsOfSharedName()
    ensures SignalGroups(["a", "b", "g"], ["g"],
                         [Signal("s1", [], ["a", "g"]), Signal("s2", [], ["b", "g"])])
            == Success([[0], [1]])
  {
    var s1 := Signal("s1", [], ["a", "g"]);
    var s2 := Signal("s2", [], ["b", "g"]);
    var names := ["a", "b", "g"];
    var gpars := ["g"];
    assert names[0] == "a" && names[1] == "b" && names[2] == "g";
    assert NonGlobal(gpars, s1.paramNames) == ["a"];
    assert NonGlobal(gpars, s2.paramNames) == ["b"];
    OrdinalsOfOne(names, "a");
    OrdinalsOfOne(names, "b");
    SignalGroupsOfTwo(names, gpars, s1, s2, [0], [1]);
  }

  /** The groups of names [a, b, g] with global name g and signals naming
      [a, g] and [b, g]. */
  lemma GroupsOfSharedName()
    ensures GroupList(["a", "b", "g"], ["g"],
                   [Signal("s1", [], ["a", "g"]), Signal("s2", [], ["b", "g"])])
            == Success([[0, 1, 2], [2], [0], [1]])
  {
    var s1 := Signal("s1", [], ["a", "g"]);
    var s2 := Signal("s2", [], ["b", "g"]);
    var names := ["a", "b", "g"];
    var gpars := ["g"];
    GlobalGroupOfSharedName();
    SignalGroupsOfSharedName();
    GroupListOfParts(names, gpars, [s1, s2], [[2]], [[0], [1]]);
    var full: seq<nat> := seq(|names|, i => i);
    assert full[0] == 0 && full[1] == 1 && full[2] == 2;
    assert full == [0, 1, 2];
    assert [full] + [[2]] + [[0], [1]] == [[0, 1, 2], [2], [0], [1]];
  }

  /** Three parameters, the third shared by two pulsars' signals: the groups
      are all ordinals, the shared one, then each signal's own parameter. */
  lemma ParameterGroupsExample()
    ensures var s1 := Signal("s1", [], ["a", "g"]);
            var s2 := Signal("s2", [], ["b", "g"]);
            var pta := Pta([Param("a", 0), Param("b", 0), Param("g", 0)], ["a", "b", "g"],
                           [SignalCollection(["a", "g"], [s1]), SignalCollection(["b", "g"], [s2])]);
            ParameterGroups(pta) == Success([[0, 1, 2], [2], [0], [1]])
  {
    var s1 := Signal("s1", [], ["a", "g"]);
    var s2 := Signal("s2", [], ["b", "g"]);
    var c1, c2 := SignalCollection(["a", "g"], [s1]), SignalCollection(["b", "g"], [s2]);
    GlobalOfTwoCollections([c1, c2], "a", "b", "g");
    SignalsOfTwoCollections(c1, c2);
    GroupsOfSharedName();
  }

  /** The groups of names [x, y, ""] whose global name is the empty string. */
  lemma GroupsOfEmptyGlobalName()
    ensures GroupList(["x", "y", ""], [""],
                   [Signal("s1", [], ["x", ""]), Signal("s2", [], ["y", ""])])
            == Success([[0, 1, 2], [0], [1]])
  {
    var s1 := Signal("s1", [], ["x", ""]);
    var s2 := Signal("s2", [], ["y", ""]);
    var names := ["x", "y", ""];
    var gpars := [""];
    assert !AnyTruthy(gpars);
    assert GlobalGroup(names, gpars) == Success([]);
    assert names[0] == "x" && names[1] == "y";
    assert FirstIndex(names, "x") == 0 && FirstIndex(names, "y") == 1;
    assert NonGlobal(gpars, s1.paramNames) == ["x"];
    assert NonGlobal(gpars, s2.paramNames) == ["y"];
    OrdinalsOfOne(names, "x");
    OrdinalsOfOne(names, "y");
    SignalGroupsOfTwo(names, gpars, s1, s2, [0], [1]);
    assert seq(|names|, i => i) == [0, 1, 2];
    var r := GroupList(names, gpars, [s1, s2]);
    assert r.value == [[0, 1, 2], [0], [1]];
  }

  /** `any(gpars)` tests the truthiness of the names: a global name that is the
      empty string yields no global group, although it is still excluded from
      the per-signal groups. */
  lemma EmptyGlobalNameGetsNoGroup()
    ensures var s1 := Signal("s1", [], ["x", ""]);
            var s2 := Signal("s2", [], ["y", ""]);
            var pta := Pta([Param("x", 0), Param("y", 0), Param("", 0)], ["x", "y", ""],
                           [SignalCollection(["x", ""], [s1]), SignalCollection(["y", ""], [s2])]);
            && GlobalParameters(pta.collections).0 == [""]
            && ParameterGroups(pta) == Success([[0, 1, 2], [0], [1]])
  {
    var s1 := Signal("s1", [], ["x", ""]);
    var s2 := Signal("s2", [], ["y", ""]);
    var c1, c2 := SignalCollection(["x", ""], [s1]), SignalCollection(["y", ""], [s2]);
    GlobalOfTwoCollections([c1, c2], "x", "y", "");
    SignalsOfTwoCollections(c1, c2);
    GroupsOfEmptyGlobalName();
  }

  /** Two signals with the same single name each contribute a group: the list
      holds the range group and two copies of [0]. */
  lemma RepeatedSignalContributesTwice()
    ensures GroupList(["a"], [], [Signal("s1", [], ["a"]), Signal("s2", [], ["a"])])
            == Success([[0], [0], [0]])
  {
    var s1 := Signal("s1", [], ["a"]);
    var s2 := Signal("s2", [], ["a"]);
    var names: seq<string> := ["a"];
    var gpars: seq<string> := [];
    assert !AnyTruthy(gpars);
    assert GlobalGroup(names, gpars) == Success([]);
    assert FirstIndex(names, "a") == 0;
    assert NonGlobal(gpars, s1.paramNames) == ["a"];
    assert NonGlobal(gpars, s2.paramNames) == ["a"];
    OrdinalsOfOne(names, "a");
    SignalGroupsOfTwo(names, gpars, s1, s2, [0], [0]);
    assert seq(|names|, i => i) == [0];
    var r := GroupList(names, gpars, [s1, s2]);
    assert r.value == [[0], [0], [0]];
  }
}
