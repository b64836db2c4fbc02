/** Sequence vocabulary shared by the model: occurrence counts, first and last
    positions, order-keeping filters and subsequences. */
module Seqs {

  /** True iff no value occurs twice in `s`. */
  predicate Distinct<T(==)>(s: seq<T>) {
    forall i, j :: 0 <= i < j < |s| ==> s[i] != s[j]
  }

  /** Number of occurrences of `x` in `s` (Python's `list.count`). */
  function Count<T(==)>(s: seq<T>, x: T): nat
  {
    if |s| == 0 then 0 else (if s[0] == x then 1 else 0) + Count(s[1..], x)
  }

  /** A value occurs in `s` exactly when it is counted at least once. */
  lemma {:induction false} CountPositive<T>(s: seq<T>, x: T)
    ensures x in s <==> Count(s, x) > 0
  {
    if |s| > 0 {
      CountPositive(s[1..], x);
      assert x in s <==> s[0] == x || x in s[1..];
    }
  }

  /** `CountPositive` for every value at once. */
  lemma CountPositiveAll<T>(s: seq<T>)
    ensures forall x :: x in s <==> Count(s, x) > 0
  {
    forall x ensures x in s <==> Count(s, x) > 0 {
      CountPositive(s, x);
    }
  }

  /** The position of the last occurrence of `x` in `s`: the slot a dictionary
      keeps when it is filled by assignment in list order. */
  function LastIndex<T(==)>(s: seq<T>, x: T): (i: nat)
    requires x in s
    ensures i < |s| && s[i] == x
    ensures forall j :: i < j < |s| ==> s[j] != x
    decreases |s|
  {
    if s[|s| - 1] == x then |s| - 1 else LastIndex(s[..|s| - 1], x)
  }

  /** The position of the first occurrence of `x` in `s` (Python's `list.index`). */
  function FirstIndex<T(==)>(s: seq<T>, x: T): (i: nat)
    requires x in s
    ensures i < |s| && s[i] == x
    ensures forall j :: 0 <= j < i ==> s[j] != x
    decreases |s|
  {
    if s[0] == x then 0 else 1 + FirstIndex(s[1..], x)
  }

  /** In a sequence without repetitions the last occurrence of an element is its position. */
  lemma LastIndexOfDistinct<T>(s: seq<T>, i: nat)
    requires Distinct(s) && i < |s|
    ensures LastIndex(s, s[i]) == i
  {
  }

  /** The elements of `s` that satisfy `keep`, in their original order
      (a Python list comprehension with an `if` clause). */
  function Filter<T(!new)>(s: seq<T>, keep: T -> bool): (r: seq<T>)
    ensures |r| <= |s|
    ensures forall x :: x in r <==> x in s && keep(x)
    ensures forall i :: 0 <= i < |r| ==> keep(r[i])
  {
    if |s| == 0 then []
    else if keep(s[0]) then [s[0]] + Filter(s[1..], keep)
    else Filter(s[1..], keep)
  }

  /** Filtering keeps every occurrence of a kept value and drops every other. */
  lemma {:induction false} CountFilter<T(!new)>(s: seq<T>, keep: T -> bool, x: T)
    ensures Count(Filter(s, keep), x) == if keep(x) then Count(s, x) else 0
  {
    if |s| > 0 {
      CountFilter(s[1..], keep, x);
    }
  }

  /** True iff `a` can be obtained from `b` by deleting elements. */
  predicate Subsequence<T(==)>(a: seq<T>, b: seq<T>)
    decreases |b|
  {
    if |a| == 0 then true
    else if |b| == 0 then false
    else if a[0] == b[0] then Subsequence(a[1..], b[1..])
    else Subsequence(a, b[1..])
  }

  /** A subsequence may always skip one more leading element of the longer sequence. */
  lemma {:induction false} SubsequenceSkip<T>(a: seq<T>, b: seq<T>, y: T)
    requires Subsequence(a, b)
    ensures Subsequence(a, [y] + b)
    decreases |b|, 1
  {
    assert ([y] + b)[1..] == b;
    if |a| > 0 && a[0] == y {
      SubsequenceDropHead(a, b);
    }
  }

  /** Dropping the first element of a subsequence leaves a subsequence. */
  lemma {:induction false} SubsequenceDropHead<T>(a: seq<T>, b: seq<T>)
    requires |a| > 0 && Subsequence(a, b)
    ensures Subsequence(a[1..], b)
    decreases |b|, 0
  {
    assert [b[0]] + b[1..] == b;
    if a[0] == b[0] {
      SubsequenceSkip(a[1..], b[1..], b[0]);
    } else {
      SubsequenceDropHead(a, b[1..]);
      SubsequenceSkip(a[1..], b[1..], b[0]);
    }
  }

  /** Filtering keeps the original order: the result is a subsequence of the input. */
  lemma {:induction false} FilterIsSubsequence<T(!new)>(s: seq<T>, keep: T -> bool)
    ensures Subsequence(Filter(s, keep), s)
  {
    if |s| > 0 {
      FilterIsSubsequence(s[1..], keep);
      if !keep(s[0]) {
        SubsequenceSkip(Filter(s[1..], keep), s[1..], s[0]);
        assert [s[0]] + s[1..] == s;
      }
    }
  }

  /** Every entry plus one: positions in `s` seen as positions in `[x] + s`. */
  function Shift(s: seq<nat>): (r: seq<nat>)
    ensures |r| == |s| && forall j :: 0 <= j < |s| ==> r[j] == s[j] + 1
  {
    seq(|s|, j requires 0 <= j < |s| => s[j] + 1)
  }

  /** The positions, in increasing order, of the `true` entries of `flags`. */
  function Positions(flags: seq<bool>): (ix: seq<nat>)
    ensures |ix| <= |flags|
    decreases |flags|
  {
    if |flags| == 0 then []
    else (if flags[0] then [0] else []) + Shift(Positions(flags[1..]))
  }

  /** Every listed position holds `true`. */
  lemma {:induction false} PositionsSound(flags: seq<bool>)
    ensures forall j :: 0 <= j < |Positions(flags)| ==>
              Positions(flags)[j] < |flags| && flags[Positions(flags)[j]]
    decreases |flags|
  {
    if |flags| > 0 {
      var rest := Positions(flags[1..]);
      PositionsSound(flags[1..]);
      var h := if flags[0] then 1 else 0;
      var ix := Positions(flags);
      assert ix == (if flags[0] then [0] else []) + Shift(rest);
      forall j | 0 <= j < |ix| ensures ix[j] < |flags| && flags[ix[j]] {
        if j >= h {
          assert ix[j] == rest[j - h] + 1;
          assert rest[j - h] < |flags[1..]| && flags[1..][rest[j - h]];
        } else {
          assert ix[j] == 0 && flags[0];
        }
      }
    }
  }

  /** The positions are listed in strictly increasing order. */
  lemma {:induction false} PositionsIncreasing(flags: seq<bool>)
    ensures forall j, k :: 0 <= j < k < |Positions(flags)| ==> Positions(flags)[j] < Positions(flags)[k]
    decreases |flags|
  {
    if |flags| > 0 {
      var rest := Positions(flags[1..]);
      PositionsIncreasing(flags[1..]);
      var h := if flags[0] then 1 else 0;
      var ix := Positions(flags);
      assert ix == (if flags[0] then [0] else []) + Shift(rest);
      forall j, k | 0 <= j < k < |ix| ensures ix[j] < ix[k] {
        assert ix[k] == rest[k - h] + 1;
        if j >= h {
          assert ix[j] == rest[j - h] + 1;
          assert rest[j - h] < rest[k - h];
        } else {
          assert ix[j] == 0;
        }
      }
    }
  }

  /** Every `true` entry is listed. */
  lemma {:induction false} PositionsComplete(flags: seq<bool>)
    ensures forall i :: 0 <= i < |flags| && flags[i] ==> i in Positions(flags)
    decreases |flags|
  {
    if |flags| > 0 {
      var rest := Positions(flags[1..]);
      PositionsComplete(flags[1..]);
      var h := if flags[0] then 1 else 0;
      var ix := Positions(flags);
      assert ix == (if flags[0] then [0] else []) + Shift(rest);
      forall i | 0 <= i < |flags| && flags[i] ensures i in ix {
        if i == 0 {
          assert ix[0] == 0;
        } else {
          assert flags[1..][i - 1];
          var j :| 0 <= j < |rest| && rest[j] == i - 1;
          assert ix[h + j] == i;
        }
      }
    }
  }

  /** Which of `parts` are non-empty. */
  function NonEmptyFlags<T>(parts: seq<seq<T>>): (flags: seq<bool>)
    ensures |flags| == |parts| && forall i :: 0 <= i < |parts| ==> flags[i] == (parts[i] != [])
  {
    seq(|parts|, i requires 0 <= i < |parts| => parts[i] != [])
  }

  /** The non-empty entries of `parts`, in order. */
  function NonEmpty<T>(parts: seq<seq<T>>): seq<seq<T>>
  {
    if |parts| == 0 then [] else (if parts[0] != [] then [parts[0]] else []) + NonEmpty(parts[1..])
  }

  /** Unfolding the non-empty positions of `parts` by its first entry. */
  lemma PositionsOfParts<T>(parts: seq<seq<T>>)
    requires |parts| > 0
    ensures var ix, rest := Positions(NonEmptyFlags(parts)), Positions(NonEmptyFlags(parts[1..]));
            var h := if parts[0] != [] then 1 else 0;
            && |ix| == h + |rest|
            && (forall j :: 0 <= j < h ==> ix[j] == 0)
            && (forall j :: h <= j < |ix| ==> ix[j] == rest[j - h] + 1)
  {
    var flags := NonEmptyFlags(parts);
    assert flags[1..] == NonEmptyFlags(parts[1..]);
    assert Positions(flags) == (if flags[0] then [0] else []) + Shift(Positions(flags[1..]));
  }

  /** Unfolding `NonEmpty` by its first entry. */
  lemma NonEmptyOfParts<T>(parts: seq<seq<T>>)
    requires |parts| > 0
    ensures var gs, rest := NonEmpty(parts), NonEmpty(parts[1..]);
            var h := if parts[0] != [] then 1 else 0;
            && |gs| == h + |rest|
            && (forall j :: 0 <= j < h ==> gs[j] == parts[0])
            && (forall j :: h <= j < |gs| ==> gs[j] == rest[j - h])
  {
    if parts[0] != [] {
      assert NonEmpty(parts) == [parts[0]] + NonEmpty(parts[1..]);
    } else {
      assert NonEmpty(parts) == NonEmpty(parts[1..]);
    }
  }

  /** The j-th non-empty entry is the entry at the j-th non-empty position. */
  lemma {:induction false} NonEmptyInOrder<T>(parts: seq<seq<T>>)
    ensures |NonEmpty(parts)| == |Positions(NonEmptyFlags(parts))|
    ensures forall j :: 0 <= j < |NonEmpty(parts)| ==>
              Positions(NonEmptyFlags(parts))[j] < |parts|
              && NonEmpty(parts)[j] == parts[Positions(NonEmptyFlags(parts))[j]]
    decreases |parts|
  {
    if |parts| > 0 {
      var tail := parts[1..];
      NonEmptyInOrder(tail);
      PositionsOfParts(parts);
      NonEmptyOfParts(parts);
      var ix, restIx := Positions(NonEmptyFlags(parts)), Positions(NonEmptyFlags(tail));
      var gs, rest := NonEmpty(parts), NonEmpty(tail);
      var h := if parts[0] != [] then 1 else 0;
      forall j | h <= j < |gs|
        ensures ix[j] < |parts| && gs[j] == parts[ix[j]]
      {
        assert parts[restIx[j - h] + 1] == tail[restIx[j - h]];
      }
    }
  }
}
