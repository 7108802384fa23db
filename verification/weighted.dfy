/** The weighted random set of rand/weighted.go.

    Construction lays the entries one after another along an axis starting at
    zero: entry i gets the half-open interval [S_i, S_i + w_i), where S_i is
    the sum of the weights before it, and the set remembers the total weight T.
    `Next` scales a uniform draw u in [0, 1) by T and returns the character of
    the interval containing u * T.

    Weights are exact reals. The interval-tree library the source queries is
    replaced by two lookups over the interval sequence: `Including`, a linear
    first-match search, and `Locate`, a binary search over the contiguous
    boundaries; the two are proved to agree. */
module Weighted {

  import opened Options

  /** One (character, weight) pair handed to the constructor. */
  datatype Entry = Entry(character: char, weight: real)

  /** The half-open interval [lo, hi) on the cumulative-weight axis. */
  datatype Interval = Interval(lo: real, hi: real) {
    predicate Contains(x: real) {
      lo <= x < hi
    }
  }

  /** intervals[i] and characters[i] belong to the i-th entry. */
  datatype WeightedRandomSet = WeightedRandomSet(
    intervals: seq<Interval>,
    characters: seq<char>,
    totalWeight: real)

  predicate NonNegative(entries: seq<Entry>) {
    forall i :: 0 <= i < |entries| ==> entries[i].weight >= 0.0
  }

  /** The sum of all weights (reference definition). */
  function Sum(entries: seq<Entry>): real {
    if |entries| == 0 then 0.0 else entries[0].weight + Sum(entries[1..])
  }

  /** S_i: the sum of the weights of entries 0 .. i-1. */
  function Start(entries: seq<Entry>, i: nat): real
    requires i <= |entries|
  {
    Sum(entries[..i])
  }

  /** The weight carried by the entries tagged with character c. */
  function CharacterWeight(entries: seq<Entry>, c: char): real {
    if |entries| == 0 then 0.0
    else (if entries[0].character == c then entries[0].weight else 0.0) + CharacterWeight(entries[1..], c)
  }

  lemma {:induction false} SumAppend(a: seq<Entry>, b: seq<Entry>)
    ensures Sum(a + b) == Sum(a) + Sum(b)
  {
    if |a| == 0 {
      assert a + b == b;
    } else {
      assert (a + b)[1..] == a[1..] + b;
      SumAppend(a[1..], b);
    }
  }

  lemma {:induction false} CharacterWeightAppend(a: seq<Entry>, b: seq<Entry>, c: char)
    ensures CharacterWeight(a + b, c) == CharacterWeight(a, c) + CharacterWeight(b, c)
  {
    if |a| == 0 {
      assert a + b == b;
    } else {
      assert (a + b)[1..] == a[1..] + b;
      CharacterWeightAppend(a[1..], b, c);
    }
  }

  /** Positive weights have a positive sum exactly when there is at least
      one of them. */
  lemma {:induction false} PositiveSum(entries: seq<Entry>)
    requires forall i :: 0 <= i < |entries| ==> entries[i].weight > 0.0
    ensures Sum(entries) >= 0.0
    ensures Sum(entries) > 0.0 <==> |entries| > 0
  {
    if |entries| > 0 {
      PositiveSum(entries[1..]);
    }
  }

  lemma {:induction false} StartNext(entries: seq<Entry>, i: nat)
    requires i < |entries|
    ensures Start(entries, i + 1) == Start(entries, i) + entries[i].weight
  {
    assert entries[..i + 1] == entries[..i] + [entries[i]];
    SumAppend(entries[..i], [entries[i]]);
  }

  // ---------------------------------------------------------------------
  // Construction (NewWeightedRandomSet)
  // ---------------------------------------------------------------------

  /** The construction loop from entry i on, with `total` the running sum of
      the weights already placed. */
  function Accumulate(entries: seq<Entry>, i: nat, total: real): (r: WeightedRandomSet)
    requires i <= |entries|
    requires total == Start(entries, i)
    ensures |r.intervals| == |r.characters| == |entries| - i
    ensures forall k :: 0 <= k < |entries| - i ==>
              r.intervals[k] == Interval(Start(entries, i + k), Start(entries, i + k) + entries[i + k].weight)
    ensures forall k :: 0 <= k < |entries| - i ==> r.characters[k] == entries[i + k].character
    ensures r.totalWeight == Sum(entries)
    decreases |entries| - i
  {
    if i == |entries| then
      assert entries[..i] == entries;
      WeightedRandomSet([], [], total)
    else
      StartNext(entries, i);
      var rest := Accumulate(entries, i + 1, total + entries[i].weight);
      WeightedRandomSet(
        [Interval(total, total + entries[i].weight)] + rest.intervals,
        [entries[i].character] + rest.characters,
        rest.totalWeight)
  }

  /** Entry i occupies [S_i, S_i + w_i) and is tagged with its character; the
      total weight is the sum of all weights. */
  function NewWeightedRandomSet(entries: seq<Entry>): (s: WeightedRandomSet)
    ensures |s.intervals| == |s.characters| == |entries|
    ensures forall i :: 0 <= i < |entries| ==>
              s.intervals[i] == Interval(Start(entries, i), Start(entries, i) + entries[i].weight)
    ensures forall i :: 0 <= i < |entries| ==> s.characters[i] == entries[i].character
    ensures s.totalWeight == Sum(entries)
  {
    Accumulate(entries, 0, 0.0)
  }

  // ---------------------------------------------------------------------
  // The interval invariant
  // ---------------------------------------------------------------------

  /** Intervals that start at 0, are immediately adjacent, never run
      backwards and end at `total`. */
  predicate Contiguous(ivs: seq<Interval>, total: real) {
    && (forall i :: 0 <= i < |ivs| ==> ivs[i].lo <= ivs[i].hi)
    && (forall i {:trigger ivs[i].lo} :: 0 < i < |ivs| ==> ivs[i - 1].hi == ivs[i].lo)
    && (if |ivs| == 0 then total == 0.0 else ivs[0].lo == 0.0 && ivs[|ivs| - 1].hi == total)
  }

  lemma {:induction false} ConstructedAdjacent(entries: seq<Entry>)
    ensures var ivs := NewWeightedRandomSet(entries).intervals;
            forall i :: 0 < i < |ivs| ==> ivs[i - 1].hi == ivs[i].lo
  {
    var ivs := NewWeightedRandomSet(entries).intervals;
    forall i | 0 < i < |ivs|
      ensures ivs[i - 1].hi == ivs[i].lo
    {
      var j := i - 1;
      assert ivs[j].hi == Start(entries, j) + entries[j].weight;
      assert ivs[i].lo == Start(entries, i);
      StartNext(entries, j);
    }
  }

  lemma {:induction false} ConstructedEnds(entries: seq<Entry>)
    requires |entries| > 0
    ensures var s := NewWeightedRandomSet(entries);
            s.intervals[0].lo == 0.0 && s.intervals[|entries| - 1].hi == s.totalWeight
  {
    StartNext(entries, |entries| - 1);
    assert entries[..|entries|] == entries;
  }

  /** With non-negative weights the constructed intervals are contiguous:
      each ends where the next begins, the first starts at 0 and the last
      ends at the total weight. */
  lemma {:induction false} ConstructionIsContiguous(entries: seq<Entry>)
    requires NonNegative(entries)
    ensures Contiguous(NewWeightedRandomSet(entries).intervals, NewWeightedRandomSet(entries).totalWeight)
  {
    var s := NewWeightedRandomSet(entries);
    var ivs := s.intervals;
    forall i | 0 <= i < |ivs|
      ensures ivs[i].lo <= ivs[i].hi
    {
      assert entries[i].weight >= 0.0;
    }
    ConstructedAdjacent(entries);
    if |entries| > 0 {
      ConstructedEnds(entries);
    }
  }

  /** Intervals are ordered: an earlier one ends no later than a later one begins. */
  lemma {:induction false} Ordered(ivs: seq<Interval>, total: real, i: nat, j: nat)
    requires Contiguous(ivs, total)
    requires i < j < |ivs|
    ensures ivs[i].hi <= ivs[j].lo
    decreases j - i
  {
    if j > i + 1 {
      Ordered(ivs, total, i, j - 1);
    }
  }

  /** Every interval lies inside [0, total]. */
  lemma {:induction false} Bounded(ivs: seq<Interval>, total: real, i: nat)
    requires Contiguous(ivs, total)
    requires i < |ivs|
    ensures 0.0 <= ivs[i].lo && ivs[i].hi <= total
  {
    if i > 0 {
      Ordered(ivs, total, 0, i);
    }
    if i < |ivs| - 1 {
      Ordered(ivs, total, i, |ivs| - 1);
    }
  }

  /** Distinct intervals share no point. */
  lemma {:induction false} Disjoint(ivs: seq<Interval>, total: real, i: nat, j: nat, x: real)
    requires Contiguous(ivs, total)
    requires i < |ivs| && j < |ivs| && i != j
    ensures !(ivs[i].Contains(x) && ivs[j].Contains(x))
  {
    if i < j {
      Ordered(ivs, total, i, j);
    } else {
      Ordered(ivs, total, j, i);
    }
  }

  lemma {:induction false} CoveredFrom(ivs: seq<Interval>, total: real, x: real, k: nat)
    requires Contiguous(ivs, total)
    requires k < |ivs| && ivs[k].lo <= x < total
    ensures exists i :: k <= i < |ivs| && ivs[i].Contains(x)
    decreases |ivs| - k
  {
    if !ivs[k].Contains(x) {
      CoveredFrom(ivs, total, x, k + 1);
    }
  }

  /** The intervals cover [0, total) exactly: a point lies in some interval
      if and only if it lies in [0, total). */
  lemma {:induction false} ExactCover(ivs: seq<Interval>, total: real, x: real)
    requires Contiguous(ivs, total)
    ensures (exists i :: 0 <= i < |ivs| && ivs[i].Contains(x)) <==> 0.0 <= x < total
  {
    if 0.0 <= x < total {
      CoveredFrom(ivs, total, x, 0);
    }
    if i :| 0 <= i < |ivs| && ivs[i].Contains(x) {
      Bounded(ivs, total, i);
    }
  }

  /** Every point of [0, total) lies in exactly one interval. */
  lemma {:induction false} UniqueContainment(ivs: seq<Interval>, total: real, x: real)
    requires Contiguous(ivs, total)
    requires 0.0 <= x < total
    ensures exists i :: 0 <= i < |ivs| && ivs[i].Contains(x)
              && forall j :: 0 <= j < |ivs| && ivs[j].Contains(x) ==> j == i
  {
    ExactCover(ivs, total, x);
    var i :| 0 <= i < |ivs| && ivs[i].Contains(x);
    forall j | 0 <= j < |ivs| && ivs[j].Contains(x)
      ensures j == i
    {
      if j != i {
        Disjoint(ivs, total, i, j, x);
      }
    }
  }

  // ---------------------------------------------------------------------
  // Lookup
  // ---------------------------------------------------------------------

  /** The linear lookup: scan the intervals in order for one containing x. */
  function Including(ivs: seq<Interval>, x: real): Option<nat> {
    if |ivs| == 0 then None
    else if ivs[0].Contains(x) then Some(0)
    else match Including(ivs[1..], x)
      case None => None
      case Some(i) => Some(i + 1)
  }

  /** The lookup answers the first interval containing x, and nothing
      exactly when no interval contains x. */
  lemma {:induction false} IncludingIsFirstMatch(ivs: seq<Interval>, x: real)
    ensures var r := Including(ivs, x);
            && (r.Some? ==> r.value < |ivs| && ivs[r.value].Contains(x))
            && (r.Some? ==> forall j :: 0 <= j < r.value ==> !ivs[j].Contains(x))
            && (r.None? <==> forall j :: 0 <= j < |ivs| ==> !ivs[j].Contains(x))
  {
    if |ivs| > 0 && !ivs[0].Contains(x) {
      IncludingIsFirstMatch(ivs[1..], x);
      assert forall j :: 0 < j < |ivs| ==> ivs[j] == ivs[1..][j - 1];
    }
  }

  /** On contiguous intervals the first match is the only match. */
  lemma {:induction false} IncludingIsUnique(ivs: seq<Interval>, total: real, x: real, i: nat)
    requires Contiguous(ivs, total)
    requires i < |ivs|
    ensures Including(ivs, x) == Some(i) <==> ivs[i].Contains(x)
  {
    var r := Including(ivs, x);
    IncludingIsFirstMatch(ivs, x);
    if ivs[i].Contains(x) && r.Some? && r.value != i {
      Disjoint(ivs, total, i, r.value, x);
    }
  }

  /** Binary search over the sorted boundaries: the O(log n) containment query. */
  method Locate(s: WeightedRandomSet, x: real) returns (i: nat)
    requires Contiguous(s.intervals, s.totalWeight)
    requires 0.0 <= x < s.totalWeight
    ensures i < |s.intervals| && s.intervals[i].Contains(x)
    ensures Including(s.intervals, x) == Some(i)
  {
    var ivs := s.intervals;
    var lo, hi := 0, |ivs|;
    while hi - lo > 1
      invariant 0 <= lo < hi <= |ivs|
      invariant ivs[lo].lo <= x
      invariant x < ivs[hi - 1].hi
      decreases hi - lo
    {
      var mid := lo + (hi - lo) / 2;
      if ivs[mid].lo <= x {
        lo := mid;
      } else {
        hi := mid;
      }
    }
    i := lo;
    IncludingIsUnique(ivs, s.totalWeight, x, i);
  }

  /** A draw u in [0, 1) scaled by a positive total lands in [0, total). */
  lemma {:induction false} ScaledDraw(u: real, t: real)
    requires t > 0.0
    requires 0.0 <= u < 1.0
    ensures 0.0 <= u * t < t
  {
    assert t - u * t == (1.0 - u) * t;
  }

  /** Dividing by a positive total preserves the order with a scaled point. */
  lemma {:induction false} ScaleBound(a: real, u: real, t: real)
    requires t > 0.0
    ensures a <= u * t <==> a / t <= u
    ensures u * t < a <==> u < a / t
  {
    assert (a / t) * t == a;
  }

  /** Scaling by a positive total maps [a, b) onto [a / t, b / t) and widths
      b - a onto (b - a) / t. */
  lemma {:induction false} ScaledInterval(a: real, b: real, u: real, t: real)
    requires t > 0.0
    ensures a <= u * t < b <==> a / t <= u < b / t
    ensures b / t - a / t == (b - a) / t
  {
    ScaleBound(a, u, t);
    ScaleBound(b, u, t);
  }

  /** The query behind Next, answered by binary search: the draw u selects
      the one interval holding u * T, which is the one whose character Next
      returns. The selected interval is never empty, so an entry of weight
      zero is never selected. */
  method Select(s: WeightedRandomSet, u: real) returns (i: nat)
    requires Contiguous(s.intervals, s.totalWeight)
    requires s.totalWeight > 0.0
    requires 0.0 <= u < 1.0
    ensures i < |s.intervals|
    ensures s.intervals[i].lo < s.intervals[i].hi
    ensures forall j :: 0 <= j < |s.intervals| ==>
              (j == i <==> s.intervals[j].Contains(u * s.totalWeight))
    ensures i < |s.characters| ==> CharacterAt(s, u * s.totalWeight) == Some(s.characters[i])
  {
    var x := u * s.totalWeight;
    ScaledDraw(u, s.totalWeight);
    i := Locate(s, x);
    forall j | 0 <= j < |s.intervals|
      ensures j == i <==> s.intervals[j].Contains(x)
    {
      IncludingIsUnique(s.intervals, s.totalWeight, x, j);
    }
  }

  /** The character of the interval the lookup finds for the point x, or
      None where the source fails because the lookup finds nothing. */
  function CharacterAt(s: WeightedRandomSet, x: real): (r: Option<char>)
    ensures r.Some? ==> r.value in s.characters
  {
    match Including(s.intervals, x)
    case None => None
    case Some(i) => if i < |s.characters| then Some(s.characters[i]) else None
  }

  /** Next: the character at u * T, the draw u scaled into [0, T). */
  function Next(s: WeightedRandomSet, u: real): (r: Option<char>)
    ensures r.Some? ==> r.value in s.characters
  {
    CharacterAt(s, u * s.totalWeight)
  }

  /** On a well-formed set, the lookup of a point x fails exactly when x
      lies outside [0, T). */
  lemma {:induction false} CharacterAtFails(s: WeightedRandomSet, x: real)
    requires Contiguous(s.intervals, s.totalWeight)
    requires |s.characters| == |s.intervals|
    ensures CharacterAt(s, x).None? <==> !(0.0 <= x < s.totalWeight)
  {
    ExactCover(s.intervals, s.totalWeight, x);
    IncludingIsFirstMatch(s.intervals, x);
  }

  /** On a well-formed set, a point x of [0, T) is answered with the
      character of the one nonempty interval holding it. */
  lemma {:induction false} CharacterAtAnswers(s: WeightedRandomSet, x: real)
    requires Contiguous(s.intervals, s.totalWeight)
    requires |s.characters| == |s.intervals|
    requires 0.0 <= x < s.totalWeight
    ensures exists i :: 0 <= i < |s.intervals|
              && s.intervals[i].Contains(x)
              && s.intervals[i].lo < s.intervals[i].hi
              && CharacterAt(s, x) == Some(s.characters[i])
  {
    ExactCover(s.intervals, s.totalWeight, x);
    IncludingIsFirstMatch(s.intervals, x);
  }

  lemma {:induction false} NextUnfold(s: WeightedRandomSet, u: real)
    ensures Next(s, u) == CharacterAt(s, u * s.totalWeight)
  {
  }

  /** On a well-formed set, Next fails exactly when the total weight is zero
      (every interval is then empty). Otherwise it answers the character of
      a nonempty interval holding u * T, so an entry of weight zero is never
      returned. */
  lemma {:induction false} NextAnswers(s: WeightedRandomSet, u: real)
    requires Contiguous(s.intervals, s.totalWeight)
    requires |s.characters| == |s.intervals|
    requires 0.0 <= u < 1.0
    ensures Next(s, u).None? <==> s.totalWeight == 0.0
    ensures Next(s, u).Some? ==>
              exists i :: 0 <= i < |s.intervals|
                && s.intervals[i].Contains(u * s.totalWeight)
                && s.intervals[i].lo < s.intervals[i].hi
                && Next(s, u) == Some(s.characters[i])
  {
    if s.totalWeight == 0.0 {
      NextAtZero(s, u);
    } else {
      Bounded(s.intervals, s.totalWeight, 0);
      NextAtPositive(s, u);
    }
  }

  lemma {:induction false} NextAtZero(s: WeightedRandomSet, u: real)
    requires Contiguous(s.intervals, s.totalWeight)
    requires |s.characters| == |s.intervals|
    requires s.totalWeight == 0.0
    ensures Next(s, u).None?
  {
    var x := u * s.totalWeight;
    assert x == 0.0;
    NextUnfold(s, u);
    CharacterAtFails(s, x);
  }

  lemma {:induction false} NextAtPositive(s: WeightedRandomSet, u: real)
    requires Contiguous(s.intervals, s.totalWeight)
    requires |s.characters| == |s.intervals|
    requires 0.0 <= u < 1.0
    requires s.totalWeight > 0.0
    ensures exists i :: 0 <= i < |s.intervals|
              && s.intervals[i].Contains(u * s.totalWeight)
              && s.intervals[i].lo < s.intervals[i].hi
              && Next(s, u) == Some(s.characters[i])
  {
    var x := u * s.totalWeight;
    ScaledDraw(u, s.totalWeight);
    CharacterAtAnswers(s, x);
    NextUnfold(s, u);
  }

  // ---------------------------------------------------------------------
  // Properties of the constructed set
  // ---------------------------------------------------------------------

  /** In a constructed set the point x is found in entry i's interval
      exactly when S_i <= x < S_i + w_i. */
  lemma {:induction false} LookupOfConstruction(entries: seq<Entry>, x: real, i: nat)
    requires NonNegative(entries)
    requires i < |entries|
    ensures Including(NewWeightedRandomSet(entries).intervals, x) == Some(i)
            <==> Start(entries, i) <= x < Start(entries, i) + entries[i].weight
  {
    var s := NewWeightedRandomSet(entries);
    ConstructionIsContiguous(entries);
    IncludingIsUnique(s.intervals, s.totalWeight, x, i);
  }

  /** On a constructed set, the draws u that select entry i are exactly
      those in [S_i / T, (S_i + w_i) / T), an interval of width w_i / T. */
  lemma {:induction false} SelectionInterval(entries: seq<Entry>, u: real, i: nat)
    requires Sum(entries) > 0.0
    requires i < |entries|
    ensures var s := NewWeightedRandomSet(entries);
            s.intervals[i].Contains(u * s.totalWeight)
            <==> Start(entries, i) / Sum(entries) <= u < (Start(entries, i) + entries[i].weight) / Sum(entries)
    ensures (Start(entries, i) + entries[i].weight) / Sum(entries) - Start(entries, i) / Sum(entries)
            == entries[i].weight / Sum(entries)
  {
    var s := NewWeightedRandomSet(entries);
    var a, t := Start(entries, i), Sum(entries);
    var b := a + entries[i].weight;
    assert s.intervals[i] == Interval(a, b) && s.totalWeight == t;
    ScaledInterval(a, b, u, t);
    assert b - a == entries[i].weight;
  }

  lemma {:induction false} SumCons(e: seq<Entry>, k: nat)
    requires k < |e|
    ensures Sum(e[k..]) == e[k].weight + Sum(e[k + 1..])
  {
    assert e[k..][1..] == e[k + 1..];
  }

  /** The entries of the source's distribution test: characters 0 .. 8
      with the triangle of weights 1, 2, 3, 4, 5, 4, 3, 2, 1. */
  function Triangle(): seq<Entry> {
    [Entry(0 as char, 1.0), Entry(1 as char, 2.0), Entry(2 as char, 3.0),
     Entry(3 as char, 4.0), Entry(4 as char, 5.0), Entry(5 as char, 4.0),
     Entry(6 as char, 3.0), Entry(7 as char, 2.0), Entry(8 as char, 1.0)]
  }

  lemma {:induction false} TriangleTotal()
    ensures Sum(Triangle()) == 25.0
  {
    var e := Triangle();
    SumCons(e, 8);
    SumCons(e, 7);
    SumCons(e, 6);
    SumCons(e, 5);
    SumCons(e, 4);
    SumCons(e, 3);
    SumCons(e, 2);
    SumCons(e, 1);
    SumCons(e, 0);
    assert e[9..] == [];
    assert e[0..] == e;
  }

  /** The exact selection widths w_i / T of the triangle entries are the
      frequencies the test expects. */
  lemma {:induction false} TriangleSelectionWidths()
    ensures Sum(Triangle()) == 25.0
    ensures forall i :: 0 <= i < |Triangle()| ==>
              Triangle()[i].weight / Sum(Triangle()) == [0.04, 0.08, 0.12, 0.16, 0.2, 0.16, 0.12, 0.08, 0.04][i]
  {
    TriangleTotal();
  }

  /** The widths of the intervals tagged with character c. */
  function Width(ivs: seq<Interval>, characters: seq<char>, c: char): real
    requires |characters| == |ivs|
  {
    if |ivs| == 0 then 0.0
    else (if characters[0] == c then ivs[0].hi - ivs[0].lo else 0.0) + Width(ivs[1..], characters[1..], c)
  }

  lemma {:induction false} WidthOfTagged(ivs: seq<Interval>, characters: seq<char>, entries: seq<Entry>, c: char)
    requires |ivs| == |characters| == |entries|
    requires forall i :: 0 <= i < |entries| ==>
               ivs[i].hi - ivs[i].lo == entries[i].weight && characters[i] == entries[i].character
    ensures Width(ivs, characters, c) == CharacterWeight(entries, c)
  {
    if |entries| > 0 {
      WidthOfTagged(ivs[1..], characters[1..], entries[1..], c);
    }
  }

  /** The intervals tagged with c have total width equal to the weight of c's
      entries, so c is selected with probability CharacterWeight / T. */
  lemma {:induction false} CharacterSelectionWidth(entries: seq<Entry>, c: char)
    ensures Width(NewWeightedRandomSet(entries).intervals, NewWeightedRandomSet(entries).characters, c)
            == CharacterWeight(entries, c)
  {
    var s := NewWeightedRandomSet(entries);
    WidthOfTagged(s.intervals, s.characters, entries, c);
  }

  lemma {:induction false} RemoveAt(b: seq<Entry>, k: nat, c: char)
    requires k < |b|
    ensures Sum(b) == b[k].weight + Sum(b[..k] + b[k + 1..])
    ensures CharacterWeight(b, c)
            == (if b[k].character == c then b[k].weight else 0.0) + CharacterWeight(b[..k] + b[k + 1..], c)
  {
    assert b == b[..k] + ([b[k]] + b[k + 1..]);
    SumAppend(b[..k], [b[k]] + b[k + 1..]);
    SumAppend([b[k]], b[k + 1..]);
    SumAppend(b[..k], b[k + 1..]);
    CharacterWeightAppend(b[..k], [b[k]] + b[k + 1..], c);
    CharacterWeightAppend([b[k]], b[k + 1..], c);
    CharacterWeightAppend(b[..k], b[k + 1..], c);
  }

  /** Removing a[0] from a and one copy of it from b keeps the two
      multisets equal. */
  lemma {:induction false} RemoveMatching(a: seq<Entry>, b: seq<Entry>, k: nat)
    requires multiset(a) == multiset(b)
    requires 0 < |a| && k < |b| && b[k] == a[0]
    ensures multiset(a[1..]) == multiset(b[..k] + b[k + 1..])
  {
    assert a == [a[0]] + a[1..];
    assert b == b[..k] + [b[k]] + b[k + 1..];
    assert multiset(a[1..]) == multiset(a) - multiset{a[0]};
    assert multiset(b[..k] + b[k + 1..]) == multiset(b) - multiset{b[k]};
  }

  /** Insertion order does not matter: reordering the entries leaves the
      total weight and the weight of every character unchanged, hence every
      character's selection width CharacterWeight / T. */
  lemma {:induction false} PermutationInvariant(a: seq<Entry>, b: seq<Entry>, c: char)
    requires multiset(a) == multiset(b)
    ensures Sum(a) == Sum(b)
    ensures CharacterWeight(a, c) == CharacterWeight(b, c)
    decreases |a|
  {
    if |a| > 0 {
      assert a[0] in multiset(b);
      var k :| 0 <= k < |b| && b[k] == a[0];
      RemoveMatching(a, b, k);
      PermutationInvariant(a[1..], b[..k] + b[k + 1..], c);
      RemoveAt(b, k, c);
    } else {
      assert |multiset(b)| == 0;
    }
  }
}
