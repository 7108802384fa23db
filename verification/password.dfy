/** The password generator of password/generator.go.

    A rule is a configuration (a minimum length and character classes, each
    with a minimum count) together with a validity predicate. The generator
    builds a weighted character source from the configuration and then runs
    a rejection-sampling loop: append a drawn character, roll it back if the
    rule rejects the candidate, restart from empty when the candidate grows
    past one and a half times the minimum length, and give up after ten
    rejections.

    The loop reads its characters from a stream, with `stream(k)` the answer
    to the k-th request: a character, or None where the source's lookup
    finds nothing and the source fails. Generate feeds it the weighted
    source's `Next` applied to the k-th uniform draw `draws(k)`. The loop
    need not terminate (a restart does not count as a rejection), so it
    runs on fuel: `None` means the fuel ran out. */
module Password {

  import opened Options
  import opened Weighted

  /** A character class: its characters and the minimum number of them the
      password must contain. */
  datatype CharacterClass = CharacterClass(characters: seq<char>, minimum: int)

  /** The properties of the generated password. */
  datatype Configuration = Configuration(length: int, classes: seq<CharacterClass>)

  /** The result of Generate: a password, ErrInvalidPasswordRejection, or
      the failure of the character source when its lookup finds nothing. */
  datatype Outcome = Generated(password: seq<char>) | InvalidPasswordRejection | EmptyLookup

  /** The loop state: the candidate, the rejection counter and the number of
      characters drawn so far. */
  datatype State = State(password: seq<char>, rejections: nat, draws: nat)

  /** An outcome together with the state the loop stopped in. */
  datatype Run = Run(outcome: Outcome, final: State)

  const MaxInvalidPasswordRejections: nat := 10

  /** The character sets offered for use as character classes. */
  const DigitCharacters := "0123456789"
  const UppercaseCharacters := "ABCDEFGHIJKLMNOPQRSTUVWXYZ"
  const LowercaseCharacters := "abcdefghijklmnopqrstuvwxyz"
  const SpecialCharacters := "!\"#$%&'()*+,-./:;<=>?@[\\]^_`{|}~"
  const UrlSafeSpecialCharacters := "-_"

  // ---------------------------------------------------------------------
  // Counting occurrences (occurrencesOfCharacters)
  // ---------------------------------------------------------------------

  /** The frequency table of the password, filled in password order. */
  function Frequencies(p: seq<char>): (m: map<char, nat>)
    ensures forall c :: c in m <==> c in p
    ensures forall c :: c in m ==> m[c] == multiset(p)[c]
  {
    if |p| == 0 then map[]
    else
      var m := Frequencies(p[..|p| - 1]);
      var c := p[|p| - 1];
      assert p == p[..|p| - 1] + [c];
      m[c := (if c in m then m[c] else 0) + 1]
  }

  /** The second loop: add up the table entries of the class characters, in
      class order, skipping characters absent from the table. */
  function CountIn(freq: map<char, nat>, cls: seq<char>): (n: nat)
    ensures forall k :: 0 <= k < |cls| && cls[k] in freq ==> freq[cls[k]] <= n
    ensures (forall k :: 0 <= k < |cls| ==> cls[k] !in freq) ==> n == 0
  {
    if |cls| == 0 then 0
    else
      var c := cls[|cls| - 1];
      CountIn(freq, cls[..|cls| - 1]) + (if c in freq then freq[c] else 0)
  }

  /** occurrencesOfCharacters adds up, over the class characters counted
      with multiplicity, how often each occurs in the password. */
  function OccurrencesOfCharacters(p: seq<char>, cls: seq<char>): (n: nat)
    ensures n == ClassCount(p, cls)
  {
    CountInFrequencies(p, cls);
    CountIn(Frequencies(p), cls)
  }

  /** Reference: the count in p of each class character, summed over the
      class with multiplicity. */
  function ClassCount(p: seq<char>, cls: seq<char>): nat {
    if |cls| == 0 then 0
    else ClassCount(p, cls[..|cls| - 1]) + multiset(p)[cls[|cls| - 1]]
  }

  /** Reference: the multiplicity in the class of each password character,
      summed over the password. */
  function Hits(p: seq<char>, cls: seq<char>): nat {
    if |p| == 0 then 0
    else Hits(p[..|p| - 1], cls) + multiset(cls)[p[|p| - 1]]
  }

  /** The number of positions of p holding a character of cls. */
  function Matches(p: seq<char>, cls: seq<char>): (n: nat)
    ensures n <= |p|
  {
    if |p| == 0 then 0
    else Matches(p[..|p| - 1], cls) + (if p[|p| - 1] in cls then 1 else 0)
  }

  predicate Distinct(cls: seq<char>) {
    forall i, j :: 0 <= i < j < |cls| ==> cls[i] != cls[j]
  }

  lemma {:induction false} CountInFrequencies(p: seq<char>, cls: seq<char>)
    ensures CountIn(Frequencies(p), cls) == ClassCount(p, cls)
  {
    if |cls| > 0 {
      CountInFrequencies(p, cls[..|cls| - 1]);
    }
  }

  lemma {:induction false} ClassCountOfEmpty(cls: seq<char>)
    ensures ClassCount([], cls) == 0
  {
    if |cls| > 0 {
      ClassCountOfEmpty(cls[..|cls| - 1]);
    }
  }

  /** Appending d to the password raises the class count by the number of
      times d occurs in the class. */
  lemma {:induction false} ClassCountSnoc(p: seq<char>, d: char, cls: seq<char>)
    ensures ClassCount(p + [d], cls) == ClassCount(p, cls) + multiset(cls)[d]
  {
    if |cls| > 0 {
      var front := cls[..|cls| - 1];
      assert cls == front + [cls[|cls| - 1]];
      ClassCountSnoc(p, d, front);
    }
  }

  /** Double counting: summing over the class or over the password gives
      the same number. */
  lemma {:induction false} DoubleCounting(p: seq<char>, cls: seq<char>)
    ensures ClassCount(p, cls) == Hits(p, cls)
  {
    if |p| == 0 {
      ClassCountOfEmpty(cls);
    } else {
      var front := p[..|p| - 1];
      assert p == front + [p[|p| - 1]];
      DoubleCounting(front, cls);
      ClassCountSnoc(front, p[|p| - 1], cls);
    }
  }

  lemma {:induction false} DistinctMultiplicity(cls: seq<char>, d: char)
    requires Distinct(cls)
    ensures multiset(cls)[d] == if d in cls then 1 else 0
  {
    if |cls| > 0 {
      var front := cls[..|cls| - 1];
      assert cls == front + [cls[|cls| - 1]];
      DistinctMultiplicity(front, d);
      if d == cls[|cls| - 1] {
        assert d !in front;
      }
    }
  }

  lemma {:induction false} HitsOfDistinct(p: seq<char>, cls: seq<char>)
    requires Distinct(cls)
    ensures Hits(p, cls) == Matches(p, cls)
  {
    if |p| > 0 {
      HitsOfDistinct(p[..|p| - 1], cls);
      DistinctMultiplicity(cls, p[|p| - 1]);
    }
  }

  /** For a class without repeated characters the occurrence count is the
      number of password positions holding a class character, hence at most
      the password length. */
  lemma {:induction false} OccurrencesOfDistinctClass(p: seq<char>, cls: seq<char>)
    requires Distinct(cls)
    ensures OccurrencesOfCharacters(p, cls) == Matches(p, cls) <= |p|
  {
    DoubleCounting(p, cls);
    HitsOfDistinct(p, cls);
  }

  // ---------------------------------------------------------------------
  // Completion (complete)
  // ---------------------------------------------------------------------

  /** The class loop of complete: stop at the first class below its minimum. */
  function MinimumsMet(classes: seq<CharacterClass>, p: seq<char>): bool {
    if |classes| == 0 then true
    else if OccurrencesOfCharacters(p, classes[0].characters) < classes[0].minimum then false
    else MinimumsMet(classes[1..], p)
  }

  /** complete: the length test, then the class loop. */
  function Complete(config: Configuration, p: seq<char>): bool {
    if |p| < config.length then false else MinimumsMet(config.classes, p)
  }

  /** The class loop succeeds exactly when every class count reaches its
      minimum. */
  lemma {:induction false} MinimumsMetIff(classes: seq<CharacterClass>, p: seq<char>)
    ensures MinimumsMet(classes, p)
            <==> (forall k :: 0 <= k < |classes| ==>
                    OccurrencesOfCharacters(p, classes[k].characters) >= classes[k].minimum)
  {
    if |classes| > 0 {
      MinimumsMetIff(classes[1..], p);
      assert forall k :: 0 < k < |classes| ==> classes[k] == classes[1..][k - 1];
    }
  }

  /** A password is complete exactly when it is long enough and meets every
      class minimum. */
  lemma {:induction false} CompleteIff(config: Configuration, p: seq<char>)
    ensures Complete(config, p)
            <==> (|p| >= config.length
                  && forall k :: 0 <= k < |config.classes| ==>
                       OccurrencesOfCharacters(p, config.classes[k].characters) >= config.classes[k].minimum)
  {
    MinimumsMetIff(config.classes, p);
  }

  // ---------------------------------------------------------------------
  // The character source (buildCharacterSource)
  // ---------------------------------------------------------------------

  /** totalCount: the sum of the class minimums. With no negative minimum
      every minimum lies between zero and the total, so no class
      probability exceeds one. */
  function TotalCount(classes: seq<CharacterClass>): (t: int)
    ensures MinimumsNonNegative(classes) ==>
              forall k :: 0 <= k < |classes| ==> 0 <= classes[k].minimum <= t
  {
    if |classes| == 0 then 0 else classes[0].minimum + TotalCount(classes[1..])
  }

  /** The probability of drawing from a class: its minimum over the total.
      A zero total yields zero here. */
  function Probability(minimum: int, totalCount: int): (q: real)
    ensures totalCount > 0 ==> q * (totalCount as real) == minimum as real
    ensures totalCount > 0 ==> (q > 0.0 <==> minimum > 0)
  {
    if totalCount == 0 then 0.0 else (minimum as real) / (totalCount as real)
  }

  /** Reference: one entry per class character, each carrying an equal share
      of the class probability. */
  function ClassEntries(cls: seq<char>, probability: real): (r: seq<Entry>)
    ensures |r| == |cls|
  {
    seq(|cls|, j requires 0 <= j < |cls| => Entry(cls[j], probability / (|cls| as real)))
  }

  /** The append loop from character i on. */
  function AppendCharacters(entries: seq<Entry>, cls: seq<char>, probability: real, i: nat): (r: seq<Entry>)
    requires i <= |cls|
    ensures r == entries + ClassEntries(cls, probability)[i..]
    decreases |cls| - i
  {
    if i == |cls| then entries
    else
      var e := Entry(cls[i], probability / (|cls| as real));
      assert ClassEntries(cls, probability)[i..] == [e] + ClassEntries(cls, probability)[i + 1..];
      AppendCharacters(entries + [e], cls, probability, i + 1)
  }

  /** A class with positive probability contributes its characters in
      order, each weighted probability / |class|; otherwise nothing. */
  function AddCharactersToWeightedRandomSet(entries: seq<Entry>, cls: seq<char>, probability: real): (r: seq<Entry>)
    ensures probability > 0.0 ==> r == entries + ClassEntries(cls, probability)
    ensures probability <= 0.0 ==> r == entries
  {
    if probability > 0.0 then AppendCharacters(entries, cls, probability, 0) else entries
  }

  /** The class loop of buildCharacterSource: it appends the entries of the
      positive-probability classes, in class order. */
  function ClassesToEntries(entries: seq<Entry>, classes: seq<CharacterClass>, totalCount: int): (r: seq<Entry>)
    ensures r == entries + Expected(classes, totalCount)
    decreases |classes|
  {
    if |classes| == 0 then
      assert entries + [] == entries;
      entries
    else
      var c := classes[0];
      var q := Probability(c.minimum, totalCount);
      var head := if q > 0.0 then ClassEntries(c.characters, q) else [];
      var next := AddCharactersToWeightedRandomSet(entries, c.characters, q);
      var rest := Expected(classes[1..], totalCount);
      assert next == entries + head;
      assert Expected(classes, totalCount) == head + rest;
      assert (entries + head) + rest == entries + (head + rest);
      ClassesToEntries(next, classes[1..], totalCount)
  }

  /** Reference: the entries of the classes with positive probability, in
      class order. */
  function Expected(classes: seq<CharacterClass>, totalCount: int): seq<Entry> {
    if |classes| == 0 then []
    else
      var q := Probability(classes[0].minimum, totalCount);
      (if q > 0.0 then ClassEntries(classes[0].characters, q) else []) + Expected(classes[1..], totalCount)
  }

  function SourceEntries(config: Configuration): seq<Entry> {
    ClassesToEntries([], config.classes, TotalCount(config.classes))
  }

  /** buildCharacterSource: the weighted set over the entries of the
      positive-probability classes, holding their characters in order and
      their weights as its total. */
  function BuildCharacterSource(config: Configuration): (s: WeightedRandomSet)
    ensures var expected := Expected(config.classes, TotalCount(config.classes));
            && |s.characters| == |expected|
            && (forall i :: 0 <= i < |expected| ==> s.characters[i] == expected[i].character)
            && s.totalWeight == Sum(expected)
  {
    NewWeightedRandomSet(SourceEntries(config))
  }

  /** The source holds the entries of the positive-probability classes, in
      class order and then character order. */
  lemma {:induction false} SourceEntriesInOrder(config: Configuration)
    ensures SourceEntries(config) == Expected(config.classes, TotalCount(config.classes))
  {
    assert [] + Expected(config.classes, TotalCount(config.classes)) == Expected(config.classes, TotalCount(config.classes));
  }

  /** Every entry of the source comes from a class with positive
      probability, carries one of its characters and weighs
      probability / |class|. */
  lemma {:induction false} ExpectedFromPositiveClasses(classes: seq<CharacterClass>, t: int, i: nat)
    requires i < |Expected(classes, t)|
    ensures exists k :: 0 <= k < |classes|
              && Probability(classes[k].minimum, t) > 0.0
              && Expected(classes, t)[i].character in classes[k].characters
              && Expected(classes, t)[i].weight
                 == Probability(classes[k].minimum, t) / (|classes[k].characters| as real)
  {
    var q := Probability(classes[0].minimum, t);
    var head := if q > 0.0 then ClassEntries(classes[0].characters, q) else [];
    if i < |head| {
      assert Expected(classes, t)[i] == head[i];
    } else {
      assert Expected(classes, t)[i] == Expected(classes[1..], t)[i - |head|];
      ExpectedFromPositiveClasses(classes[1..], t, i - |head|);
      var k :| 0 <= k < |classes[1..]|
               && Probability(classes[1..][k].minimum, t) > 0.0
               && Expected(classes[1..], t)[i - |head|].character in classes[1..][k].characters
               && Expected(classes[1..], t)[i - |head|].weight
                  == Probability(classes[1..][k].minimum, t) / (|classes[1..][k].characters| as real);
      assert classes[1..][k] == classes[k + 1];
    }
  }

  /** Every source entry has positive weight. */
  lemma {:induction false} ExpectedPositive(classes: seq<CharacterClass>, t: int)
    ensures forall i :: 0 <= i < |Expected(classes, t)| ==> Expected(classes, t)[i].weight > 0.0
  {
    if |classes| > 0 {
      ExpectedPositive(classes[1..], t);
      var q := Probability(classes[0].minimum, t);
      var n := |classes[0].characters| as real;
      if q > 0.0 && n > 0.0 {
        assert q / n > 0.0;
      }
    }
  }

  /** n equal shares of q add up to q. */
  lemma {:induction false} ClassMass(cls: seq<char>, q: real)
    requires |cls| > 0
    ensures Sum(ClassEntries(cls, q)) == q
  {
    var n := |cls| as real;
    EqualShares(ClassEntries(cls, q), q / n);
    assert (q / n) * n == q;
  }

  lemma {:induction false} EqualShares(entries: seq<Entry>, w: real)
    requires forall i :: 0 <= i < |entries| ==> entries[i].weight == w
    ensures Sum(entries) == (|entries| as real) * w
  {
    if |entries| > 0 {
      EqualShares(entries[1..], w);
    }
  }

  /** Reference: the class probabilities added up over the classes with
      positive probability and at least one character. */
  function Mass(classes: seq<CharacterClass>, t: int): real {
    if |classes| == 0 then 0.0
    else
      var q := Probability(classes[0].minimum, t);
      (if q > 0.0 && |classes[0].characters| > 0 then q else 0.0) + Mass(classes[1..], t)
  }

  /** The entries of each class sum to that class's probability. */
  lemma {:induction false} ExpectedMass(classes: seq<CharacterClass>, t: int)
    ensures Sum(Expected(classes, t)) == Mass(classes, t)
  {
    if |classes| > 0 {
      var q := Probability(classes[0].minimum, t);
      var head := if q > 0.0 then ClassEntries(classes[0].characters, q) else [];
      SumAppend(head, Expected(classes[1..], t));
      ExpectedMass(classes[1..], t);
      if q > 0.0 && |classes[0].characters| > 0 {
        ClassMass(classes[0].characters, q);
      }
    }
  }

  predicate MinimumsNonNegative(classes: seq<CharacterClass>) {
    forall k :: 0 <= k < |classes| ==> classes[k].minimum >= 0
  }

  predicate PositiveClassesNonEmpty(classes: seq<CharacterClass>) {
    forall k :: 0 <= k < |classes| ==> classes[k].minimum > 0 ==> |classes[k].characters| > 0
  }

  /** A share of the total scaled back to a count. Naming the product keeps
      it out of the solver's nonlinear arithmetic where the proofs only need
      to match it. */
  function Scaled(q: real, t: real): real {
    q * t
  }

  /** The class probabilities, scaled back by the total, add up to the
      total count. */
  lemma {:induction false} MassIsShare(classes: seq<CharacterClass>, t: int)
    requires t > 0
    requires MinimumsNonNegative(classes)
    requires PositiveClassesNonEmpty(classes)
    ensures Scaled(Mass(classes, t), t as real) == TotalCount(classes) as real
  {
    if |classes| > 0 {
      MassIsShare(classes[1..], t);
      var scale := t as real;
      var q := Probability(classes[0].minimum, t);
      var head := if q > 0.0 && |classes[0].characters| > 0 then q else 0.0;
      var rest := Mass(classes[1..], t);
      assert head * scale == classes[0].minimum as real;
      assert (head + rest) * scale == head * scale + rest * scale;
    }
  }

  /** With non-negative minimums, a positive total, and characters in every
      class that has a positive minimum, the weights of the source add up
      to one. */
  lemma {:induction false} SourceMassIsOne(config: Configuration)
    requires MinimumsNonNegative(config.classes)
    requires PositiveClassesNonEmpty(config.classes)
    requires TotalCount(config.classes) > 0
    ensures Sum(SourceEntries(config)) == 1.0
    ensures BuildCharacterSource(config).totalWeight == 1.0
  {
    var t := TotalCount(config.classes);
    MassIsOne(config.classes);
    SourceEntriesInOrder(config);
    ExpectedMass(config.classes, t);
  }

  lemma {:induction false} MassIsOne(classes: seq<CharacterClass>)
    requires MinimumsNonNegative(classes)
    requires PositiveClassesNonEmpty(classes)
    requires TotalCount(classes) > 0
    ensures Mass(classes, TotalCount(classes)) == 1.0
  {
    MassIsShare(classes, TotalCount(classes));
    UnitFactor(Mass(classes, TotalCount(classes)), TotalCount(classes) as real);
  }

  /** A share of a positive count that scales back to the whole count is
      the whole. */
  lemma {:induction false} UnitFactor(m: real, t: real)
    requires t > 0.0
    requires Scaled(m, t) == t
    ensures m == 1.0
  {
    assert m * t == t;
  }

  /** The source satisfies the weighted set's interval invariant, so its
      Next is defined. */
  lemma {:induction false} SourceIsContiguous(config: Configuration)
    ensures var s := BuildCharacterSource(config);
            Contiguous(s.intervals, s.totalWeight) && |s.characters| == |s.intervals|
  {
    SourceEntriesInOrder(config);
    ExpectedPositive(config.classes, TotalCount(config.classes));
    ConstructionIsContiguous(SourceEntries(config));
  }

  /** Every character the source can return belongs to a class with
      positive probability. */
  lemma {:induction false} SourceCharacters(config: Configuration, i: nat)
    requires i < |BuildCharacterSource(config).characters|
    ensures exists k :: 0 <= k < |config.classes|
              && Probability(config.classes[k].minimum, TotalCount(config.classes)) > 0.0
              && BuildCharacterSource(config).characters[i] in config.classes[k].characters
  {
    SourceEntriesInOrder(config);
    ExpectedFromPositiveClasses(config.classes, TotalCount(config.classes), i);
  }

  // ---------------------------------------------------------------------
  // The rejection-sampling loop (Generate)
  // ---------------------------------------------------------------------

  /** int(float64(length) * 1.5): one and a half times the length,
      truncated toward zero. */
  function MaxLength(length: int): (m: int)
    ensures length >= 0 ==> 0 <= 3 * length - 2 * m < 2
    ensures length < 0 ==> 0 <= 2 * m - 3 * length < 2
  {
    if length >= 0 then (3 * length) / 2 else -((-3 * length) / 2)
  }

  /** One pass through the loop body after the completion check fails:
      append the drawn character c, roll it back if the rule rejects the
      candidate, and restart from empty if it grew too long. */
  function Step(config: Configuration, valid: seq<char> -> bool, c: char, s: State): (t: State)
    ensures t.draws == s.draws + 1
    ensures !valid(s.password + [c]) ==> t.password == s.password && t.rejections == s.rejections + 1
    ensures valid(s.password + [c]) ==>
              t.rejections == s.rejections
              && t.password == (if |s.password| + 1 > MaxLength(config.length) then [] else s.password + [c])
  {
    var candidate := s.password + [c];
    if !valid(candidate) then
      State(candidate[..|candidate| - 1], s.rejections + 1, s.draws + 1)
    else if |candidate| > MaxLength(config.length) then
      State([], s.rejections, s.draws + 1)
    else
      State(candidate, s.rejections, s.draws + 1)
  }

  /** What the loop keeps true of its state: the candidate is empty or
      accepted by the rule and within the length cap, and the counter has
      not passed the ceiling nor the number of draws. */
  predicate Invariant(config: Configuration, valid: seq<char> -> bool, s: State) {
    && (s.password == [] || (valid(s.password) && |s.password| <= MaxLength(config.length)))
    && s.rejections <= MaxInvalidPasswordRejections
    && s.rejections <= s.draws
  }

  lemma {:induction false} StepKeepsInvariant(config: Configuration, valid: seq<char> -> bool, c: char, s: State)
    requires Invariant(config, valid, s)
    requires s.rejections < MaxInvalidPasswordRejections
    ensures Invariant(config, valid, Step(config, valid, c, s))
  {
  }

  /** The loop from state s with `fuel` requests left, stopping at the
      completion test `complete` (Generate passes `Complete` for its
      configuration). A request the source cannot answer ends the loop with
      EmptyLookup. A returned password is the final candidate and passes the
      completion test. */
  function Loop(config: Configuration, valid: seq<char> -> bool, complete: seq<char> -> bool, stream: nat -> Option<char>, s: State, fuel: nat): (r: Option<Run>)
    ensures r.Some? && r.value.outcome.Generated? ==>
              r.value.outcome.password == r.value.final.password
              && complete(r.value.outcome.password)
    decreases fuel
  {
    if s.rejections >= MaxInvalidPasswordRejections then Some(Run(InvalidPasswordRejection, s))
    else if complete(s.password) then Some(Run(Generated(s.password), s))
    else if fuel == 0 then None
    else match stream(s.draws)
      case None => Some(Run(EmptyLookup, s))
      case Some(c) => Loop(config, valid, complete, stream, Step(config, valid, c, s), fuel - 1)
  }

  /** One pass of the loop: a request answered with c leads to the loop
      from the stepped state with one unit of fuel less. */
  lemma {:induction false} LoopPass(config: Configuration, valid: seq<char> -> bool, complete: seq<char> -> bool, stream: nat -> Option<char>, s: State, fuel: nat)
    requires s.rejections < MaxInvalidPasswordRejections
    requires !complete(s.password)
    requires fuel > 0
    requires stream(s.draws).Some?
    ensures Loop(config, valid, complete, stream, s, fuel)
            == Loop(config, valid, complete, stream, Step(config, valid, stream(s.draws).value, s), fuel - 1)
  {
  }

  /** A loop that does not pass stops in the state it was given. */
  lemma {:induction false} LoopHalts(config: Configuration, valid: seq<char> -> bool, complete: seq<char> -> bool, stream: nat -> Option<char>, s: State, fuel: nat)
    requires !(s.rejections < MaxInvalidPasswordRejections && !complete(s.password) && fuel > 0
               && stream(s.draws).Some?)
    ensures var r := Loop(config, valid, complete, stream, s, fuel);
            r.Some? ==> r.value.final == s
  {
  }

  /** A finished run ends in a state that keeps the invariant. */
  lemma {:induction false} LoopKeepsInvariant(config: Configuration, valid: seq<char> -> bool, complete: seq<char> -> bool, stream: nat -> Option<char>, s: State, fuel: nat)
    requires Invariant(config, valid, s)
    ensures var r := Loop(config, valid, complete, stream, s, fuel);
            r.Some? ==> Invariant(config, valid, r.value.final)
  {
    var inv := (t: State) => Invariant(config, valid, t);
    forall c: char, t: State | inv(t) && t.rejections < MaxInvalidPasswordRejections
      ensures inv(Step(config, valid, c, t))
    {
      StepKeepsInvariant(config, valid, c, t);
    }
    LoopKeepsClosed(config, valid, complete, stream, inv, s, fuel);
  }

  /** Any property of states that every pass preserves holds of the state a
      finished run ends in. */
  lemma {:induction false} LoopKeepsClosed(config: Configuration, valid: seq<char> -> bool, complete: seq<char> -> bool, stream: nat -> Option<char>, inv: State -> bool, s: State, fuel: nat)
    requires inv(s)
    requires forall c: char, t: State :: inv(t) && t.rejections < MaxInvalidPasswordRejections ==> inv(Step(config, valid, c, t))
    ensures var r := Loop(config, valid, complete, stream, s, fuel);
            r.Some? ==> inv(r.value.final)
    decreases fuel
  {
    if s.rejections < MaxInvalidPasswordRejections && !complete(s.password) && fuel > 0
       && stream(s.draws).Some?
    {
      var c := stream(s.draws).value;
      LoopPass(config, valid, complete, stream, s, fuel);
      LoopKeepsClosed(config, valid, complete, stream, inv, Step(config, valid, c, s), fuel - 1);
    } else {
      LoopHalts(config, valid, complete, stream, s, fuel);
    }
  }

  /** In a finished run the counter never decreases, the number of requests
      grows by at most the fuel used, and every counted rejection is paid
      for by a request. */
  lemma {:induction false} LoopCounters(config: Configuration, valid: seq<char> -> bool, complete: seq<char> -> bool, stream: nat -> Option<char>, s: State, fuel: nat)
    ensures var r := Loop(config, valid, complete, stream, s, fuel);
            r.Some? ==>
              && r.value.final.rejections >= s.rejections
              && s.draws <= r.value.final.draws <= s.draws + fuel
              && r.value.final.rejections - s.rejections <= r.value.final.draws - s.draws
    decreases fuel
  {
    if s.rejections < MaxInvalidPasswordRejections && !complete(s.password) && fuel > 0
       && stream(s.draws).Some?
    {
      var t := Step(config, valid, stream(s.draws).value, s);
      LoopPass(config, valid, complete, stream, s, fuel);
      assert t.draws == s.draws + 1 && s.rejections <= t.rejections <= s.rejections + 1;
      LoopCounters(config, valid, complete, stream, t, fuel - 1);
    }
  }

  /** A finished run names its reason: the error exactly when the counter
      has reached the ceiling, and the source's failure only on a request
      the source cannot answer. */
  lemma {:induction false} LoopStops(config: Configuration, valid: seq<char> -> bool, complete: seq<char> -> bool, stream: nat -> Option<char>, s: State, fuel: nat)
    requires s.rejections <= MaxInvalidPasswordRejections
    ensures var r := Loop(config, valid, complete, stream, s, fuel);
            r.Some? ==>
              && (r.value.outcome.InvalidPasswordRejection?
                  <==> r.value.final.rejections == MaxInvalidPasswordRejections)
              && (r.value.outcome.EmptyLookup? ==> stream(r.value.final.draws).None?)
    decreases fuel
  {
    if s.rejections < MaxInvalidPasswordRejections && !complete(s.password) && fuel > 0
       && stream(s.draws).Some?
    {
      var c := stream(s.draws).value;
      var t := Step(config, valid, c, s);
      LoopPass(config, valid, complete, stream, s, fuel);
      assert t.rejections <= s.rejections + 1;
      LoopStops(config, valid, complete, stream, t, fuel - 1);
    }
  }

  /** What every finished run delivers: the invariant holds at the end, the
      counter never decreases, the requests grow by at most the fuel and by
      at least the rejections counted, the error is returned exactly when the
      counter reaches the ceiling, the source fails only on a request it
      cannot answer, and a returned password passes the completion test. */
  lemma {:induction false} LoopOutcome(config: Configuration, valid: seq<char> -> bool, complete: seq<char> -> bool, stream: nat -> Option<char>, s: State, fuel: nat)
    requires Invariant(config, valid, s)
    ensures var r := Loop(config, valid, complete, stream, s, fuel);
            r.Some? ==>
              && Invariant(config, valid, r.value.final)
              && r.value.final.rejections >= s.rejections
              && s.draws <= r.value.final.draws <= s.draws + fuel
              && r.value.final.rejections - s.rejections <= r.value.final.draws - s.draws
              && (r.value.outcome.InvalidPasswordRejection?
                  <==> r.value.final.rejections == MaxInvalidPasswordRejections)
              && (r.value.outcome.EmptyLookup? ==> stream(r.value.final.draws).None?)
              && (r.value.outcome.Generated? ==> complete(r.value.outcome.password))
  {
    LoopKeepsInvariant(config, valid, complete, stream, s, fuel);
    LoopCounters(config, valid, complete, stream, s, fuel);
    LoopStops(config, valid, complete, stream, s, fuel);
  }

  /** The answers of the configured source to the uniform draws: request k
      is answered by Next on draws(k). */
  function SourceStream(config: Configuration, draws: nat -> real): nat -> Option<char> {
    var source := BuildCharacterSource(config);
    (k: nat) => Next(source, draws(k))
  }

  /** The completion test of the configuration, as the loop applies it. */
  function CompletionTest(config: Configuration): seq<char> -> bool {
    p => Complete(config, p)
  }

  /** Generate: build the source from the configuration, then run the loop
      from the empty candidate with the counter at zero, answering request
      k with the source's character for the draw draws(k). */
  function Generate(config: Configuration, valid: seq<char> -> bool, draws: nat -> real, fuel: nat): (r: Option<Run>)
    ensures r.Some? && r.value.outcome.Generated? ==> Complete(config, r.value.outcome.password)
  {
    Loop(config, valid, CompletionTest(config), SourceStream(config, draws), State([], 0, 0), fuel)
  }

  /** Any password Generate returns is complete (long enough, every class
      minimum met), is empty or accepted by the rule, and is no longer than
      one and a half times the configured length. The error is returned
      exactly when ten rejections have been counted. */
  lemma {:induction false} GenerateOutcome(config: Configuration, valid: seq<char> -> bool, draws: nat -> real, fuel: nat)
    ensures var r := Generate(config, valid, draws, fuel);
            r.Some? && r.value.outcome.Generated? ==>
              var p := r.value.outcome.password;
              && Complete(config, p)
              && |p| >= config.length
              && (p == [] || valid(p))
              && (config.length >= 0 ==> |p| <= MaxLength(config.length))
    ensures var r := Generate(config, valid, draws, fuel);
            r.Some? ==> (r.value.outcome.InvalidPasswordRejection?
                         <==> r.value.final.rejections == MaxInvalidPasswordRejections)
  {
    LoopOutcome(config, valid, CompletionTest(config), SourceStream(config, draws), State([], 0, 0), fuel);
    var r := Generate(config, valid, draws, fuel);
    if r.Some? && r.value.outcome.Generated? {
      CompleteIff(config, r.value.outcome.password);
    }
  }

  /** A configuration the empty password already satisfies is answered at
      once, without drawing. */
  lemma {:induction false} GenerateCompleteAtOnce(config: Configuration, valid: seq<char> -> bool, draws: nat -> real, fuel: nat)
    requires Complete(config, [])
    ensures Generate(config, valid, draws, fuel) == Some(Run(Generated([]), State([], 0, 0)))
  {
  }

  /** For a draw in [0, 1), the built source answers exactly when it holds
      at least one entry: every entry weighs more than zero, so the total
      weight is zero only for an empty source. */
  lemma {:induction false} SourceAnswers(config: Configuration, u: real)
    requires 0.0 <= u < 1.0
    ensures Next(BuildCharacterSource(config), u).Some? <==> |BuildCharacterSource(config).characters| > 0
  {
    var expected := Expected(config.classes, TotalCount(config.classes));
    SourceIsContiguous(config);
    ExpectedPositive(config.classes, TotalCount(config.classes));
    PositiveSum(expected);
    NextAnswers(BuildCharacterSource(config), u);
  }

  /** A source with at least one entry answers every draw in [0, 1), so
      Generate never ends with the source's failure. */
  lemma {:induction false} SourceNeverFails(config: Configuration, valid: seq<char> -> bool, draws: nat -> real, fuel: nat)
    requires forall k: nat :: 0.0 <= draws(k) < 1.0
    requires |BuildCharacterSource(config).characters| > 0
    ensures var r := Generate(config, valid, draws, fuel);
            r.Some? ==> !r.value.outcome.EmptyLookup?
  {
    var r := Generate(config, valid, draws, fuel);
    LoopOutcome(config, valid, CompletionTest(config), SourceStream(config, draws), State([], 0, 0), fuel);
    if r.Some? {
      SourceAnswers(config, draws(r.value.final.draws));
    }
  }

  /** A source with no entry cannot answer any request: a configuration the
      empty password does not complete fails on the first request. */
  lemma {:induction false} EmptySourceFails(config: Configuration, valid: seq<char> -> bool, draws: nat -> real, fuel: nat)
    requires |BuildCharacterSource(config).characters| == 0
    requires !Complete(config, [])
    requires fuel > 0
    ensures Generate(config, valid, draws, fuel) == Some(Run(EmptyLookup, State([], 0, 0)))
  {
    NextUnfold(BuildCharacterSource(config), draws(0));
  }

  lemma {:induction false} ZeroMinimums(classes: seq<CharacterClass>)
    requires forall k :: 0 <= k < |classes| ==> classes[k].minimum == 0
    ensures TotalCount(classes) == 0
    ensures Expected(classes, 0) == []
  {
    if |classes| > 0 {
      ZeroMinimums(classes[1..]);
    }
  }

  /** When every class minimum is zero, as with no classes at all, the
      source holds no entry, and a positive length makes Generate fail on
      its first request. */
  lemma {:induction false} ZeroMinimumsFail(config: Configuration, valid: seq<char> -> bool, draws: nat -> real, fuel: nat)
    requires forall k :: 0 <= k < |config.classes| ==> config.classes[k].minimum == 0
    requires config.length > 0
    requires fuel > 0
    ensures |BuildCharacterSource(config).characters| == 0
    ensures Generate(config, valid, draws, fuel) == Some(Run(EmptyLookup, State([], 0, 0)))
  {
    ZeroMinimums(config.classes);
    EmptySourceFails(config, valid, draws, fuel);
  }

  lemma {:induction false} RejectingFrom(config: Configuration, valid: seq<char> -> bool, complete: seq<char> -> bool, stream: nat -> Option<char>, k: nat, fuel: nat)
    requires forall q :: !valid(q)
    requires forall j: nat :: stream(j).Some?
    requires !complete([])
    requires k <= MaxInvalidPasswordRejections
    requires fuel >= MaxInvalidPasswordRejections - k
    ensures Loop(config, valid, complete, stream, State([], k, k), fuel)
            == Some(Run(InvalidPasswordRejection, State([], MaxInvalidPasswordRejections, MaxInvalidPasswordRejections)))
    decreases MaxInvalidPasswordRejections - k
  {
    if k < MaxInvalidPasswordRejections {
      var s := State([], k, k);
      var c := stream(k).value;
      assert !valid(s.password + [c]);
      assert Step(config, valid, c, s) == State([], k + 1, k + 1);
      assert Loop(config, valid, complete, stream, s, fuel) == Loop(config, valid, complete, stream, State([], k + 1, k + 1), fuel - 1);
      RejectingFrom(config, valid, complete, stream, k + 1, fuel - 1);
    }
  }

  /** A rule that accepts nothing makes Generate fail after exactly ten
      draws, each of them rolled back. */
  lemma {:induction false} AlwaysRejecting(config: Configuration, valid: seq<char> -> bool, draws: nat -> real, fuel: nat)
    requires forall q :: !valid(q)
    requires !Complete(config, [])
    requires forall k: nat :: 0.0 <= draws(k) < 1.0
    requires |BuildCharacterSource(config).characters| > 0
    requires fuel >= MaxInvalidPasswordRejections
    ensures Generate(config, valid, draws, fuel)
            == Some(Run(InvalidPasswordRejection, State([], MaxInvalidPasswordRejections, MaxInvalidPasswordRejections)))
  {
    var stream := SourceStream(config, draws);
    forall j: nat
      ensures stream(j).Some?
    {
      SourceAnswers(config, draws(j));
    }
    RejectingFrom(config, valid, CompletionTest(config), stream, 0, fuel);
  }

  /** More fuel does not change a finished run: fuel only bounds how long
      the loop is followed. */
  lemma {:induction false} FuelMonotone(config: Configuration, valid: seq<char> -> bool, complete: seq<char> -> bool, stream: nat -> Option<char>, s: State, fuel: nat, more: nat)
    requires Loop(config, valid, complete, stream, s, fuel).Some?
    requires more >= fuel
    ensures Loop(config, valid, complete, stream, s, more) == Loop(config, valid, complete, stream, s, fuel)
    decreases fuel
  {
    if s.rejections < MaxInvalidPasswordRejections && !complete(s.password) && stream(s.draws).Some? {
      FuelMonotone(config, valid, complete, stream, Step(config, valid, stream(s.draws).value, s), fuel - 1, more - 1);
    }
  }

  /** The password is made only of drawn characters: if every answered
      request lies in `allowed`, so does every character of a returned
      password. */
  lemma {:induction false} CharactersFromStream(config: Configuration, valid: seq<char> -> bool, complete: seq<char> -> bool, stream: nat -> Option<char>,
                                                 allowed: set<char>, s: State, fuel: nat)
    requires forall k: nat :: stream(k).Some? ==> stream(k).value in allowed
    requires forall i :: 0 <= i < |s.password| ==> s.password[i] in allowed
    ensures var r := Loop(config, valid, complete, stream, s, fuel);
            r.Some? && r.value.outcome.Generated? ==>
              forall i :: 0 <= i < |r.value.outcome.password| ==> r.value.outcome.password[i] in allowed
    decreases fuel
  {
    if s.rejections < MaxInvalidPasswordRejections && !complete(s.password) && fuel > 0
       && stream(s.draws).Some?
    {
      var c := stream(s.draws).value;
      LoopPass(config, valid, complete, stream, s, fuel);
      StepCharacters(config, valid, c, s, allowed);
      CharactersFromStream(config, valid, complete, stream, allowed, Step(config, valid, c, s), fuel - 1);
    }
  }

  /** A pass adds at most the drawn character to the candidate. */
  lemma {:induction false} StepCharacters(config: Configuration, valid: seq<char> -> bool, c: char, s: State, allowed: set<char>)
    requires c in allowed
    requires forall i :: 0 <= i < |s.password| ==> s.password[i] in allowed
    ensures var t := Step(config, valid, c, s);
            forall i :: 0 <= i < |t.password| ==> t.password[i] in allowed
  {
    var t := Step(config, valid, c, s);
    if t.password == s.password + [c] {
      assert forall i :: 0 <= i < |s.password| ==> t.password[i] == s.password[i];
    }
  }

  /** The characters of the classes with positive probability. */
  function PositiveClassCharacters(config: Configuration): set<char> {
    set k, c | 0 <= k < |config.classes|
                 && Probability(config.classes[k].minimum, TotalCount(config.classes)) > 0.0
                 && c in config.classes[k].characters
      :: c
  }

  /** Every character of a returned password belongs to a class with
      positive probability: the source returns nothing else. */
  lemma {:induction false} GeneratedFromSource(config: Configuration, valid: seq<char> -> bool, draws: nat -> real, fuel: nat)
    ensures var r := Generate(config, valid, draws, fuel);
            r.Some? && r.value.outcome.Generated? ==>
              forall i :: 0 <= i < |r.value.outcome.password| ==>
                r.value.outcome.password[i] in PositiveClassCharacters(config)
  {
    var source := BuildCharacterSource(config);
    var stream := SourceStream(config, draws);
    forall k: nat | stream(k).Some?
      ensures stream(k).value in PositiveClassCharacters(config)
    {
      var c := stream(k).value;
      assert c == Next(source, draws(k)).value;
      assert c in source.characters;
      var i :| 0 <= i < |source.characters| && source.characters[i] == c;
      SourceCharacters(config, i);
    }
    CharactersFromStream(config, valid, CompletionTest(config), stream, PositiveClassCharacters(config), State([], 0, 0), fuel);
  }

  // ---------------------------------------------------------------------
  // The rules of the generator's tests
  // ---------------------------------------------------------------------

  /** Length 8; at least three letters, three digits and one URL-safe
      special character. */
  function ShortRule(): Configuration {
    Configuration(8, [
      CharacterClass(LowercaseCharacters + UppercaseCharacters, 3),
      CharacterClass(DigitCharacters, 3),
      CharacterClass(UrlSafeSpecialCharacters, 1)])
  }

  /** Under the short rule every returned password has between 8 and 12
      characters. */
  lemma {:induction false} ShortRuleLengths(valid: seq<char> -> bool, draws: nat -> real, fuel: nat)
    ensures var r := Generate(ShortRule(), valid, draws, fuel);
            r.Some? && r.value.outcome.Generated? ==> 8 <= |r.value.outcome.password| <= 12
  {
    GenerateOutcome(ShortRule(), valid, draws, fuel);
    assert MaxLength(8) == 12;
  }

  /** Under the short rule letters and digits are each drawn with
      probability 3/7 and the special characters with probability 1/7; the
      source's weights add up to one, so it holds entries and answers every
      draw. */
  lemma {:induction false} ShortRuleSource()
    ensures var t := TotalCount(ShortRule().classes);
            Probability(3, t) == 3.0 / 7.0 && Probability(1, t) == 1.0 / 7.0
    ensures BuildCharacterSource(ShortRule()).totalWeight == 1.0
    ensures |BuildCharacterSource(ShortRule()).characters| > 0
  {
    var classes := ShortRule().classes;
    assert TotalCount(classes) == 7;
    SourceMassIsOne(ShortRule());
  }

  /** Length 8 and at least eight letters, with a rule that rejects every
      password: Generate answers ErrInvalidPasswordRejection. */
  lemma {:induction false} BrokenRuleFails(draws: nat -> real, fuel: nat)
    requires forall k: nat :: 0.0 <= draws(k) < 1.0
    requires fuel >= MaxInvalidPasswordRejections
    ensures var config := Configuration(8, [CharacterClass(LowercaseCharacters + UppercaseCharacters, 8)]);
            Generate(config, q => false, draws, fuel)
            == Some(Run(InvalidPasswordRejection, State([], MaxInvalidPasswordRejections, MaxInvalidPasswordRejections)))
  {
    var config := Configuration(8, [CharacterClass(LowercaseCharacters + UppercaseCharacters, 8)]);
    assert TotalCount(config.classes) == 8;
    SourceMassIsOne(config);
    AlwaysRejecting(config, q => false, draws, fuel);
  }
}
