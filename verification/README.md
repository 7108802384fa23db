# can-haz-password: weighted character source and password generator

This project models the two pure pieces of the can-haz-password library and
proves properties of them in Dafny.

- **Weighted random set** (`weighted.dfy`, module `Weighted`). Construction
  turns a list of (character, weight) entries into a set of intervals along an
  axis that starts at zero. Entry i gets the half-open interval
  `[S_i, S_i + w_i)`, where `S_i` is the sum of the weights before it. The set
  also keeps the total weight `T`. `Next` takes a uniform draw `u` in `[0, 1)`,
  scales it to `u * T`, and returns the character of the interval that holds
  that point, or `None` where the lookup finds nothing and the source would
  fail. The interval-tree library that the source queries is replaced by two
  lookups over the interval sequence:
  - `Including`, a linear first-match search;
  - `Locate`, a binary search over the boundaries.

  The two are proved to agree.
- **Password generator** (`password.dfy`, module `Password`). It covers:
  - the occurrence counter;
  - the completion test;
  - the construction of the weighted character source from a configuration's
    character classes;
  - the rejection-sampling loop `Generate`.

  A rule is modelled as a `Configuration` value plus a pure predicate
  `valid: seq<char> -> bool`. The loop (`Loop`) reads characters from a
  stream `stream: nat -> Option<char>`: `stream(k)` answers the k-th request.
  `Generate` builds the source from the configuration and answers request k
  with `Next` of that source on the k-th uniform draw `draws(k)`. The loop
  runs on fuel, and `None` means the fuel ran out.
- `options.dfy` (module `Options`) holds the optional value the other two
  modules use.

Weights are exact reals in place of `float64`. The length cap
`int(float64(Length) * 1.5)` is written out as one and a half times the
length, truncated toward zero.

The code does not reject a set whose total weight is zero. It builds such a
set, and its `Next` then indexes an empty lookup result, which panics in Go.
`Weighted.Next` models that failure as `None`, and `Generate` reports it as
the outcome `EmptyLookup`. This happens whenever the built source has no
entry and the empty password is not complete: for example, every class
minimum is zero (or there are no classes) and the configured length is
positive, or every class with a positive minimum has no characters. `Password.EmptySourceFails` and
`Password.ZeroMinimumsFail` state it. Nor does the code reject a malformed
configuration: it builds a source for it anyway.

For the short rule of the generator's tests, the test comments
(password/generator_test.go:83-100) expect letters and digits in proportion
3/8 and special characters in proportion 1/8. With minimums 3, 3 and 1 the
total count is 7, so the exact class probabilities are 3/7, 3/7 and 1/7.
`Password.ShortRuleSource` states those exact values.

## Model

| member | source | states |
|---|---|---|
| Weighted.Accumulate | rand/weighted.go:60-64 | From entry i on, with the running total equal to the sum of the earlier weights, entry i+k gets `[S_{i+k}, S_{i+k} + w_{i+k})` and its own character, and the final total is the sum of all weights |
| Weighted.NewWeightedRandomSet | rand/weighted.go:55-71 | Entry i occupies `[S_i, S_i + w_i)`, where `S_i` is the sum of the weights of entries 0..i-1; `characters[i]` is entry i's character; `totalWeight` is the sum of all weights |
| Weighted.ConstructionIsContiguous | rand/weighted.go:29-32 | With non-negative weights, the constructed intervals never run backwards, each ends where the next begins, the first starts at 0, and the last ends at the total weight |
| Weighted.Ordered | rand/weighted.go:31-32 | On contiguous intervals, an earlier interval ends no later than any later one begins |
| Weighted.Bounded | rand/weighted.go:30-32 | On contiguous intervals, every interval lies within `[0, T]` |
| Weighted.Disjoint | rand/weighted.go:31-32 | Two distinct intervals share no point |
| Weighted.ExactCover | rand/weighted.go:32-33 | A point lies in some interval if and only if it lies in `[0, T)`: no gaps and nothing outside |
| Weighted.UniqueContainment | rand/weighted.go:32-33 | Every point of `[0, T)` lies in exactly one interval |
| Weighted.IncludingIsFirstMatch | rand/weighted.go:79-80 | The linear lookup returns an interval that contains the point, with no earlier interval containing it; it returns nothing exactly when no interval contains the point |
| Weighted.IncludingIsUnique | rand/weighted.go:79-80 | On contiguous intervals, the lookup answers i exactly when interval i contains the point, so its single result is the only one |
| Weighted.Locate | rand/weighted.go:79-80 | For a point in `[0, T)`, the binary search finds an interval that contains it, and that interval is the one the linear lookup returns |
| Weighted.ScaledDraw | rand/weighted.go:76-77 | A draw `u` in `[0, 1)` scaled by a positive total lands in `[0, T)` |
| Weighted.ScaledInterval | rand/weighted.go:33-35 | `u * T` lies in `[a, b)` exactly when `u` lies in `[a/T, b/T)`, and that range has width `(b - a)/T` |
| Weighted.Select | rand/weighted.go:76-83 | On a well-formed set with positive total, a draw selects exactly one interval: the one that holds `u * T`, whose character is the answer of the lookup. That interval is nonempty, so an entry of weight zero is never selected |
| Weighted.CharacterAt | rand/weighted.go:80-83 | Any character the lookup of a point answers is one of the set's characters |
| Weighted.CharacterAtFails | rand/weighted.go:79-83 | On a well-formed set, the lookup of a point finds nothing, where the source would index an empty result, exactly when the point lies outside `[0, T)` |
| Weighted.CharacterAtAnswers | rand/weighted.go:79-83 | On a well-formed set, a point of `[0, T)` is answered with the character of a nonempty interval holding it |
| Weighted.Next | rand/weighted.go:75-84 | Any character `Next` returns is one of the set's characters |
| Weighted.NextAnswers | rand/weighted.go:75-84 | On a well-formed set and a draw in `[0, 1)`, `Next` fails exactly when the total weight is zero. Otherwise it returns the character of a nonempty interval that holds `u * T` |
| Weighted.LookupOfConstruction | rand/weighted.go:60-61 | In a set constructed from non-negative weights, the lookup of x answers entry i exactly when `S_i <= x < S_i + w_i` |
| Weighted.SelectionInterval | rand/weighted.go:33-35 | In a constructed set with positive total, the draws whose scaled point `u * T` falls in entry i's interval are exactly those in `[S_i/T, (S_i + w_i)/T)`, an interval of width `w_i/T`. With non-negative weights, that interval is the one the lookup answers (`LookupOfConstruction`) |
| Weighted.CharacterSelectionWidth | rand/weighted.go:33-35 | The intervals tagged with a character have total width equal to the total weight of that character's entries |
| Weighted.PermutationInvariant | rand/weighted.go:31 | Reordering the entries leaves the total weight and each character's weight unchanged, and with them each character's selection probability |
| Weighted.TriangleSelectionWidths | rand/weighted_test.go:31-78 | For the triangle weights 1,2,3,4,5,4,3,2,1 the total is 25, and each entry's exact selection width is the frequency the test expects (0.04 … 0.2 … 0.04) |
| Password.Frequencies | password/generator.go:179-185 | The frequency table has a key for a character exactly when the character occurs in the password, and the value is its number of occurrences |
| Password.CountIn | password/generator.go:187-192 | The total is at least the table value of every class character present in the table, and it is zero when no class character is present |
| Password.OccurrencesOfCharacters | password/generator.go:178-195 | The occurrence count equals the reference count: the sum, over the class characters counted with multiplicity, of each character's number of occurrences in the password |
| Password.DoubleCounting | password/generator.go:187-192 | Summing over the class characters gives the same number as summing, over the password, each character's multiplicity in the class |
| Password.OccurrencesOfDistinctClass | password/generator.go:178-195 | For a class without repeated characters, the count is the number of password positions holding a class character, so it is at most the password length |
| Password.MinimumsMetIff | password/generator.go:124-128 | The class loop succeeds exactly when every class's occurrence count reaches its minimum |
| Password.CompleteIff | password/generator.go:119-131 | A password is complete exactly when its length reaches the configured length and every class minimum is met |
| Password.TotalCount | password/generator.go:137-140 | With no negative minimum, every class minimum lies between zero and totalCount, so no class probability exceeds one |
| Password.Probability | password/generator.go:148 | For a positive total, the probability times the total is the class minimum, and the probability is positive exactly when the minimum is |
| Password.AppendCharacters | password/generator.go:163-170 | From character i on, the loop appends one entry per remaining class character, in order, each weighted the probability divided by the class size |
| Password.AddCharactersToWeightedRandomSet | password/generator.go:158-174 | A class with positive probability appends one entry per character, in order, with equal shares of the probability; any other class appends nothing |
| Password.ClassesToEntries | password/generator.go:145-151 | The class loop keeps the entries it is given and appends after them exactly the reference entries: those of the positive-probability classes, in class order and then character order |
| Password.BuildCharacterSource | password/generator.go:135-154 | The built source holds the characters of the reference entries, in order, and its total weight is the sum of their weights |
| Password.SourceEntriesInOrder | password/generator.go:135-154 | The source's entries are those of the positive-probability classes, in class order and then in character order |
| Password.ExpectedFromPositiveClasses | password/generator.go:145-151 | Every entry comes from a class with positive probability, carries one of its characters, and weighs `(Minimum/totalCount)/len(Characters)` |
| Password.ExpectedPositive | password/generator.go:160-169 | Every emitted entry has positive weight |
| Password.ClassMass | password/generator.go:163-169 | The entries of a nonempty class add up to the class probability |
| Password.ExpectedMass | password/generator.go:145-151 | The source's weights add up to the sum of the probabilities of the positive-probability classes that have characters |
| Password.MassIsShare | password/generator.go:137-148 | With non-negative minimums, and characters in every class with a positive minimum, those probabilities times totalCount add up to totalCount |
| Password.SourceMassIsOne | password/generator.go:137-153 | With non-negative minimums, a positive totalCount, and characters in every class with a positive minimum, the source's total weight is exactly 1 |
| Password.SourceIsContiguous | password/generator.go:153 | The built source satisfies the weighted set's interval invariant, so its lookup is well defined |
| Password.SourceCharacters | password/generator.go:145-153 | Every character of the built source belongs to a class with positive probability |
| Password.SourceAnswers | password/generator.go:135-154 | For a draw in `[0, 1)`, the built source answers exactly when it holds at least one entry |
| Password.MaxLength | password/generator.go:109 | The cap is one and a half times the length, truncated toward zero |
| Password.Step | password/generator.go:95-111 | One pass draws one character. If the rule rejects the candidate, the candidate is rolled back exactly to what it was and the counter rises by one. Otherwise the counter is unchanged, and the candidate is kept, or emptied when it exceeds the cap |
| Password.StepKeepsInvariant | password/generator.go:95-111 | A pass below the ceiling keeps the candidate empty or accepted and within the cap, and keeps the counter at most 10 and at most the number of draws |
| Password.Loop | password/generator.go:90-114 | A returned password is the final candidate and passes the completion test |
| Password.LoopKeepsClosed | password/generator.go:90-112 | Any property of the loop state that every pass below the ceiling preserves holds of the state a finished loop stops in |
| Password.LoopKeepsInvariant | password/generator.go:90-112 | A finished loop stops in a state where the candidate is empty or accepted by the rule and within the cap, and the counter is at most 10 and at most the number of draws |
| Password.LoopCounters | password/generator.go:90-112 | In a finished loop the counter never decreases, the number of requests grows by at most the fuel used, and the counter grows by no more than the number of requests |
| Password.LoopStops | password/generator.go:90-114 | A finished loop returns the error exactly when the counter has reached 10, and fails on the source only at a request the source cannot answer |
| Password.LoopOutcome | password/generator.go:90-114 | A finished loop keeps the invariant: the candidate is empty or accepted by the rule and within the cap, and the counter is at most 10 and at most the number of draws. The counter never decreases and grows by no more than the requests made. The error is returned exactly when the counter reaches 10, and the source fails only on a request it cannot answer. A returned password passes the completion test |
| Password.Generate | password/generator.go:83-115 | A returned password is complete for the configuration |
| Password.GenerateOutcome | password/generator.go:83-115 | A returned password is complete, empty or accepted by the rule, and, for a non-negative length, no longer than the cap. The error comes exactly when ten rejections have been counted |
| Password.GenerateCompleteAtOnce | password/generator.go:91-93 | If the empty password is already complete, Generate returns it without drawing |
| Password.SourceNeverFails | password/generator.go:90-114 | When every draw lies in `[0, 1)` and the source holds an entry, Generate never ends in the source's failure |
| Password.EmptySourceFails | password/generator.go:90-96 | When the source holds no entry and the empty password is not complete, Generate fails on its first request, where the source would panic |
| Password.ZeroMinimumsFail | password/generator.go:137-151 | When every class minimum is zero, the source holds no entry, and with a positive length Generate fails on its first request |
| Password.RejectingFrom | password/generator.go:99-104 | Under a rule that accepts nothing, each pass rolls back and counts one rejection, until the counter reaches 10 with the candidate empty |
| Password.AlwaysRejecting | password/generator.go:85-114 | Under a rule that accepts nothing, and a configuration that the empty password does not complete, Generate fails with the rejection error after exactly ten draws |
| Password.FuelMonotone | password/generator.go:90-112 | A finished run gives the same result with more fuel: fuel only bounds how far the loop is followed |
| Password.CharactersFromStream | password/generator.go:96-101 | A returned password is made only of drawn characters |
| Password.GeneratedFromSource | password/generator.go:91-96 | Every character of a returned password belongs to a class with positive probability, because the source returns nothing else |
| Password.ShortRuleLengths | password/generator_test.go:62-63 | Under the tests' short rule, every returned password has between 8 and 12 characters |
| Password.ShortRuleSource | password/generator_test.go:82-100 | Under the tests' short rule, letters and digits are drawn with probability 3/7 and special characters with 1/7; the weights add up to one, so the source holds entries |
| Password.BrokenRuleFails | password/generator_test.go:121-128 | Under the tests' rule that rejects everything, Generate returns the rejection error |

## Left out

- rand/source.go, the cryptographic random source, is not modelled. It does I/O through `crypto/rand` and fails on read errors. A draw is a parameter `u` with `0 <= u < 1`, and Generate takes the sequence of draws `draws`.
- The interval-tree library is not visible. It is replaced by `Including` and `Locate` over the interval sequence, which use the half-open intervals the source's doc comment describes.
- `float64` rounding is not modelled: weights and probabilities are exact reals. The length cap is written with exact integer arithmetic, which agrees with the float computation for all lengths of magnitude below 2^51.
- Go's `int` is 64-bit, but the model's integers are unbounded. Overflow in totalCount or in the length cap is not modelled.
- Password.Probability: when totalCount is 0, the source divides by zero and gets NaN or an infinity. The model gives probability 0, so such a class adds no entries.
- Weighted.NextAnswers: it requires the set's interval invariant, and that invariant is proved only for non-negative weights. The source accepts negative weights and passes reversed intervals to the tree library, whose behaviour on them is not visible.
- Password.SourceMassIsOne: the weights add up to one only when every class with a positive minimum has at least one character, so the lemma requires that too. A class with a positive minimum and no characters adds no entries, and its share of the probability is lost. `Next` still works, because it scales by whatever the total is.
- Weighted.Next: the random source field of the set is not modelled; the draw is a parameter.
- Password.Generate: the Go panic on an empty lookup is not modelled as a panic. It becomes the outcome `EmptyLookup`, which ends the run.
- `NewGenerator`, the `Generator` struct and the `Rule` interface are not modelled as objects. `Generate` takes the configuration and the validity predicate directly, with the source built from the same configuration. This assumes the rule's configuration is the same on every call: the source reads it once at construction and again in each `Generate`.
- Password.Loop: it runs on fuel and returns `None` when the fuel runs out. The source can loop forever when every restart is followed by more restarts, because restarts never count as rejections. The loop takes its completion test as a parameter; `Generate` passes the configuration's `Complete`.
- The `SpecialCharacters` constant is declared but not used in any property.
- cmd/main.go is not modelled. It parses flags, prints, and defines a demo rule.
- The statistical Monte-Carlo assertions of the tests are replaced by the exact selection widths.
- `string` and `[]rune` conversions are not modelled; passwords are `seq<char>`.
- Concurrent use of the random source is not modelled.
