# ASDKPlaceholderTest Foundation extensions, modelled in Dafny

ASDKPlaceholderTest is a small demonstration app built on AsyncDisplayKit. It shows one table row with a loading spinner and an optional text label. Its only self-contained logic is a file of convenience extensions to Swift and Foundation types, `FoundationExtensions.swift`. This project models those extensions and proves what each one promises:

- the conditional assignment operator `=?`, in both its plain and its optional form;
- the conversions between `NSRange` and `Range<Int>`;
- the `NSIndexSet` helpers;
- the `Array` helpers `get`, `filterByType`, `setOrAppend`, `attemptMap`, `unique` and `nonEmptyArray`, and the generic `+=`;
- the `String` helpers `nonEmptyString` and `camelCase`.

Modules, one file each:

- `Wrappers` (`wrappers.dfy`): `Option`, which stands for Swift's `Optional`.
- `ConditionalAssignment` (`conditional_assignment.dfy`): `=?`. A stored left-hand side without observers is an object with a `value` field. A ghost `writes` counter records the stores, so the model can show when no write happens. A property with observers or a computed setter is `ObservedProperty`. Swift passes it `inout` by copy-in and copy-out, so its setter runs on every call.
- `Ranges` (`ranges.dfy`): `NSRange.range` and `NSRange(range:)` over Swift's 64-bit `Int`.
- `IndexSets` (`index_sets.dfy`): index sets are sets of integers.
- `ArrayExtensions` (`array_extensions.dfy`): arrays are sequences. An array held in a `var` and mutated in place is the class `MutableArray`, whose `elements` field `setOrAppend` and `+=` reassign.
- `StringExtensions` (`string_extensions.dfy`): strings are sequences of characters.

Closures and library calls whose behaviour lives outside this file become parameters:

- `attemptMap`'s `f` and `unique`'s key function are pure functions.
- `filterByType`'s dynamic cast `element as? Result` is a function `cast: T -> Option<R>`.
- Foundation's `capitalizedString` is a function `capitalize: string -> string`.

Where Swift traps at run time, the trap is a precondition the caller must meet:

- an array subscript out of bounds;
- a `Range` whose end lies before its start;
- an `Int` overflow.

## Model

| member | source | states |
|---|---|---|
| `ConditionalAssignment.Variable.AssignIfChanged` | ASDKPlaceholderTest/FoundationExtensions.swift:31-35 | for a stored variable without observers: afterwards it holds `rvalue`; if it already held `rvalue`, nothing is written and the object is unchanged; otherwise exactly one write is made |
| `ConditionalAssignment.OptionalVariable.AssignIfChanged` | ASDKPlaceholderTest/FoundationExtensions.swift:38-42 | the same for an optional stored variable compared with Swift's optional `!=`: it ends holding `rvalue`, and it is written once exactly when the old optional differed |
| `ConditionalAssignment.ObservedProperty.AssignIfChangedInout` | ASDKPlaceholderTest/FoundationExtensions.swift:31-35 | on a property with observers or a computed setter, the property ends holding `rvalue`, and the copy-out runs the setter and its observers exactly once, even when the value was already `rvalue` |
| `ConditionalAssignment.ObservedProperty.AssignIfChangedExplicitly` | ASDKPlaceholderTest/FoundationExtensions.swift:15-22 | the documented expansion `if frame.size != newSize { frame.size = newSize }`: the property ends holding `rvalue`, and the setter runs only when the value differed |
| `ConditionalAssignment.ObservedRedundantAssignment` | ASDKPlaceholderTest/FoundationExtensions.swift:15-35 | on a property already holding `true`, `=? true` runs the observers once and the documented expansion runs none |
| `ConditionalAssignment.OptionalEqualsIsEquality` | ASDKPlaceholderTest/FoundationExtensions.swift:39 | Swift's `==` on optionals (nil equals nil, nil never equals a value, values compared by `==`) holds exactly when the two optionals are equal |
| `Ranges.RangeOf` | ASDKPlaceholderTest/FoundationExtensions.swift:45-47 | for a non-negative length whose end fits in `Int`, the range is well formed, starts at `location` and spans `length` indices |
| `Ranges.NSRangeOf` | ASDKPlaceholderTest/FoundationExtensions.swift:49-52 | the `NSRange` of a range starts at its start, has a non-negative length and ends at its end |
| `Ranges.RangeRoundTrip` | ASDKPlaceholderTest/FoundationExtensions.swift:45-52 | `NSRange(range: r).range == r` for every range whose length fits in `Int` |
| `Ranges.NSRangeRoundTrip` | ASDKPlaceholderTest/FoundationExtensions.swift:45-52 | `NSRange(range: n.range) == n` for every `NSRange` of non-negative length whose end fits in `Int` |
| `Ranges.RangeOfCovers` | ASDKPlaceholderTest/FoundationExtensions.swift:45-47 | `n.range` contains index `i` exactly when `location <= i < location + length` |
| `IndexSets.IndexSetWithInts` | ASDKPlaceholderTest/FoundationExtensions.swift:62-68 | the built set contains exactly the integers of the sequence |
| `IndexSets.IntersectsIndexSet` | ASDKPlaceholderTest/FoundationExtensions.swift:56-60 | the result is true exactly when `indexSet` holds an index that `self` lacks, i.e. when `indexSet` is not a subset of `self` |
| `IndexSets.SharesIndex` | ASDKPlaceholderTest/FoundationExtensions.swift:56 | the test the name promises: true exactly when the two sets share an index |
| `IndexSets.IntersectsIndexSetMisreports` | ASDKPlaceholderTest/FoundationExtensions.swift:56-60 | concrete sets on which the computed test and the promised one disagree, in both directions |
| `ArrayExtensions.Get` | ASDKPlaceholderTest/FoundationExtensions.swift:74-80 | `get(i)` is a value exactly when `0 <= i < count`, negative `i` included, and that value is the element at `i` |
| `ArrayExtensions.FilterByType` | ASDKPlaceholderTest/FoundationExtensions.swift:82-90 | the result is the successful casts of the elements, in order |
| `ArrayExtensions.CastsAppend` | ASDKPlaceholderTest/FoundationExtensions.swift:82-90 | filtering a concatenation gives the filtered parts concatenated, so order is kept |
| `ArrayExtensions.CastsMembers` | ASDKPlaceholderTest/FoundationExtensions.swift:82-90 | the result is never longer than the input, and holds a value exactly when some element casts to it |
| `ArrayExtensions.SetOrAppended` | ASDKPlaceholderTest/FoundationExtensions.swift:92-99 | with `index == count` the array grows by one, otherwise its length is unchanged; `value` is at `index` and every other index is untouched |
| `ArrayExtensions.GetAfterSetOrAppend` | ASDKPlaceholderTest/FoundationExtensions.swift:93-99 | after `setOrAppend(index, value)`, `get(index)` is `value` and `get` at every other index is what it was |
| `ArrayExtensions.MutableArray.SetOrAppend` | ASDKPlaceholderTest/FoundationExtensions.swift:93-99 | the stored array becomes `old + [value]` when `index == count`, and `old[index := value]` otherwise |
| `ArrayExtensions.MutableArray.Append` | ASDKPlaceholderTest/FoundationExtensions.swift:134-136 | `+=` appends exactly one element at the end |
| `ArrayExtensions.GetAfterAppend` | ASDKPlaceholderTest/FoundationExtensions.swift:134-136 | after `a += x`, `get(count)` is `x` and `get` at every other index is what it was |
| `ArrayExtensions.AttemptMap` | ASDKPlaceholderTest/FoundationExtensions.swift:101-112 | nil exactly when some element maps to nil; otherwise same length, with `result[k]` the value `f(a[k])` for every `k` |
| `ArrayExtensions.Unique` | ASDKPlaceholderTest/FoundationExtensions.swift:114-126 | the filter threading a `seen` set keeps an element exactly when its key has not been seen before it |
| `ArrayExtensions.UniqueIsDistinctSubsequence` | ASDKPlaceholderTest/FoundationExtensions.swift:114-126 | the result is a subsequence of the input and no two of its elements share a key |
| `ArrayExtensions.UniqueKeepsFirstOccurrences` | ASDKPlaceholderTest/FoundationExtensions.swift:114-126 | the result has the same keys as the input, and it contains the first occurrence of every key |
| `ArrayExtensions.UniqueIsFirstOccurrencesInOrder` | ASDKPlaceholderTest/FoundationExtensions.swift:114-126 | the result is exactly the elements that are the first of their key in the input, in the order of their positions |
| `ArrayExtensions.UniqueIdempotent` | ASDKPlaceholderTest/FoundationExtensions.swift:114-126 | applying `unique` twice equals applying it once |
| `ArrayExtensions.NonEmptyArray` | ASDKPlaceholderTest/FoundationExtensions.swift:128-130 | nil exactly when the array is empty, otherwise the array unchanged |
| `StringExtensions.NonEmptyString` | ASDKPlaceholderTest/FoundationExtensions.swift:161-163 | nil exactly when the string is empty, otherwise the string unchanged |
| `StringExtensions.Components` | ASDKPlaceholderTest/FoundationExtensions.swift:181 | splitting at `_` gives at least one piece, and no piece contains `_` |
| `StringExtensions.JoinComponentsOfString` | ASDKPlaceholderTest/FoundationExtensions.swift:181 | joining the pieces with `_` gives the string back |
| `StringExtensions.ComponentsOfJoin` | ASDKPlaceholderTest/FoundationExtensions.swift:181 | splitting a `_`-join of underscore-free pieces gives the pieces back |
| `StringExtensions.CamelCase` | ASDKPlaceholderTest/FoundationExtensions.swift:179-191 | the loop builds the first piece followed by every later piece capitalized |
| `StringExtensions.CamelCaseWithoutUnderscore` | ASDKPlaceholderTest/FoundationExtensions.swift:179-191 | a string with no `_` is its own camel case |
| `StringExtensions.CamelCaseHasNoUnderscore` | ASDKPlaceholderTest/FoundationExtensions.swift:179-191 | if capitalizing never introduces `_`, the camel case contains no `_` |

## Left out

- The thread-affinity dispatcher `performUpdate`, `performUpdateAndWait` and `performSelectorRespectingAffinity` (ASDKPlaceholderTest/ASDisplayNodeExtensions.swift:21-68). Its meaning lies in GCD main-queue ordering and weak-reference expiry, which are not part of this model.
- `configureLayoutForTextAttributes` and `optimize` (ASDKPlaceholderTest/ASDisplayNodeExtensions.swift). They set UIKit node properties from floating-point font metrics.
- `ActivityIndicatorNode`, the placeholder nodes, `ViewController` and `GlobalStyle`. These are UI wrappers, table glue and style constants.
- `emailAddress`. It runs an `NSRegularExpression`, which is a foreign regex engine.
- `attributed`, `attributedMutable`, the attributed-string `+=` and `==`, and the attributed-string `range`. They wrap `NSAttributedString`.
- `String.range`. It measures the string's UTF-16 length.
- `Box` and `assertNonNil`. They have no behaviour to state.
- `NSRange ==`. It wraps `NSEqualRanges`; `NSRange` is a datatype here, so it is structural equality.
- Foundation's `capitalizedString` depends on locale and word boundaries. It is the parameter `capitalize`, and only what `camelCase` does around it is modelled.
- `IndexSets.IndexSetWithInts`: indices outside the range `NSIndexSet` accepts (0 up to `NSNotFound - 1`) are not modelled. Index sets are sets of any integers.
- Closures passed to `attemptMap`, `unique` and `filterByType` are pure functions here. Side effects and the order of the calls are not modelled; the loops still visit the elements in order and `attemptMap` stops at the first nil.
- ConditionalAssignment.Variable.AssignIfChanged: the location is a stored variable without observers or a computed setter. Swift's copy-out to such properties is modelled only by `ConditionalAssignment.ObservedProperty`. Swift's `Equatable` `==` is taken as identity, so a NaN that differs from itself and `isEqual:`-style equality between distinct objects are not modelled.
- ConditionalAssignment.OptionalVariable.AssignIfChanged: as for `Variable.AssignIfChanged`, the location is a stored variable without observers, and `==` on the wrapped values is identity. With `isEqual:`-style equality Swift keeps the old object when the two compare equal, which this model does not distinguish.
- ArrayExtensions.Unique: the `Hashable` keys are compared by identity. Keys that are equal by `==` without being identical, and NaN keys, are not modelled.
- `Int` is the 64-bit integer of the 64-bit platforms. The 32-bit `Int` of older devices is not modelled.

## Findings

| source | as written | input that shows it | evidently intended | confidence | as-written member | corrected member |
|---|---|---|---|---|---|---|
| ASDKPlaceholderTest/FoundationExtensions.swift:11-35 | `=?` takes its left-hand side `inout`, and Swift copies an `inout` property back through its setter when the operator returns, even when the body skipped the store | a property with a `didSet` observer that already holds `true`, then `property =? true`: the observer runs once | the setter and observers run only when the value differs, as the documented `if frame.size != newSize { … }` expansion does | medium, not executed | `ConditionalAssignment.ObservedProperty.AssignIfChangedInout`, `ConditionalAssignment.ObservedRedundantAssignment` | `ConditionalAssignment.ObservedProperty.AssignIfChangedExplicitly` |
| ASDKPlaceholderTest/FoundationExtensions.swift:56-60 | `intersectsIndexSet` removes `self`'s indexes from a copy of `indexSet` and reports whether anything remains, so it tests "`indexSet` is not a subset of `self`" | `{1, 2}.intersectsIndexSet({1})` is false though both hold 1; `{1}.intersectsIndexSet({2})` is true though they share nothing | true exactly when the two sets share an index | medium, not executed; nothing in the app calls it | `IndexSets.IntersectsIndexSet`, `IndexSets.IntersectsIndexSetMisreports` | `IndexSets.SharesIndex` |
