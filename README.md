# A verified model of a small underscore-style library

`src/underscore_tests.js` is a hand-written version of the classic
underscore.js helpers. It has collection functions over arrays and plain
objects (`first`, `last`, `each`, `indexOf`, `filter`, `reject`, `uniq`,
`map`, `pluck`, `reduce`, `contains`, `every`, `some`). It also has object
merging (`extend`, `defaults`), a run-once wrapper (`once`), reshaping
(`shuffle`, `zip`, `flatten`) and set algebra (`intersection`,
`difference`). This project models these functions in Dafny, with the
quirks the code has, and proves what each one computes.

The model is built from the following parts.

- **Values.** JavaScript values are a datatype `Value`, defined in `values.dfy`:
  - `undefined`, `null`, booleans, integers, strings, object references and arrays;
  - a `Truthy` predicate for JavaScript's falsy values;
  - Dafny's `==` standing for `===`.
- **Arrays and objects changed in place.** The code changes some arrays and
  objects in place: `uniq`, `shuffle` and `difference` splice or overwrite their
  input, and `extend` and `defaults` assign into `obj`. In the model these are
  objects of the classes `JsArray` (a `seq` field) and `JsObject` (a `map`
  field). The methods that change them say so with `modifies`.
- **Three encodings of an object.** Each operation sees a plain object in the
  form its code needs:
  - `pluck` only reads a property of an array element, so elements are
    `ObjRef` references into a `Heap` of property maps;
  - `each` and `contains` enumerate an object with `for...in`, so their
    argument is an `Iteration.Collection` whose `ObjectColl` case carries the
    enumeration order;
  - `extend` and `defaults` assign into `obj`, so the target is a `JsObject`
    and the sources, which are only read, are maps.

  The encodings are not connected: `contains` cannot look inside the object
  behind an `ObjRef` element.
- **Loops become methods.** Every loop of `underscore_tests.js` is a `method` with a
  `while` loop. The method is proved against a specification function of the
  inputs (`Filtered`, `Dedup`, `FoldLeft`, `Shuffled`, `Leaves`, `Extended`,
  and so on). Lemmas about those functions state the properties the library
  promises. Examples: `filter` and `reject` partition their input; `uniq`
  keeps the first occurrence of every value; `shuffle` can produce every
  permutation; `extend` lets the last source win.
- **Functions passed in.** Iterators are Dafny functions returning a `Value`,
  and the model judges that value by truthiness, as the code does.
- **Missing arguments.** The count of `first`/`last` and the iterator of
  `every`/`some` can be left out. `Optional` models that.
- **Errors.** Reading a property of `null` or `undefined` throws a
  `TypeError`. So do `pluck` and `intersection` when the code reaches such a
  read. Those failures are a `Result`.
- **`once`.** The `once` closure is the class `FunctionCombinators.Once`. Its
  fields are `ran` and `memo`, and a ghost counter tracks how often the
  wrapped function ran. The same step is also a pure function `Step`, so
  that a whole run of calls can be reasoned about.
- **Randomness.** `Math.random` in `shuffle` is replaced by a sequence of
  draws. Each draw picks an index among the elements still left.

The library's documented intent differs from its code in some places, and the
model follows the code. In those places the model also has a version with
the documented meaning and proves how the two differ (see "## Findings"):
- `first`/`last` with a count of 0;
- `intersection` of more than two arrays;
- `difference` with falsy elements.

Two more differences are behaviour the model keeps as written:
- `shuffle` empties its input array;
- `difference` overwrites its first argument.

## Model

| member | source | states |
|---|---|---|
| Values.JsArray.SpliceOne | src/underscore_tests.js:91 | `array.splice(k, 1)` removes and returns the one element at index `k`, leaving the elements before and after it in order; past the end it removes nothing and returns `[]` |
| Accessors.SliceIndex | src/underscore_tests.js:25 | a `slice` bound counts from the end when negative and is clamped to the array |
| Accessors.Slice | src/underscore_tests.js:25 | `slice(begin, end)` is the part of the array between the two clamped bounds, empty when they cross |
| Accessors.First | src/underscore_tests.js:18-27 | without a truthy count, the element at index 0; otherwise a prefix of `min(n, length)` elements, or of `length + n` elements for a negative count |
| Accessors.Last | src/underscore_tests.js:31-39 | without a truthy count, the element at index length-1; otherwise a suffix of `min(n, length)` elements, or of `length + n` elements for a negative count |
| Accessors.FirstIsHeadOfFirstOne | src/underscore_tests.js:18-27 | for a non-empty array, `first(a)` is the only element of `first(a, 1)` |
| Accessors.LastIsMirroredFirst | src/underscore_tests.js:18-39 | `last` is `first` of the reversed array, read back to front, for every count |
| Accessors.FirstIntended | src/underscore_tests.js:16-27 | a present count, 0 included, gives a prefix of `min(n, length)` elements; an absent one gives the element at index 0 |
| Accessors.LastIntended | src/underscore_tests.js:29-39 | a present count, 0 included, gives a suffix of `min(n, length)` elements; an absent one gives the last element |
| Accessors.IntendedAgreeOnNonZeroCounts | src/underscore_tests.js:18-39 | the code and the intended versions agree on every count except 0 |
| Accessors.ZeroCountReturnsAnElement | src/underscore_tests.js:19-20 | `first([1], 0)` and `last([1], 0)` give `1` where the intent gives `[]` |
| Iteration.Each | src/underscore_tests.js:43-50 | one iterator result per entry, in enumeration order, each computed from the entry's value, its key and the collection |
| Iteration.IndexOf | src/underscore_tests.js:54-61 | the first index holding the target, and -1 exactly when the target is absent |
| Iteration.Contains | src/underscore_tests.js:142-149 | true exactly when some element of the array, or some property value of the object, is `===` to the target |
| Predicates.Filter | src/underscore_tests.js:64-72 | the result is the input's elements with a truthy test result, in order |
| Predicates.Reject | src/underscore_tests.js:76-84 | the result is the input's elements with a falsy test result, in order |
| Predicates.FilteredMembers | src/underscore_tests.js:64-72 | a value is kept by `filter` exactly when it is in the input and passes |
| Predicates.FilteredCounts | src/underscore_tests.js:64-72 | `filter` keeps a passing value as often as it occurs in the input and drops every copy of a failing one |
| Predicates.RejectedMembers | src/underscore_tests.js:76-84 | a value is kept by `reject` exactly when it is in the input and fails |
| Predicates.FilterRejectPartition | src/underscore_tests.js:64-84 | the two outputs together hold the input's elements with their multiplicities, and no value is in both |
| Predicates.FilterRejectKeepOrder | src/underscore_tests.js:64-84 | each output is a subsequence of the input |
| Predicates.RejectIsFilterOfNegation | src/underscore_tests.js:76-84 | `reject` with a test is `filter` with the negated test |
| Predicates.FilteredAppend | src/underscore_tests.js:64-72 | filtering a concatenation filters each part |
| Predicates.FilteredEmpty | src/underscore_tests.js:64-72 | `filter` is empty exactly when no element passes |
| Predicates.Every | src/underscore_tests.js:153-163 | with no iterator always true; otherwise true exactly when every element passes, i.e. when `reject` finds nothing |
| Predicates.Some | src/underscore_tests.js:167-177 | true exactly when some element passes the iterator, or is truthy when there is none, i.e. when `filter` finds something |
| Transforms.Map | src/underscore_tests.js:101-107 | a new array of the same length holding the iterator's result for each element |
| Transforms.Pluck | src/underscore_tests.js:113-121 | the truthy values of the property, in order; a `TypeError` exactly when some element is `null` or `undefined` |
| Transforms.PluckedFailsAtNullish | src/underscore_tests.js:113-121 | the pluck fails exactly when some element is `null` or `undefined` |
| Transforms.PluckedIsTruthyPropValues | src/underscore_tests.js:113-121 | without such elements, `pluck` is the property values with the falsy ones (missing keys included) dropped |
| Transforms.Reduce | src/underscore_tests.js:130-139 | the left fold of the iterator over the array from the seed: the initial value when truthy, else 0 |
| Transforms.FoldLeftAppend | src/underscore_tests.js:135-137 | folding a concatenation folds the second part from the result of the first |
| Transforms.FoldLeftFromFront | src/underscore_tests.js:135-137 | the first element is combined with the seed first |
| Transforms.FalsySeedIsZero | src/underscore_tests.js:131-134 | every falsy initial value, an absent one included, folds like the seed 0, so `reduce(a, f)` is `reduce(a, f, 0)` |
| Transforms.SumWithoutInitialValue | src/underscore_tests.js:130-139 | `reduce([1, 2, 3], +)` without an initial value is 6 |
| SetAlgebra.Uniq | src/underscore_tests.js:87-97 | returns the same array, changed in place into the first occurrences of its original elements in order |
| SetAlgebra.DedupMembers | src/underscore_tests.js:87-97 | `uniq` keeps exactly the values of its input |
| SetAlgebra.DedupDistinct | src/underscore_tests.js:87-97 | no two elements of the result are `===` |
| SetAlgebra.DedupKeepsOrder | src/underscore_tests.js:87-97 | the result is a subsequence of the input |
| SetAlgebra.DedupOfDistinct | src/underscore_tests.js:87-97 | an array without repeats is left as it is |
| SetAlgebra.DedupRemoveLater | src/underscore_tests.js:89-92 | splicing out a later copy of an earlier element does not change the outcome |
| SetAlgebra.UniqExample | src/underscore_tests.js:87-97 | `uniq([1, 2, 2, 3, 1])` is `[1, 2, 3]` |
| SetAlgebra.Intersection | src/underscore_tests.js:389-393 | the elements of the first array that occur in the second, in order and each as often as in the first array, further arrays ignored; a `TypeError` without arrays or with one non-empty array |
| SetAlgebra.IntersectionOfAll | src/underscore_tests.js:387-388 | the elements of the first array that occur in every array, in order and each as often as in the first array |
| SetAlgebra.IntersectionOfTwo | src/underscore_tests.js:387-393 | for two arrays the code and the documented intent agree |
| SetAlgebra.IntersectionIgnoresThirdArray | src/underscore_tests.js:389-393 | with arrays `[a, b], [a, b], [b]` the code keeps `a`, which the third array lacks |
| SetAlgebra.Marked | src/underscore_tests.js:420-428 | the marking loop keeps the length of the first array |
| SetAlgebra.Difference | src/underscore_tests.js:418-433 | the first array now has `false` at every element found in another array; the result is its truthy elements in order, which is `DifferenceAsWritten` of the original array |
| SetAlgebra.DifferenceAsWritten | src/underscore_tests.js:424-431 | what `difference` returns: a subsequence of the first array holding exactly its truthy values found in no other array, each as often as in the input |
| SetAlgebra.DifferenceAsWrittenDropsFalsy | src/underscore_tests.js:418-433 | the result is the first array's elements that are truthy and in no other array, repeats kept |
| SetAlgebra.DifferenceIntended | src/underscore_tests.js:416-417 | a subsequence of the first array holding exactly the values in no other array, each as often as in the input |
| SetAlgebra.DifferenceExample | src/underscore_tests.js:418-433 | `difference([1, 2, 3, 4], [2, 4])` is `[1, 3]` |
| SetAlgebra.DifferenceDropsZero | src/underscore_tests.js:429-431 | `difference([0, 1], [1])` is `[]` where the intent gives `[0]` |
| Reshaping.Shuffle | src/underscore_tests.js:266-273 | the result is the drawn order of the input and a permutation of it; the input array ends empty |
| Reshaping.ShuffledIsPermutation | src/underscore_tests.js:266-273 | every run of draws yields a permutation of the input |
| Reshaping.ShuffledReachesEveryPermutation | src/underscore_tests.js:266-273 | every permutation of the input comes from some run of draws |
| Reshaping.ShuffledIsInjective | src/underscore_tests.js:266-273 | on an input without repeats, different runs of draws give different orders |
| Reshaping.Zip | src/underscore_tests.js:286-307 | as many tuples as the longest array; one entry per array in each; entry `k` of tuple `j` is `arrays[k][j]`, or `undefined` past its end |
| Reshaping.Smash | src/underscore_tests.js:373-381 | appends the non-array leaves of its argument, at any depth and left to right, to the flat array |
| Reshaping.Flatten | src/underscore_tests.js:371-384 | the non-array leaves of the input, left to right, and no arrays |
| Reshaping.LeavesAreNotArrays | src/underscore_tests.js:375-379 | no element of a flattened array is an array |
| Reshaping.LeavesAppend | src/underscore_tests.js:374-380 | flattening a concatenation flattens each part |
| Reshaping.LeavesOfFlat | src/underscore_tests.js:374-380 | an array without nested arrays comes back unchanged |
| Reshaping.FlattenIsIdempotent | src/underscore_tests.js:371-384 | flattening twice is flattening once |
| ObjectMerge.Extend | src/underscore_tests.js:189-196 | returns `obj`, whose properties are now those of each source laid over it in turn |
| ObjectMerge.Defaults | src/underscore_tests.js:201-210 | returns `obj`, whose properties now include, for each missing key, the one from the earliest source |
| ObjectMerge.MergedKeys | src/underscore_tests.js:189-210 | after either merge, the keys are those of `obj` and of all sources |
| ObjectMerge.ExtendedLastSourceWins | src/underscore_tests.js:189-196 | after `extend` a key has the value of the last source holding it |
| ObjectMerge.ExtendedKeepsUntouched | src/underscore_tests.js:189-196 | a key found in no source keeps its value |
| ObjectMerge.DefaultedKeepsPresent | src/underscore_tests.js:201-210 | `defaults` never changes a key already in `obj` |
| ObjectMerge.DefaultedFirstSourceWins | src/underscore_tests.js:201-210 | a key missing from `obj` takes the value of the first source holding it |
| ObjectMerge.DefaultsIsReversedExtend | src/underscore_tests.js:189-210 | `defaults` is `extend` of the sources in reverse order with `obj` laid over the result |
| FunctionCombinators.Step | src/underscore_tests.js:232-240 | a call runs the function exactly when the wrapper has not run, and the first call remembers and returns `func(args)`; afterwards it has run and returns its memo, and a second call changes nothing |
| FunctionCombinators.RunAfterFirst | src/underscore_tests.js:233-235 | once the wrapper has run, every later call returns the memo and none runs the function |
| FunctionCombinators.RunOnce | src/underscore_tests.js:229-241 | a fresh wrapper runs the function at most once, and every call returns the first call's result whatever its arguments |
| FunctionCombinators.Once.constructor | src/underscore_tests.js:229-231 | a new wrapper that has not run |
| FunctionCombinators.Once.Call | src/underscore_tests.js:232-240 | a call acts as `Step`: the first call runs the function and remembers its result; later calls return it unchanged; the function has run at most once |

## Left out

- `delay` is not modelled. Its body is not valid JavaScript, and it depends on host timers.
- `memoize` and `invoke` are not modelled. Both are empty stubs, so there is no behaviour to state.
- `sortBy` is not modelled. It is commented out, like the alternative bodies inside `zip` and `intersection`.
- `Math.random` is not modelled. The draws stand for the random choices, so the model does not state uniformity as a probability. `ShuffledReachesEveryPermutation` and `ShuffledIsInjective` together state that the draws and the permutations of a repeat-free array correspond one to one.
- The `this` binding passed by `filter`, `reject` and `once`, and the `func = null` of `once`, change nothing observable.
- Floating-point numbers, `NaN` and `-0` are not modelled, because numbers are integers. Also left out: string-to-number coercion of counts, and non-integer counts.
- Nested arrays compare structurally in the model, while `===` compares arrays by identity. Objects are references and do compare by identity.
- For arrays, `for...in` keys are indices here, not the strings `"0"`, `"1"`, …. Inherited enumerable properties are not visited, and `hasOwnProperty` sees own properties only.
- For `each` and `contains` over an object, `for...in` order is the `order` list of `Iteration.Collection`. `extend` and `defaults` visit the keys of a source in any order (the `:|` choice in `Extend` and `Defaults`). The proved result does not depend on that order.
- In `pluck`, a property of a string, number, boolean or array reads as `undefined`. JavaScript would find, for example, `length` on a string.
- Operations that loop on `collection.length` take arrays only. JavaScript would run them over an object without a `length` property as over an empty array, and over an object with a numeric `length` it would read `collection[0]` to `collection[length - 1]`.
- Arguments that are not arrays where the code indexes them (for example `first(undefined)`) are not modelled, except for the two throwing cases of `pluck` and `intersection`.
- Aliasing between arguments is not modelled:
  - The sources of `extend`/`defaults` are snapshots.
  - A first array of `difference` that is also passed among the other arrays is not modelled.
  - `first`/`last` return the elements of the input array, not the array object itself.
- An array that contains itself (after `a.push(a)`) is not modelled. A `Value` cannot contain itself, and on such an array `smash` (src/underscore_tests.js:373-381) would recurse until the stack overflows.
- Iterators and the function wrapped by `once` are pure. Side effects of theirs are not modelled, apart from the count of runs of `once`'s function. Neither are exceptions they throw: if the function throws, `once` would already have set `ran`.

## Findings

| source | as written | input that shows it | evidently intended | confidence | as-written member | corrected member |
|---|---|---|---|---|---|---|
| src/underscore_tests.js:19-20 | `!Boolean(n)` treats a count of 0 like a missing count | `first([1], 0)` is `1` (`Accessors.ZeroCountReturnsAnElement`) | a count of 0 gives an empty array | not executed | Accessors.First | Accessors.FirstIntended |
| src/underscore_tests.js:32-33 | `!Boolean(n)` treats a count of 0 like a missing count | `last([1], 0)` is `1` (`Accessors.ZeroCountReturnsAnElement`) | a count of 0 gives an empty array | not executed | Accessors.Last | Accessors.LastIntended |
| src/underscore_tests.js:391-393 | only `args[1]` is searched, although the comment at 387-388 promises every array | `intersection([1, 2], [1, 2], [2])` is `[1, 2]` (`SetAlgebra.IntersectionIgnoresThirdArray`) | `[2]`, the elements in every array | not executed | SetAlgebra.Intersection | SetAlgebra.IntersectionOfAll |
| src/underscore_tests.js:424-431 | matches are marked with `false`, then every falsy element is dropped | `difference([0, 1], [1])` is `[]` (`SetAlgebra.DifferenceDropsZero`) | `[0]`: only elements found in another array are removed | not executed | SetAlgebra.DifferenceAsWritten | SetAlgebra.DifferenceIntended |
