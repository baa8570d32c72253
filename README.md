# functional-js containers, curry and compose, in Dafny

This project models the functor containers of `functors.js` and the
partial-application and composition behaviour fixed by the tests in
`currying.spec.js`. It proves the laws those containers and combinators obey.

- `currying.dfy`, module `Currying`, covers the local `curry(fn, ...stored)`,
  the `add` it is tested with, binary `compose`, and variadic right-to-left
  composition of functions of one type (`ComposeAll`). A JavaScript function
  called through `fn.apply(null, args)` becomes a function of its whole
  argument list (`seq<A> -> R`).
- `functors.dfy`, module `Functors`, has one datatype per container:
  - `Container` (Identity).
  - `Maybe`, which holds a `Nullable`, where the one constructor `Null` stands
    for both `null` and `undefined`.
  - `LeftRight`, whose variants are `Left` and `Right`, plus the eliminator
    `Either`.
  - `IO`.

  Each container has `Map`, written as in the source. Each also has
  `MapAll`, the chain `c.map(f1)...map(fn)` as one function, so that lemmas
  can speak about whole chains: short-circuiting, and agreement with
  `compose` applied right to left.
- `pointfree.dfy`, module `Pointfree`, covers the pointfree examples of the
  tests:
  - `slice` and `take`, with the JavaScript offset rules.
  - `filter` with the `x % 2 === 0` test.
  - `reduce` to a maximum seeded with `-Infinity`.
  - `fork` and `avg`.
  - `toUpperCase`/`exclaim`/`shout`.
  - `split`/`join`/`head`/`initials` and `splitUpper`.

Modelling decisions:
- The world that an `IO` thunk reads and changes is an explicit state
  parameter `S`. `unsafePerformIO` maps the world before to the result and
  the world after. `IO.prototype.map` takes no world, so building a mapped
  `IO` cannot perform the effect. Performing it runs the held effect exactly
  once (`IOMapAllRunsOnce`). Performing twice runs it twice
  (`IOPerformRepeats`).
- `-Infinity`, the seed of `max`, is the constructor `NegInf` of `ExtInt`.
  This keeps the model on integers without leaving out the empty list.
- `_.divide` returns a float. Here it gives the exact `Quotient` of its two
  arguments: `avg([1..5])` "is 3" means 15 = 3 · 5.
- `add(5)` in JavaScript is `5 + undefined`, which is NaN. `Add` returns
  `NaN` when it gets fewer than two arguments.
- JavaScript `%` takes the sign of the dividend. `JsRemTwo` writes that rule
  out, and `IsEvenIff` proves that the test still accepts exactly the
  multiples of two.
- The local `curry` in currying.spec.js does no arity counting, unlike
  Ramda's `R.curry`. It calls `fn` as soon as the returned function is
  called, with the stored and the new arguments. The model does the same.
- `Left.map` returns the same object. Here it returns an equal value.
- `Maybe.prototype.map` stops at the first null. So the plain composition
  law holds only for functions that never return null
  (`MaybeCompositionLaw`). `Maybe.of(5).map(x => null).map(x => 1)` holds
  null, but one map with the composed function `x => 1` holds 1
  (`MaybeNullBreaksPlainLaw`). The law that holds for every function skips
  the second function when the first yields nothing
  (`MaybeNullAwareCompositionLaw`).

## Model

| member | source | states |
|---|---|---|
| `Currying.Curry` | currying.spec.js:7-27 | `curry(fn, ...stored)`: stores the extra arguments and returns a function of the new ones; its behaviour is stated by the three lemmas below and `CurryAddCallsAtOnce` |
| `Currying.CurryCallsWithStoredThenNew` | currying.spec.js:7-27 | the curried function calls `fn` with the stored arguments first and the new ones after them, in order |
| `Currying.CurrySplitAnywhere` | currying.spec.js:13-25 | splitting an argument list anywhere into a stored prefix and a later suffix gives `fn` of the whole list |
| `Currying.CurryTwice` | currying.spec.js:13-25 | currying an already curried function stores the first prefix, then the second, then the new arguments |
| `Currying.Add` | currying.spec.js:29 | `(x, y) => x + y` on an argument list; a missing argument makes NaN; stated by `AddIgnoresSurplus` and `CurryAddCallsAtOnce` |
| `Currying.AddIgnoresSurplus` | currying.spec.js:29 | arguments beyond the second do not change what `add` returns |
| `Currying.CurryAddCallsAtOnce` | currying.spec.js:21-25 | `curry(add, x)` calls `add` as soon as it is called: with no further argument it gives NaN, with `y` it gives `x + y` |
| `Currying.CurryAddFive` | currying.spec.js:29-32 | `curry(add, 5)(5)` is 10 |
| `Currying.Compose` | currying.spec.js:170-177 | binary `compose(f, g)`; stated by `ComposeAppliesRightToLeft`, `ComposeAssociative` and `ComposeIdentity` |
| `Currying.ComposeAppliesRightToLeft` | currying.spec.js:170-177 | `compose(f, g)(x)` is `f(g(x))` |
| `Currying.ComposeAssociative` | currying.spec.js:242-251 | nesting compositions either way gives the same function on every input |
| `Currying.ComposeIdentity` | currying.spec.js:170-177 | composing with the identity on either side changes nothing |
| `Currying.ComposeAll` | currying.spec.js:242-251 | variadic `compose(f1, ..., fn)` on functions of one type; stated by `ComposeAllLastFirst` and `ComposeAllConcat` |
| `Currying.ComposeAllLastFirst` | currying.spec.js:241-251 | in a variadic composition the rightmost function is applied first |
| `Currying.ComposeAllConcat` | currying.spec.js:241-251 | composing a concatenation of function lists is composing the two compositions |
| `Functors.Container.Of` | functors.js:5-7 | `Container.of(x)` wraps `x`; stated by `ContainerOfMap` |
| `Functors.Container.Map` | functors.js:9-12 | `Container.prototype.map`; stated by `ContainerOfMap` and the two laws |
| `Functors.ContainerOfMap` | functors.js:5-12 | `Container.of(x).map(f)` holds exactly `f(x)` |
| `Functors.ContainerIdentityLaw` | functors.js:9-12 | mapping the identity returns an equal container |
| `Functors.ContainerCompositionLaw` | functors.js:9-12 | `map(g).map(f)` equals `map(compose(f, g))` |
| `Functors.ContainerMapAllIsCompose` | functors.js:9-12 | a chain `map(f1)...map(fn)` equals one `map` with `compose(fn, ..., f1)` |
| `Functors.Maybe.Of` | functors.js:18-20 | `Maybe.of(x)` wraps `x`, which may be null; stated by `IsNothingIff` and `MaybeMapPresent` |
| `Functors.Maybe.IsNothing` | functors.js:22-24 | `isNothing`; stated by `IsNothingIff` |
| `Functors.IsNothingIff` | functors.js:22-24 | `isNothing` holds exactly when the held value is null or undefined |
| `Functors.Maybe.Map` | functors.js:26-29 | the result is nothing exactly when the input is nothing or `f` returns null or undefined |
| `Functors.MaybeMapNothing` | functors.js:27-29 | on nothing, `map` returns `Maybe.of(null)` and the result is the same for every `f` |
| `Functors.MaybeMapPresent` | functors.js:27-29 | on a present value `x`, `map(f)` returns `Maybe.of(f(x))` |
| `Functors.MaybeIdentityLaw` | functors.js:26-29 | mapping the identity returns an equal Maybe, whether or not a value is present |
| `Functors.MaybeCompositionLaw` | functors.js:26-29 | for functions that never return null, mapping twice equals mapping their composition |
| `Functors.MaybeNullAwareCompositionLaw` | functors.js:26-29 | for functions that may return null, mapping twice equals one map that skips the second function when the first yields nothing |
| `Functors.MaybeNullBreaksPlainLaw` | functors.js:26-29 | `Maybe.of(5).map(x => null).map(x => 1)` holds null, while one map with `x => 1` holds 1 |
| `Functors.MaybeMapAllConcat` | functors.js:27-29 | a chain of maps can be cut anywhere into two chains |
| `Functors.MaybeNothingAbsorbs` | functors.js:27-29 | once nothing, every later `map` in a chain yields `Maybe.of(null)` |
| `Functors.MaybeNothingPropagates` | functors.js:27-29 | if any stage of a chain yields nothing, the whole chain yields nothing |
| `Functors.MaybeAgeExample` | functors.js:14-29 | mapping `p => p.age` and then `a => a + 10` gives 32 for Bob, aged 22, and null for Simon, who has no age |
| `Functors.LeftRight.Map` | functors.js:39-53 | `Left.prototype.map` and `Right.prototype.map`; stated by `LeftMapUnchanged`, `RightMapApplies` and the two laws |
| `Functors.LeftMapUnchanged` | functors.js:39-41 | `Left.map(f)` is the same Left for every `f` |
| `Functors.RightMapApplies` | functors.js:47-53 | `Right.of(x).map(f)` is a Right holding `f(x)` |
| `Functors.EitherIdentityLaw` | functors.js:39-53 | mapping the identity returns an equal Either |
| `Functors.EitherCompositionLaw` | functors.js:39-53 | `map(g).map(f)` equals `map(compose(f, g))` on both variants |
| `Functors.Either` | functors.js:56-63 | the eliminator; stated by `EitherDispatch` and `EitherAfterMap` |
| `Functors.EitherDispatch` | functors.js:56-63 | `Either(f, g, Left.of(x))` is `f(x)` and `Either(f, g, Right.of(y))` is `g(y)` |
| `Functors.EitherAfterMap` | functors.js:51-63 | eliminating after `map(h)` is eliminating with `g` composed with `h`; the Left case is untouched |
| `Functors.LeftAbsorbs` | functors.js:39-41 | a Left stays the same Left through any chain of maps |
| `Functors.RightMapAllIsCompose` | functors.js:51-53 | a Right goes through a chain of maps as through their right-to-left composition |
| `Functors.RainExample` | functors.js:35-53 | `Right.of('rain').map(s => 'b' + s)` holds 'brain', and the same `map` on `Left.of('rain')` still holds 'rain' |
| `Functors.IO.Of` | functors.js:73-77 | `IO.of(x)`; stated by `IOOfPerforms` |
| `Functors.IO.Map` | functors.js:79-81 | `IO.prototype.map`; stated by `IOMapPerforms`, the two laws and `IOMapAllRunsOnce` |
| `Functors.IOOfPerforms` | functors.js:73-77 | `IO.of(x)` performs to `x` and leaves the world unchanged |
| `Functors.IOMapPerforms` | functors.js:79-81 | `io.map(f)` performs the held effect once and applies `f` to its result |
| `Functors.IOIdentityLaw` | functors.js:79-81 | mapping the identity performs like the original |
| `Functors.IOCompositionLaw` | functors.js:79-81 | `map(g).map(f)` performs like `map(compose(f, g))` |
| `Functors.IOMapAllRunsOnce` | functors.js:65-81 | however long a chain of maps is, performing it runs the effect exactly once, then applies the functions in order |
| `Functors.IOPerformRepeats` | functors.js:65-71 | performing is not memoised: a counter effect yields 0 and then 1 |
| `Pointfree.RelativeIndex` | currying.spec.js:152-154 | a slice offset lands within the sequence; a negative offset counts from the end; an offset past either end is clamped to that end |
| `Pointfree.Slice` | currying.spec.js:152-154 | `_.slice(start, end)` as a function awaiting the sequence; stated by `TakeIsPrefix`, `TakeNegativeDropsFromEnd` and `SliceExamples` |
| `Pointfree.Take` | currying.spec.js:158-163 | `take(charLimit)`; stated by `TakeIsPrefix` and `TakeNegativeDropsFromEnd` |
| `Pointfree.TakeIsPrefix` | currying.spec.js:158-163 | `take(n)` with `n >= 0` yields the first `n` characters, or the whole string when it is shorter |
| `Pointfree.TakeNegativeDropsFromEnd` | currying.spec.js:160 | `take(n)` with `n < 0` drops `-n` characters from the end |
| `Pointfree.SliceExamples` | currying.spec.js:152-162 | `slice(0, 5)('BobbaFett')` is 'Bobba' and `take(3)('Simon')` is 'Sim' |
| `Pointfree.Filter` | currying.spec.js:114-118 | an element is in the result exactly when it is in the input and satisfies the predicate |
| `Pointfree.FilterCounts` | currying.spec.js:114-118 | each kept element occurs as often as in the input, and rejected elements do not occur |
| `Pointfree.FilterConcat` | currying.spec.js:114-118 | filtering a concatenation filters each part and keeps the parts in order |
| `Pointfree.JsRemTwo` | currying.spec.js:115 | JavaScript `x % 2` is zero exactly when `x` is even, and otherwise has the sign of `x` |
| `Pointfree.IsEvenIff` | currying.spec.js:115 | `x % 2 === 0` accepts exactly the multiples of two, negative ones included |
| `Pointfree.IsEven` | currying.spec.js:115 | `x => x % 2 === 0`; stated by `IsEvenIff` |
| `Pointfree.FilterEven` | currying.spec.js:114-118 | `filterEven` and `filterEven2`; stated by `Filter`, `FilterCounts` and `FilterEvenExample` |
| `Pointfree.FilterEvenExample` | currying.spec.js:114-123 | filtering `[1, 2, 3, 4]` for even numbers gives `[2, 4]` |
| `Pointfree.Reduce` | currying.spec.js:129-138 | `_.reduce(f, acc, xs)`, a left fold; stated by `KeepHighestFold` |
| `Pointfree.KeepHighest` | currying.spec.js:127 | `_keepHighest(acc, x)`; stated by `KeepHighestFold` |
| `Pointfree.Max` | currying.spec.js:129-138 | `max` and `max2`; stated by `MaxIsGreatest` |
| `Pointfree.KeepHighestFold` | currying.spec.js:127-138 | folding `_keepHighest` from a seed gives the seed or an element, at least the seed and at least every element |
| `Pointfree.MaxIsGreatest` | currying.spec.js:127-138 | `max` is `-Infinity` exactly on the empty list; otherwise it is an element that is at least every element |
| `Pointfree.MaxExamples` | currying.spec.js:140-144 | `max([1,5,3,200,-4])` is 200 and `max2([1,5,3,2,-4000,6,1,54])` is 54 |
| `Pointfree.Fork` | currying.spec.js:84 | `fork(lastly, f, g)`; stated by `ForkApplies` |
| `Pointfree.ForkApplies` | currying.spec.js:84 | `fork(lastly, f, g)(x)` is `lastly(f(x), g(x))` |
| `Pointfree.SumConcat` | currying.spec.js:90 | the sum of a concatenation is the sum of the sums |
| `Pointfree.Sum` | currying.spec.js:90 | `_.sum`; stated by `SumConcat` and `SumBounds` |
| `Pointfree.Length` | currying.spec.js:90 | `_.length`; stated by `AvgIsMean` |
| `Pointfree.Divide` | currying.spec.js:90 | `_.divide`, kept as an exact quotient; stated by `AvgIsMean` |
| `Pointfree.Avg` | currying.spec.js:90 | `avg = fork(_.divide, _.sum, _.length)`; stated by `AvgIsMean` and `AvgExample` |
| `Pointfree.SumBounds` | currying.spec.js:86-90 | if every element lies between `lo` and `hi`, the sum lies between `lo` and `hi` times the length |
| `Pointfree.AvgIsMean` | currying.spec.js:84-90 | `avg` divides the sum by the length, and the quotient lies between the least and the greatest element |
| `Pointfree.AvgExample` | currying.spec.js:90-91 | `avg([1, 2, 3, 4, 5])` is 3 |
| `Pointfree.ToUpper` | currying.spec.js:171 | upper-casing keeps the length, turns each letter of `a`..`z` into the letter at the same place in `A`..`Z`, leaves every other character alone, and leaves no lower-case letter |
| `Pointfree.ToUpperIdempotent` | currying.spec.js:171 | upper-casing twice is upper-casing once |
| `Pointfree.Exclaim` | currying.spec.js:172 | `exclaim`; stated by `ShoutExample` |
| `Pointfree.Shout` | currying.spec.js:174 | `shout = compose(exclaim, toUpperCase)`; stated by `ShoutExample` |
| `Pointfree.ShoutExample` | currying.spec.js:170-177 | `shout('hi there')` is 'HI THERE!' |
| `Pointfree.Split` | currying.spec.js:250 | splitting yields at least one piece, and no piece contains the separator |
| `Pointfree.SplitWithoutSep` | currying.spec.js:250 | a string without the separator splits into itself alone |
| `Pointfree.SplitWordThenSep` | currying.spec.js:250 | a word followed by the separator becomes the first piece, and splitting resumes after the separator |
| `Pointfree.Join` | currying.spec.js:243 | `_.join(sep)`; stated by `JoinSplit` and `SplitJoin` |
| `Pointfree.JoinSplit` | currying.spec.js:243-250 | joining the pieces of a split with the separator gives back the string |
| `Pointfree.SplitJoin` | currying.spec.js:243-250 | splitting pieces that were joined with the separator gives back the pieces, when no piece contains it |
| `Pointfree.Head` | currying.spec.js:247 | the head of a string is a prefix of it, one character long, or '' when the string is empty |
| `Pointfree.MapEach` | currying.spec.js:184 | `_.map(f)`; stated by `MapEachConcat` and `MapEachSingleton` |
| `Pointfree.MapEachConcat` | currying.spec.js:184 | mapping a concatenation maps each part, in order, and keeps the length |
| `Pointfree.MapEachSingleton` | currying.spec.js:184 | mapping a one-element list applies `f` to that element |
| `Pointfree.SplitUpper` | currying.spec.js:184 | `splitUpper = compose(map(toUpper), split(' '))`; stated by `SplitUpperOfWords` and `SplitUpperExample` |
| `Pointfree.SplitUpperOfWords` | currying.spec.js:179-187 | for space-free words joined by spaces, `splitUpper` gives the words upper-cased, in order |
| `Pointfree.SplitUpperExample` | currying.spec.js:179-187 | `splitUpper('mary had a little ramb')` is `['MARY', 'HAD', 'A', 'LITTLE', 'RAMB']` |
| `Pointfree.Initials` | currying.spec.js:242-251 | `initials`; stated by `InitialsOfWords` and `InitialsExample` |
| `Pointfree.InitialsOfWords` | currying.spec.js:242-251 | for space-free words joined by spaces, `initials` joins their upper-cased first letters with '. ' |
| `Pointfree.InitialsExample` | currying.spec.js:242-253 | `initials('simon phillip kerr')` is 'S. P. K' |

## Left out

- Ramda's `R.curry` counts a function's declared parameters (`fn.length`) and
  collects arguments until there are enough. That library is not part of this
  model. Where the tests use it (`fork`, `take`), the model writes the curried
  function with its arity fixed.
- `Functors.Either` takes all three arguments at once. In functors.js:56 it is
  wrapped in `R.curry`, so `Either(f, g)` could be partially applied and
  passed on. The model has no such partial application.
- The Ramda list and string functions (`_.map`, `_.reduce`, `_.filter`,
  `_.slice`, `_.split`, `_.join`, `_.head`, `_.toUpper`, `_.sum`, `_.length`)
  are not part of this model either. Each is written from the behaviour its
  test asserts.
- `Pointfree.ToUpper` upper-cases only the ASCII letters `a` to `z`. Unicode
  case mapping is not modelled.
- `Pointfree.Take`, `Pointfree.Slice` and `Pointfree.Head` work on Unicode
  scalar values, but JavaScript strings are sequences of UTF-16 code units.
  They differ on characters outside the Basic Multilingual Plane. For an
  emoji, JavaScript's `slice(0, 1)` gives a lone surrogate, while `Take(1)`
  gives the whole character.
- JavaScript numbers are IEEE-754 doubles. `Currying.JsNumber`, `Pointfree.Sum`,
  `Pointfree.Max`, `Pointfree.IsEven` and the `a + 10` of
  `Functors.MaybeAgeExample` use unbounded integers instead. Rounding above
  2^53, fractions, `Infinity` as an element and `-0` are not modelled.
- `Functors.IO.Map`: mapped functions are pure in the model (`T -> U`). They
  can neither read nor change the world. In JavaScript, a function passed to
  `IO.prototype.map` may itself have effects, which run at perform time after
  the held thunk. So the claim of `IOMapAllRunsOnce` and `IOMapPerforms`
  that the world afterwards is the held effect's holds only for pure mapped
  functions.
- `Pointfree.Split` handles a one-character separator only. That is the only
  kind the modelled pipelines use.
- `Pointfree.AvgIsMean` does not model floating point. `_.divide` gives an
  exact quotient instead.
- `Functors.LeftMapUnchanged` speaks of equal values, not of the same object.
  Reference identity (`return this`) is not observable in the model.
- `Functors.Either`: the JavaScript `switch` on `e.constructor` has no
  default, so it returns `undefined` for anything that is neither Left nor
  Right. Here the sum type rules that input out.
- `null` and `undefined` are not told apart. `Maybe` treats them alike and
  `map` turns both into `null`.
- The tests not listed in the table are left out:
  - the `tripleList`, `reduce`/`greater`, `words` and `sentences` tests;
  - the `get`/`names`/`isAuthor` tests;
  - `snakeCase` (regular-expression `replace`);
  - the `trace` debugging test with its `dasherize` (console output and
    regular-expression `replace`);
  - the disabled Functors block at currying.spec.js:278-299.
  All are Ramda calls or console output, outside this core.
- functional-flickr.js is I/O glue (jQuery DOM writes, a JSON fetch over the
  network, module loading) and is outside this model.
- The asynchronous Task container appears in no modelled source file.
