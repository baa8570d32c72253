/** Partial application (`curry`) and right-to-left composition (`compose`),
    the two combinators the tests of currying.spec.js build pipelines from.

    A JavaScript function called through `fn.apply(null, args)` receives its
    whole argument list, so such a function is modelled as a function of a
    `seq` of arguments; a parameter the caller did not supply is `undefined`. */
module Currying {

  /** The identity function, the unit of composition. */
  function Id<T>(x: T): T { x }

  /** `curry(fn, s1, ..., sk)`: stores the prefix `s1..sk` and returns a
      function that calls `fn` with the stored arguments followed by the new
      ones. */
  function Curry<A, R>(fn: seq<A> -> R, stored: seq<A>): seq<A> -> R
  {
    newArgs => fn(stored + newArgs)
  }

  /** The stored prefix comes first and the new arguments follow it, in order. */
  lemma CurryCallsWithStoredThenNew<A, R>(fn: seq<A> -> R, stored: seq<A>, newArgs: seq<A>)
    ensures Curry(fn, stored)(newArgs) == fn(stored + newArgs)
  {
  }

  /** Splitting an argument list anywhere into a stored prefix and a later
      suffix calls `fn` with the whole list. */
  lemma CurrySplitAnywhere<A, R>(fn: seq<A> -> R, args: seq<A>, k: nat)
    requires k <= |args|
    ensures Curry(fn, args[..k])(args[k..]) == fn(args)
  {
    assert args[..k] + args[k..] == args;
  }

  /** Currying a curried function stores the two prefixes one after the other. */
  lemma CurryTwice<A, R>(fn: seq<A> -> R, first: seq<A>, second: seq<A>, newArgs: seq<A>)
    ensures Curry(Curry(fn, first), second)(newArgs) == fn(first + second + newArgs)
  {
    assert first + (second + newArgs) == first + second + newArgs;
  }

  /** A number as JavaScript's `+` produces it: adding `undefined` gives NaN. */
  datatype JsNumber = Num(n: int) | NaN

  /** `const add = (x, y) => x + y`: reads the first two arguments and
      ignores the rest; a missing one is `undefined`, which makes the sum NaN. */
  function Add(args: seq<int>): JsNumber
  {
    if |args| >= 2 then Num(args[0] + args[1]) else NaN
  }

  /** Surplus arguments do not change what `add` returns. */
  lemma AddIgnoresSurplus(args: seq<int>, extra: seq<int>)
    requires |args| >= 2
    ensures Add(args + extra) == Add(args)
  {
  }

  /** The curried function does not wait for the missing argument: called
      with nothing more, `curry(add, x)` calls `add` at once with `x` alone
      and gets NaN; called with `y`, it gets `x + y`. */
  lemma CurryAddCallsAtOnce(x: int, y: int)
    ensures Curry(Add, [x])([]) == NaN
    ensures Curry(Add, [x])([y]) == Num(x + y)
  {
    assert Curry(Add, [x])([]) == Add([x] + []);
    assert [x] + [] == [x];
    assert Curry(Add, [x])([y]) == Add([x] + [y]);
    assert [x] + [y] == [x, y];
  }

  /** `curry(add, 5)(5)` is 10. */
  lemma CurryAddFive()
    ensures Curry(Add, [5])([5]) == Num(10)
  {
    assert [5] + [5] == [5, 5];
    calc {
      Curry(Add, [5])([5]);
      Add([5] + [5]);
      Add([5, 5]);
      Num(10);
    }
  }

  /** `compose(f, g)`: the function that applies `g` first, then `f`. */
  function Compose<A, B, C>(f: B -> C, g: A -> B): A -> C
  {
    x => f(g(x))
  }

  lemma ComposeAppliesRightToLeft<A, B, C>(f: B -> C, g: A -> B, x: A)
    ensures Compose(f, g)(x) == f(g(x))
  {
  }

  lemma ComposeAssociative<A, B, C, D>(f: C -> D, g: B -> C, h: A -> B, x: A)
    ensures Compose(f, Compose(g, h))(x) == Compose(Compose(f, g), h)(x)
  {
  }

  lemma ComposeIdentity<A, B>(f: A -> B, x: A)
    ensures Compose(f, Id)(x) == f(x) && Compose(Id, f)(x) == f(x)
  {
    assert Compose(f, Id)(x) == f(Id(x));
    assert Compose(Id, f)(x) == Id(f(x));
  }

  /** The variadic `compose(f1, ..., fn)` on functions of one type: applying
      it to `x` computes `f1(f2(...fn(x)))`. Composing no function at all is
      an error of the caller, hence the precondition. */
  function ComposeAll<T>(fs: seq<T -> T>): T -> T
    requires |fs| > 0
    decreases |fs|
  {
    if |fs| == 1 then fs[0] else Compose(fs[0], ComposeAll(fs[1..]))
  }

  /** The rightmost function of a composition is the one applied first. */
  lemma {:induction false} ComposeAllLastFirst<T>(fs: seq<T -> T>, g: T -> T, x: T)
    requires |fs| > 0
    ensures ComposeAll(fs + [g])(x) == ComposeAll(fs)(g(x))
  {
    ComposeAllConcat(fs, [g], x);
  }

  /** Composing a concatenation is composing the two compositions: the
      grouping of the arguments of `compose` does not matter. */
  lemma {:induction false} ComposeAllConcat<T>(fs: seq<T -> T>, gs: seq<T -> T>, x: T)
    requires |fs| > 0 && |gs| > 0
    ensures ComposeAll(fs + gs)(x) == ComposeAll(fs)(ComposeAll(gs)(x))
    decreases |fs|
  {
    DropFirstOfConcat(fs, gs);
    if |fs| > 1 {
      ComposeAllConcat(fs[1..], gs, x);
    }
  }

  lemma DropFirstOfConcat<X>(a: seq<X>, b: seq<X>)
    requires |a| > 0
    ensures (a + b)[0] == a[0] && (a + b)[1..] == a[1..] + b
  {
  }

  /** The functions of `fs` in the opposite order. */
  function Reversed<T>(s: seq<T>): (r: seq<T>)
    ensures |r| == |s|
    ensures forall i :: 0 <= i < |s| ==> r[i] == s[|s| - 1 - i]
  {
    if s == [] then [] else Reversed(s[1..]) + [s[0]]
  }
}
