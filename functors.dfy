/** The containers of functors.js: Identity (`Container`), `Maybe`, the
    two-variant `Left`/`Right` with its eliminator `Either`, and `IO`.

    Every container is an immutable value; `map` returns a new one (or, for
    `Left`, the same one). Each container also gets `MapAll`, the chain
    `c.map(f1).map(f2)...map(fn)` written as one function, so that what a
    whole chain does can be stated. */
module Functors {
  import opened Currying

  /** Facts about sequences, stated once for any element type; the element
      types used below are functions, and equality of sequences of functions
      is expensive for the solver to rediscover each time. */
  lemma SplitAt<X>(s: seq<X>, k: nat)
    requires k <= |s|
    ensures s == s[..k] + s[k..]
  {
  }

  // ---------------------------------------------------------------------
  // Identity: `Container`

  /** `new Container(x)`: holds one value. */
  datatype Container<T> = Container(value: T) {

    /** `Container.of(x)`. */
    static function Of(x: T): Container<T>
    {
      Container(x)
    }

    /** `Container.prototype.map`: re-wraps `f` applied to the held value. */
    function Map<U>(f: T -> U): Container<U>
    {
      Container.Of(f(value))
    }

    /** `this.map(fs[0]).map(fs[1])...` */
    function MapAll(fs: seq<T -> T>): Container<T>
      decreases |fs|
    {
      if fs == [] then this else Map(fs[0]).MapAll(fs[1..])
    }
  }

  /** `Container.of(x).map(f)` holds exactly `f(x)`. */
  lemma ContainerOfMap<T, U>(x: T, f: T -> U)
    ensures Container.Of(x).Map(f).value == f(x)
  {
  }

  /** Functor identity law. */
  lemma ContainerIdentityLaw<T>(c: Container<T>)
    ensures c.Map(Id) == c
  {
  }

  /** Functor composition law. */
  lemma ContainerCompositionLaw<A, B, C>(c: Container<A>, g: A -> B, f: B -> C)
    ensures c.Map(g).Map(f) == c.Map(Compose(f, g))
  {
  }

  /** Mapping `f1`, then `f2`, ..., then `fn` is mapping once with
      `compose(fn, ..., f2, f1)`: composition runs right to left. */
  lemma {:induction false} ContainerMapAllIsCompose<T>(c: Container<T>, fs: seq<T -> T>)
    requires |fs| > 0
    ensures c.MapAll(fs) == c.Map(ComposeAll(Reversed(fs)))
    decreases |fs|
  {
    if |fs| == 1 {
      assert Reversed(fs[1..]) == [];
      assert Reversed(fs) == [fs[0]];
    } else {
      ContainerMapAllIsCompose(c.Map(fs[0]), fs[1..]);
      ComposeAllLastFirst(Reversed(fs[1..]), fs[0], c.value);
    }
  }

  // ---------------------------------------------------------------------
  // Maybe

  /** A JavaScript value that may be `null` or `undefined`; the two are one
      constructor here, since `Maybe` treats them alike. */
  datatype Nullable<T> = Null | Value(v: T)

  /** `new Maybe(x)`: holds a value that may be absent. */
  datatype Maybe<T> = Maybe(value: Nullable<T>) {

    /** `Maybe.of(x)`, where `x` may itself be `null`. */
    static function Of(x: Nullable<T>): Maybe<T>
    {
      Maybe(x)
    }

    /** `isNothing`: the held value is `null` or `undefined`. */
    predicate IsNothing()
    {
      value.Null?
    }

    /** `Maybe.prototype.map`: `Maybe.of(null)` when nothing is held,
        otherwise `Maybe.of(f(x))`. A JavaScript function may return `null`
        or `undefined` (reading a missing property), so `f` returns a
        `Nullable`. */
    function Map<U>(f: T -> Nullable<U>): (r: Maybe<U>)
      ensures r.IsNothing() <==> IsNothing() || f(value.v).Null?
    {
      if IsNothing() then Maybe<U>.Of(Null) else Maybe.Of(f(value.v))
    }

    /** `this.map(fs[0]).map(fs[1])...` */
    function MapAll(fs: seq<T -> Nullable<T>>): Maybe<T>
      decreases |fs|
    {
      if fs == [] then this else Map(fs[0]).MapAll(fs[1..])
    }
  }

  /** `isNothing` holds exactly when the held value is null or undefined. */
  lemma IsNothingIff<T>(x: Nullable<T>)
    ensures Maybe.Of(x).IsNothing() <==> x == Null
  {
  }

  /** On nothing, `map` yields `Maybe.of(null)` whatever `f` is: `f` is never
      consulted. */
  lemma MaybeMapNothing<T, U>(m: Maybe<T>, f: T -> Nullable<U>, g: T -> Nullable<U>)
    requires m.IsNothing()
    ensures m.Map(f) == Maybe<U>.Of(Null)
    ensures m.Map(f) == m.Map(g)
  {
  }

  /** On a present value, `map` yields `Maybe.of(f(x))`. */
  lemma MaybeMapPresent<T, U>(x: T, f: T -> Nullable<U>)
    ensures Maybe.Of(Value(x)).Map(f) == Maybe.Of(f(x))
  {
  }

  /** Functor identity law. */
  lemma MaybeIdentityLaw<T>(m: Maybe<T>)
    ensures m.Map(x => Value(x)) == m
  {
  }

  /** Functor composition law, for functions that never return null. */
  lemma MaybeCompositionLaw<A, B, C>(m: Maybe<A>, g: A -> B, f: B -> C)
    ensures m.Map(x => Value(g(x))).Map(y => Value(f(y))) == m.Map(x => Value(f(g(x))))
  {
  }

  /** The composition law that does hold when `g` may return null: the
      second function is skipped whenever the first yields nothing, so the
      single map must skip it too. */
  lemma MaybeNullAwareCompositionLaw<A, B, C>(m: Maybe<A>, g: A -> Nullable<B>, f: B -> Nullable<C>)
    ensures m.Map(g).Map(f) == m.Map(x => if g(x).Null? then Null else f(g(x).v))
  {
  }

  /** Why the plain law needs null-free functions: mapping `x => null` and
      then `x => 1` gives nothing, while one map with the function that
      sends everything to 1 gives 1. */
  lemma MaybeNullBreaksPlainLaw()
    ensures Maybe.Of(Value(5)).Map((x: int) => Null).Map((y: int) => Value(1)) == Maybe.Of(Null)
    ensures Maybe.Of(Value(5)).Map((x: int) => Value(1)) == Maybe.Of(Value(1))
  {
  }

  /** A chain can be cut anywhere: mapping `fs + gs` is mapping `fs` and
      then mapping `gs` over the result. */
  lemma {:induction false} MaybeMapAllConcat<T>(m: Maybe<T>, fs: seq<T -> Nullable<T>>, gs: seq<T -> Nullable<T>>)
    ensures m.MapAll(fs + gs) == m.MapAll(fs).MapAll(gs)
    decreases |fs|
  {
    if fs == [] {
      assert fs + gs == gs;
    } else {
      DropFirstOfConcat(fs, gs);
      MaybeMapAllConcat(m.Map(fs[0]), fs[1..], gs);
    }
  }

  /** Once nothing, always nothing: every later `map` of a chain yields
      `Maybe.of(null)`. */
  lemma {:induction false} MaybeNothingAbsorbs<T>(m: Maybe<T>, fs: seq<T -> Nullable<T>>)
    requires m.IsNothing()
    ensures m.MapAll(fs) == Maybe.Of(Null)
    decreases |fs|
  {
    if fs != [] {
      MaybeNothingAbsorbs(m.Map(fs[0]), fs[1..]);
    }
  }

  /** If any stage of a chain yields nothing, so does the whole chain. */
  lemma MaybeNothingPropagates<T>(m: Maybe<T>, fs: seq<T -> Nullable<T>>, k: nat)
    requires k <= |fs|
    requires m.MapAll(fs[..k]).IsNothing()
    ensures m.MapAll(fs).IsNothing()
  {
    SplitAt(fs, k);
    MaybeMapAllConcat(m, fs[..k], fs[k..]);
    MaybeNothingAbsorbs(m.MapAll(fs[..k]), fs[k..]);
  }

  /** A record with an optional `age` property. */
  datatype Person = Person(name: string, age: Nullable<int>)

  /** `Maybe.of({name: 'Bob', age: 22}).map(p => p.age).map(a => a + 10)`
      holds 32; for `{name: 'Simon'}`, which has no age, it holds null. */
  lemma MaybeAgeExample()
    ensures Maybe.Of(Value(Person("Bob", Value(22)))).Map((p: Person) => p.age).Map(a => Value(a + 10))
         == Maybe.Of(Value(32))
    ensures Maybe.Of(Value(Person("Simon", Null))).Map((p: Person) => p.age).Map(a => Value(a + 10))
         == Maybe.Of(Null)
  {
  }

  // ---------------------------------------------------------------------
  // Either: `Left` and `Right`

  /** A value tagged `Left` (a failure, with its explanation) or `Right`. */
  datatype LeftRight<L, R> = Left(left: L) | Right(right: R) {

    /** `Left.prototype.map` returns `this`; `Right.prototype.map` returns
        `Right.of(f(x))`. */
    function Map<U>(f: R -> U): LeftRight<L, U>
    {
      match this
      case Left(x) => Left(x)
      case Right(x) => Right(f(x))
    }

    /** `this.map(fs[0]).map(fs[1])...` */
    function MapAll(fs: seq<R -> R>): LeftRight<L, R>
      decreases |fs|
    {
      if fs == [] then this else Map(fs[0]).MapAll(fs[1..])
    }
  }

  /** `Either(f, g, e)`: `f` of the value of a `Left`, `g` of the value of a
      `Right`. */
  function Either<L, R, C>(f: L -> C, g: R -> C, e: LeftRight<L, R>): C
  {
    match e
    case Left(x) => f(x)
    case Right(x) => g(x)
  }

  /** `Left.map(f)` is the same `Left`, whatever `f` is. */
  lemma LeftMapUnchanged<L, R, U>(x: L, f: R -> U, g: R -> U)
    ensures Left(x).Map(f) == Left(x)
    ensures Left(x).Map(f) == Left(x).Map(g)
  {
  }

  /** `Right.of(x).map(f)` is a `Right` holding `f(x)`. */
  lemma RightMapApplies<L, R, U>(x: R, f: R -> U)
    ensures LeftRight<L, R>.Right(x).Map(f) == Right(f(x))
  {
  }

  /** Functor identity law. */
  lemma EitherIdentityLaw<L, R>(e: LeftRight<L, R>)
    ensures e.Map(Id) == e
  {
  }

  /** Functor composition law. */
  lemma EitherCompositionLaw<L, A, B, C>(e: LeftRight<L, A>, g: A -> B, f: B -> C)
    ensures e.Map(g).Map(f) == e.Map(Compose(f, g))
  {
  }

  /** The eliminator dispatches on the variant. */
  lemma EitherDispatch<L, R, C>(f: L -> C, g: R -> C, x: L, y: R)
    ensures Either(f, g, LeftRight<L, R>.Left(x)) == f(x)
    ensures Either(f, g, LeftRight<L, R>.Right(y)) == g(y)
  {
  }

  /** Eliminating after a `map` is eliminating with the mapped function
      composed into the `Right` case; the `Left` case is untouched. */
  lemma EitherAfterMap<L, R, U, C>(f: L -> C, g: U -> C, h: R -> U, e: LeftRight<L, R>)
    ensures Either(f, g, e.Map(h)) == Either(f, Compose(g, h), e)
  {
  }

  /** A `Left` stays the same `Left` through a whole chain of maps. */
  lemma {:induction false} LeftAbsorbs<L, R>(x: L, fs: seq<R -> R>)
    ensures LeftRight<L, R>.Left(x).MapAll(fs) == Left(x)
    decreases |fs|
  {
    if fs != [] {
      LeftAbsorbs<L, R>(x, fs[1..]);
    }
  }

  /** A `Right` goes through a chain of maps as through their composition. */
  lemma {:induction false} RightMapAllIsCompose<L, R>(x: R, fs: seq<R -> R>)
    requires |fs| > 0
    ensures LeftRight<L, R>.Right(x).MapAll(fs) == Right(ComposeAll(Reversed(fs))(x))
    decreases |fs|
  {
    if |fs| == 1 {
      assert Reversed(fs[1..]) == [];
      assert Reversed(fs) == [fs[0]];
    } else {
      RightMapAllIsCompose<L, R>(fs[0](x), fs[1..]);
      ComposeAllLastFirst(Reversed(fs[1..]), fs[0], x);
    }
  }

  /** `Right.of('rain').map(s => 'b' + s)` holds 'brain' and
      `Left.of('rain').map(s => 'b' + s)` still holds 'rain'. */
  lemma RainExample()
    ensures LeftRight<string, string>.Right("rain").Map(s => "b" + s) == Right("brain")
    ensures LeftRight<string, string>.Left("rain").Map(s => "b" + s) == Left("rain")
  {
    assert "b" + "rain" == "brain";
  }

  // ---------------------------------------------------------------------
  // IO

  /** `new IO(f)`: holds a deferred computation. The world that the
      zero-argument thunk of the source reads and changes is made an
      explicit state `S`: performing the effect takes the world before and
      returns the result with the world after. */
  datatype IO<!S, T> = IO(unsafePerformIO: S -> (T, S)) {

    /** `IO.of(x)`: a computation that returns `x` and has no effect. */
    static function Of(x: T): IO<S, T>
    {
      IO(s => (x, s))
    }

    /** `IO.prototype.map`: `new IO(compose(f, this.__value))`. Building it
        takes no world, so it cannot perform the held effect. */
    function Map<U>(f: T -> U): IO<S, U>
    {
      IO(Compose(OnResult(f), unsafePerformIO))
    }

    /** `this.map(fs[0]).map(fs[1])...` */
    function MapAll(fs: seq<T -> T>): IO<S, T>
      decreases |fs|
    {
      if fs == [] then this else Map(fs[0]).MapAll(fs[1..])
    }
  }

  /** Applies `f` to the result of an effect and passes the world on. */
  function OnResult<S, T, U>(f: T -> U): ((T, S)) -> (U, S)
  {
    (p: (T, S)) => (f(p.0), p.1)
  }

  /** `IO.of(x)` performs to `x` and leaves the world as it was. */
  lemma IOOfPerforms<S, T>(x: T, s: S)
    ensures IO<S, T>.Of(x).unsafePerformIO(s) == (x, s)
  {
  }

  /** `io.map(f)` performs the held effect once and applies `f` to its
      result. */
  lemma IOMapPerforms<S, T, U>(io: IO<S, T>, f: T -> U, s: S)
    ensures io.Map(f).unsafePerformIO(s)
         == (f(io.unsafePerformIO(s).0), io.unsafePerformIO(s).1)
  {
  }

  /** Functor identity law, observed by performing. */
  lemma IOIdentityLaw<S, T>(io: IO<S, T>, s: S)
    ensures io.Map(Id).unsafePerformIO(s) == io.unsafePerformIO(s)
  {
    var (v, s') := io.unsafePerformIO(s);
    assert io.Map(Id).unsafePerformIO(s) == (Id(v), s');
  }

  /** Functor composition law, observed by performing. */
  lemma IOCompositionLaw<S, A, B, C>(io: IO<S, A>, g: A -> B, f: B -> C, s: S)
    ensures io.Map(g).Map(f).unsafePerformIO(s) == io.Map(Compose(f, g)).unsafePerformIO(s)
  {
  }

  /** However long a chain of maps, performing it runs the held effect
      exactly once (the world afterwards is the one effect's) and applies the
      mapped functions in order. */
  lemma {:induction false} IOMapAllRunsOnce<S, T>(io: IO<S, T>, fs: seq<T -> T>, s: S)
    requires |fs| > 0
    ensures io.MapAll(fs).unsafePerformIO(s).1 == io.unsafePerformIO(s).1
    ensures io.MapAll(fs).unsafePerformIO(s).0
         == ComposeAll(Reversed(fs))(io.unsafePerformIO(s).0)
    decreases |fs|
  {
    var v := io.unsafePerformIO(s).0;
    if |fs| == 1 {
      assert Reversed(fs[1..]) == [];
      assert Reversed(fs) == [fs[0]];
    } else {
      IOMapAllRunsOnce(io.Map(fs[0]), fs[1..], s);
      ComposeAllLastFirst(Reversed(fs[1..]), fs[0], v);
    }
  }

  /** Performing is not memoised: an effect that reads and advances a
      counter gives a different result each time it is performed. */
  lemma IOPerformRepeats()
    ensures var tick := IO((n: int) => (n, n + 1));
            var (first, s1) := tick.unsafePerformIO(0);
            var (second, s2) := tick.unsafePerformIO(s1);
            first == 0 && second == 1 && s2 == 2
  {
  }
}
