/** The pointfree pipelines that the tests of currying.spec.js build from
    curried list functions and `compose`: `slice` and `take`, `filter` with an
    evenness test, `reduce` to a maximum, `fork` to an average, `shout`,
    `splitUpper` and `initials`. Each curried library call (`_.slice(0, 5)`, `_.filter(p)`)
    is a Dafny function that takes the supplied arguments and returns the
    function awaiting the last one. */
module Pointfree {
  import opened Currying

  // ---------------------------------------------------------------------
  // slice and take

  /** Where a `slice` offset lands in a sequence of length `len`: a negative
      offset counts from the end, and the offset is clamped to `0..len`. */
  function RelativeIndex(i: int, len: nat): (r: nat)
    ensures r <= len
    ensures 0 <= i <= len ==> r == i
    ensures i < 0 && -i <= len ==> r == len + i
    ensures i > len ==> r == len
    ensures i < 0 && -i > len ==> r == 0
  {
    if i < 0 then (if len + i < 0 then 0 else len + i)
    else if i > len then len
    else i
  }

  /** `_.slice(start, end)`: the elements from the start offset up to, but
      not including, the end offset; empty when the end lands before the
      start. */
  function Slice<T>(start: int, end: int): seq<T> -> seq<T>
  {
    s =>
      var from, to := RelativeIndex(start, |s|), RelativeIndex(end, |s|);
      if from < to then s[from..to] else []
  }

  /** `take = _.curry((charLimit, str) => _.slice(0, charLimit, str))`. */
  function Take(charLimit: int): string -> string
  {
    Slice(0, charLimit)
  }

  /** A non-negative limit keeps the first `charLimit` characters, or the
      whole string when it is shorter. */
  lemma TakeIsPrefix(charLimit: int, s: string)
    requires charLimit >= 0
    ensures var r := Take(charLimit)(s);
            |r| == (if charLimit < |s| then charLimit else |s|) && r == s[..|r|]
  {
  }

  /** A negative limit, as in JavaScript, drops that many characters from
      the end. */
  lemma TakeNegativeDropsFromEnd(charLimit: int, s: string)
    requires charLimit < 0
    ensures var r := Take(charLimit)(s);
            |r| == (if |s| + charLimit < 0 then 0 else |s| + charLimit) && r == s[..|r|]
  {
  }

  /** `_.slice(0, 5)('BobbaFett')` is 'Bobba' and `take(3)('Simon')` is 'Sim'. */
  lemma SliceExamples()
    ensures Slice(0, 5)("BobbaFett") == "Bobba"
    ensures Take(3)("Simon") == "Sim"
  {
    assert "BobbaFett"[0..5] == "Bobba";
    assert "Simon"[0..3] == "Sim";
  }

  // ---------------------------------------------------------------------
  // filter

  /** `_.filter(p, xs)`: the elements of `xs` that satisfy `p`, in order. */
  function Filter<T(!new)>(p: T -> bool, xs: seq<T>): (r: seq<T>)
    ensures forall x :: x in r <==> x in xs && p(x)
  {
    if xs == [] then []
    else if p(xs[0]) then [xs[0]] + Filter(p, xs[1..])
    else Filter(p, xs[1..])
  }

  /** Each element that satisfies `p` is kept as many times as it occurs,
      and no other element is kept. */
  lemma {:induction false} FilterCounts<T(!new)>(p: T -> bool, xs: seq<T>, x: T)
    ensures multiset(Filter(p, xs))[x] == if p(x) then multiset(xs)[x] else 0
    decreases |xs|
  {
    if xs != [] {
      assert xs == [xs[0]] + xs[1..];
      FilterCounts(p, xs[1..], x);
    }
  }

  /** Filtering a concatenation filters each part and keeps the parts in
      order; with the singleton cases this fixes the order of the result. */
  lemma {:induction false} FilterConcat<T(!new)>(p: T -> bool, xs: seq<T>, ys: seq<T>)
    ensures Filter(p, xs + ys) == Filter(p, xs) + Filter(p, ys)
    decreases |xs|
  {
    if xs == [] {
      assert xs + ys == ys;
    } else {
      assert (xs + ys)[0] == xs[0];
      assert (xs + ys)[1..] == xs[1..] + ys;
      FilterConcat(p, xs[1..], ys);
    }
  }

  lemma FilterSingleton<T(!new)>(p: T -> bool, x: T)
    ensures Filter(p, [x]) == if p(x) then [x] else []
  {
    assert [x][1..] == [];
  }

  /** `x % 2` in JavaScript: the remainder takes the sign of the dividend. */
  function JsRemTwo(x: int): (r: int)
    ensures -1 <= r <= 1
    ensures r == 0 <==> x % 2 == 0
    ensures r != 0 ==> (x > 0 <==> r > 0)
  {
    if x >= 0 then x % 2 else -((-x) % 2)
  }

  /** `x => x % 2 === 0`. */
  predicate IsEven(x: int)
  {
    JsRemTwo(x) == 0
  }

  /** The JavaScript test accepts exactly the multiples of two, negative ones
      included. */
  lemma IsEvenIff(x: int)
    ensures IsEven(x) <==> exists k :: x == 2 * k
  {
    if IsEven(x) {
      assert x == 2 * (x / 2);
    }
  }

  /** `filterEven` and its pointfree form `_.filter(x => x % 2 === 0)`. */
  function FilterEven(xs: seq<int>): seq<int>
  {
    Filter(IsEven, xs)
  }

  /** `filterEven([1, 2, 3, 4])` is `[2, 4]`. */
  lemma FilterEvenExample()
    ensures FilterEven([1, 2, 3, 4]) == [2, 4]
  {
    FilterEvenOddThenEven(1);
    FilterEvenOddThenEven(3);
    assert [1, 2, 3, 4] == [1, 2] + [3, 4];
    FilterConcat(IsEven, [1, 2], [3, 4]);
  }

  lemma FilterEvenOddThenEven(k: int)
    requires k % 2 == 1
    ensures Filter(IsEven, [k, k + 1]) == [k + 1]
  {
    assert [k, k + 1] == [k] + [k + 1];
    FilterConcat(IsEven, [k], [k + 1]);
    FilterSingleton(IsEven, k);
    FilterSingleton(IsEven, k + 1);
  }

  // ---------------------------------------------------------------------
  // reduce and max

  /** `_.reduce(f, acc, xs)`: folds `xs` from the left. */
  function Reduce<A, T>(f: (A, T) -> A, acc: A, xs: seq<T>): A
    decreases |xs|
  {
    if xs == [] then acc else Reduce(f, f(acc, xs[0]), xs[1..])
  }

  /** An integer or the `-Infinity` that seeds `max`. */
  datatype ExtInt = NegInf | Fin(n: int)

  /** `x >= y` with `-Infinity` below every integer. */
  predicate AtLeast(x: ExtInt, y: int)
  {
    x.Fin? && x.n >= y
  }

  /** `_keepHighest(acc, x)`: `acc` if `acc >= x`, otherwise `x`. */
  function KeepHighest(acc: ExtInt, x: int): ExtInt
  {
    if AtLeast(acc, x) then acc else Fin(x)
  }

  /** `max = _.reduce((acc, x) => _keepHighest(acc, x), -Infinity)`. */
  function Max(xs: seq<int>): ExtInt
  {
    Reduce(KeepHighest, NegInf, xs)
  }

  /** Folding `KeepHighest` from any seed gives the seed or an element of
      `xs`, and a value at least every element and at least the seed. */
  lemma {:induction false} KeepHighestFold(acc: ExtInt, xs: seq<int>)
    ensures var r := Reduce(KeepHighest, acc, xs);
            && (r == acc || (r.Fin? && r.n in xs))
            && (acc.Fin? ==> AtLeast(r, acc.n))
            && (forall i :: 0 <= i < |xs| ==> AtLeast(r, xs[i]))
    decreases |xs|
  {
    if xs != [] {
      var next := KeepHighest(acc, xs[0]);
      KeepHighestFold(next, xs[1..]);
      var r := Reduce(KeepHighest, acc, xs);
      assert r == Reduce(KeepHighest, next, xs[1..]);
      forall i | 0 <= i < |xs| ensures AtLeast(r, xs[i]) {
        if i > 0 {
          assert xs[i] == xs[1..][i - 1];
        }
      }
    }
  }

  /** `max` of an empty list is `-Infinity`; of any other list it is an
      element of the list that is at least every element. */
  lemma MaxIsGreatest(xs: seq<int>)
    ensures Max(xs) == NegInf <==> xs == []
    ensures xs != [] ==> Max(xs).Fin? && Max(xs).n in xs
    ensures forall i :: 0 <= i < |xs| ==> AtLeast(Max(xs), xs[i])
  {
    KeepHighestFold(NegInf, xs);
    if xs != [] {
      assert AtLeast(Max(xs), xs[0]);
    }
  }

  /** `max([1, 5, 3, 200, -4])` is 200 and `max2([1, 5, 3, 2, -4000, 6, 1, 54])`
      is 54. */
  lemma MaxExamples()
    ensures Max([1, 5, 3, 200, -4]) == Fin(200)
    ensures Max([1, 5, 3, 2, -4000, 6, 1, 54]) == Fin(54)
  {
    var a, b := [1, 5, 3, 200, -4], [1, 5, 3, 2, -4000, 6, 1, 54];
    MaxIsGreatest(a);
    assert AtLeast(Max(a), a[3]);
    MaxIsGreatest(b);
    assert AtLeast(Max(b), b[7]);
  }

  // ---------------------------------------------------------------------
  // fork and avg

  /** `fork(lastly, f, g)`: the function of `x` that passes `f(x)` and
      `g(x)` to `lastly`. */
  function Fork<A, B, C, D>(lastly: (B, C) -> D, f: A -> B, g: A -> C): A -> D
  {
    x => lastly(f(x), g(x))
  }

  lemma ForkApplies<A, B, C, D>(lastly: (B, C) -> D, f: A -> B, g: A -> C, x: A)
    ensures Fork(lastly, f, g)(x) == lastly(f(x), g(x))
  {
  }

  /** `_.sum`. */
  function Sum(xs: seq<int>): int
  {
    if xs == [] then 0 else xs[0] + Sum(xs[1..])
  }

  lemma {:induction false} SumConcat(xs: seq<int>, ys: seq<int>)
    ensures Sum(xs + ys) == Sum(xs) + Sum(ys)
    decreases |xs|
  {
    if xs == [] {
      assert xs + ys == ys;
    } else {
      assert (xs + ys)[0] == xs[0];
      assert (xs + ys)[1..] == xs[1..] + ys;
      SumConcat(xs[1..], ys);
    }
  }

  /** `_.length`. */
  function Length(xs: seq<int>): int
  {
    |xs|
  }

  /** What `_.divide(a, b)` is asked to compute, kept as the exact quotient
      `a / b` rather than as a floating-point number. */
  datatype Quotient = Quotient(dividend: int, divisor: int) {
    /** The quotient is the integer `n`. */
    predicate Is(n: int)
    {
      divisor != 0 && dividend == n * divisor
    }
  }

  function Divide(a: int, b: int): Quotient
  {
    Quotient(a, b)
  }

  /** `avg = fork(_.divide, _.sum, _.length)`. */
  function Avg(xs: seq<int>): Quotient
  {
    Fork(Divide, Sum, Length)(xs)
  }

  /** If every element lies in `lo..hi`, so does the sum divided by the
      length. */
  lemma {:induction false} SumBounds(xs: seq<int>, lo: int, hi: int)
    requires forall i :: 0 <= i < |xs| ==> lo <= xs[i] <= hi
    ensures lo * |xs| <= Sum(xs) <= hi * |xs|
    decreases |xs|
  {
    if xs != [] {
      var tail := xs[1..];
      forall i | 0 <= i < |tail| ensures lo <= tail[i] <= hi {
        assert tail[i] == xs[i + 1];
      }
      SumBounds(tail, lo, hi);
      MulSucc(lo, |tail|);
      MulSucc(hi, |tail|);
    }
  }

  lemma MulSucc(a: int, n: nat)
    ensures a * (n + 1) == a * n + a
  {
  }

  /** The average of a non-empty list divides its sum by its length and lies
      between its least and greatest element. */
  lemma AvgIsMean(xs: seq<int>, lo: int, hi: int)
    requires xs != []
    requires forall i :: 0 <= i < |xs| ==> lo <= xs[i] <= hi
    ensures Avg(xs) == Quotient(Sum(xs), |xs|)
    ensures lo * Avg(xs).divisor <= Avg(xs).dividend <= hi * Avg(xs).divisor
  {
    assert Avg(xs) == Divide(Sum(xs), Length(xs));
    SumBounds(xs, lo, hi);
  }

  /** `avg([1, 2, 3, 4, 5])` is 3. */
  lemma AvgExample()
    ensures Avg([1, 2, 3, 4, 5]).Is(3)
  {
    var xs := [1, 2, 3, 4, 5];
    assert Avg(xs) == Divide(Sum(xs), Length(xs));
    assert Sum(xs) == 15 by {
      assert xs == [1, 2] + [3, 4, 5];
      SumConcat([1, 2], [3, 4, 5]);
    }
    assert 15 == 3 * 5;
  }

  // ---------------------------------------------------------------------
  // strings: toUpperCase, exclaim, shout

  /** The lower-case ASCII letters and their upper-case partners, index by
      index. */
  const Lowers: string := "abcdefghijklmnopqrstuvwxyz"
  const Uppers: string := "ABCDEFGHIJKLMNOPQRSTUVWXYZ"

  /** Upper case of one character: the ASCII letters `a`..`z` only. */
  function UpperChar(c: char): char
  {
    if 'a' <= c <= 'z' then (c as int - 32) as char else c
  }

  /** `x.toUpperCase()` and `_.toUpper`. */
  function ToUpper(s: string): (r: string)
    ensures |r| == |s|
    ensures forall i, k :: 0 <= i < |s| && 0 <= k < |Lowers| && s[i] == Lowers[k] ==>
              r[i] == Uppers[k]
    ensures forall i :: 0 <= i < |s| && !('a' <= s[i] <= 'z') ==> r[i] == s[i]
    ensures forall i :: 0 <= i < |r| ==> !('a' <= r[i] <= 'z')
  {
    seq(|s|, i requires 0 <= i < |s| => UpperChar(s[i]))
  }

  /** Upper-casing twice is upper-casing once. */
  lemma ToUpperIdempotent(s: string)
    ensures ToUpper(ToUpper(s)) == ToUpper(s)
  {
  }

  /** `exclaim = x => x + '!'`. */
  function Exclaim(s: string): string
  {
    s + "!"
  }

  /** `shout = _.compose(exclaim, toUpperCase)`. */
  function Shout(): string -> string
  {
    Compose(Exclaim, ToUpper)
  }

  /** `shout('hi there')` is 'HI THERE!': upper-casing runs first. */
  lemma ShoutExample()
    ensures Shout()("hi there") == "HI THERE!"
  {
    var u := ToUpper("hi there");
    assert u[0] == 'H' && u[1] == 'I' && u[2] == ' ' && u[3] == 'T';
    assert u[4] == 'H' && u[5] == 'E' && u[6] == 'R' && u[7] == 'E';
    assert u == "HI THERE";
    assert Shout()("hi there") == Exclaim(u);
  }

  // ---------------------------------------------------------------------
  // split, join, head and initials

  /** `_.split(sep)` with a one-character separator: the pieces between the
      occurrences of `sep`; there is always at least one piece, and no piece
      contains `sep`. */
  function Split(sep: char, s: string): (r: seq<string>)
    ensures |r| > 0
    ensures forall i :: 0 <= i < |r| ==> sep !in r[i]
  {
    if s == [] then [[]]
    else
      var rest := Split(sep, s[1..]);
      if s[0] == sep then [[]] + rest
      else [[s[0]] + rest[0]] + rest[1..]
  }

  /** `_.join(sep)`: the pieces with `sep` between each two. */
  function Join(sep: string, parts: seq<string>): string
    decreases |parts|
  {
    if parts == [] then []
    else if |parts| == 1 then parts[0]
    else parts[0] + sep + Join(sep, parts[1..])
  }

  /** A string without the separator is a single piece. */
  lemma {:induction false} SplitWithoutSep(sep: char, w: string)
    requires sep !in w
    ensures Split(sep, w) == [w]
    decreases |w|
  {
    if w != [] {
      assert w[0] in w;
      SplitWithoutSep(sep, w[1..]);
      assert [w[0]] + w[1..] == w;
    }
  }

  /** A word followed by the separator is the first piece, and splitting
      goes on after the separator. */
  lemma {:induction false} SplitWordThenSep(sep: char, w: string, rest: string)
    requires sep !in w
    ensures Split(sep, w + [sep] + rest) == [w] + Split(sep, rest)
    decreases |w|
  {
    var s := w + [sep] + rest;
    if w == [] {
      assert s == [sep] + rest;
      assert s[1..] == rest;
    } else {
      assert s[1..] == w[1..] + [sep] + rest;
      SplitWordThenSep(sep, w[1..], rest);
      assert [w[0]] + w[1..] == w;
    }
  }

  /** Joining the pieces with the separator gives back the string. */
  lemma {:induction false} JoinSplit(sep: char, s: string)
    ensures Join([sep], Split(sep, s)) == s
    decreases |s|
  {
    if s != [] {
      var rest := Split(sep, s[1..]);
      JoinSplit(sep, s[1..]);
      if s[0] == sep {
        assert Split(sep, s) == [[]] + rest;
        assert Join([sep], [[]] + rest) == [] + [sep] + Join([sep], rest);
      } else {
        var parts := [[s[0]] + rest[0]] + rest[1..];
        assert parts[1..] == rest[1..];
        if |rest| == 1 {
          assert Join([sep], parts) == [s[0]] + rest[0];
        } else {
          assert Join([sep], rest) == rest[0] + [sep] + Join([sep], rest[1..]);
          assert Join([sep], parts) == [s[0]] + rest[0] + [sep] + Join([sep], rest[1..]);
        }
      }
    }
  }

  /** Splitting pieces joined with the separator gives back the pieces, when
      no piece contains the separator. */
  lemma {:induction false} SplitJoin(sep: char, parts: seq<string>)
    requires |parts| > 0
    requires forall i :: 0 <= i < |parts| ==> sep !in parts[i]
    ensures Split(sep, Join([sep], parts)) == parts
    decreases |parts|
  {
    if |parts| == 1 {
      SplitWithoutSep(sep, parts[0]);
    } else {
      SplitJoin(sep, parts[1..]);
      SplitWordThenSep(sep, parts[0], Join([sep], parts[1..]));
    }
  }

  /** `_.head` of a string: its first character, or '' when it is empty. */
  function Head(s: string): (r: string)
    ensures r <= s
    ensures |r| == if s == [] then 0 else 1
  {
    if s == [] then [] else [s[0]]
  }

  /** `_.map(f, xs)`. */
  function MapEach<A, B>(f: A -> B, xs: seq<A>): seq<B>
  {
    seq(|xs|, i requires 0 <= i < |xs| => f(xs[i]))
  }

  /** Mapping a concatenation maps each part and keeps the parts in order;
      mapping one element applies `f` to it. */
  lemma MapEachConcat<A, B>(f: A -> B, xs: seq<A>, ys: seq<A>)
    ensures MapEach(f, xs + ys) == MapEach(f, xs) + MapEach(f, ys)
    ensures |MapEach(f, xs)| == |xs|
  {
  }

  lemma MapEachSingleton<A, B>(f: A -> B, x: A)
    ensures MapEach(f, [x]) == [f(x)]
  {
  }

  /** `splitUpper = _.compose(_.map(_.toUpper), _.split(' '))`. */
  function SplitUpper(): string -> seq<string>
  {
    Compose((ws: seq<string>) => MapEach(ToUpper, ws), (s: string) => Split(' ', s))
  }

  /** For words without spaces joined by single spaces, `splitUpper` gives
      the words upper-cased, in order. */
  lemma SplitUpperOfWords(words: seq<string>)
    requires |words| > 0
    requires forall i :: 0 <= i < |words| ==> ' ' !in words[i]
    ensures SplitUpper()(Join(" ", words)) == MapEach(ToUpper, words)
  {
    SplitJoin(' ', words);
  }

  /** `splitUpper('mary had a little ramb')` is
      `['MARY', 'HAD', 'A', 'LITTLE', 'RAMB']`. */
  lemma SplitUpperExample()
    ensures SplitUpper()("mary had a little ramb") == ["MARY", "HAD", "A", "LITTLE", "RAMB"]
  {
    var words := ["mary", "had", "a", "little", "ramb"];
    JoinFive(" ", words);
    assert "mary" + " " + "had" + " " + "a" + " " + "little" + " " + "ramb" == "mary had a little ramb";
    SplitUpperOfWords(words);
    UpperWords();
  }

  lemma JoinFive(sep: string, ws: seq<string>)
    requires |ws| == 5
    ensures Join(sep, ws) == ws[0] + sep + ws[1] + sep + ws[2] + sep + ws[3] + sep + ws[4]
  {
    JoinThree(sep, ws[2], ws[3], ws[4]);
    assert ws[2..] == [ws[2], ws[3], ws[4]];
    assert ws[1..][1..] == ws[2..];
    assert Join(sep, ws[1..]) == ws[1] + sep + Join(sep, ws[2..]);
  }

  lemma UpperWords()
    ensures MapEach(ToUpper, ["mary", "had", "a", "little", "ramb"]) == ["MARY", "HAD", "A", "LITTLE", "RAMB"]
  {
    var u := MapEach(ToUpper, ["mary", "had", "a", "little", "ramb"]);
    assert u[0] == ToUpper("mary") == "MARY";
    assert u[1] == ToUpper("had") == "HAD";
    assert u[2] == ToUpper("a") == "A";
    assert u[3] == ToUpper("little") == "LITTLE";
    assert u[4] == ToUpper("ramb") == "RAMB";
  }

  /** `initials = _.compose(_.join('. '), _.map(_.compose(_.toUpper, _.head)),
      _.split(' '))`; the three-argument compose is written as two nested
      binary ones, which is the same function by `ComposeAssociative`. */
  function Initials(): string -> string
  {
    Compose((ws: seq<string>) => Join(". ", ws),
            Compose((ws: seq<string>) => MapEach(Compose(ToUpper, Head), ws),
                    (s: string) => Split(' ', s)))
  }

  /** For words without spaces joined by single spaces, `initials` joins the
      upper-cased first letters of the words with '. '. */
  lemma InitialsOfWords(words: seq<string>)
    requires |words| > 0
    requires forall i :: 0 <= i < |words| ==> ' ' !in words[i]
    ensures Initials()(Join(" ", words)) == Join(". ", MapEach(Compose(ToUpper, Head), words))
  {
    SplitJoin(' ', words);
  }

  /** `initials('simon phillip kerr')` is 'S. P. K'. */
  lemma InitialsExample()
    ensures Initials()("simon phillip kerr") == "S. P. K"
  {
    var words := ["simon", "phillip", "kerr"];
    JoinThree(" ", "simon", "phillip", "kerr");
    assert "simon" + " " + "phillip" + " " + "kerr" == "simon phillip kerr";
    InitialsOfWords(words);
    InitialLetters();
    JoinThree(". ", "S", "P", "K");
    assert "S" + ". " + "P" + ". " + "K" == "S. P. K";
  }

  lemma JoinThree(sep: string, a: string, b: string, c: string)
    ensures Join(sep, [a, b, c]) == a + sep + b + sep + c
  {
    assert [a, b, c][1..] == [b, c];
    assert [b, c][1..] == [c];
    assert Join(sep, [b, c]) == b + sep + c;
    assert Join(sep, [a, b, c]) == a + sep + (b + sep + c);
  }

  lemma InitialLetters()
    ensures MapEach(Compose(ToUpper, Head), ["simon", "phillip", "kerr"]) == ["S", "P", "K"]
  {
    var letters := MapEach(Compose(ToUpper, Head), ["simon", "phillip", "kerr"]);
    assert letters[0] == ToUpper(Head("simon")) == ToUpper("s") == "S";
    assert letters[1] == ToUpper(Head("phillip")) == ToUpper("p") == "P";
    assert letters[2] == ToUpper(Head("kerr")) == ToUpper("k") == "K";
  }
}
