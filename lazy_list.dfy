/** The persistent list of rust/lazy_list.rs, as what full forcing yields.

    In the source every node of a list sits behind a thunk, so `map`,
    `append`, `join`, `bind` and `prod` build their results node by node on
    demand.  For a finite list, forcing every node gives the same list as
    the strict definitions below, and that finite list is what this module
    describes: the list operations are functions over `List`, and the facts
    proved about them (concatenation, flattening, the monad laws, the size,
    contents and order of the Cartesian product, the printed form) are facts
    about the fully forced result. */
module LazyList {
  import Thunks

  datatype List<T> = Nil | Cons(head: T, tail: List<T>)

  /** The elements of a list, first to last. */
  function Elements<T>(l: List<T>): seq<T>
  {
    match l
    case Nil => []
    case Cons(x, xs) => [x] + Elements(xs)
  }

  /** Lists with the same elements are the same list. */
  lemma {:induction false} ElementsInjective<T>(a: List<T>, b: List<T>)
    requires Elements(a) == Elements(b)
    ensures a == b
  {
    match a
    case Nil =>
    case Cons(x, xs) =>
      assert Elements(b)[0] == x && Elements(b)[1..] == Elements(xs);
      ElementsInjective(xs, b.tail);
  }

  /** The `list!` macro: the list holding the given elements in order. */
  function FromSeq<T>(s: seq<T>): (r: List<T>)
    ensures Elements(r) == s
  {
    if s == [] then Nil else Cons(s[0], FromSeq(s[1..]))
  }

  /** `list!` of a list's elements rebuilds that list. */
  lemma FromSeqOfElements<T>(l: List<T>)
    ensures FromSeq(Elements(l)) == l
  {
    ElementsInjective(FromSeq(Elements(l)), l);
  }

  /** `pure(value)` is `cons(value, nil())`: the one-element list. */
  function Pure<T>(v: T): (r: List<T>)
    ensures Elements(r) == [v]
  {
    Cons(v, Nil)
  }

  /** `map` and `map_strict`: `f` applied to every element, in order. */
  function Map<T, U>(l: List<T>, f: T -> U): (r: List<U>)
    ensures |Elements(r)| == |Elements(l)|
    ensures forall i :: 0 <= i < |Elements(l)| ==> Elements(r)[i] == f(Elements(l)[i])
  {
    match l
    case Nil => Nil
    case Cons(x, xs) => Cons(f(x), Map(xs, f))
  }

  /** `append`: the elements of `l`, then those of `tail`. */
  function Append<T>(l: List<T>, tail: List<T>): (r: List<T>)
    ensures Elements(r) == Elements(l) + Elements(tail)
  {
    match l
    case Nil => tail
    case Cons(x, xs) => Cons(x, Append(xs, tail))
  }

  /** Concatenation of a sequence of sequences, as a reference for `join`. */
  ghost function Concat<T>(ss: seq<seq<T>>): seq<T>
  {
    if ss == [] then [] else ss[0] + Concat(ss[1..])
  }

  /** The elements of every inner list, outer order kept. */
  ghost function Nested<T>(xss: List<List<T>>): seq<seq<T>>
  {
    match xss
    case Nil => []
    case Cons(xs, rest) => [Elements(xs)] + Nested(rest)
  }

  /** `join`: the inner lists one after the other. */
  function Join<T>(xss: List<List<T>>): (r: List<T>)
    ensures Elements(r) == Concat(Nested(xss))
  {
    match xss
    case Nil => Nil
    case Cons(xs, rest) =>
      var r := Append(xs, Join(rest));
      assert ([Elements(xs)] + Nested(rest))[1..] == Nested(rest);
      r
  }

  /** The elements of `f` of each element of `s`, one after the other: a
      reference for `bind` on sequences. */
  ghost function ConcatMap<T, U>(s: seq<T>, f: T -> List<U>): seq<U>
  {
    if s == [] then [] else Elements(f(s[0])) + ConcatMap(s[1..], f)
  }

  /** Mapping and then joining lays out the results of `f` in list order. */
  lemma {:induction false} JoinMapElements<T, U>(l: List<T>, f: T -> List<U>)
    ensures Elements(Join(Map(l, f))) == ConcatMap(Elements(l), f)
  {
    match l
    case Nil =>
    case Cons(x, xs) =>
      JoinMapElements(xs, f);
      assert Elements(l)[0] == x && Elements(l)[1..] == Elements(xs);
  }

  /** `bind(f)` is `map(f)` followed by `join`: the results of `f` on the
      elements, in order. */
  function Bind<T, U>(l: List<T>, f: T -> List<U>): (r: List<U>)
    ensures Elements(r) == ConcatMap(Elements(l), f)
  {
    JoinMapElements(l, f);
    Join(Map(l, f))
  }

  /** `bind` on a non-empty list: `f` of the head, then the bind of the tail. */
  lemma BindCons<T, U>(x: T, xs: List<T>, f: T -> List<U>)
    ensures Bind(Cons(x, xs), f) == Append(f(x), Bind(xs, f))
  {
  }

  lemma {:induction false} AppendNil<T>(l: List<T>)
    ensures Append(l, Nil) == l && Append(Nil, l) == l
  {
    ElementsInjective(Append(l, Nil), l);
  }

  lemma {:induction false} AppendAssoc<T>(a: List<T>, b: List<T>, c: List<T>)
    ensures Append(Append(a, b), c) == Append(a, Append(b, c))
  {
    ElementsInjective(Append(Append(a, b), c), Append(a, Append(b, c)));
  }

  /** Binding distributes over appending. */
  lemma {:induction false} BindAppend<T, U>(a: List<T>, b: List<T>, g: T -> List<U>)
    ensures Bind(Append(a, b), g) == Append(Bind(a, g), Bind(b, g))
  {
    match a
    case Nil =>
    case Cons(x, xs) =>
      calc {
        Bind(Append(a, b), g);
        Append(g(x), Bind(Append(xs, b), g));
        { BindAppend(xs, b, g); }
        Append(g(x), Append(Bind(xs, g), Bind(b, g)));
        { AppendAssoc(g(x), Bind(xs, g), Bind(b, g)); }
        Append(Bind(a, g), Bind(b, g));
      }
  }

  /** Monad law: binding a one-element list is applying the function. */
  lemma BindPureLeft<T, U>(x: T, f: T -> List<U>)
    ensures Bind(Pure(x), f) == f(x)
  {
    AppendNil(f(x));
  }

  /** Monad law: binding with `pure` gives the list back. */
  lemma {:induction false} BindPureRight<T>(l: List<T>)
    ensures Bind(l, Pure) == l
  {
    match l
    case Nil =>
    case Cons(x, xs) =>
      BindCons(x, xs, Pure);
      BindPureRight(xs);
  }

  /** Monad law: nested binds may be regrouped. */
  lemma {:induction false} BindAssoc<T, U, V>(l: List<T>, f: T -> List<U>, g: U -> List<V>)
    ensures Bind(Bind(l, f), g) == Bind(l, x => Bind(f(x), g))
  {
    match l
    case Nil =>
    case Cons(x, xs) =>
      calc {
        Bind(Bind(l, f), g);
        Bind(Append(f(x), Bind(xs, f)), g);
        { BindAppend(f(x), Bind(xs, f), g); }
        Append(Bind(f(x), g), Bind(Bind(xs, f), g));
        { BindAssoc(xs, f, g); }
        Append(Bind(f(x), g), Bind(xs, x => Bind(f(x), g)));
        Bind(l, x => Bind(f(x), g));
      }
  }

  /** The choices `p`, each with `k` put in front. */
  function Prepend<T>(k: T, p: List<List<T>>): (r: List<List<T>>)
    ensures |Elements(r)| == |Elements(p)|
    ensures forall i :: 0 <= i < |Elements(p)| ==> Elements(r)[i] == Cons(k, Elements(p)[i])
  {
    Map(p, (cs: List<T>) => Cons(k, cs))
  }

  /** A list is among the prepended choices exactly when it starts with `k`
      and goes on with one of the choices. */
  lemma PrependMember<T>(k: T, p: List<List<T>>, cs: List<T>)
    ensures cs in Elements(Prepend(k, p)) <==> cs.Cons? && cs.head == k && cs.tail in Elements(p)
  {
    if cs in Elements(Prepend(k, p)) {
      var j :| 0 <= j < |Elements(Prepend(k, p))| && Elements(Prepend(k, p))[j] == cs;
      assert cs == Cons(k, Elements(p)[j]);
    }
    if cs.Cons? && cs.head == k && cs.tail in Elements(p) {
      var j :| 0 <= j < |Elements(p)| && Elements(p)[j] == cs.tail;
      assert Elements(Prepend(k, p))[j] == cs;
    }
  }

  /** `prod`: the Cartesian product, one element taken from each inner list.
      For the empty outer list there is one choice, the empty one; otherwise
      every `k` of the first inner list, in order, is put in front of every
      choice for the remaining lists. */
  function Prod<T>(xss: List<List<T>>): (r: List<List<T>>)
    ensures |Elements(r)| == LengthsProduct(xss)
  {
    match xss
    case Nil => Pure(Nil)
    case Cons(xs, rest) =>
      var p := Prod(rest);
      BindLength(xs, k => Prepend(k, p), |Elements(p)|);
      Bind(xs, k => Prepend(k, p))
  }

  /** The number of choice lists: the product of the inner lengths. */
  function LengthsProduct<T>(xss: List<List<T>>): nat
  {
    match xss
    case Nil => 1
    case Cons(xs, rest) => |Elements(xs)| * LengthsProduct(rest)
  }

  /** When `f` always yields `n` elements, the bind has `n` elements per
      element of the list. */
  lemma {:induction false} BindLength<T, U>(l: List<T>, f: T -> List<U>, n: nat)
    requires forall x :: |Elements(f(x))| == n
    ensures |Elements(Bind(l, f))| == |Elements(l)| * n
  {
    match l
    case Nil =>
    case Cons(x, xs) =>
      BindCons(x, xs, f);
      BindLength(xs, f, n);
      var m := |Elements(xs)|;
      assert |Elements(Bind(l, f))| == n + m * n;
      assert |Elements(l)| == 1 + m;
      MulSucc(m, n);
  }

  lemma MulSucc(m: nat, n: nat)
    ensures (1 + m) * n == n + m * n
  {
  }

  lemma UniformAt<T, U>(f: T -> List<U>, n: nat, y: T)
    requires forall x :: |Elements(f(x))| == n
    ensures |Elements(f(y))| == n
  {
  }

  /** When `f` always yields `n` elements, the bind lays their results out in
      consecutive blocks of `n`: block `i` is `f` of the `i`-th element. */
  lemma {:induction false} BindBlocks<T, U>(l: List<T>, f: T -> List<U>, n: nat, i: nat, j: nat)
    requires forall x :: |Elements(f(x))| == n
    requires i < |Elements(l)| && j < n
    ensures |Elements(f(Elements(l)[i]))| == n
    ensures i * n + j < |Elements(Bind(l, f))|
    ensures Elements(Bind(l, f))[i * n + j] == Elements(f(Elements(l)[i]))[j]
    decreases l, 1
  {
    match l
    case Cons(x, xs) =>
      if i == 0 {
        FirstBlock(x, xs, f, n, j);
      } else {
        LaterBlock(x, xs, f, n, i, j);
      }
  }

  /** Block 0 of a bind on `x :: xs` is `f(x)`. */
  lemma FirstBlock<T, U>(x: T, xs: List<T>, f: T -> List<U>, n: nat, j: nat)
    requires forall x :: |Elements(f(x))| == n
    requires j < n
    ensures j < |Elements(Bind(Cons(x, xs), f))|
    ensures Elements(Bind(Cons(x, xs), f))[j] == Elements(f(x))[j]
  {
    BindCons(x, xs, f);
    UniformAt(f, n, x);
    assert Elements(Bind(Cons(x, xs), f)) == Elements(f(x)) + Elements(Bind(xs, f));
  }

  /** Block `i` of a bind on `x :: xs`, for `i > 0`, is block `i - 1` of the
      bind on `xs`. */
  lemma {:induction false} LaterBlock<T, U>(x: T, xs: List<T>, f: T -> List<U>, n: nat, i: nat, j: nat)
    requires forall x :: |Elements(f(x))| == n
    requires 0 < i <= |Elements(xs)| && j < n
    ensures |Elements(f(Elements(xs)[i - 1]))| == n
    ensures i * n + j < |Elements(Bind(Cons(x, xs), f))|
    ensures Elements(Bind(Cons(x, xs), f))[i * n + j] == Elements(f(Elements(xs)[i - 1]))[j]
    decreases Cons(x, xs), 0
  {
    BindCons(x, xs, f);
    UniformAt(f, n, x);
    BindBlocks(xs, f, n, i - 1, j);
    ShiftIndex(i, n, j);
    IndexAfter(Elements(f(x)), Elements(Bind(xs, f)), (i - 1) * n + j);
  }

  lemma ShiftIndex(i: nat, n: nat, j: nat)
    requires 0 < i
    ensures i * n + j == n + ((i - 1) * n + j)
  {
  }

  /** Index `|front| + k` of `front + back` is index `k` of `back`. */
  lemma IndexAfter<U>(front: seq<U>, back: seq<U>, k: nat)
    requires k < |back|
    ensures |front| + k < |front + back| && (front + back)[|front| + k] == back[k]
  {
  }

  /** The order of the product: the first inner list varies slowest.  With
      `n` choices for the remaining lists, entry `i * n + j` of the product is
      the `i`-th element of the first list in front of the `j`-th choice. */
  lemma ProdOrder<T>(xs: List<T>, rest: List<List<T>>, i: nat, j: nat)
    requires i < |Elements(xs)| && j < |Elements(Prod(rest))|
    ensures i * |Elements(Prod(rest))| + j < |Elements(Prod(Cons(xs, rest)))|
    ensures Elements(Prod(Cons(xs, rest)))[i * |Elements(Prod(rest))| + j] ==
            Cons(Elements(xs)[i], Elements(Prod(rest))[j])
  {
    var p := Prod(rest);
    var f := k => Prepend(k, p);
    BindBlocks(xs, f, |Elements(p)|, i, j);
  }

  /** `cs` takes one element from each inner list, in the inner lists' order. */
  ghost predicate IsChoice<T>(cs: List<T>, xss: List<List<T>>)
  {
    match xss
    case Nil => cs.Nil?
    case Cons(xs, rest) => cs.Cons? && cs.head in Elements(xs) && IsChoice(cs.tail, rest)
  }

  /** An element of a bind comes from `f` of some element of the list. */
  lemma {:induction false} BindMember<T, U>(l: List<T>, f: T -> List<U>, y: U)
    ensures y in Elements(Bind(l, f)) <==> exists x :: x in Elements(l) && y in Elements(f(x))
  {
    match l
    case Nil =>
    case Cons(x, xs) =>
      BindCons(x, xs, f);
      BindMember(xs, f, y);
      assert Elements(l) == [x] + Elements(xs);
  }

  /** The product holds exactly the choice lists. */
  lemma {:induction false} ProdMember<T>(xss: List<List<T>>, cs: List<T>)
    ensures cs in Elements(Prod(xss)) <==> IsChoice(cs, xss)
  {
    match xss
    case Nil =>
    case Cons(xs, rest) =>
      var p := Prod(rest);
      var f := k => Prepend(k, p);
      BindMember(xs, f, cs);
      forall k
        ensures cs in Elements(f(k)) <==> cs.Cons? && cs.head == k && cs.tail in Elements(p)
      {
        PrependMember(k, p, cs);
      }
      if cs.Cons? {
        ProdMember(rest, cs.tail);
      }
  }

  /** No element occurs twice. */
  ghost predicate Distinct<T>(s: seq<T>)
  {
    forall a, b :: 0 <= a < b < |s| ==> s[a] != s[b]
  }

  /** Every inner list is free of repetitions. */
  ghost predicate InnerDistinct<T>(xss: List<List<T>>)
  {
    match xss
    case Nil => true
    case Cons(xs, rest) => Distinct(Elements(xs)) && InnerDistinct(rest)
  }

  lemma DistinctConcat<T>(a: seq<T>, b: seq<T>)
    requires Distinct(a) && Distinct(b)
    requires forall y :: y in a ==> y !in b
    ensures Distinct(a + b)
  {
    forall i, j | 0 <= i < j < |a + b|
      ensures (a + b)[i] != (a + b)[j]
    {
      if j < |a| {
      } else if i >= |a| {
        assert (a + b)[i] == b[i - |a|] && (a + b)[j] == b[j - |a|];
      } else {
        assert (a + b)[i] in a && (a + b)[j] in b;
      }
    }
  }

  /** The tail of a list without repetitions has none, and lacks the head. */
  lemma DistinctTail<T>(x: T, xs: List<T>)
    requires Distinct(Elements(Cons(x, xs)))
    ensures Distinct(Elements(xs)) && x !in Elements(xs)
  {
    var l := Cons(x, xs);
    assert Elements(l) == [x] + Elements(xs);
    forall i, j | 0 <= i < j < |Elements(xs)|
      ensures Elements(xs)[i] != Elements(xs)[j]
    {
      assert Elements(xs)[i] == Elements(l)[i + 1] && Elements(xs)[j] == Elements(l)[j + 1];
    }
    forall i | 0 <= i < |Elements(xs)|
      ensures Elements(xs)[i] != x
    {
      assert Elements(l)[0] == x && Elements(l)[i + 1] == Elements(xs)[i];
    }
  }

  /** With pairwise disjoint results, `f(x)` shares nothing with the bind
      of a list that does not hold `x`. */
  lemma BindDisjoint<T, U>(x: T, xs: List<T>, f: T -> List<U>)
    requires x !in Elements(xs)
    requires forall x, y, z :: x != y && z in Elements(f(x)) ==> z !in Elements(f(y))
    ensures forall z :: z in Elements(f(x)) ==> z !in Elements(Bind(xs, f))
  {
    forall z | z in Elements(f(x))
      ensures z !in Elements(Bind(xs, f))
    {
      BindMember(xs, f, z);
    }
  }

  /** A bind over distinct elements, whose function yields distinct and
      pairwise disjoint lists, repeats nothing. */
  lemma {:induction false} BindDistinct<T, U>(l: List<T>, f: T -> List<U>)
    requires Distinct(Elements(l))
    requires forall x :: Distinct(Elements(f(x)))
    requires forall x, y, z :: x != y && z in Elements(f(x)) ==> z !in Elements(f(y))
    ensures Distinct(Elements(Bind(l, f)))
  {
    match l
    case Nil =>
    case Cons(x, xs) =>
      BindCons(x, xs, f);
      DistinctTail(x, xs);
      BindDistinct(xs, f);
      BindDisjoint(x, xs, f);
      DistinctConcat(Elements(f(x)), Elements(Bind(xs, f)));
  }

  /** When no inner list repeats an element, every choice occurs in the
      product exactly once. */
  lemma {:induction false} ProdDistinct<T>(xss: List<List<T>>)
    requires InnerDistinct(xss)
    ensures Distinct(Elements(Prod(xss)))
  {
    match xss
    case Nil =>
    case Cons(xs, rest) =>
      ProdDistinct(rest);
      var p := Prod(rest);
      var f := k => Prepend(k, p);
      forall k
        ensures Distinct(Elements(f(k)))
      {
        forall i, j | 0 <= i < j < |Elements(f(k))|
          ensures Elements(f(k))[i] != Elements(f(k))[j]
        {
          assert Elements(f(k))[i].tail == Elements(p)[i];
          assert Elements(f(k))[j].tail == Elements(p)[j];
        }
      }
      forall x, y, z | x != y && z in Elements(f(x))
        ensures z !in Elements(f(y))
      {
        var i :| 0 <= i < |Elements(f(x))| && Elements(f(x))[i] == z;
        assert z.head == x;
      }
      BindDistinct(xs, f);
  }

  /** What `Display` prints between the brackets: the elements separated
      by a comma and a space. */
  function Items<T>(l: List<T>, show: T -> string): string
  {
    match l
    case Nil => ""
    case Cons(x, Nil) => show(x)
    case Cons(x, xs) => show(x) + ", " + Items(xs, show)
  }

  /** The printed form of a list. */
  function Rendered<T>(l: List<T>, show: T -> string): string
  {
    "[" + Items(l, show) + "]"
  }

  /** `Display`: walks the list node by node, printing each element and a
      separator before every element but the first. */
  method Display<T>(l: List<T>, show: T -> string) returns (s: string)
    ensures s == Rendered(l, show)
  {
    s := "[";
    var cell := l;
    while true
      invariant s + Items(cell, show) == "[" + Items(l, show)
      decreases cell
    {
      match cell {
        case Nil =>
          break;
        case Cons(x, xs) =>
          s := s + show(x);
          cell := xs;
          if cell.Nil? {
            break;
          }
      }
      s := s + ", ";
    }
    s := s + "]";
  }

  /** Rust's `Display` for an integer: decimal digits, with a leading minus
      sign for negative numbers. */
  function IntText(n: int): string
  {
    if n < 0 then "-" + NatText(-n) else NatText(n)
  }

  function NatText(n: nat): string
  {
    if n < 10 then ["0123456789"[n]] else NatText(n / 10) + ["0123456789"[n % 10]]
  }

  /** How the demonstration prints a list of integers. */
  function RenderedInts(l: List<int>): string
  {
    Rendered(l, IntText)
  }

  /** The lists built in the demonstration: `[1, 2, 3]`, `[4, 5]` and the
      list of both. */
  function DemoOuter(): List<List<int>>
  {
    FromSeq([FromSeq([1, 2, 3]), FromSeq([4, 5])])
  }

  /** The product of `[[1, 2, 3], [4, 5]]`: the six choices, the first list
      varying slowest. */
  lemma ProdOfDemo()
    ensures Prod(DemoOuter()) ==
            FromSeq([FromSeq([1, 4]), FromSeq([1, 5]), FromSeq([2, 4]),
                     FromSeq([2, 5]), FromSeq([3, 4]), FromSeq([3, 5])])
  {
  }

  /** How the demonstration prints `[1, 2, 3]`. */
  lemma RenderedFirstList()
    ensures RenderedInts(FromSeq([1, 2, 3])) == "[1, 2, 3]"
  {
    assert FromSeq([1, 2, 3]) == Cons(1, Cons(2, Cons(3, Nil)));
    assert IntText(1) == "1" && IntText(2) == "2" && IntText(3) == "3";
    assert Items(Cons(3, Nil), IntText) == "3";
    assert Items(Cons(2, Cons(3, Nil)), IntText) == "2, 3";
  }

  /** How the demonstration prints `[4, 5]`. */
  lemma RenderedSecondList()
    ensures RenderedInts(FromSeq([4, 5])) == "[4, 5]"
  {
    assert FromSeq([4, 5]) == Cons(4, Cons(5, Nil));
    assert IntText(4) == "4" && IntText(5) == "5";
    assert Items(Cons(5, Nil), IntText) == "5";
  }

  /** What the demonstration prints for its lists. */
  lemma RenderedDemo()
    ensures Rendered(FromSeq([1, 2, 3]), IntText) == "[1, 2, 3]"
    ensures Rendered(FromSeq([4, 5]), IntText) == "[4, 5]"
    ensures Rendered(DemoOuter(), RenderedInts) == "[[1, 2, 3], [4, 5]]"
  {
    var a, b := FromSeq([1, 2, 3]), FromSeq([4, 5]);
    RenderedFirstList();
    RenderedSecondList();
    assert DemoOuter() == Cons(a, Cons(b, Nil));
    assert Items(Cons(b, Nil), RenderedInts) == "[4, 5]";
  }

  /** The demonstration: the product of `[[1, 2, 3], [4, 5]]` is built lazily
      on the thunk holding the outer list, so its debugging view says
      "Unevaluated"; evaluating it yields the six choices and settles the
      thunk. */
  method ProdDemo() returns (before: string, after: Thunks.Outcome<List<List<int>>>)
    ensures before == "Unevaluated"
    ensures after == Thunks.Ok(FromSeq([FromSeq([1, 4]), FromSeq([1, 5]), FromSeq([2, 4]),
                                 FromSeq([2, 5]), FromSeq([3, 4]), FromSeq([3, 5])]))
  {
    var list3 := new Thunks.Thunk.Pure(DemoOuter());
    var list4 := list3.Map(xss => Prod(xss));
    before := list4.Debug(l => Rendered(l, RenderedInts));
    after := list4.Eval();
    ProdOfDemo();
  }
}
