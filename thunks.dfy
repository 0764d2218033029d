/** The memoising thunk of rust/lazy_list.rs.

    A `PrimitiveThunk` is a cell in one of three states: it holds a value,
    it holds the producer that will compute the value, or it is locked
    because its producer is running.  `force` moves a cell from the
    producer state through the lock to the value state, calling the
    producer once.  A `Thunk` is a handle on a shared cell: cloning a handle
    shares the cell, so every clone sees the value as soon as one of them
    has forced it.

    Producers are Dafny function values, which cannot themselves force other
    cells.  The lazy combinators (`Map`, `Bind`, `Join`) therefore build a
    producer that yields what forcing the source would yield; the result is
    the same, but forcing the derived thunk does not settle its source. */
module Thunks {

  /** The three states of a cell: `Value`, `Func` (not yet evaluated) and
      `Lock` (evaluation in progress). */
  datatype State<T> = Value(value: T) | Func(producer: () -> T) | Lock

  /** Forcing either fails because the cell was found locked, or succeeds. */
  datatype Outcome<T> = Ok(value: T) | Poisoned

  /** The value an unlocked state stands for: the stored value, or what the
      producer yields once it is called. */
  function Denote<T>(s: State<T>): T
    requires !s.Lock?
  {
    match s
    case Value(v) => v
    case Func(f) => f()
  }

  /** The state that `force` leaves behind. */
  function Forced<T>(s: State<T>): (r: State<T>)
    ensures r.Value? <==> !s.Lock?
    ensures !s.Lock? ==> r.value == Denote(s)
    ensures s.Value? ==> r == s
    ensures s.Lock? ==> r == Lock
  {
    match s
    case Value(_) => s
    case Func(f) => Value(f())
    case Lock => Lock
  }

  /** A settled cell stays settled: forcing a second time changes nothing. */
  lemma ForcedIdempotent<T>(s: State<T>)
    ensures Forced(Forced(s)) == Forced(s)
  {
  }

  /** Forcing never changes what a state stands for. */
  lemma ForcedKeepsDenotation<T>(s: State<T>)
    requires !s.Lock?
    ensures !Forced(s).Lock? && Denote(Forced(s)) == Denote(s)
  {
  }

  class PrimitiveThunk<T> {
    var state: State<T>
    /** How many times this cell has called its producer. */
    ghost var runs: nat

    /** The producer runs at most once, and a run leaves a value behind. */
    ghost predicate Valid()
      reads this
    {
      runs <= 1 && (runs == 1 ==> state.Value?)
    }

    constructor Pure(v: T)
      ensures Valid() && state == Value(v) && runs == 0
    {
      state := Value(v);
      runs := 0;
    }

    constructor FromFunc(f: () -> T)
      ensures Valid() && state == Func(f) && runs == 0
    {
      state := Func(f);
      runs := 0;
    }

    /** The first step of `force` on a cell that holds no value: put the
        lock in place and take out what was there. */
    method Take() returns (prev: State<T>)
      requires Valid() && !state.Value?
      modifies this`state
      ensures Valid() && prev == old(state) && state == Lock
    {
      prev := state;
      state := Lock;
    }

    /** A value is left alone; a producer is taken out, called once, and its
        result stored; a locked cell, whose earlier force never finished, is
        reported as poisoned and keeps its lock. */
    method Force() returns (r: Outcome<()>)
      requires Valid()
      modifies this
      ensures Valid()
      ensures state == Forced(old(state))
      ensures r.Poisoned? <==> old(state).Lock?
      ensures runs == if old(state).Func? then old(runs) + 1 else old(runs)
    {
      if state.Value? {
        return Ok(());
      }
      var prev := Take();
      if prev.Func? {
        var v := prev.producer();
        runs := runs + 1;
        state := Value(v);
        return Ok(());
      }
      return Poisoned;
    }

    /** Forces the cell, then hands out (a copy of) the stored value. */
    method Eval() returns (r: Outcome<T>)
      requires Valid()
      modifies this
      ensures Valid()
      ensures state == Forced(old(state))
      ensures r == if old(state).Lock? then Poisoned else Ok(Denote(old(state)))
      ensures runs == if old(state).Func? then old(runs) + 1 else old(runs)
    {
      var forced := Force();
      if state.Value? {
        return Ok(state.value);
      }
      return Poisoned;
    }
  }

  /** A force that starts after the first step of another force on the same
      cell, before that one stored its value (in the source, the state a
      producer that panicked leaves behind), finds the lock: it reports the
      cell poisoned and never calls the producer. */
  method ForceWhileLocked<T>(c: PrimitiveThunk<T>) returns (inner: Outcome<()>)
    requires c.Valid() && c.state.Func?
    modifies c
    ensures inner == Poisoned && c.state == Lock && c.runs == old(c.runs)
  {
    var prev := c.Take();
    inner := c.Force();
  }

  /** A handle on a shared cell. */
  class Thunk<T> {
    const cell: PrimitiveThunk<T>

    constructor Wrap(c: PrimitiveThunk<T>)
      ensures cell == c
    {
      cell := c;
    }

    constructor Pure(v: T)
      ensures fresh(cell) && cell.Valid() && cell.state == Value(v) && cell.runs == 0
    {
      cell := new PrimitiveThunk.Pure(v);
    }

    constructor FromFunc(f: () -> T)
      ensures fresh(cell) && cell.Valid() && cell.state == Func(f) && cell.runs == 0
    {
      cell := new PrimitiveThunk.FromFunc(f);
    }

    /** A new handle on the same cell. */
    method Clone() returns (t: Thunk<T>)
      ensures fresh(t) && t.cell == cell
    {
      t := new Thunk.Wrap(cell);
    }

    method Force() returns (r: Outcome<()>)
      requires cell.Valid()
      modifies cell
      ensures cell.Valid()
      ensures cell.state == Forced(old(cell.state))
      ensures r.Poisoned? <==> old(cell.state).Lock?
      ensures cell.runs == if old(cell.state).Func? then old(cell.runs) + 1 else old(cell.runs)
    {
      r := cell.Force();
    }

    method Eval() returns (r: Outcome<T>)
      requires cell.Valid()
      modifies cell
      ensures cell.Valid()
      ensures cell.state == Forced(old(cell.state))
      ensures r == if old(cell.state).Lock? then Poisoned else Ok(Denote(old(cell.state)))
      ensures cell.runs == if old(cell.state).Func? then old(cell.runs) + 1 else old(cell.runs)
    {
      r := cell.Eval();
    }

    /** The debugging view: the value once there is one, otherwise a marker
        that tells an unevaluated cell from a locked one. */
    function Debug(show: T -> string): (s: string)
      reads cell
      ensures cell.state.Value? ==> s == show(cell.state.value)
      ensures !cell.state.Value? ==> (s == "Unevaluated" <==> cell.state.Func?)
      ensures !cell.state.Value? ==> (s == "Poisoned" <==> cell.state.Lock?)
    {
      match cell.state
      case Value(v) => show(v)
      case Func(_) => "Unevaluated"
      case Lock => "Poisoned"
    }

    /** Evaluates this thunk and wraps `f` of its value in a settled thunk. */
    method MapStrict<U>(f: T -> U) returns (r: Outcome<Thunk<U>>)
      requires cell.Valid()
      modifies cell
      ensures cell.Valid() && cell.state == Forced(old(cell.state))
      ensures cell.runs == if old(cell.state).Func? then old(cell.runs) + 1 else old(cell.runs)
      ensures r.Poisoned? <==> old(cell.state).Lock?
      ensures r.Ok? ==> fresh(r.value) && fresh(r.value.cell) && r.value.cell.Valid()
                        && r.value.cell.state == Value(f(Denote(old(cell.state))))
    {
      var x := Eval();
      if x.Poisoned? {
        return Poisoned;
      }
      var t := new Thunk.Pure(f(x.value));
      r := Ok(t);
    }

    /** Evaluates this thunk and returns the thunk `f` makes of its value. */
    method BindStrict<U>(f: T -> Thunk<U>) returns (r: Outcome<Thunk<U>>)
      requires cell.Valid()
      modifies cell
      ensures cell.Valid() && cell.state == Forced(old(cell.state))
      ensures cell.runs == if old(cell.state).Func? then old(cell.runs) + 1 else old(cell.runs)
      ensures r == if old(cell.state).Lock? then Poisoned else Ok(f(Denote(old(cell.state))))
    {
      var x := Eval();
      match x
      case Poisoned =>
        r := Poisoned;
      case Ok(v) =>
        r := Ok(f(v));
    }

    /** A new, unevaluated thunk whose producer applies `f` to what this
        thunk stands for.  Nothing is forced and this cell is not modified. */
    method Map<U>(f: T -> U) returns (t: Thunk<U>)
      requires !cell.state.Lock?
      ensures fresh(t) && fresh(t.cell) && t.cell.Valid() && t.cell.runs == 0
      ensures t.cell.state.Func? && t.cell.state.producer() == f(Denote(cell.state))
    {
      var p: () -> U;
      if cell.state.Value? {
        var v := cell.state.value;
        p := () => f(v);
      } else {
        var g := cell.state.producer;
        p := () => f(g());
      }
      t := new Thunk.FromFunc(p);
    }

    /** A new, unevaluated thunk whose producer evaluates the thunk `f` makes
        of this thunk's value.  Nothing is forced. */
    method Bind<U>(f: T -> Thunk<U>) returns (t: Thunk<U>)
      requires !cell.state.Lock? && allocated(f(Denote(cell.state)))
      requires !f(Denote(cell.state)).cell.state.Lock?
      ensures fresh(t) && fresh(t.cell) && t.cell.Valid() && t.cell.runs == 0
      ensures t.cell.state.Func?
      ensures t.cell.state.producer() == old(Denote(f(Denote(cell.state)).cell.state))
    {
      var inner := f(Denote(cell.state)).cell.state;
      var p: () -> U;
      if inner.Value? {
        var v := inner.value;
        p := () => v;
      } else {
        p := inner.producer;
      }
      t := new Thunk.FromFunc(p);
    }
  }

  /** Evaluates the outer thunk, then the inner one, and settles the result. */
  method JoinStrict<T>(input: Thunk<Thunk<T>>) returns (r: Outcome<Thunk<T>>)
    requires input.cell.Valid()
    requires !input.cell.state.Lock? ==>
               allocated(Denote(input.cell.state)) && Denote(input.cell.state).cell.Valid() &&
               Denote(input.cell.state).cell as object != input.cell
    modifies input.cell
    modifies if input.cell.state.Lock? then {} else {Denote(input.cell.state).cell}
    ensures input.cell.Valid() && input.cell.state == Forced(old(input.cell.state))
    ensures !old(input.cell.state).Lock? ==>
              old(Denote(input.cell.state)).cell.Valid() &&
              old(Denote(input.cell.state)).cell.state == Forced(old(Denote(input.cell.state).cell.state))
    ensures input.cell.runs ==
              if old(input.cell.state).Func? then old(input.cell.runs) + 1 else old(input.cell.runs)
    ensures !old(input.cell.state).Lock? ==>
              old(Denote(input.cell.state)).cell.runs ==
                if old(Denote(input.cell.state).cell.state).Func?
                then old(Denote(input.cell.state).cell.runs) + 1
                else old(Denote(input.cell.state).cell.runs)
    ensures old(input.cell.state).Lock? ==> r.Poisoned?
    ensures !old(input.cell.state).Lock? ==>
              (r.Poisoned? <==> old(Denote(input.cell.state).cell.state.Lock?)) &&
              (r.Ok? ==> fresh(r.value) && fresh(r.value.cell) && r.value.cell.Valid() &&
                         r.value.cell.state == Value(old(Denote(Denote(input.cell.state).cell.state))))
  {
    var x := input.Eval();
    if x.Poisoned? {
      return Poisoned;
    }
    var y := x.value.Eval();
    if y.Poisoned? {
      return Poisoned;
    }
    var t := new Thunk.Pure(y.value);
    r := Ok(t);
  }

  /** A new, unevaluated thunk that flattens a thunk of thunks.  Nothing is
      forced. */
  method Join<T>(input: Thunk<Thunk<T>>) returns (t: Thunk<T>)
    requires !input.cell.state.Lock? && allocated(Denote(input.cell.state))
    requires !Denote(input.cell.state).cell.state.Lock?
    ensures fresh(t) && fresh(t.cell) && t.cell.Valid() && t.cell.runs == 0
    ensures t.cell.state.Func?
    ensures t.cell.state.producer() == old(Denote(Denote(input.cell.state).cell.state))
  {
    var inner := Denote(input.cell.state).cell.state;
    var p: () -> T;
    if inner.Value? {
      var v := inner.value;
      p := () => v;
    } else {
      p := inner.producer;
    }
    t := new Thunk.FromFunc(p);
  }

  /** Memoisation across clones: a clone shares the cell, so both handles
      evaluate to the same value and the producer runs only once. */
  method EvalThroughClones<T>(t: Thunk<T>) returns (a: Outcome<T>, b: Outcome<T>)
    requires t.cell.Valid() && t.cell.state.Func?
    modifies t.cell
    ensures a == b == Ok(Denote(old(t.cell.state)))
    ensures t.cell.state == Value(Denote(old(t.cell.state)))
    ensures t.cell.runs == old(t.cell.runs) + 1
  {
    var u := t.Clone();
    a := t.Eval();
    b := u.Eval();
  }
}
