# Lazy thunks, lazy lists, `Just`/`Nil` matrices and a prime cache, in Dafny

This project models three Rust programs and proves properties of them.

- **Thunks** (`thunks.dfy`) models the memoising thunk of `rust/lazy_list.rs`.
  - A `PrimitiveThunk` is a class with a mutable three-state cell: `Value`, `Func` (unevaluated) or `Lock` (evaluating).
  - A ghost counter records how often the cell has called its producer.
  - A `Thunk` is a handle holding a shared cell. Cloning a handle shares the cell.
  - `Force` and `Eval` are proved against the function `Forced`. It gives the state a force leaves behind.
  - A cell's own `Force` runs its producer at most once, and every clone of a handle sees the memoised value.
  - A force that finds the lock reports `Poisoned`.
  - The strict and lazy `map`, `bind` and `join` are modelled with contracts that give the thunk each one builds.
- **LazyList** (`lazy_list.dfy`) models the persistent list of `rust/lazy_list.rs` as what full forcing of a finite list yields.
  - The source's `List::nil` and `List::cons` are the `Nil` and `Cons` constructors of `List`; `list!` is `FromSeq`.
  - `map`, `append`, `join`, `bind` and `prod` are functions. Their contracts and lemmas state:
    - concatenation and flattening;
    - the three monad laws;
    - the Cartesian product's size, order, membership and lack of repetition.
  - `Display` is a loop method proved to produce the bracketed, comma-separated form.
  - The demonstration at `rust/lazy_list.rs:206-219` is a method. Its product thunk first shows as "Unevaluated", then yields the six choices.
- **MatrixMul** (`matrix_mul.dfy`) models the `Just`/`Nil` arithmetic of `rust/matrix_mul/src/main.rs`.
  - In the source these are two types. Here they are the two constructors of `Cell`.
  - Addition and multiplication are proved to be integer arithmetic on weights, where `Nil` weighs 0, with exact rules for when a result is `Nil`.
  - Also modelled: the 2- and 3-element dot products, 2-by-2 matrix product and sum, and the identity matrix.
  - The identity is proved a two-sided identity for every matrix, so the demonstration's chain of products returns its input.
- **Primes** (`primes.dfy`) models the prime cache of `rust/primes.rs` as a class with fields `index`, `current` and `stored`.
  - Its invariant: `stored` lists exactly the primes up to `current`, in order.
  - The search loop is a method proved to append the next prime.
  - `next` is modelled as written, and also as evidently intended; see Findings.

## Model

| member | source | states |
|---|---|---|
| Thunks.Forced | rust/lazy_list.rs:19-31 | after a force the cell holds a value exactly when it was not locked; that value is the stored one or the producer's result; a held value is left as it was |
| Thunks.ForcedIdempotent | rust/lazy_list.rs:20-22 | forcing a forced cell changes nothing |
| Thunks.ForcedKeepsDenotation | rust/lazy_list.rs:25-27 | forcing never changes the value an unlocked cell stands for |
| Thunks.PrimitiveThunk.Pure | rust/lazy_list.rs:13-15 | a new cell holds the given value and has run no producer |
| Thunks.PrimitiveThunk.FromFunc | rust/lazy_list.rs:16-18 | a new cell holds the given producer, unevaluated |
| Thunks.PrimitiveThunk.Take | rust/lazy_list.rs:24 | the first step of a force puts the lock in place and hands back the previous state |
| Thunks.PrimitiveThunk.Force | rust/lazy_list.rs:19-31 | the new state is `Forced` of the old one; the result is poisoned exactly when the cell was locked; the producer runs once, and only from the unevaluated state; the at-most-once invariant is kept |
| Thunks.PrimitiveThunk.Eval | rust/lazy_list.rs:34-40 | forces, then returns the value the old state stands for, or poisoned when the cell was locked |
| Thunks.ForceWhileLocked | rust/lazy_list.rs:24-30 | a force on a cell whose lock is in place reports poisoned, leaves the lock and runs no producer |
| Thunks.Thunk.Wrap | rust/lazy_list.rs:43 | a handle on the given cell |
| Thunks.Thunk.Pure | rust/lazy_list.rs:59-61 | a handle on a new cell holding the value |
| Thunks.Thunk.FromFunc | rust/lazy_list.rs:62-66 | a handle on a new unevaluated cell holding the producer |
| Thunks.Thunk.Clone | rust/lazy_list.rs:44-48 | a new handle on the same cell |
| Thunks.Thunk.Force | rust/lazy_list.rs:69-71 | forces the shared cell, with the contract of the cell's force |
| Thunks.Thunk.Eval | rust/lazy_list.rs:72-74 | evaluates the shared cell, with the contract of the cell's eval |
| Thunks.Thunk.Debug | rust/lazy_list.rs:49-56 | shows the held value once there is one; otherwise "Unevaluated" exactly for an unevaluated cell and "Poisoned" exactly for a locked one |
| Thunks.Thunk.BindStrict | rust/lazy_list.rs:76-78 | evaluates this thunk and returns `f` of its value; poisoned exactly when this cell was locked; this cell is left in its forced state, and its producer ran exactly when it was unevaluated |
| Thunks.Thunk.MapStrict | rust/lazy_list.rs:79-81 | evaluates this thunk and returns a new settled thunk holding `f` of its value; poisoned exactly when this cell was locked; this cell is left in its forced state, and its producer ran exactly when it was unevaluated |
| Thunks.JoinStrict | rust/lazy_list.rs:82-84 | evaluates the outer thunk, then the inner one, and settles the inner value in a new thunk; the outer cell, and the inner one when reached, are left valid in their forced states; each cell's producer ran exactly when that cell was unevaluated; poisoned when either cell was locked |
| Thunks.Thunk.Map | rust/lazy_list.rs:91-94 | a fresh unevaluated thunk whose producer yields `f` of this thunk's value; this cell is not changed |
| Thunks.Thunk.Bind | rust/lazy_list.rs:87-90 | a fresh unevaluated thunk whose producer yields the value of the thunk `f` makes from this thunk's value; nothing is forced |
| Thunks.Join | rust/lazy_list.rs:97-100 | a fresh unevaluated thunk whose producer yields the inner thunk's value; nothing is forced |
| Thunks.EvalThroughClones | rust/lazy_list.rs:44-48 | a handle and its clone evaluate to the same value, and the producer runs once for both |
| LazyList.FromSeq | rust/lazy_list.rs:103-107 | `list!` builds the list whose elements are the given ones, in order |
| LazyList.FromSeqOfElements | rust/lazy_list.rs:103-107 | `list!` of a list's elements is that list |
| LazyList.Pure | rust/lazy_list.rs:132-134 | `pure(v)` is the one-element list `[v]` |
| LazyList.Map | rust/lazy_list.rs:152-157 | same length as the input, and element `i` is `f` of input element `i` |
| LazyList.Append | rust/lazy_list.rs:161-167 | the elements of the list, then those of the tail |
| LazyList.AppendNil | rust/lazy_list.rs:161-167 | `nil` is a left and right identity of `append` |
| LazyList.AppendAssoc | rust/lazy_list.rs:161-167 | `append` is associative |
| LazyList.Join | rust/lazy_list.rs:170-175 | the elements are the concatenation of the inner lists' elements, in order |
| LazyList.Bind | rust/lazy_list.rs:158-160 | the elements are those of `f` of each input element, one after the other |
| LazyList.JoinMapElements | rust/lazy_list.rs:158-160 | mapping and then joining lays out the results of `f` in input order |
| LazyList.BindCons | rust/lazy_list.rs:158-160 | `bind` on `x :: xs` is `f(x)` appended to the bind of `xs` |
| LazyList.BindAppend | rust/lazy_list.rs:158-160 | `bind` distributes over `append` |
| LazyList.BindPureLeft | rust/lazy_list.rs:158-160 | monad law: binding `pure(x)` with `f` gives `f(x)` |
| LazyList.BindPureRight | rust/lazy_list.rs:158-160 | monad law: binding with `pure` gives the list back |
| LazyList.BindAssoc | rust/lazy_list.rs:158-160 | monad law: nested binds can be regrouped |
| LazyList.BindLength | rust/lazy_list.rs:158-160 | when `f` always yields `n` elements, the bind has `n` per input element |
| LazyList.BindBlocks | rust/lazy_list.rs:158-160 | when `f` always yields `n` elements, entry `i*n+j` of the bind is entry `j` of `f` of input element `i` |
| LazyList.BindMember | rust/lazy_list.rs:158-160 | an element is in the bind exactly when it is in `f(x)` for some element `x` |
| LazyList.BindDistinct | rust/lazy_list.rs:158-160 | a bind over distinct elements, with `f` giving distinct and pairwise disjoint lists, repeats nothing |
| LazyList.PrependMember | rust/lazy_list.rs:180 | a list is among the choices with `k` put in front exactly when it is `k` followed by one of the choices |
| LazyList.Prepend | rust/lazy_list.rs:180 | as many choices as the given ones, and choice `i` is `k` followed by given choice `i` |
| LazyList.Prod | rust/lazy_list.rs:176-183 | the product has as many choices as the product of the inner lengths |
| LazyList.ProdOrder | rust/lazy_list.rs:176-183 | the first inner list varies slowest: entry `i*n+j` is element `i` of the first list in front of choice `j` for the rest |
| LazyList.ProdMember | rust/lazy_list.rs:176-183 | a list is in the product exactly when it takes one element from each inner list, in order |
| LazyList.ProdDistinct | rust/lazy_list.rs:176-183 | when no inner list repeats an element, no choice occurs twice |
| LazyList.Display | rust/lazy_list.rs:185-203 | the loop prints `[`, the elements separated by `, `, and `]`; `[]` for the empty list |
| LazyList.RenderedDemo | rust/lazy_list.rs:207-213 | the demonstration prints `[1, 2, 3]`, `[4, 5]` and `[[1, 2, 3], [4, 5]]` |
| LazyList.ProdOfDemo | rust/lazy_list.rs:215 | the product of `[[1, 2, 3], [4, 5]]` is `[1,4], [1,5], [2,4], [2,5], [3,4], [3,5]` in that order |
| LazyList.ProdDemo | rust/lazy_list.rs:215-219 | the product thunk shows "Unevaluated" before it is evaluated, and evaluating it yields the six choices |
| MatrixMul.Add | rust/matrix_mul/src/main.rs:17-40 | the sum is `Nil` exactly when both operands are; its weight is the sum of the weights |
| MatrixMul.AddNilIdentity | rust/matrix_mul/src/main.rs:23-40 | `Nil` is a two-sided additive identity |
| MatrixMul.Mul | rust/matrix_mul/src/main.rs:42-65 | the product is `Nil` exactly when either operand is; its weight is the product of the weights |
| MatrixMul.MulNilZero | rust/matrix_mul/src/main.rs:42-65 | any product with `Nil` is `Nil`; `Just(1)` is a two-sided multiplicative identity |
| MatrixMul.Dot2 | rust/matrix_mul/src/main.rs:71-82 | `r1*c1 + r2*c2`: `Nil` exactly when both products are; its weight is the integer dot product |
| MatrixMul.Dot3 | rust/matrix_mul/src/main.rs:83-95 | the pair product plus `r3*c3`: `Nil` exactly when all three products are; its weight is the integer dot product |
| MatrixMul.Dot3OfNilThird | rust/matrix_mul/src/main.rs:91-94 | with a `Nil` third term the triple product is the pair product |
| MatrixMul.MatMul | rust/matrix_mul/src/main.rs:117-124 | entry `(i, j)` is the dot product of row `i` of the left factor with column `j` of the right |
| MatrixMul.MatMulEntry | rust/matrix_mul/src/main.rs:117-124 | entry `(i, j)` of a product is row `i` times column `j`; on weights this is the ordinary matrix product |
| MatrixMul.MatAdd | rust/matrix_mul/src/main.rs:141-148 | entry `(i, j)` of the sum is the sum of the two `(i, j)` entries |
| MatrixMul.MatAddNilIdentity | rust/matrix_mul/src/main.rs:141-148 | the all-`Nil` matrix is a two-sided identity of matrix addition |
| MatrixMul.Identity | rust/matrix_mul/src/main.rs:159-162 | `Just(1)` on the diagonal and `Nil` off it |
| MatrixMul.MatMulIdentityLeft | rust/matrix_mul/src/main.rs:159-162 | `I * M == M` for every matrix `M` |
| MatrixMul.MatMulIdentityRight | rust/matrix_mul/src/main.rs:159-162 | `M * I == M` for every matrix `M` |
| MatrixMul.IdentitySquare | rust/matrix_mul/src/main.rs:159-162 | `I * I == I`, with its off-diagonal `Nil` entries kept |
| MatrixMul.DemoChain | rust/matrix_mul/src/main.rs:167-177 | the eleven products of the demonstration give back the input matrix |
| Primes.EntryIsKthPrime | rust/primes.rs:4 | in a valid cache entry `k` is prime, and the primes below it are exactly the entries before it |
| Primes.Primes.constructor | rust/primes.rs:8-14 | a new cache has `index` 0, `current` 2, `stored` `[2]`, and is valid |
| Primes.Primes.Reset | rust/primes.rs:16-18 | `index` becomes 0; `current` and `stored` are not touched |
| Primes.Primes.Next | rust/primes.rs:24-29 | `index` grows by one; the result is the entry at the old index, or the out-of-range failure when there is none |
| Primes.ProductEscapes | rust/primes.rs:33-41 | one more than the product of the stored primes is divisible by none of them and exceeds them all, so the search ends |
| Primes.SkippedNotPrime | rust/primes.rs:34-36 | every number the search skips is composite |
| Primes.EscapeIsPrime | rust/primes.rs:36-38 | the number the search settles on is prime |
| Primes.AppendNextPrime | rust/primes.rs:37-38 | appending the next prime keeps the cache exact |
| Primes.SearchFindsNextPrime | rust/primes.rs:31-43 | the search result is prime, nothing between the old `current` and it is prime, and appending it keeps the cache exact |
| Primes.Primes.SearchNext | rust/primes.rs:31-43 | appends the smallest number above `current` that no stored entry divides, makes it `current`, and returns it; it is the next prime, and the invariant is kept |
| Primes.SecondNextFails | rust/primes.rs:25-29 | on a new cache the first `next` yields 2 and the second fails on the index |
| Primes.Primes.NextIntended | rust/primes.rs:24-43 | yields the cached entry when there is one, else the searched prime; call `k` yields the `k`-th prime; the invariant is kept |
| Primes.IntendedSequence | rust/primes.rs:24-43 | with the intended lookup a new cache yields 2, 3 and 5 |
| Primes.ResetReplays | rust/primes.rs:16-18 | after `reset` the intended lookup yields 2 again, whatever the cache holds |

## Left out

- `Rc` reference counting and drop are not modelled. Handles are Dafny references; sharing a cell is sharing the reference.
- `Clone` for `List` (`rust/lazy_list.rs:120-124`) is not modelled: lists are immutable values here.
- `RefCell` borrow panics are not modelled.
  - In the source, a producer that forces its own cell through a `Thunk` handle fails in `borrow_mut` before the cell is reached.
  - The poisoned panic at `rust/lazy_list.rs:30` is therefore reached only on a cell left locked by a producer that panicked.
  - The one at `:39` is not reachable: `force` at `:35` has just left a value in the cell, or has panicked itself.
  - `Thunks.ForceWhileLocked` models what the cell does in that state.
- Panics are modelled as results: poisoning as `Poisoned`, the index panic of `next` as `OutOfBounds`.
- Producers are pure Dafny function values. Side effects, panics and forcing of other cells inside user closures are not modelled.
- Thunks.Thunk.Map: the new producer yields `f` of the value this thunk stands for when `Map` is called. Forcing the new thunk does not also settle this cell, as the source's `thunk_ref.eval()` does. This is because a producer cannot force a cell.
- Thunks.Thunk.Map: when this cell is unevaluated, the new producer calls this cell's producer again, outside this cell's memoisation and its run counter.
- Thunks.Thunk.Map: it requires this cell not to be locked. A lock exists only while a force is running, or after a producer panicked.
- Thunks.Thunk.Bind: the same restrictions as `Map`, for this cell and for the cell of the thunk `f` returns.
- Thunks.Thunk.Bind: this thunk's value and `f` of it are taken when the combinator is built, so this cell's producer and `f` run then, not when the new thunk is forced as at `rust/lazy_list.rs:89`.
- Thunks.Join: the same restrictions as `Map`, for the outer and the inner cell.
- Thunks.Join: the inner thunk is taken when the combinator is built, so the outer producer runs then, not when the new thunk is forced as at `rust/lazy_list.rs:99`.
- Thunks.JoinStrict: it requires the inner thunk to be a cell other than the outer one, and valid.
- Thunks.Thunk.Debug: it is used by `LazyList.ProdDemo` for the "Unevaluated" marker.
  - A held value is shown through a caller-supplied function.
  - `Debug` of a forced list (`rust/lazy_list.rs:115-119`, printed at `:219`) and nested thunks beyond the markers are not modelled.
- Node-by-node laziness and infinite lists are not modelled. A list is the finite list that forcing every node yields, so:
  - `map` and `map_strict` (`rust/lazy_list.rs:140-145`) are the same function `LazyList.Map`;
  - the private `bind_thunk` and `bind_thunk_strict` are folded into the functions that use them;
  - `Display` walks a list value. It does not force a node at each step.
- Formatter errors propagated by `?` in `Display` are not modelled.
- `LazyList.ProdDemo` does not state the printed six-choice string. `Display`'s general contract covers it, but evaluating that long concrete string is beyond what the verifier does here. The six choices themselves are stated by `LazyList.ProdOfDemo`.
- MatrixMul.Add: cells hold unbounded integers, so `i32` overflow at `rust/matrix_mul/src/main.rs:20` is not modelled. A debug build panics there; a release build wraps.
- MatrixMul.Mul: `i32` overflow at `rust/matrix_mul/src/main.rs:45` is not modelled, for the same reason. The demonstration chain cannot overflow: every step gives back its input matrix.
- The type-level side of `rust/matrix_mul/src/main.rs` is not modelled:
  - the result types of `+`, `*` and the dot products are computed by trait selection there, and modelled by `Cell` values;
  - the unused `Maybe` trait (`:12-15`).
- Reading four numbers from standard input and printing the result (`rust/matrix_mul/src/main.rs:153-157`, `:179`) is I/O and is left out.
- Primes.Primes.Next: `u64` overflow of `index += 1` is not modelled, because numbers are unbounded.
- Primes.Primes.SearchNext: `u64` overflow of `current += 1` is not modelled, for the same reason.
- The `Iterator` trait plumbing around `next` is not modelled.
- `rust/matrix_mul/src/matrix_generic_stub.rs` is not part of this model. It repeats `rust/matrix_mul/src/main.rs:67-149` without the definitions it needs, so it does not compile.
- `rust/thunk.rs` is not part of this model. It is marked incomplete, does not compile, and `rust/lazy_list.rs` supersedes it.
- `rust/jsonParse/src/main.rs` is not part of this model. It is a thin wrapper over parser combinators from a library not included here.
- `rust/units.rs` is not part of this model: it is floating-point arithmetic.
- `rust/async-yield.rs` is not part of this model: it is concurrency over future channels.
- The type-system demonstrations that only print are not part of this model: `rust/errorTypes.rs`, `rust/generics.rs`, `rust/existential.rs`, `rust/existential2.rs`, `idris/existential.rs`.

## Findings

| source | as written | input that shows it | evidently intended | confidence | as-written member | corrected member |
|---|---|---|---|---|---|---|
| rust/primes.rs:27 | the lookup is bound with an irrefutable `if let`, so `next` always returns the cached entry, panics on an index past the cache, and never reaches the search at lines 31-43 | `Primes::new()` followed by two calls of `next`: the second call indexes position 1 of the one-element cache | a checked lookup that falls back to the search when the cache is exhausted, so the calls yield 2, 3, 5, … | not executed | Primes.SecondNextFails | Primes.Primes.NextIntended |
