# Scope chain of a small Lisp interpreter, in Dafny

This project models the scope-chain core of the `rust_lisp` interpreter and proves properties about it. The core has three parts:

- **`Frame`** is one scope level: a map from symbols to values with `get`, `set`, `delete` and `has`.
- **`Env`** is a stack of frames. It can push a frame (`add_frame`, `add_default_frame`) and pop one (`pop_frame`). The evaluator uses it to look a symbol up (`get`), define a symbol in the last frame (`set`), change an existing binding (`update`) and remove a binding (`delete`).
- **`Lambda`** is a record of a captured frame, ordered parameter names and a body, plus its textual rendering.
- **`RuntimeError`** is the message-carrying error returned by `pop_frame` and `update`, plus its rendering.

`Symbol` and `Value` are opaque type parameters `S` and `V`. The source needs equality on symbols, and so does the model. Any rendering of a symbol or a value that the source takes from code outside the core is a function parameter:

- `displaySymbol` in `Env.Update` stands for `Display for Symbol`.
- `symbolName` in the lambda rendering stands for `sym.0`.
- `showBody` in the lambda rendering stands for `Display for Value`.

Files:

- `wrappers.dfy`: `Option` and `Result`.
- `runtime_error.dfy`: module `RuntimeErrors`.
- `env.dfy`: module `Environment`. It holds the `Frame` datatype, the `Env` class, the search as pure functions (`NextFrameWithSymbol`, `Lookup`), the state each mutation leaves (`DefineInLast`, `Updated`, `Deleted`), and lemmas about them.
- `lambda.dfy`: module `Lambdas`.
- `scenarios.dfy`: callers proved against the `Env` contracts alone. They cover push/pop round trips, underflow, the as-written shadowing behaviour, and closure capture.

## Search order

`Env::get` and `next_frame_with_symbol_mut` walk `frames` with `iter()` / `iter_mut()`, so they start at index 0. Index 0 is the frame pushed first. `Env::set` writes to `last_mut()`, the frame pushed last. The model follows the code:

- `get`, `update` and `delete` act on the lowest-index frame that binds the symbol (`NextFrameWithSymbol`).
- An older binding therefore hides a newer one. `OlderBindingHidesNewer` states this, and `Scenarios.OuterBindingWins` plays it out.

The doc comment at src/model/env.rs:56 ("Delete the nearest (going upwards) definition") suggests an innermost-first search, with the last-pushed frame searched first. The code does not search that way, and that has three consequences:

- After `set(x, v)`, `get(x)` returns the last frame's `v` when no lower-index frame binds `x`; otherwise it returns that lower frame's binding (`DefineInLastEffect`).
- A new scope does not shadow an outer binding. Take `x = 1` in frame 0. After `add_default_frame(); set(x, 2)`, `get(x)` still returns `1` (`OlderBindingHidesNewer`).
- `update(x, v)` in that state rewrites frame 0, not the new frame, which keeps its own `x = 2` until it is popped (`Scenarios.OuterBindingWins`).

Two more behaviours of the code are kept as they are:

- With no frames, `set` does nothing (src/model/env.rs:40). `DefineInLastEffect` states this no-op.
- `Lambda.closure` is an owned `Frame` (src/model/lambda.rs:8). `Frame` has no `Clone` and `Env` hands out an owned frame only by moving it out with `pop_frame` (src/model/env.rs:26-31). A lambda therefore owns a frame moved out of the stack, which no `Env` operation can reach afterwards. `Scenarios.ClosureOwnsPoppedFrame` shows that a later `update` of the same symbol in the environment does not reach the closure.

## Frames as values

A `Frame` has exactly one owner at a time: the stack, the caller of `pop_frame`, or a lambda. Rust moves it between them and never shares it. The model therefore makes `Frame` a datatype. `Set` and `Delete` return the updated frame, and `Env` replaces its element with that frame, which is the effect of `frame.set(...)` on `last_mut()` or on the frame the search found. `Env`, which the evaluator holds and mutates in place, is a class with a `frames: seq<Frame<S, V>>` field. Its methods carry `modifies this` and say what the whole new stack is.

`Lambda` is the datatype `Lambdas.Lambda(closure, argnames, body)`, the three fields of the record at src/model/lambda.rs:7-11. A datatype value cannot be changed after it is built, and a lambda's closure is a `Frame` value, not a reference into an `Env`.

## Model

| member | source | states |
|---|---|---|
| `RuntimeErrors.New` | src/model/runtime_error.rs:9-11 | the error's message is the argument, unchanged |
| `RuntimeErrors.Display` | src/model/runtime_error.rs:14-18 | the rendering is exactly "Runtime error: " and then the message; its length is the sum of the two |
| `RuntimeErrors.Description` | src/model/runtime_error.rs:20-23 | the description is the stored message |
| `RuntimeErrors.DisplayIsInjective` | src/model/runtime_error.rs:14-18 | two errors render alike if and only if they are the same error |
| `RuntimeErrors.EqualIffSameMessage` | src/model/runtime_error.rs:4-7 | two errors are equal exactly when their messages are equal |
| `RuntimeErrors.NewRoundTrip` | src/model/runtime_error.rs:9-23 | building an error from a message and reading it back by description or rendering gives that message |
| `Environment.Frame.Default` | src/model/env.rs:83-86 | the default frame binds no symbol |
| `Environment.Frame.Get` | src/model/env.rs:89-91 | a value is found exactly when the frame binds the symbol, and it is the bound value |
| `Environment.Frame.Has` | src/model/env.rs:101-103 | `has` holds exactly when `get` finds a value |
| `Environment.Frame.Set` | src/model/env.rs:93-95 | afterwards `get` gives the new value and `has` holds; every other key keeps its lookup |
| `Environment.Frame.Delete` | src/model/env.rs:97-99 | afterwards `has` is false and `get` finds nothing; every other key keeps its lookup |
| `Environment.FrameExtensionality` | src/model/env.rs:83-86 | frames that agree on every lookup are equal, so the contracts of `Set` and `Delete` fix their results |
| `Environment.DeleteAbsentIsNoOp` | src/model/env.rs:97-99 | deleting an unbound symbol leaves the frame unchanged |
| `Environment.UndefinedSymbolMessage` | src/model/env.rs:51 | the message is the fixed text `Tried to set value of undefined symbol "`, then the symbol's rendering, then a closing quote |
| `Environment.NextFrameWithSymbol` | src/model/env.rs:63-68 | the result is the lowest index whose frame binds the symbol; it is none exactly when no frame binds it |
| `Environment.NextFrameIsFirstBinder` | src/model/env.rs:63-68 | any index that binds the symbol with no binding frame below it is the search result |
| `Environment.Lookup` | src/model/env.rs:34-36 | `find_map` of `Frame::get` gives the value from the frame the search picks, and nothing when there is none |
| `Environment.LookupSkipsUnbound` | src/model/env.rs:34-36 | leading frames that do not bind the symbol do not change the lookup |
| `Environment.Env.constructor` | src/model/env.rs:11-14 | a default environment has no frames |
| `Environment.Env.AddFrame` | src/model/env.rs:17-19 | the frame is appended; all earlier frames are kept |
| `Environment.Env.AddDefaultFrame` | src/model/env.rs:21-24 | one empty frame is appended; existing frames are unchanged |
| `Environment.Env.PopFrame` | src/model/env.rs:26-31 | on an empty stack: the error "No env frames left." and the stack stays empty; otherwise the last-pushed frame is returned and removed, and nothing else changes |
| `Environment.Env.Get` | src/model/env.rs:33-36 | none exactly when no frame binds the symbol; otherwise the value from a binding frame with no binding frame at a lower index |
| `Environment.Env.Set` | src/model/env.rs:38-43 | the new stack is `DefineInLast` of the old one: only the last frame is rebound, and an empty stack stays empty |
| `Environment.Env.Update` | src/model/env.rs:45-54 | `Ok` exactly when some frame binds the symbol, and then the first binding frame is rebound; otherwise the undefined-symbol error and no change |
| `Environment.Env.Delete` | src/model/env.rs:56-61 | the new stack is `Deleted` of the old one: the symbol is removed from the first binding frame only, and nothing changes when no frame binds it |
| `Environment.DefineInLastEffect` | src/model/env.rs:39-43 | `set` keeps the frame count; frames below the last are unchanged; the last frame binds the symbol to the value and keeps its other keys; with no frames nothing changes; afterwards lookup is the value unless an older frame binds the symbol |
| `Environment.UpdatedBound` | src/model/env.rs:47-50 | the first binding frame, and no other, maps the symbol to the value; its other keys and the frame count are unchanged; it stays the first binder, and lookup gives the value |
| `Environment.UpdatedUnbound` | src/model/env.rs:47-54 | with no binding frame, `update` leaves the stack identical and creates no binding |
| `Environment.DeletedBound` | src/model/env.rs:56-61 | the symbol is gone from the first binding frame; other keys and frames are unchanged; lookup now sees the next binding at a higher index |
| `Environment.DeletedUnbound` | src/model/env.rs:56-61 | `delete` of a symbol no frame binds is a no-op |
| `Environment.LookupAfterPush` | src/model/env.rs:17-36 | after a push, lookup is unchanged for every symbol an older frame binds; for any other symbol it is the new frame's binding |
| `Environment.OlderBindingHidesNewer` | src/model/env.rs:34-43 | defining a symbol in a newly pushed frame does not change what lookup returns when an older frame binds the symbol |
| `Lambdas.ArgNames` | src/model/lambda.rs:16-20 | one name per parameter, in parameter order |
| `Lambdas.Join` | src/model/lambda.rs:21 | `join(" ")`: no names give the empty text; otherwise the text starts with the first name and ends with the last |
| `Lambdas.SplitJoin` | src/model/lambda.rs:16-21 | a non-empty list of space-free names splits back from its join: the same names, in the same order (names may be empty) |
| `Lambdas.Display` | src/model/lambda.rs:13-24 | the rendering opens with "(" and has at least three more characters than the body's rendering; its full layout is proved for every lambda in `Lambdas.DisplayLayout`, and the names' recovery in `Lambdas.DisplayListsArgNames` |
| `Lambdas.DisplayNoArgs` | src/model/lambda.rs:13-24 | with no parameters the rendering is "() " followed by the body's rendering |
| `Lambdas.DisplayLayout` | src/model/lambda.rs:13-24 | for every lambda, the rendering is "(", the parameter names joined by single spaces, ") ", then the body's rendering |
| `Lambdas.DisplayListsArgNames` | src/model/lambda.rs:13-24 | with at least one parameter and no name containing a space, the parenthesised text of the rendering splits back into the parameter names in order |
| `Scenarios.AddThenPop` | src/model/env.rs:17-31 | `add_frame(f)` then `pop_frame()` returns `Ok(f)` and restores the stack exactly |
| `Scenarios.PushThenPopAll` | src/model/env.rs:17-31 | pushing N frames then popping N restores the stack, and the pops return the frames last-in first-out |
| `Scenarios.PopEmpty` | src/model/env.rs:26-31 | popping an empty environment twice gives the error rendered "Runtime error: No env frames left." both times, and the stack still has no frames |
| `Scenarios.OuterBindingWins` | src/model/env.rs:34-61 | with `x = 1` in frame 0 and `x = 2` defined in a new frame, `get(x)` is `1`; `update(x, 3)` rewrites frame 0; the popped frame still holds `2`; `update(y, 5)` fails with `Tried to set value of undefined symbol "y"`; `delete(x)` then leaves `x` unbound |
| `Scenarios.ClosureOwnsPoppedFrame` | src/model/lambda.rs:7-23 | frames 0 and 1 both bind `x = 1`; a lambda built from the popped frame 1 keeps `x = 1` after `update(x, 2)` on the environment, which now gives `2`; the lambda with parameters `a b` renders as "(a b) body" |

## Left out

- `Display for Env` and `Display for Frame` (src/model/env.rs:71-114): their output follows HashMap iteration order, which is unspecified, and `Symbol`/`Value` formatting from outside the core.
- `Hash for Frame` (src/model/env.rs:116-122): it hashes entries in arbitrary HashMap order, so it is not a well-defined function of the frame.
- `Debug` derives and the `std::error::Error` plumbing beyond `description`.
- The definitions of `Symbol` and `Value`, and `Display for Symbol`: the model uses opaque type parameters and rendering-function parameters instead.
- HashMap hashing and capacity: a frame is a Dafny `map`, so only the key-to-value contents are modelled.
- Calling a lambda, binding its arguments and arity errors: these belong to the evaluator, which is not part of this model.
- Shared ("upvalue") capture: the source has none, because `Lambda.closure` is an owned `Frame`.
- Frame.Set and Frame.Delete: modelled as functions that return the updated frame, not as in-place updates. A frame is never aliased in the source, so no caller can tell the difference.
- Lambdas.DisplayListsArgNames: recovering the names from the rendering is stated only for a non-empty list of names without spaces, because a name containing a space, or an empty list next to one empty name, renders ambiguously.
