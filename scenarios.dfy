/** Callers of the scope chain, proved from the contracts of `Env` alone:
    what the evaluator can rely on when it enters and leaves scopes. */
module Scenarios {
  import opened Wrappers
  import opened RuntimeErrors
  import opened Environment
  import opened Lambdas

  /** Entering a scope with `frame` and leaving it again hands `frame` back
      and restores the stack exactly. */
  method AddThenPop<S(==,!new), V>(env: Env<S, V>, frame: Frame<S, V>)
    returns (r: Result<Frame<S, V>, RuntimeError>)
    modifies env
    ensures r == Ok(frame)
    ensures env.frames == old(env.frames)
  {
    env.AddFrame(frame);
    r := env.PopFrame();
    assert old(env.frames) + [frame] == env.frames + [frame];
  }

  /** Pushing `frames` one by one and then popping as many restores the
      stack, and the pops return the frames last-pushed first. */
  method PushThenPopAll<S(==,!new), V>(env: Env<S, V>, frames: seq<Frame<S, V>>)
    returns (popped: seq<Frame<S, V>>)
    modifies env
    ensures env.frames == old(env.frames)
    ensures |popped| == |frames|
    ensures forall i :: 0 <= i < |frames| ==> popped[i] == frames[|frames| - 1 - i]
  {
    ghost var start := env.frames;
    var n := 0;
    while n < |frames|
      invariant 0 <= n <= |frames|
      invariant env.frames == start + frames[..n]
    {
      env.AddFrame(frames[n]);
      assert frames[..n + 1] == frames[..n] + [frames[n]];
      n := n + 1;
    }
    popped := [];
    while n > 0
      invariant 0 <= n <= |frames|
      invariant env.frames == start + frames[..n]
      invariant |popped| == |frames| - n
      invariant forall i :: 0 <= i < |popped| ==> popped[i] == frames[|frames| - 1 - i]
    {
      var r := env.PopFrame();
      assert frames[..n] == frames[..n - 1] + [frames[n - 1]];
      assert (start + frames[..n])[..|start| + n - 1] == start + frames[..n - 1];
      popped := popped + [r.value];
      n := n - 1;
    }
    assert frames[..0] == [];
  }

  /** A stack with no frames reports underflow on each of two pops, and
      still has no frames afterwards. */
  method PopEmpty<S(==,!new), V>()
    returns (first: Result<Frame<S, V>, RuntimeError>, second: Result<Frame<S, V>, RuntimeError>, depth: nat)
    ensures first == second == Err(RuntimeError(StackUnderflowMessage))
    ensures RuntimeErrors.Display(first.error) == "Runtime error: No env frames left."
    ensures depth == 0
  {
    var env := new Env<S, V>();
    first := env.PopFrame();
    second := env.PopFrame();
    depth := |env.frames|;
  }

  /** One global frame with `x = 1`, a new scope defining `x = 2`: as
      written, lookup keeps seeing the outer `1` (the first-pushed frame is
      searched first), `update` rewrites the outer binding, the inner scope
      keeps its own `2` until it is popped, updating an unbound name is the
      undefined-symbol error, and `delete` then unbinds the outer `x`. */
  method OuterBindingWins()
    returns (afterDefine: Option<int>, afterUpdate: Option<int>,
             popped: Result<Frame<string, int>, RuntimeError>,
             missing: Result<(), RuntimeError>, afterDelete: Option<int>)
    ensures afterDefine == Some(1)
    ensures afterUpdate == Some(3)
    ensures popped.Ok? && popped.value.Get("x") == Some(2)
    ensures missing == Err(RuntimeError("Tried to set value of undefined symbol \"y\""))
    ensures afterDelete == None
  {
    var env := new Env<string, int>();
    env.AddDefaultFrame();
    env.Set("x", 1);
    env.AddDefaultFrame();
    env.Set("x", 2);
    assert env.frames[0].Get("x") == Some(1);
    afterDefine := env.Get("x");

    var u := env.Update("x", 3, s => s);
    assert env.frames[0].Get("x") == Some(3) && env.frames[1].Get("x") == Some(2);
    afterUpdate := env.Get("x");

    popped := env.PopFrame();
    assert env.Get("x") == Some(3);

    missing := env.Update("y", 5, s => s);
    assert missing.error.message == "Tried to set value of undefined symbol \"y\"";

    env.Delete("x");
    afterDelete := env.Get("x");
  }

  /** A lambda owns the frame popped off the stack to build it: after the
      pop no `Env` operation can reach that frame, so updating the same
      symbol in the environment leaves the closure's binding as it was. */
  method ClosureOwnsPoppedFrame() returns (inEnv: Option<int>, inClosure: Option<int>, text: string)
    ensures inEnv == Some(2)
    ensures inClosure == Some(1)
    ensures text == "(a b) body"
  {
    var env := new Env<string, int>();
    env.AddDefaultFrame();
    env.Set("x", 1);
    env.AddDefaultFrame();
    env.Set("x", 1);
    var scope := env.PopFrame();
    var f := Lambda(scope.value, ["a", "b"], 0);
    assert env.frames[0].Get("x") == Some(1);
    var u := env.Update("x", 2, s => s);
    assert env.frames[0].Get("x") == Some(2);
    inEnv := env.Get("x");
    inClosure := f.closure.Get("x");
    DisplayTwoArgs(f, BodyText);
    text := Lambdas.Display(f, NameOf, BodyText);
  }

  /** A symbol's name text in these scenarios: the string itself. */
  function NameOf(s: string): string { s }

  /** The body's rendering in these scenarios. */
  function BodyText(v: int): string { "body" }

  /** A lambda with two parameters renders as their names, one space
      apart, between parentheses, then one space and its body's text. */
  lemma DisplayTwoArgs<V>(f: Lambda<string, V>, showBody: V -> string)
    requires |f.argnames| == 2
    ensures Lambdas.Display(f, NameOf, showBody) ==
              "(" + f.argnames[0] + " " + f.argnames[1] + ") " + showBody(f.body)
  {
    var names := ArgNames(f.argnames, NameOf);
    assert names == [f.argnames[0], f.argnames[1]];
    assert Join(names) == f.argnames[0] + " " + f.argnames[1] by {
      assert names[1..] == [f.argnames[1]];
    }
  }
}
