/** The scope chain of the interpreter (src/model/env.rs): a `Frame` is one
    scope level mapping symbols to values, and an `Env` is a stack of frames
    that the evaluator pushes, pops, reads and mutates.

    Every walk over the chain starts at index 0, the frame pushed FIRST, and
    takes the first frame that binds the symbol, while `Set` writes to the
    frame pushed LAST. So an older binding hides a newer one for `Get`,
    `Update` and `Delete`; the lemmas below state that order. */
module Environment {
  import opened Wrappers
  import opened RuntimeErrors

  /** One scope level. A frame is owned by exactly one holder (the stack, the
      caller of `PopFrame`, or a lambda's closure) and is never shared, so it
      is modelled as a value; `Set` and `Delete` give the updated frame. */
  datatype Frame<S(==,!new), V> = Frame(entries: map<S, V>)
  {
    /** `Frame::default()`: a frame that binds nothing. */
    static function Default(): (f: Frame<S, V>)
      ensures forall s :: !f.Has(s)
    {
      Frame(map[])
    }

    /** `Frame::get`: the value bound to `symbol` in this frame only. */
    function Get(symbol: S): (r: Option<V>)
      ensures r.Some? <==> symbol in entries
      ensures r.Some? ==> r.value == entries[symbol]
    {
      if symbol in entries then Some(entries[symbol]) else None
    }

    /** `Frame::has`: holds exactly when `Get` finds a value. */
    predicate Has(symbol: S)
      ensures Has(symbol) <==> Get(symbol).Some?
    {
      symbol in entries
    }

    /** `Frame::set`: insert or overwrite; every other key keeps its value. */
    function Set(symbol: S, value: V): (f: Frame<S, V>)
      ensures f.Get(symbol) == Some(value) && f.Has(symbol)
      ensures forall k :: k != symbol ==> f.Get(k) == Get(k)
    {
      Frame(entries[symbol := value])
    }

    /** `Frame::delete`: remove the binding if there is one; every other key
        keeps its value. */
    function Delete(symbol: S): (f: Frame<S, V>)
      ensures !f.Has(symbol) && f.Get(symbol) == None
      ensures forall k :: k != symbol ==> f.Get(k) == Get(k)
    {
      Frame(entries - {symbol})
    }
  }

  /** Frames that agree on every lookup are the same frame, so the contracts
      of `Set` and `Delete` determine their results completely. */
  lemma FrameExtensionality<S(!new), V>(a: Frame<S, V>, b: Frame<S, V>)
    requires forall k :: a.Get(k) == b.Get(k)
    ensures a == b
  {
    assert a.entries.Keys == b.entries.Keys by {
      forall k ensures k in a.entries <==> k in b.entries {
        assert a.Get(k) == b.Get(k);
      }
    }
    forall k | k in a.entries ensures a.entries[k] == b.entries[k] {
      assert a.Get(k) == b.Get(k);
    }
  }

  /** Deleting a symbol the frame does not bind leaves the frame as it was. */
  lemma DeleteAbsentIsNoOp<S(!new), V>(f: Frame<S, V>, symbol: S)
    requires !f.Has(symbol)
    ensures f.Delete(symbol) == f
  {
    FrameExtensionality(f.Delete(symbol), f);
  }

  /** The message of the error `pop_frame` returns on an empty stack. */
  const StackUnderflowMessage: string := "No env frames left."

  /** The message of the error `update` returns for an unbound symbol, given
      the symbol's rendering. */
  function UndefinedSymbolMessage(symbolText: string): (m: string)
    ensures |m| == |UndefinedSymbolPrefix| + |symbolText| + 1
    ensures m[..|UndefinedSymbolPrefix|] == UndefinedSymbolPrefix
    ensures m[|UndefinedSymbolPrefix|..|m| - 1] == symbolText && m[|m| - 1] == '"'
  {
    UndefinedSymbolPrefix + symbolText + "\""
  }

  /** The fixed text in front of the symbol in that message. */
  const UndefinedSymbolPrefix: string := "Tried to set value of undefined symbol \""

  /** `next_frame_with_symbol_mut`: the index of the first frame, counting
      from the first pushed, that binds `symbol`. */
  function NextFrameWithSymbol<S(==,!new), V>(frames: seq<Frame<S, V>>, symbol: S): (r: Option<nat>)
    ensures r.Some? ==> r.value < |frames| && frames[r.value].Has(symbol)
    ensures r.Some? ==> forall j :: 0 <= j < r.value ==> !frames[j].Has(symbol)
    ensures r.None? <==> forall j :: 0 <= j < |frames| ==> !frames[j].Has(symbol)
    decreases |frames|
  {
    if |frames| == 0 then None
    else if frames[0].Has(symbol) then Some(0)
    else match NextFrameWithSymbol(frames[1..], symbol)
      case None => None
      case Some(k) => Some(k + 1)
  }

  /** `Env::get`: `find_map` of `Frame::get` over the frames in index order.
      It yields the value from the frame `NextFrameWithSymbol` picks, and
      nothing when no frame binds the symbol. */
  function Lookup<S(==,!new), V>(frames: seq<Frame<S, V>>, symbol: S): (r: Option<V>)
    ensures NextFrameWithSymbol(frames, symbol).None? ==> r.None?
    ensures NextFrameWithSymbol(frames, symbol).Some? ==>
              r == frames[NextFrameWithSymbol(frames, symbol).value].Get(symbol)
    decreases |frames|
  {
    if |frames| == 0 then None
    else match frames[0].Get(symbol)
      case Some(v) => Some(v)
      case None => Lookup(frames[1..], symbol)
  }

  /** The frames after `Env::set`: the last frame, if any, binds `symbol`.
      This and the next two functions are the new stack the `Env` methods
      leave; the methods assign them, so each update is written once. */
  function DefineInLast<S(==,!new), V>(frames: seq<Frame<S, V>>, symbol: S, value: V): seq<Frame<S, V>>
  {
    if |frames| == 0 then frames
    else frames[|frames| - 1 := frames[|frames| - 1].Set(symbol, value)]
  }

  /** The frames after `Env::update`: the first binding frame rebinds it. */
  function Updated<S(==,!new), V>(frames: seq<Frame<S, V>>, symbol: S, value: V): seq<Frame<S, V>>
  {
    match NextFrameWithSymbol(frames, symbol)
    case None => frames
    case Some(i) => frames[i := frames[i].Set(symbol, value)]
  }

  /** The frames after `Env::delete`: the first binding frame drops it. */
  function Deleted<S(==,!new), V>(frames: seq<Frame<S, V>>, symbol: S): seq<Frame<S, V>>
  {
    match NextFrameWithSymbol(frames, symbol)
    case None => frames
    case Some(i) => frames[i := frames[i].Delete(symbol)]
  }

  /** The stack of frames the evaluator enters and leaves scopes with. */
  class Env<S(==,!new), V> {
    var frames: seq<Frame<S, V>>

    /** `Env::default()`: no frames at all. */
    constructor ()
      ensures frames == []
    {
      frames := [];
    }

    /** `add_frame`: the frame becomes the last one. */
    method AddFrame(frame: Frame<S, V>)
      modifies this
      ensures frames == old(frames) + [frame]
    {
      frames := frames + [frame];
    }

    /** `add_default_frame`: one empty frame on top, the rest untouched. */
    method AddDefaultFrame()
      modifies this
      ensures |frames| == |old(frames)| + 1
      ensures frames[..|old(frames)|] == old(frames)
      ensures frames[|frames| - 1] == Frame.Default()
    {
      var frame := Frame.Default();
      AddFrame(frame);
    }

    /** `pop_frame`: the last frame is removed and returned; an empty stack
        is an error and stays empty. */
    method PopFrame() returns (r: Result<Frame<S, V>, RuntimeError>)
      modifies this
      ensures old(frames) == [] ==>
                r == Err(RuntimeError(StackUnderflowMessage)) && frames == []
      ensures old(frames) != [] ==>
                r == Ok(old(frames)[|old(frames)| - 1]) &&
                frames == old(frames)[..|old(frames)| - 1]
    {
      if |frames| == 0 {
        var message := StackUnderflowMessage;
        r := Err(RuntimeError(message));
      } else {
        var last := frames[|frames| - 1];
        frames := frames[..|frames| - 1];
        r := Ok(last);
      }
    }

    /** `get`: the value from the lowest-index frame binding `symbol`;
        nothing exactly when no frame binds it. */
    function Get(symbol: S): (r: Option<V>)
      reads this
      ensures r.None? <==> forall i :: 0 <= i < |frames| ==> !frames[i].Has(symbol)
      ensures r.Some? ==>
                exists i :: 0 <= i < |frames| && frames[i].Get(symbol) == r &&
                  forall j :: 0 <= j < i ==> !frames[j].Has(symbol)
    {
      Lookup(frames, symbol)
    }

    /** `set`: define or overwrite in the last frame; no-op with no frames. */
    method Set(symbol: S, value: V)
      modifies this
      ensures frames == DefineInLast(old(frames), symbol, value)
    {
      frames := DefineInLast(frames, symbol, value);
    }

    /** `update`: rebind `symbol` in the first frame that binds it, or fail
        with the undefined-symbol error and change nothing. The symbol's
        rendering is a parameter because `Display for Symbol` is not part
        of this model. */
    method Update(symbol: S, value: V, displaySymbol: S -> string)
      returns (r: Result<(), RuntimeError>)
      modifies this
      ensures frames == Updated(old(frames), symbol, value)
      ensures r.Ok? <==> NextFrameWithSymbol(old(frames), symbol).Some?
      ensures r.Err? ==> r.error == New(UndefinedSymbolMessage(displaySymbol(symbol)))
    {
      var found := NextFrameWithSymbol(frames, symbol);
      if found.Some? {
        frames := Updated(frames, symbol, value);
        r := Ok(());
      } else {
        var message := UndefinedSymbolMessage(displaySymbol(symbol));
        r := Err(New(message));
      }
    }

    /** `delete`: drop `symbol` from the first frame that binds it; no-op
        when no frame does. */
    method Delete(symbol: S)
      modifies this
      ensures frames == Deleted(old(frames), symbol)
    {
      frames := Deleted(frames, symbol);
    }
  }

  /** The search result is determined by its contract: the first binding
      frame is the one. */
  lemma NextFrameIsFirstBinder<S(!new), V>(frames: seq<Frame<S, V>>, symbol: S, i: nat)
    requires i < |frames| && frames[i].Has(symbol)
    requires forall j :: 0 <= j < i ==> !frames[j].Has(symbol)
    ensures NextFrameWithSymbol(frames, symbol) == Some(i)
  {
  }

  /** Frames below the first `n` that bind nothing do not affect lookup. */
  lemma {:induction false} LookupSkipsUnbound<S(!new), V>(frames: seq<Frame<S, V>>, symbol: S, n: nat)
    requires n <= |frames|
    requires forall j :: 0 <= j < n ==> !frames[j].Has(symbol)
    ensures Lookup(frames, symbol) == Lookup(frames[n..], symbol)
    decreases n
  {
    if n > 0 {
      assert !frames[0].Has(symbol);
      assert Lookup(frames, symbol) == Lookup(frames[1..], symbol);
      LookupSkipsUnbound(frames[1..], symbol, n - 1);
      assert frames[1..][n - 1..] == frames[n..];
    }
  }

  /** `set` touches only the last frame, where `symbol` now maps to `value`;
      the frame count is kept, and an empty stack stays empty. Lookup then
      sees `value` unless an older frame already binds `symbol`. */
  lemma DefineInLastEffect<S(!new), V>(frames: seq<Frame<S, V>>, symbol: S, value: V)
    ensures |frames| == 0 ==> DefineInLast(frames, symbol, value) == []
    ensures |DefineInLast(frames, symbol, value)| == |frames|
    ensures forall i :: 0 <= i < |frames| - 1 ==> DefineInLast(frames, symbol, value)[i] == frames[i]
    ensures |frames| > 0 ==>
              var top := DefineInLast(frames, symbol, value)[|frames| - 1];
              top.Get(symbol) == Some(value) &&
              forall k :: k != symbol ==> top.Get(k) == frames[|frames| - 1].Get(k)
    ensures |frames| > 0 ==>
              Lookup(DefineInLast(frames, symbol, value), symbol) ==
                if NextFrameWithSymbol(frames, symbol).Some? &&
                   NextFrameWithSymbol(frames, symbol).value < |frames| - 1
                then Lookup(frames, symbol)
                else Some(value)
  {
    if |frames| > 0 {
      var after := DefineInLast(frames, symbol, value);
      var last := |frames| - 1;
      match NextFrameWithSymbol(frames, symbol)
      case Some(i) =>
        NextFrameIsFirstBinder(after, symbol, i);
      case None =>
        NextFrameIsFirstBinder(after, symbol, last);
    }
  }

  /** `update` on a bound symbol: the first binding frame, and only it, now
      maps `symbol` to `value`, lookup returns `value`, and the same frame
      is still the first to bind `symbol`. */
  lemma UpdatedBound<S(!new), V>(frames: seq<Frame<S, V>>, symbol: S, value: V, i: nat)
    requires NextFrameWithSymbol(frames, symbol) == Some(i)
    ensures |Updated(frames, symbol, value)| == |frames|
    ensures forall j :: 0 <= j < |frames| && j != i ==> Updated(frames, symbol, value)[j] == frames[j]
    ensures Updated(frames, symbol, value)[i].Get(symbol) == Some(value)
    ensures forall k :: k != symbol ==> Updated(frames, symbol, value)[i].Get(k) == frames[i].Get(k)
    ensures NextFrameWithSymbol(Updated(frames, symbol, value), symbol) == Some(i)
    ensures Lookup(Updated(frames, symbol, value), symbol) == Some(value)
  {
    NextFrameIsFirstBinder(Updated(frames, symbol, value), symbol, i);
  }

  /** `update` never creates a binding: with no frame binding `symbol`,
      the frames stay exactly as they were and lookup still finds nothing. */
  lemma UpdatedUnbound<S(!new), V>(frames: seq<Frame<S, V>>, symbol: S, value: V)
    requires forall j :: 0 <= j < |frames| ==> !frames[j].Has(symbol)
    ensures Updated(frames, symbol, value) == frames
    ensures Lookup(Updated(frames, symbol, value), symbol) == None
  {
  }

  /** `delete` on a bound symbol: it is gone from the first binding frame,
      every other key and frame is kept, and lookup now sees the binding of
      the next frame up the index order, if any. */
  lemma DeletedBound<S(!new), V>(frames: seq<Frame<S, V>>, symbol: S, i: nat)
    requires NextFrameWithSymbol(frames, symbol) == Some(i)
    ensures |Deleted(frames, symbol)| == |frames|
    ensures forall j :: 0 <= j < |frames| && j != i ==> Deleted(frames, symbol)[j] == frames[j]
    ensures !Deleted(frames, symbol)[i].Has(symbol)
    ensures forall k :: k != symbol ==> Deleted(frames, symbol)[i].Get(k) == frames[i].Get(k)
    ensures Lookup(Deleted(frames, symbol), symbol) == Lookup(frames[i + 1..], symbol)
  {
    var after := Deleted(frames, symbol);
    LookupSkipsUnbound(after, symbol, i + 1);
    assert after[i + 1..] == frames[i + 1..];
  }

  /** `delete` of a symbol no frame binds changes nothing. */
  lemma DeletedUnbound<S(!new), V>(frames: seq<Frame<S, V>>, symbol: S)
    requires forall j :: 0 <= j < |frames| ==> !frames[j].Has(symbol)
    ensures Deleted(frames, symbol) == frames
  {
  }

  /** Pushing a frame changes lookup only for symbols no older frame binds. */
  lemma LookupAfterPush<S(!new), V>(frames: seq<Frame<S, V>>, frame: Frame<S, V>, symbol: S)
    ensures Lookup(frames + [frame], symbol) ==
              if NextFrameWithSymbol(frames, symbol).Some? then Lookup(frames, symbol)
              else frame.Get(symbol)
  {
    var pushed := frames + [frame];
    match NextFrameWithSymbol(frames, symbol)
    case Some(i) =>
      NextFrameIsFirstBinder(pushed, symbol, i);
    case None =>
      if frame.Has(symbol) {
        NextFrameIsFirstBinder(pushed, symbol, |frames|);
      }
  }

  /** As written, a new scope does not shadow: defining `symbol` in a freshly
      pushed frame leaves the older binding visible to lookup. */
  lemma OlderBindingHidesNewer<S(!new), V>(frames: seq<Frame<S, V>>, frame: Frame<S, V>, symbol: S, value: V)
    requires NextFrameWithSymbol(frames, symbol).Some?
    ensures Lookup(DefineInLast(frames + [frame], symbol, value), symbol) == Lookup(frames, symbol)
  {
    var pushed := frames + [frame];
    DefineInLastEffect(pushed, symbol, value);
    NextFrameIsFirstBinder(pushed, symbol, NextFrameWithSymbol(frames, symbol).value);
  }
}
