/** A function defined in Lisp (src/model/lambda.rs): the frame it closed
    over, its parameter names in order, and its body. It is plain data; the
    evaluator that calls it is not part of this model. */
module Lambdas {
  import opened Environment

  /** The closure is an owned `Frame` value: later changes to the scope
      chain it was taken from do not reach it, and nothing changes a lambda
      after it is built. */
  datatype Lambda<S(==,!new), V> = Lambda(closure: Frame<S, V>, argnames: seq<S>, body: V)

  /** `join(" ")` on a list of strings. */
  function Join(parts: seq<string>): (r: string)
    ensures |parts| == 0 ==> r == ""
    ensures |parts| > 0 ==> |parts[0]| <= |r| && r[..|parts[0]|] == parts[0]
    ensures |parts| > 0 ==>
              |parts[|parts| - 1]| <= |r| && r[|r| - |parts[|parts| - 1]|..] == parts[|parts| - 1]
    decreases |parts|
  {
    if |parts| == 0 then ""
    else if |parts| == 1 then parts[0]
    else parts[0] + " " + Join(parts[1..])
  }

  /** The text of each parameter name, in parameter order (`sym.0` in the
      source, a parameter here because `Symbol` is not part of this model). */
  function ArgNames<S>(argnames: seq<S>, symbolName: S -> string): (names: seq<string>)
    ensures |names| == |argnames|
    ensures forall i :: 0 <= i < |argnames| ==> names[i] == symbolName(argnames[i])
  {
    seq(|argnames|, i requires 0 <= i < |argnames| => symbolName(argnames[i]))
  }

  /** `Display for Lambda`: the parameter names between parentheses, then
      one space and the body's rendering. */
  function Display<S(==,!new), V>(l: Lambda<S, V>, symbolName: S -> string, showBody: V -> string): (r: string)
    ensures |r| >= 3 + |showBody(l.body)| && r[0] == '('
  {
    "(" + Join(ArgNames(l.argnames, symbolName)) + ") " + showBody(l.body)
  }

  /** A string with no space character in it. */
  predicate SpaceFree(t: string)
  {
    forall j :: 0 <= j < |t| ==> t[j] != ' '
  }

  /** The position of the first space in `s`, or `|s|` if there is none. */
  function FirstSpace(s: string): (i: nat)
    ensures i <= |s|
    ensures i < |s| ==> s[i] == ' '
    ensures SpaceFree(s[..i])
    decreases |s|
  {
    if |s| == 0 || s[0] == ' ' then 0
    else 1 + FirstSpace(s[1..])
  }

  /** The pieces of `s` between single spaces: the inverse of `Join`. */
  function Split(s: string): (parts: seq<string>)
    ensures |parts| > 0
    decreases |s|
  {
    var i := FirstSpace(s);
    if i == |s| then [s]
    else [s[..i]] + Split(s[i + 1..])
  }

  /** For a non-empty list of names without spaces (empty names allowed),
      splitting the joined text at its spaces gives the list back: the names
      appear in order, with one space between consecutive names. */
  lemma {:induction false} SplitJoin(parts: seq<string>)
    requires |parts| > 0
    requires forall k :: 0 <= k < |parts| ==> SpaceFree(parts[k])
    ensures Split(Join(parts)) == parts
    decreases |parts|
  {
    var s := Join(parts);
    var p := parts[0];
    if |parts| == 1 {
      assert s == p;
      assert FirstSpace(s) == |s|;
    } else {
      var rest := Join(parts[1..]);
      assert s == p + " " + rest;
      assert FirstSpace(s) == |p| by {
        assert s[|p|] == ' ';
        assert s[..|p|] == p;
      }
      assert s[..|p|] == p;
      assert s[|p| + 1..] == rest;
      SplitJoin(parts[1..]);
      assert Split(s) == [p] + parts[1..];
    }
  }

  /** A lambda without parameters renders as `() ` followed by its body. */
  lemma DisplayNoArgs<S(!new), V>(l: Lambda<S, V>, symbolName: S -> string, showBody: V -> string)
    requires l.argnames == []
    ensures Display(l, symbolName, showBody) == "() " + showBody(l.body)
  {
  }

  /** For every lambda, the rendering is "(", the joined parameter names,
      ") ", then the body's rendering. */
  lemma DisplayLayout<S(!new), V>(l: Lambda<S, V>, symbolName: S -> string, showBody: V -> string)
    ensures var r := Display(l, symbolName, showBody);
            var t := Join(ArgNames(l.argnames, symbolName));
            && |r| == |t| + 3 + |showBody(l.body)|
            && r[0] == '('
            && r[1..|t| + 1] == t
            && r[|t| + 1..|t| + 3] == ") "
            && r[|t| + 3..] == showBody(l.body)
  {
    ParenthesisedSlices(Join(ArgNames(l.argnames, symbolName)), showBody(l.body));
  }

  /** When there is at least one parameter and no name has a space, the
      parenthesised text of the rendering (see `DisplayLayout`) splits back
      into exactly the names, in parameter order. */
  lemma DisplayListsArgNames<S(!new), V>(l: Lambda<S, V>, symbolName: S -> string, showBody: V -> string)
    requires |l.argnames| > 0
    requires forall i :: 0 <= i < |l.argnames| ==> SpaceFree(symbolName(l.argnames[i]))
    ensures var r := Display(l, symbolName, showBody);
            var t := Join(ArgNames(l.argnames, symbolName));
            && r[1..|t| + 1] == t
            && Split(t) == ArgNames(l.argnames, symbolName)
  {
    var names := ArgNames(l.argnames, symbolName);
    SplitJoin(names);
    DisplayLayout(l, symbolName, showBody);
  }

  /** Where the pieces of `"(" + t + ") " + b` sit in the text. */
  lemma ParenthesisedSlices(t: string, b: string)
    ensures var r := "(" + t + ") " + b;
            && |r| == |t| + 3 + |b|
            && r[0] == '('
            && r[1..|t| + 1] == t
            && r[|t| + 1..|t| + 3] == ") "
            && r[|t| + 3..] == b
  {
    var r := "(" + t + ") " + b;
    assert r[1..|t| + 1] == t;
    assert r[|t| + 1..|t| + 3] == ") ";
    assert r[|t| + 3..] == b;
  }
}
