/** The message-carrying error that the scope chain returns
    (src/model/runtime_error.rs). */
module RuntimeErrors {

  /** A runtime error is its message and nothing else; the derived equality
      of the source is the equality of this datatype. */
  datatype RuntimeError = RuntimeError(message: string)

  /** The text that `Display` puts in front of the message. */
  const DisplayPrefix: string := "Runtime error: "

  /** `RuntimeError::new`: wraps the message unchanged. */
  function New(message: string): (e: RuntimeError)
    ensures e.message == message
  {
    RuntimeError(message)
  }

  /** `Display for RuntimeError`: the prefix, then the message. */
  function Display(e: RuntimeError): (r: string)
    ensures |r| == |DisplayPrefix| + |e.message|
    ensures r[..|DisplayPrefix|] == DisplayPrefix
    ensures r[|DisplayPrefix|..] == e.message
  {
    DisplayPrefix + e.message
  }

  /** `Error::description`: the stored message. */
  function Description(e: RuntimeError): (r: string)
    ensures r == e.message
  {
    e.message
  }

  /** The rendering loses nothing: two errors render alike exactly when
      they are the same error. */
  lemma DisplayIsInjective(a: RuntimeError, b: RuntimeError)
    ensures Display(a) == Display(b) <==> a == b
  {
    if Display(a) == Display(b) {
      assert a.message == Display(a)[|DisplayPrefix|..] == Display(b)[|DisplayPrefix|..] == b.message;
    }
  }

  /** Two errors are equal exactly when their messages are equal. */
  lemma EqualIffSameMessage(a: RuntimeError, b: RuntimeError)
    ensures a == b <==> a.message == b.message
  {
  }

  /** Building an error and reading it back, by either accessor, gives the
      message that went in. */
  lemma NewRoundTrip(message: string)
    ensures Description(New(message)) == message
    ensures Display(New(message)) == DisplayPrefix + message
  {
  }
}
