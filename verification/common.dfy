/** Failure-carrying results shared by every component of the model. */
module Common {

  datatype Option<+T> = None | Some(value: T)

  /** A JavaScript argument that may be `null`, `undefined` or an actual value. */
  datatype Nullable<+T> = Null | Undefined | Present(value: T)

  /** The exceptions and rejected promises the original raises. */
  datatype Error =
    | TypeError                // a property read on `undefined`: an index past MeasureList, a row, staffEntries,
                               // the system list or the stave lines, an absent score, an `undefined` argument
    | LayoutNotReady           // render() before a score was loaded
    | InvalidCharacter         // Base64 InvalidCharacterError
    | InvalidColorCount        // coloringSetCustom missing or not of length 8
    | InvalidColorString       // a custom colour is not "#" followed by six hex digits
    | InvalidDocument          // load() content that is not a document node

  datatype Result<+T> = Ok(value: T) | Err(error: Error) {
    predicate IsFailure() { Err? }

    function PropagateFailure<U>(): Result<U>
      requires Err?
    {
      Err(error)
    }

    function Extract(): T
      requires Ok?
    {
      value
    }
  }

  /** The element at index i of a JavaScript array: `undefined` (None) outside 0..|xs|-1. */
  function At<T>(xs: seq<T>, i: int): (r: Option<T>)
    ensures r.Some? <==> 0 <= i < |xs|
    ensures r.Some? ==> r.value == xs[i]
  {
    if 0 <= i < |xs| then Some(xs[i]) else None
  }

  /** Reading a property of `xs[i]`: throws a TypeError when the element is `undefined`. */
  function Deref<T>(xs: seq<T>, i: int): (r: Result<T>)
    ensures r.Ok? <==> 0 <= i < |xs|
    ensures r.Ok? ==> r.value == xs[i]
    ensures r.Err? ==> r.error == TypeError
  {
    if 0 <= i < |xs| then Ok(xs[i]) else Err(TypeError)
  }
}
