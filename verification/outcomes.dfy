/** Exception kinds and the value-or-exception results every layer returns.

    The C# code signals failure by throwing; what callers observe is only the
    kind of the exception that escapes, so a call is modelled as a `Result`
    whose error side carries that kind. */
module Outcomes {

  datatype Option<+T> = None | Some(value: T)

  /** The exception kinds the controllers tell apart: `ArgumentException`
      (including its subclass `ArgumentNullException`), `KeyNotFoundException`,
      and any other exception, which the layers re-throw as a plain
      `Exception`. */
  datatype Fault = Argument | KeyNotFound | Generic

  /** The value a call returns, or the kind of exception it throws. */
  datatype Result<+T> = Ok(value: T) | Err(fault: Fault)

  /** The outcome of a validation step that either returns or throws. */
  datatype Check = Pass | Fail(fault: Fault)

  /** A `try { … } catch (Exception ex) { throw new Exception(…, ex); }`
      around a call: success passes through, every exception comes out as a
      plain `Exception`. */
  function Wrapped<T>(r: Result<T>): (w: Result<T>)
    ensures w.Ok? <==> r.Ok?
    ensures r.Ok? ==> w.value == r.value
    ensures w.Err? ==> w.fault == Generic
  {
    match r
    case Ok(v) => Ok(v)
    case Err(_) => Err(Generic)
  }

  /** The same `try` with a `catch (KeyNotFoundException)` clause first that
      re-throws a `KeyNotFoundException`: that kind survives, every other
      exception becomes a plain `Exception`. */
  function WrappedKeepingKeyNotFound<T>(r: Result<T>): (w: Result<T>)
    ensures w.Ok? <==> r.Ok?
    ensures r.Ok? ==> w.value == r.value
    ensures w.Err? ==> (w.fault == KeyNotFound <==> r.fault == KeyNotFound)
    ensures w.Err? ==> w.fault != Argument
  {
    match r
    case Ok(v) => Ok(v)
    case Err(f) => if f == KeyNotFound then Err(KeyNotFound) else Err(Generic)
  }
}
