/** Failure-compatible wrappers used throughout the model: `Option` stands
    for a Java reference that may be null, `Result` for a call that may throw. */
module Wrappers {

  datatype Option<+T> = None | Some(value: T) {

    predicate IsFailure() {
      None?
    }

    function PropagateFailure<U>(): Option<U>
      requires None?
    {
      None
    }

    function Extract(): T
      requires Some?
    {
      value
    }

    /** The value if present, else `default` (Java's `x != null ? x : default`). */
    function GetOr(default: T): T {
      match this
      case Some(v) => v
      case None => default
    }
  }

  datatype Result<+T, +E> = Ok(value: T) | Err(error: E) {

    predicate IsFailure() {
      Err?
    }

    function PropagateFailure<U>(): Result<U, E>
      requires Err?
    {
      Err(error)
    }

    function Extract(): T
      requires Ok?
    {
      value
    }
  }

  /** What a conversion step can raise. `ConverterException` carries the
      message the source builds; `NullPointer` stands for a Java
      NullPointerException raised by unboxing or dereferencing a null. */
  datatype Error = ConverterException(message: string) | NullPointer

  type Outcome<T> = Result<T, Error>

  /** `e.getMessage()` as it appears inside a string concatenation: a
      NullPointerException from unboxing carries no message, rendered "null". */
  function Message(e: Error): string {
    match e
    case ConverterException(m) => m
    case NullPointer => "null"
  }
}

/** Values that end up in examples, defaults and vendor extensions. */
module Values {

  /** A floating-point literal kept as its text: the model never computes with it. */
  datatype DecimalLiteral = DecimalLiteral(text: string)

  datatype Value =
    | VString(s: string)
    | VInt(i: int)
    | VBool(b: bool)
    | VDouble(literal: string)
    | VList(items: seq<string>)
    | VOpaque(text: string)
}
