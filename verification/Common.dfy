/** Datatypes and predicates shared by the models. */
module Common {

  datatype Option<+T> = None | Some(value: T)

  datatype Result<+T, +E> = Success(value: T) | Failure(error: E)

  /** A transaction either commits the state its function gives or leaves everything alone. */
  ghost predicate Committed<S, E>(before: S, outcome: Result<S, E>, after: S, error: Option<E>) {
    match outcome
    case Success(state) => error == None && after == state
    case Failure(e) => error == Some(e) && after == before
  }

  /** The characters Python's `str.strip` removes. */
  predicate IsSpace(c: char) {
    var code := c as int;
    0x09 <= code <= 0x0D || 0x1C <= code <= 0x20 || code == 0x85 || code == 0xA0 || code == 0x1680 ||
    0x2000 <= code <= 0x200A || code == 0x2028 || code == 0x2029 || code == 0x202F || code == 0x205F || code == 0x3000
  }

  predicate IsBlank(text: string) {
    forall c :: c in text ==> IsSpace(c)
  }
}
