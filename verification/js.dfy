/** The slice of JavaScript value semantics that the route handlers depend on. */
module Js {

  /** A property read out of a parsed JSON request body. `Undefined` is a
      property the body does not have; `Composite` is any array or object
      (always truthy, even when empty). JSON numbers are exact reals here. */
  datatype Value = Undefined | Null | Bool(b: bool) | Num(x: real) | Str(s: string) | Composite

  /** ToBoolean (section 7.1.2 of ECMA-262) on the values above: the test
      behind `!title` and `search ? … : …`. */
  predicate Truthy(v: Value) {
    match v
    case Undefined => false
    case Null => false
    case Bool(b) => b
    case Num(x) => x != 0.0
    case Str(s) => s != ""
    case Composite => true
  }

  /** The exceptions a handler can throw before it writes a response. */
  datatype Error =
    | TypeError(subject: string)       // destructuring a null or undefined value
    | ReferenceError(name: string)     // reading an identifier that is not declared
}
