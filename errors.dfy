/** The failures of the launcher that the model covers, and the value-or-failure
    type that the model uses where the program throws an exception. */
module Errors {

  /** The regular expression `split` matches a URL against, as written in the program. */
  const UrlPattern: string := "^(\\w+)://(.+?)(?:/(.*))?$"

  datatype Error =
    | MissingUrlValue                 // `--url` was the last token
    | UnsupportedSwitch(token: string) // a `-`-prefixed token that is neither `--url` nor `--help`
    | UrlMismatch                     // the URL does not match UrlPattern
    | InvalidFormat                   // a brace in a template that is not a placeholder or an escape
    | IndexOutOfRange                 // a placeholder whose index is 2 or more
  {
    /** The text of the exception the program throws for this failure. */
    function Message(): (m: string)
      ensures |m| > 0
      ensures UnsupportedSwitch? ==> |m| > |token| && m[|m| - |token|..] == token
    {
      match this
      case MissingUrlValue => "Argument after --url is missing."
      case UnsupportedSwitch(t) => "Unsupported switch: " + t
      case UrlMismatch => "Url does not match '" + UrlPattern + "'."
      case InvalidFormat => "Input string was not in a correct format."
      case IndexOutOfRange =>
        "Index (zero based) must be greater than or equal to zero"
        + " and less than the size of the argument list."
    }

    /** The two failures of composite formatting (a FormatException in the program). */
    predicate IsFormatError() {
      InvalidFormat? || IndexOutOfRange?
    }
  }

  datatype Option<+T> = None | Some(value: T)

  datatype Result<+T> = Ok(value: T) | Err(error: Error)

  /** The items `xs` put in front of the items of `r`, or r's failure. */
  function Prepend<T>(xs: seq<T>, r: Result<seq<T>>): Result<seq<T>> {
    match r
    case Ok(ys) => Ok(xs + ys)
    case Err(e) => Err(e)
  }

  lemma PrependTwice<T>(xs: seq<T>, ys: seq<T>, r: Result<seq<T>>)
    ensures Prepend(xs, Prepend(ys, r)) == Prepend(xs + ys, r)
  {
    if r.Ok? {
      assert xs + (ys + r.value) == (xs + ys) + r.value;
    }
  }
}
