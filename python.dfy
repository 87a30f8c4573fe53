/**
 * The slice of the Python runtime that the generative decorators touch:
 * values, the exceptions they raise or pass on, and the library and
 * sandbox services they call but whose internals are not part of this model
 * (`ast.parse`, `textwrap.dedent`, `compile`/`compile_restricted` + `exec`).
 */
module Python {

  /** A Python value, as far as the decorators distinguish values. */
  datatype PyValue =
    | NoneValue
    | Bool(b: bool)
    | Int(i: int)
    | Str(s: string)
      /** the function object bound to `name` by executing `source` */
    | Loaded(source: string, name: string)
      /** the `generate` function that GenerativeMetaClass attaches to its classes */
    | GenerateFunction
      /** any other object (the wrapped function's results, `self`, arguments) */
    | Opaque(id: nat)

  const NoFunctionDefinition := "No function definition found in provided code."
  const NoBooleanValue := "No boolean value found in input string"
  /** What a bare `raise` reports when no exception is being handled. */
  const NoActiveException := "No active exception to reraise"

  /** The exceptions the decorators raise themselves, and a tag for every other one. */
  datatype PyError =
    | SyntaxError
    | ValueError(message: string)
    | IndexError
    | KeyError(key: string)
    | AttributeError(name: string)
    | NameError(name: string)
    | RuntimeError(message: string)
    | DatabaseException
      /** an `Exception` raised by code outside this model: the wrapped function,
          an oracle backend, a database backend, compiling or running generated code */
    | Foreign(tag: nat)

  datatype Result<+T> = Ok(value: T) | Err(error: PyError)

  /** How a call ends: with a value or with an exception. */
  datatype Outcome = Returned(value: PyValue) | Raised(error: PyError)

  /** What a call to an oracle (`model(prompt)`) or a critic (`critic(prompt)`) does. */
  datatype Reply = Said(text: string) | Failed(error: PyError)

  /** Positional and keyword arguments of one call, keywords in call order. */
  datatype Args = Args(positional: seq<PyValue>, keywords: seq<(string, PyValue)>)

  /**
   * The standard-library services the utilities call: whether `ast.parse`
   * accepts a text (is_valid_syntax) and `textwrap.dedent`.
   */
  datatype Library = Library(validSyntax: string -> bool, dedent: string -> string)

  /**
   * Compiling and executing generated source into a fresh namespace:
   * `load(src)` is the exception that compile-then-exec raises, if any, and
   * `binds(src, name)` says whether the namespace that exec leaves binds `name`.
   * What the bound function does when called is `run(src, name, args)`.
   */
  datatype Sandbox = Sandbox(
    load: string -> Option<PyError>,
    binds: (string, string) -> bool,
    run: (string, string, Args) -> Outcome)

  datatype Option<+T> = None | Some(value: T)

  /**
   * Which way a wrapper ends one call: by calling the wrapped function (whose
   * outcome, value or exception, becomes the wrapper's), by calling the function
   * `name` that executing `source` defined, by returning a value of its own,
   * or by raising an exception of its own.
   */
  datatype Verdict =
    | Original
    | Generated(source: string, name: string)
    | Return(value: PyValue)
    | Raise(error: PyError)

  /** The outcome a caller observes for a verdict. */
  function Resolve(v: Verdict, original: Outcome, sandbox: Sandbox, args: Args): Outcome
  {
    match v
    case Original => original
    case Generated(src, name) => sandbox.run(src, name, args)
    case Return(x) => Returned(x)
    case Raise(e) => Raised(e)
  }
}
