/**
 * generative/decorators.py: the older `adapt`, `catch` and
 * `generate_attribute`. They have no database and no syntax check, and they
 * use the oracle's raw output. In this `adapt`, a critic that is configured
 * but does not answer true always sends the call to the wrapped function,
 * and without a critic the oracle's code runs.
 *
 * The older `generate_attribute` instance (`__init__`, `__getattribute__`)
 * is the one `Classes.GenerativeInstance` models without a database; only
 * its `method_not_found` differs, and is modelled here.
 */
module Decorators {
  import opened Python
  import opened Chars
  import opened Utils

  // ---------------------------------------------------------------------
  // adapt
  // ---------------------------------------------------------------------

  /** How one wrapper call ends and the `code` it leaves for the next call. */
  datatype Step = Step(verdict: Verdict, code: string)

  /** Lines 79-91: cut, dedent, compile and execute `code`, then call the function it names. */
  function RunCode(lib: Library, sandbox: Sandbox, code: string): Step {
    var src := lib.dedent(RemovePrepended(code));
    match sandbox.load(src)
    case Some(e) => Step(Raise(e), src)
    case None =>
      match ExtractFuncName(src)
      case Err(e) => Step(Raise(e), src)
      case Ok(name) =>
        if sandbox.binds(src, name) then Step(Generated(src, name), src)
        else Step(Raise(KeyError(name)), src)
  }

  /** Lines 71-91: blank code, or a critic without a true verdict, calls the wrapped function. */
  function Decide(hasCritic: bool, lib: Library, sandbox: Sandbox, code: string, correct: bool): Step {
    if Strip(code) == [] || (hasCritic && !correct) then Step(Original, code)
    else RunCode(lib, sandbox, code)
  }

  /** One call of the older `adapt` wrapper. */
  function AdaptCall(hasModel: bool, hasCritic: bool, lib: Library, sandbox: Sandbox, code: string,
                     oracle: Reply, critic: Reply): Step
  {
    if !hasModel then Decide(hasCritic, lib, sandbox, code, false)
    else match oracle
      case Failed(e) => Step(Raise(e), code)
      case Said(generated) =>
        if !hasCritic then Decide(hasCritic, lib, sandbox, generated, false)
        else match critic
          case Failed(e) => Step(Raise(e), generated)
          case Said(answer) =>
            match FormatBinaryOutput(answer)
            case Err(e) => Step(Raise(e), generated)
            case Ok(correct) => Decide(hasCritic, lib, sandbox, generated, correct)
  }

  /** The function the older `adapt(code, model, critic)` returns for one decorated function. */
  class AdaptWrapper {
    var code: string
    const hasModel: bool
    const hasCritic: bool
    /** `wrapper._is_generative` */
    const isGenerative: bool

    /** Decoration: `sourceFound` says whether `inspect.getsource` succeeded. */
    constructor (code: string, sourceFound: bool, hasModel: bool, hasCritic: bool)
      ensures this.code == if sourceFound then code else ""
      ensures this.hasModel == hasModel && this.hasCritic == hasCritic
      ensures isGenerative == hasModel
    {
      this.code := if sourceFound then code else "";
      this.hasModel := hasModel;
      this.hasCritic := hasCritic;
      this.isGenerative := hasModel;
    }

    /** `wrapper(self, *args, **kwargs)` */
    method Call(lib: Library, sandbox: Sandbox, oracle: Reply, critic: Reply) returns (verdict: Verdict)
      modifies this
      ensures Step(verdict, code) == AdaptCall(hasModel, hasCritic, lib, sandbox, old(code), oracle, critic)
    {
      var correct := false;
      if hasModel {
        if oracle.Failed? {
          return Raise(oracle.error);
        }
        code := oracle.text;
        if hasCritic {
          if critic.Failed? {
            return Raise(critic.error);
          }
          var decoded := FormatBinaryOutput(critic.text);
          if decoded.Err? {
            return Raise(decoded.error);
          }
          correct := decoded.value;
        }
      }
      if Strip(code) == [] || (hasCritic && !correct) {
        return Original;
      }
      code := lib.dedent(RemovePrepended(code));
      var loadError := sandbox.load(code);
      if loadError.Some? {
        return Raise(loadError.value);
      }
      var name := ExtractFuncName(code);
      if name.Err? {
        return Raise(name.error);
      }
      if !sandbox.binds(code, name.value) {
        return Raise(KeyError(name.value));
      }
      verdict := Generated(code, name.value);
    }
  }

  /** With blank code and no model, the wrapper calls the wrapped function and keeps `code`. */
  lemma AdaptNoOp(hasCritic: bool, lib: Library, sandbox: Sandbox, code: string, oracle: Reply, critic: Reply)
    requires Strip(code) == []
    ensures AdaptCall(false, hasCritic, lib, sandbox, code, oracle, critic) == Step(Original, code)
  {
  }

  /**
   * Non-blank code with no model and no critic runs: the function that the
   * cut and dedented code names is called, when executing the code defines it.
   */
  lemma AdaptRunsGivenCode(lib: Library, sandbox: Sandbox, code: string, oracle: Reply, critic: Reply, name: string)
    requires Strip(code) != []
    requires sandbox.load(lib.dedent(RemovePrepended(code))).None?
    requires ExtractFuncName(lib.dedent(RemovePrepended(code))) == Ok(name)
    requires sandbox.binds(lib.dedent(RemovePrepended(code)), name)
    ensures AdaptCall(false, false, lib, sandbox, code, oracle, critic) ==
            Step(Generated(lib.dedent(RemovePrepended(code)), name), lib.dedent(RemovePrepended(code)))
  {
  }

  /**
   * With a model and no critic, non-blank output runs as the captured code
   * would; in generative/functions.py the same configuration never runs it.
   */
  lemma AdaptModelWithoutCritic(lib: Library, sandbox: Sandbox, code: string, generated: string, critic: Reply)
    requires Strip(generated) != []
    ensures AdaptCall(true, false, lib, sandbox, code, Said(generated), critic) == RunCode(lib, sandbox, generated)
  {
  }

  /**
   * A configured critic is a gate: generated code runs only after the model
   * answered and the critic's reply decoded to true, and a reply that decodes
   * to false calls the wrapped function and keeps the model's output as the
   * code. Without a model the critic is never asked and the wrapped function
   * is called.
   */
  lemma AdaptCriticGate(hasModel: bool, lib: Library, sandbox: Sandbox, code: string, oracle: Reply, critic: Reply)
    ensures !hasModel ==> AdaptCall(hasModel, true, lib, sandbox, code, oracle, critic) == Step(Original, code)
    ensures AdaptCall(hasModel, true, lib, sandbox, code, oracle, critic).verdict.Generated? ==>
              hasModel && oracle.Said? && critic.Said? && FormatBinaryOutput(critic.text) == Ok(true)
    ensures hasModel && oracle.Said? && critic.Said? && FormatBinaryOutput(critic.text) == Ok(false) ==>
              AdaptCall(hasModel, true, lib, sandbox, code, oracle, critic) == Step(Original, oracle.text)
  {
  }

  // ---------------------------------------------------------------------
  // catch
  // ---------------------------------------------------------------------

  /**
   * One call of the older `catch` wrapper; `original` is the wrapped
   * function's outcome. When no generated code is run, the wrapped
   * function's exception is raised again, as line 166 and the docstring intend.
   */
  function CatchCall(hasModel: bool, source: Option<string>, lib: Library, sandbox: Sandbox,
                     original: Outcome, oracle: Reply): Verdict
  {
    match original
    case Returned(_) => Original
    case Raised(failure) => CatchAfterFailure(hasModel, source, lib, sandbox, oracle, failure)
  }

  /**
   * The older `catch` wrapper as the code is written: the bare `raise` at
   * line 167 runs after the `except` clause has ended, so it raises
   * RuntimeError instead of the wrapped function's exception.
   */
  function CatchCallAsWritten(hasModel: bool, source: Option<string>, lib: Library, sandbox: Sandbox,
                              original: Outcome, oracle: Reply): Verdict
  {
    match original
    case Returned(_) => Original
    case Raised(_) => CatchAfterFailure(hasModel, source, lib, sandbox, oracle, RuntimeError(NoActiveException))
  }

  /** Lines 139-167 once the wrapped function has raised; `fallThrough` is raised when no code runs. */
  function CatchAfterFailure(hasModel: bool, source: Option<string>, lib: Library, sandbox: Sandbox,
                             oracle: Reply, fallThrough: PyError): Verdict
  {
    if !hasModel || source.None? || source.value == [] then Raise(fallThrough)
    else match oracle
      case Failed(e) => Raise(e)
      case Said(code) =>
        if Strip(code) == [] then Raise(fallThrough)
        else RunCode(lib, sandbox, code).verdict
  }

  /** A call that returns passes its value through, whatever the model would say. */
  lemma CatchPassesValues(hasModel: bool, source: Option<string>, lib: Library, sandbox: Sandbox,
                          v: PyValue, oracle: Reply, args: Args)
    ensures Resolve(CatchCall(hasModel, source, lib, sandbox, Returned(v), oracle), Returned(v), sandbox, args) ==
            Returned(v)
  {
  }

  /** No model, no source, or blank model output: the original exception is raised again. */
  lemma CatchReraises(hasModel: bool, source: Option<string>, lib: Library, sandbox: Sandbox,
                      failure: PyError, oracle: Reply)
    requires !hasModel || source.None? || source == Some([]) || (oracle.Said? && Strip(oracle.text) == [])
    ensures CatchCall(hasModel, source, lib, sandbox, Raised(failure), oracle) == Raise(failure)
  {
  }

  /**
   * Where the two readings of the older `catch` differ: with no model, no
   * source, or blank output, the code as written raises RuntimeError where
   * the corrected wrapper raises the wrapped function's exception again.
   */
  lemma CatchAsWrittenLosesFailure(hasModel: bool, source: Option<string>, lib: Library, sandbox: Sandbox,
                                   failure: PyError, oracle: Reply)
    requires !hasModel || source.None? || source == Some([]) || (oracle.Said? && Strip(oracle.text) == [])
    ensures CatchCallAsWritten(hasModel, source, lib, sandbox, Raised(failure), oracle) ==
            Raise(RuntimeError(NoActiveException))
    ensures failure != RuntimeError(NoActiveException) ==>
            CatchCallAsWritten(hasModel, source, lib, sandbox, Raised(failure), oracle) !=
            CatchCall(hasModel, source, lib, sandbox, Raised(failure), oracle)
  {
  }

  /** Everywhere else the two readings agree. */
  lemma CatchReadingsAgree(hasModel: bool, source: Option<string>, lib: Library, sandbox: Sandbox,
                           original: Outcome, oracle: Reply)
    requires original.Raised? ==>
               hasModel && source.Some? && source.value != [] && (oracle.Said? ==> Strip(oracle.text) != [])
    ensures CatchCallAsWritten(hasModel, source, lib, sandbox, original, oracle) ==
            CatchCall(hasModel, source, lib, sandbox, original, oracle)
  {
  }

  /** Generated code runs only after the wrapped function raised, and is the model's raw output, cut and dedented. */
  lemma CatchRunsOnlyAfterFailure(hasModel: bool, source: Option<string>, lib: Library, sandbox: Sandbox,
                                  original: Outcome, oracle: Reply, src: string, name: string)
    requires CatchCall(hasModel, source, lib, sandbox, original, oracle) == Generated(src, name)
    ensures original.Raised? && hasModel && source.Some? && source.value != [] && oracle.Said?
    ensures src == lib.dedent(RemovePrepended(oracle.text)) && ExtractFuncName(src) == Ok(name)
  {
  }

  // ---------------------------------------------------------------------
  // generate_attribute
  // ---------------------------------------------------------------------

  /**
   * Lines 279-307 as written: without a model the callable raises `e`, a
   * name the `except` clause has already unbound, so the call raises
   * NameError rather than the AttributeError.
   */
  function MethodNotFoundAsWritten(hasModel: bool, name: string, oracle: Reply): Verdict {
    if !hasModel then Raise(NameError("e")) else MethodNotFoundWithModel(name, oracle)
  }

  /** Lines 279-307 with `raise exception` in the last branch too, as generative/classes.py writes it. */
  function MethodNotFound(hasModel: bool, name: string, oracle: Reply): (r: Verdict)
    ensures !hasModel ==> r == Raise(AttributeError(name))
    ensures hasModel ==> r == MethodNotFoundAsWritten(hasModel, name, oracle)
  {
    if !hasModel then Raise(AttributeError(name)) else MethodNotFoundWithModel(name, oracle)
  }

  /** Lines 281-305: the model's raw output is returned unless it contains `pass`. */
  function MethodNotFoundWithModel(name: string, oracle: Reply): Verdict {
    match ToFuncName(name)
    case Err(e) => Raise(e)
    case Ok(_) =>
      match oracle
      case Failed(e) => Raise(e)
      case Said(output) =>
        if IsIncompleteCode(output) then Raise(AttributeError(name)) else Return(Str(output))
  }

  /**
   * With a model the callable returns the raw output as a string exactly when
   * it has no whole-word `pass`, and raises the AttributeError when it has one.
   */
  lemma MethodNotFoundReturnsRawOutput(name: string, output: string)
    requires ToFuncName(name).Ok?
    ensures MethodNotFound(true, name, Said(output)) ==
            (if exists k :: PassAt(output, k) then Raise(AttributeError(name)) else Return(Str(output)))
  {
    IsIncompleteCodeFinds(output);
  }

  /** The finding: without a model the code as written raises NameError, not the lookup's AttributeError. */
  lemma MethodNotFoundWithoutModelAsWritten(name: string, oracle: Reply)
    ensures MethodNotFoundAsWritten(false, name, oracle) == Raise(NameError("e"))
    ensures MethodNotFound(false, name, oracle) == Raise(AttributeError(name))
    ensures MethodNotFoundAsWritten(false, name, oracle) != MethodNotFound(false, name, oracle)
  {
  }
}
