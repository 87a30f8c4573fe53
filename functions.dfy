/**
 * generative/functions.py: the wrappers that `adapt` and `catch` put around
 * a function. Each call of an `adapt` wrapper decides between the wrapped
 * function and code from the captured `code`, the database or an oracle,
 * and rebinds `code` for later calls; a `catch` wrapper asks an oracle for
 * replacement code only when the wrapped function raises.
 *
 * An oracle or critic reply (`model(prompt)`, `critic(prompt)`) is an input
 * of each call, consulted only where the source calls it; a `Verdict` says
 * how the call ends and `Resolve` turns it into the caller's outcome.
 */
module Functions {
  import opened Python
  import opened Chars
  import opened Utils
  import opened Metaclasses

  // ---------------------------------------------------------------------
  // adapt
  // ---------------------------------------------------------------------

  /**
   * What `adapt(code, model, critic, database)` fixed when it decorated the
   * function: its source text ("" when `inspect.getsource` raised) and
   * whether a model and a critic were given.
   */
  datatype AdaptSetup = AdaptSetup(funcSource: string, hasModel: bool, hasCritic: bool)

  /** How one wrapper call ends, the `code` it leaves for the next call, and the database after it. */
  datatype AdaptStep = AdaptStep(verdict: Verdict, code: string, store: Option<Store>)

  /** The code the database holds for this function name and these arguments, if any. */
  function Cached(name: string, store: Option<Store>, args: Args): Option<string> {
    var q := Fingerprint(name, args.positional, args.keywords);
    if store.Some? && q in store.value.entries then Some(store.value.entries[q]) else None
  }

  /**
   * Lines 57-71 as written: the name is extracted from the wrapped function's
   * source on every call, with or without a database.
   */
  function LookupAsWritten(source: string, store: Option<Store>, args: Args): (r: Result<Option<string>>)
    ensures r.Err? <==> ExtractFuncName(source).Err?
  {
    match ExtractFuncName(source)
    case Err(e) => Err(e)
    case Ok(name) => Ok(Cached(name, store, args))
  }

  /**
   * Lines 57-71 corrected: the name only serves to build the database query,
   * so it is extracted only when there is a database.
   */
  function Lookup(source: string, store: Option<Store>, args: Args): (r: Result<Option<string>>)
    ensures store.None? ==> r == Ok(None)
    ensures store.Some? ==> r == LookupAsWritten(source, store, args)
  {
    if store.None? then Ok(None) else LookupAsWritten(source, store, args)
  }

  /**
   * Lines 94-134: run `code` unless it is blank. The code is cut to its
   * function, dedented and checked; it must define the function it names;
   * with a database the capability is stored before the function is called.
   */
  function RunCode(lib: Library, sandbox: Sandbox, code: string, store: Option<Store>, args: Args): AdaptStep {
    if Strip(code) == [] then AdaptStep(Original, code, store)
    else RunSource(lib, sandbox, lib.dedent(RemovePrepended(code)), store, args)
  }

  /** Lines 107-134 on the cut and dedented source `src`. */
  function RunSource(lib: Library, sandbox: Sandbox, src: string, store: Option<Store>, args: Args): AdaptStep {
    if !lib.validSyntax(src) then AdaptStep(Raise(SyntaxError), src, store)
    else match sandbox.load(src)
      case Some(e) => AdaptStep(Raise(e), src, store)
      case None =>
        match ExtractFuncName(src)
        case Err(e) => AdaptStep(Raise(e), src, store)
        case Ok(name) => RunNamed(sandbox, src, name, store, args)
  }

  /** Lines 115-134 once `src` has been executed and names `name`. */
  function RunNamed(sandbox: Sandbox, src: string, name: string, store: Option<Store>, args: Args): AdaptStep {
    if !sandbox.binds(src, name) then AdaptStep(Raise(KeyError(name)), src, store)
    else match store
      case None => AdaptStep(Generated(src, name), src, store)
      case Some(s) =>
        if s.setFails then AdaptStep(Raise(DatabaseException), src, store)
        else AdaptStep(Generated(src, name), src,
                       Some(Recorded(s, Capability(name, args.positional, args.keywords, src))))
  }

  /**
   * Lines 73-92: without cached code, with a model and a source, the
   * model's cleaned output becomes `code`; only a critic that decodes to
   * true lets it run, otherwise the wrapped function is called.
   */
  function AskModel(setup: AdaptSetup, lib: Library, sandbox: Sandbox, store: Option<Store>, args: Args,
                    oracle: Reply, critic: Reply, code: string): AdaptStep
  {
    match oracle
    case Failed(e) => AdaptStep(Raise(e), code, store)
    case Said(text) =>
      var generated := CleanFunction(lib, text);
      if !setup.hasCritic then AdaptStep(Original, generated, store)
      else match critic
        case Failed(e) => AdaptStep(Raise(e), generated, store)
        case Said(answer) =>
          match FormatBinaryOutput(answer)
          case Err(e) => AdaptStep(Raise(e), generated, store)
          case Ok(correct) =>
            if correct then RunCode(lib, sandbox, generated, store, args)
            else AdaptStep(Original, generated, store)
  }

  /** The rest of a call once the cache has been looked up. */
  function AfterLookup(setup: AdaptSetup, lib: Library, sandbox: Sandbox, code: string, store: Option<Store>,
                       args: Args, oracle: Reply, critic: Reply, cached: Option<string>): AdaptStep
  {
    var current := if cached.Some? then cached.value else code;
    if cached.None? && setup.hasModel && setup.funcSource != [] then
      AskModel(setup, lib, sandbox, store, args, oracle, critic, current)
    else RunCode(lib, sandbox, current, store, args)
  }

  /** One call of `adapt`'s wrapper as the source writes it. */
  function AdaptCallAsWritten(setup: AdaptSetup, lib: Library, sandbox: Sandbox, code: string,
                              store: Option<Store>, args: Args, oracle: Reply, critic: Reply): AdaptStep
  {
    match LookupAsWritten(setup.funcSource, store, args)
    case Err(e) => AdaptStep(Raise(e), code, store)
    case Ok(cached) => AfterLookup(setup, lib, sandbox, code, store, args, oracle, critic, cached)
  }

  /** One call of `adapt`'s wrapper, with the function name extracted only for the database. */
  function AdaptCall(setup: AdaptSetup, lib: Library, sandbox: Sandbox, code: string,
                     store: Option<Store>, args: Args, oracle: Reply, critic: Reply): AdaptStep
  {
    match Lookup(setup.funcSource, store, args)
    case Err(e) => AdaptStep(Raise(e), code, store)
    case Ok(cached) => AfterLookup(setup, lib, sandbox, code, store, args, oracle, critic, cached)
  }

  /**
   * The function `adapt(code, model, critic, database)` returns for one
   * decorated function, with the `code` it captured and rebinds.
   */
  class AdaptWrapper {
    var code: string
    const setup: AdaptSetup
    const database: Database?
    /** `wrapper._is_generative` */
    const isGenerative: bool

    /** Decoration: `source` is what `inspect.getsource` returned, None when it raised. */
    constructor (code: string, source: Option<string>, hasModel: bool, hasCritic: bool, database: Database?)
      ensures this.code == if source.None? then "" else code
      ensures setup == AdaptSetup(if source.None? then "" else source.value, hasModel, hasCritic)
      ensures this.database == database
      ensures isGenerative == hasModel
    {
      this.code := if source.None? then "" else code;
      this.setup := AdaptSetup(if source.None? then "" else source.value, hasModel, hasCritic);
      this.database := database;
      this.isGenerative := hasModel;
    }

    /** `wrapper(self, *args, **kwargs)`; `args` holds the arguments after `self`. */
    method Call(lib: Library, sandbox: Sandbox, args: Args, oracle: Reply, critic: Reply)
      returns (verdict: Verdict)
      modifies this, database
      ensures AdaptStep(verdict, code, SnapshotOf(database)) ==
              AdaptCall(setup, lib, sandbox, old(code), old(SnapshotOf(database)), args, oracle, critic)
    {
      var cached: Option<string> := None;
      if database != null {
        var name := ExtractFuncName(setup.funcSource);
        if name.Err? {
          return Raise(name.error);
        }
        var q := Fingerprint(name.value, args.positional, args.keywords);
        if database.Contains(q) {
          cached := Some(database.Get(q));
          code := cached.value;
        }
      }
      if cached.None? && setup.hasModel && setup.funcSource != [] {
        if oracle.Failed? {
          return Raise(oracle.error);
        }
        code := CleanFunction(lib, oracle.text);
        if !setup.hasCritic {
          return Original;
        }
        if critic.Failed? {
          return Raise(critic.error);
        }
        var correct := FormatBinaryOutput(critic.text);
        if correct.Err? {
          return Raise(correct.error);
        }
        if !correct.value {
          return Original;
        }
      }
      verdict := Run(lib, sandbox, args);
    }

    /** Lines 94-134 on the captured `code`. */
    method Run(lib: Library, sandbox: Sandbox, args: Args) returns (verdict: Verdict)
      modifies this, database
      ensures AdaptStep(verdict, code, SnapshotOf(database)) ==
              RunCode(lib, sandbox, old(code), old(SnapshotOf(database)), args)
    {
      if Strip(code) == [] {
        return Original;
      }
      code := lib.dedent(RemovePrepended(code));
      if !lib.validSyntax(code) {
        return Raise(SyntaxError);
      }
      var loadError := sandbox.load(code);
      if loadError.Some? {
        return Raise(loadError.value);
      }
      var name := ExtractFuncName(code);
      if name.Err? {
        return Raise(name.error);
      }
      if !sandbox.binds(code, name.value) {
        return Raise(KeyError(name.value));
      }
      if database != null {
        var ok := database.Set(Capability(name.value, args.positional, args.keywords, code));
        if !ok {
          return Raise(DatabaseException);
        }
      }
      verdict := Generated(code, name.value);
    }
  }

  /** The arguments the wrapped or generated function receives: `self` and then the call's. */
  function WithSelf(self: PyValue, args: Args): Args {
    Args([self] + args.positional, args.keywords)
  }

  /**
   * With blank code, no model and no database the wrapper is the wrapped
   * function: same outcome for the same arguments, nothing changed.
   */
  lemma AdaptNoOp(setup: AdaptSetup, lib: Library, sandbox: Sandbox, code: string, args: Args,
                  oracle: Reply, critic: Reply, self: PyValue, original: Outcome)
    requires Strip(code) == [] && !setup.hasModel
    ensures var step := AdaptCall(setup, lib, sandbox, code, None, args, oracle, critic);
      step == AdaptStep(Original, code, None) &&
      Resolve(step.verdict, original, sandbox, WithSelf(self, args)) == original
  {
  }

  /**
   * With a model and no critic, a call that misses the cache never runs
   * generated code: it calls the wrapped function unless the model raised,
   * and stores nothing.
   */
  lemma AdaptModelWithoutCritic(setup: AdaptSetup, lib: Library, sandbox: Sandbox, code: string,
                                store: Option<Store>, args: Args, oracle: Reply, critic: Reply)
    requires setup.hasModel && !setup.hasCritic && setup.funcSource != []
    requires Lookup(setup.funcSource, store, args) == Ok(None)
    ensures var step := AdaptCall(setup, lib, sandbox, code, store, args, oracle, critic);
      step.verdict == (if oracle.Failed? then Raise(oracle.error) else Original) &&
      step.store == store
  {
  }

  /**
   * A critic whose answer decodes to false sends the call to the wrapped
   * function: nothing is compiled, run or stored, and the model's cleaned
   * output stays in `code`.
   */
  lemma AdaptCriticRejects(setup: AdaptSetup, lib: Library, sandbox: Sandbox, code: string,
                           store: Option<Store>, args: Args, text: string, answer: string)
    requires setup.hasModel && setup.hasCritic && setup.funcSource != []
    requires Lookup(setup.funcSource, store, args) == Ok(None)
    requires FormatBinaryOutput(answer) == Ok(false)
    ensures AdaptCall(setup, lib, sandbox, code, store, args, Said(text), Said(answer)) ==
            AdaptStep(Original, CleanFunction(lib, text), store)
  {
  }

  /**
   * On a cache hit neither the model nor the critic is consulted: the
   * cached code is run as if it had been the captured code.
   */
  lemma AdaptCacheHit(setup: AdaptSetup, lib: Library, sandbox: Sandbox, code: string,
                      store: Option<Store>, args: Args, cached: string,
                      oracle: Reply, critic: Reply, oracle': Reply, critic': Reply)
    requires Lookup(setup.funcSource, store, args) == Ok(Some(cached))
    ensures AdaptCall(setup, lib, sandbox, code, store, args, oracle, critic) ==
            RunCode(lib, sandbox, cached, store, args)
    ensures AdaptCall(setup, lib, sandbox, code, store, args, oracle, critic) ==
            AdaptCall(setup, lib, sandbox, code, store, args, oracle', critic')
  {
  }

  /**
   * The database is written exactly when generated code is about to run:
   * one `set` holding the function's name, the call's arguments and the
   * code that becomes `code`; every other step leaves the store as it was.
   */
  predicate StoresOnlyWhatRuns(step: AdaptStep, store: Option<Store>, args: Args) {
    match step.verdict
    case Generated(src, name) =>
      step.code == src &&
      (store.None? ==> step.store == None) &&
      (store.Some? ==> step.store == Some(Recorded(store.value, Capability(name, args.positional, args.keywords, src))))
    case _ => step.store == store
  }

  /** A wrapper call writes the database exactly when it is about to call generated code. */
  lemma AdaptStoresOnlyWhatRuns(setup: AdaptSetup, lib: Library, sandbox: Sandbox, code: string,
                                store: Option<Store>, args: Args, oracle: Reply, critic: Reply)
    ensures StoresOnlyWhatRuns(AdaptCall(setup, lib, sandbox, code, store, args, oracle, critic), store, args)
  {
    match Lookup(setup.funcSource, store, args)
    case Err(_) =>
    case Ok(cached) =>
      AfterLookupStores(setup, lib, sandbox, code, store, args, oracle, critic, cached);
  }

  lemma AfterLookupStores(setup: AdaptSetup, lib: Library, sandbox: Sandbox, code: string, store: Option<Store>,
                          args: Args, oracle: Reply, critic: Reply, cached: Option<string>)
    ensures StoresOnlyWhatRuns(AfterLookup(setup, lib, sandbox, code, store, args, oracle, critic, cached), store, args)
  {
    var current := if cached.Some? then cached.value else code;
    if cached.None? && setup.hasModel && setup.funcSource != [] {
      AskModelStores(setup, lib, sandbox, store, args, oracle, critic, current);
    } else {
      RunCodeStores(lib, sandbox, current, store, args);
    }
  }

  lemma AskModelStores(setup: AdaptSetup, lib: Library, sandbox: Sandbox, store: Option<Store>, args: Args,
                       oracle: Reply, critic: Reply, code: string)
    ensures StoresOnlyWhatRuns(AskModel(setup, lib, sandbox, store, args, oracle, critic, code), store, args)
  {
    if oracle.Said? {
      RunCodeStores(lib, sandbox, CleanFunction(lib, oracle.text), store, args);
    }
  }

  lemma RunCodeStores(lib: Library, sandbox: Sandbox, code: string, store: Option<Store>, args: Args)
    ensures StoresOnlyWhatRuns(RunCode(lib, sandbox, code, store, args), store, args)
  {
    if Strip(code) != [] {
      var src := lib.dedent(RemovePrepended(code));
      if lib.validSyntax(src) && sandbox.load(src).None? && ExtractFuncName(src).Ok? {
        RunNamedStores(sandbox, src, ExtractFuncName(src).value, store, args);
      }
    }
  }

  lemma RunNamedStores(sandbox: Sandbox, src: string, name: string, store: Option<Store>, args: Args)
    ensures StoresOnlyWhatRuns(RunNamed(sandbox, src, name, store, args), store, args)
  {
  }

  /**
   * Non-blank code that fails the syntax check raises SyntaxError, wherever
   * it came from; the wrapper does not fall back to the wrapped function,
   * and nothing is stored.
   */
  lemma RunCodeRaisesOnInvalidSyntax(lib: Library, sandbox: Sandbox, code: string, store: Option<Store>, args: Args)
    requires Strip(code) != [] && !lib.validSyntax(lib.dedent(RemovePrepended(code)))
    ensures RunCode(lib, sandbox, code, store, args) ==
            AdaptStep(Raise(SyntaxError), lib.dedent(RemovePrepended(code)), store)
  {
  }

  /** The captured code, without a hit and without a model to ask, fails the syntax check: SyntaxError. */
  lemma AdaptRaisesOnInvalidSyntax(setup: AdaptSetup, lib: Library, sandbox: Sandbox, code: string,
                                   store: Option<Store>, args: Args, oracle: Reply, critic: Reply)
    requires Lookup(setup.funcSource, store, args) == Ok(None)
    requires !setup.hasModel || setup.funcSource == []
    requires Strip(code) != [] && !lib.validSyntax(lib.dedent(RemovePrepended(code)))
    ensures AdaptCall(setup, lib, sandbox, code, store, args, oracle, critic) ==
            AdaptStep(Raise(SyntaxError), lib.dedent(RemovePrepended(code)), store)
  {
    RunCodeRaisesOnInvalidSyntax(lib, sandbox, code, store, args);
  }

  /** Cached code that fails the syntax check raises SyntaxError: the database is not trusted. */
  lemma AdaptCachedInvalidSyntax(setup: AdaptSetup, lib: Library, sandbox: Sandbox, code: string,
                                 store: Option<Store>, args: Args, oracle: Reply, critic: Reply, cached: string)
    requires Lookup(setup.funcSource, store, args) == Ok(Some(cached))
    requires Strip(cached) != [] && !lib.validSyntax(lib.dedent(RemovePrepended(cached)))
    ensures AdaptCall(setup, lib, sandbox, code, store, args, oracle, critic) ==
            AdaptStep(Raise(SyntaxError), lib.dedent(RemovePrepended(cached)), store)
  {
    RunCodeRaisesOnInvalidSyntax(lib, sandbox, cached, store, args);
  }

  /** Model output the critic approved still raises SyntaxError when it fails the syntax check. */
  lemma AdaptApprovedInvalidSyntax(setup: AdaptSetup, lib: Library, sandbox: Sandbox, code: string,
                                   store: Option<Store>, args: Args, text: string, answer: string)
    requires setup.hasModel && setup.hasCritic && setup.funcSource != []
    requires Lookup(setup.funcSource, store, args) == Ok(None)
    requires FormatBinaryOutput(answer) == Ok(true)
    requires Strip(CleanFunction(lib, text)) != []
    requires !lib.validSyntax(lib.dedent(RemovePrepended(CleanFunction(lib, text))))
    ensures AdaptCall(setup, lib, sandbox, code, store, args, Said(text), Said(answer)) ==
            AdaptStep(Raise(SyntaxError), lib.dedent(RemovePrepended(CleanFunction(lib, text))), store)
  {
    RunCodeRaisesOnInvalidSyntax(lib, sandbox, CleanFunction(lib, text), store, args);
  }

  /** A `set` that raises becomes DatabaseException, and the generated function is not called. */
  lemma AdaptDatabaseFailure(setup: AdaptSetup, lib: Library, sandbox: Sandbox, code: string,
                             s: Store, args: Args, oracle: Reply, critic: Reply)
    requires s.setFails
    ensures var step := AdaptCall(setup, lib, sandbox, code, Some(s), args, oracle, critic);
      !step.verdict.Generated? && step.store == Some(s)
    ensures AdaptCall(setup, lib, sandbox, code, Some(s.(setFails := false)), args, oracle, critic).verdict.Generated? ==>
              AdaptCall(setup, lib, sandbox, code, Some(s), args, oracle, critic).verdict == Raise(DatabaseException)
  {
    AdaptDatabaseFailureRaises(setup, lib, sandbox, code, s, args, oracle, critic);
    AdaptStoresOnlyWhatRuns(setup, lib, sandbox, code, Some(s), args, oracle, critic);
    match Lookup(setup.funcSource, Some(s), args)
    case Err(_) =>
    case Ok(cached) =>
      AfterLookupNeverRuns(setup, lib, sandbox, code, s, args, oracle, critic, cached);
  }

  lemma AfterLookupNeverRuns(setup: AdaptSetup, lib: Library, sandbox: Sandbox, code: string, s: Store,
                             args: Args, oracle: Reply, critic: Reply, cached: Option<string>)
    requires s.setFails
    ensures !AfterLookup(setup, lib, sandbox, code, Some(s), args, oracle, critic, cached).verdict.Generated?
  {
    var current := if cached.Some? then cached.value else code;
    if cached.None? && setup.hasModel && setup.funcSource != [] {
      if oracle.Said? {
        RunCodeNeverRunsWithFailingStore(lib, sandbox, CleanFunction(lib, oracle.text), s, args);
      }
    } else {
      RunCodeNeverRunsWithFailingStore(lib, sandbox, current, s, args);
    }
  }

  /**
   * Lines 126-129: a call that would have run generated code with a working
   * database raises DatabaseException when `set` raises.
   */
  lemma AdaptDatabaseFailureRaises(setup: AdaptSetup, lib: Library, sandbox: Sandbox, code: string,
                                   s: Store, args: Args, oracle: Reply, critic: Reply)
    requires s.setFails
    ensures AdaptCall(setup, lib, sandbox, code, Some(s.(setFails := false)), args, oracle, critic).verdict.Generated? ==>
              AdaptCall(setup, lib, sandbox, code, Some(s), args, oracle, critic).verdict == Raise(DatabaseException)
  {
    var working := s.(setFails := false);
    assert Lookup(setup.funcSource, Some(working), args) == Lookup(setup.funcSource, Some(s), args);
    match Lookup(setup.funcSource, Some(s), args)
    case Err(_) =>
    case Ok(cached) =>
      var current := if cached.Some? then cached.value else code;
      if cached.None? && setup.hasModel && setup.funcSource != [] {
        if oracle.Said? {
          RunCodeRaisesWithFailingStore(lib, sandbox, CleanFunction(lib, oracle.text), s, args);
        }
      } else {
        RunCodeRaisesWithFailingStore(lib, sandbox, current, s, args);
      }
  }

  lemma RunCodeRaisesWithFailingStore(lib: Library, sandbox: Sandbox, code: string, s: Store, args: Args)
    requires s.setFails
    ensures RunCode(lib, sandbox, code, Some(s.(setFails := false)), args).verdict.Generated? ==>
              RunCode(lib, sandbox, code, Some(s), args).verdict == Raise(DatabaseException)
  {
  }

  lemma RunCodeNeverRunsWithFailingStore(lib: Library, sandbox: Sandbox, code: string, s: Store, args: Args)
    requires s.setFails
    ensures !RunCode(lib, sandbox, code, Some(s), args).verdict.Generated?
  {
    if Strip(code) != [] {
      var src := lib.dedent(RemovePrepended(code));
      if lib.validSyntax(src) && sandbox.load(src).None? && ExtractFuncName(src).Ok? {
        assert !RunNamed(sandbox, src, ExtractFuncName(src).value, Some(s), args).verdict.Generated?;
      }
    }
  }

  /**
   * Where the two readings differ: as written, a wrapper whose source could
   * not be read raises ValueError on every call, even with blank code, no
   * model and no database, where the corrected reading calls the wrapped
   * function.
   */
  lemma AdaptAsWrittenRaisesWithoutSource(lib: Library, sandbox: Sandbox, hasModel: bool, hasCritic: bool,
                                          code: string, store: Option<Store>, args: Args,
                                          oracle: Reply, critic: Reply)
    ensures AdaptCallAsWritten(AdaptSetup("", hasModel, hasCritic), lib, sandbox, code, store, args, oracle, critic) ==
            AdaptStep(Raise(ValueError(NoFunctionDefinition)), code, store)
    ensures !hasModel && Strip(code) == [] ==>
            AdaptCall(AdaptSetup("", hasModel, hasCritic), lib, sandbox, code, None, args, oracle, critic) ==
            AdaptStep(Original, code, None)
  {
    assert ExtractFuncName("").Err?;
  }

  /** The two readings agree whenever the source names a function. */
  lemma AdaptReadingsAgree(setup: AdaptSetup, lib: Library, sandbox: Sandbox, code: string,
                           store: Option<Store>, args: Args, oracle: Reply, critic: Reply)
    requires ExtractFuncName(setup.funcSource).Ok?
    ensures AdaptCallAsWritten(setup, lib, sandbox, code, store, args, oracle, critic) ==
            AdaptCall(setup, lib, sandbox, code, store, args, oracle, critic)
  {
  }

  // ---------------------------------------------------------------------
  // catch
  // ---------------------------------------------------------------------

  /**
   * One call of `catch`'s wrapper: the wrapped function's outcome is
   * `original`; `source` is what `inspect.getsource` returned at decoration.
   * When no generated code is run, the wrapped function's exception is
   * raised again, as lines 213-214 and the docstring intend.
   */
  function CatchCall(hasModel: bool, source: Option<string>, lib: Library, sandbox: Sandbox,
                     original: Outcome, oracle: Reply): Verdict
  {
    match original
    case Returned(_) => Original
    case Raised(failure) => CatchAfterFailure(hasModel, source, lib, sandbox, oracle, failure)
  }

  /**
   * One call of `catch`'s wrapper as the code is written: the bare `raise` at
   * line 215 runs after the `except` clause has ended, when Python no longer
   * holds the wrapped function's exception, so it raises RuntimeError.
   */
  function CatchCallAsWritten(hasModel: bool, source: Option<string>, lib: Library, sandbox: Sandbox,
                              original: Outcome, oracle: Reply): Verdict
  {
    match original
    case Returned(_) => Original
    case Raised(_) => CatchAfterFailure(hasModel, source, lib, sandbox, oracle, RuntimeError(NoActiveException))
  }

  /**
   * Lines 183-215 once the wrapped function has raised: `fallThrough` is what
   * the call raises when it leaves the `except` clause without returning.
   */
  function CatchAfterFailure(hasModel: bool, source: Option<string>, lib: Library, sandbox: Sandbox,
                             oracle: Reply, fallThrough: PyError): Verdict
  {
    if !hasModel || source.None? || source.value == [] then Raise(fallThrough)
    else match oracle
      case Failed(e) => Raise(e)
      case Said(text) =>
        var code := CleanFunction(lib, text);
        if Strip(code) == [] then Raise(fallThrough)
        else
          var src := lib.dedent(RemovePrepended(code));
          if !lib.validSyntax(src) then Raise(SyntaxError)
          else match sandbox.load(src)
            case Some(e) => Raise(e)
            case None =>
              match ExtractFuncName(src)
              case Err(e) => Raise(e)
              case Ok(name) =>
                if !sandbox.binds(src, name) then Raise(KeyError(name)) else Generated(src, name)
  }

  /** A call that returns passes its value through, whatever the model would say. */
  lemma CatchPassesValues(hasModel: bool, source: Option<string>, lib: Library, sandbox: Sandbox,
                          v: PyValue, oracle: Reply, args: Args)
    ensures Resolve(CatchCall(hasModel, source, lib, sandbox, Returned(v), oracle), Returned(v), sandbox, args) ==
            Returned(v)
  {
  }

  /**
   * With no model, no source, or a model whose cleaned output is blank, the
   * wrapped function's exception is raised again.
   */
  lemma CatchReraises(hasModel: bool, source: Option<string>, lib: Library, sandbox: Sandbox,
                      failure: PyError, oracle: Reply)
    requires !hasModel || source.None? || source == Some([]) ||
             (oracle.Said? && Strip(CleanFunction(lib, oracle.text)) == [])
    ensures CatchCall(hasModel, source, lib, sandbox, Raised(failure), oracle) == Raise(failure)
  {
  }

  /**
   * Where the two readings of `catch` differ: with no model, no source, or
   * blank cleaned output, the code as written raises RuntimeError where the
   * corrected wrapper raises the wrapped function's exception again.
   */
  lemma CatchAsWrittenLosesFailure(hasModel: bool, source: Option<string>, lib: Library, sandbox: Sandbox,
                                   failure: PyError, oracle: Reply)
    requires !hasModel || source.None? || source == Some([]) ||
             (oracle.Said? && Strip(CleanFunction(lib, oracle.text)) == [])
    ensures CatchCallAsWritten(hasModel, source, lib, sandbox, Raised(failure), oracle) ==
            Raise(RuntimeError(NoActiveException))
    ensures failure != RuntimeError(NoActiveException) ==>
            CatchCallAsWritten(hasModel, source, lib, sandbox, Raised(failure), oracle) !=
            CatchCall(hasModel, source, lib, sandbox, Raised(failure), oracle)
  {
  }

  /** Everywhere else the two readings agree. */
  lemma CatchReadingsAgree(hasModel: bool, source: Option<string>, lib: Library, sandbox: Sandbox,
                           original: Outcome, oracle: Reply)
    requires original.Raised? ==>
               hasModel && source.Some? && source.value != [] &&
               (oracle.Said? ==> Strip(CleanFunction(lib, oracle.text)) != [])
    ensures CatchCallAsWritten(hasModel, source, lib, sandbox, original, oracle) ==
            CatchCall(hasModel, source, lib, sandbox, original, oracle)
  {
  }

  /**
   * Generated code runs only after the wrapped function raised, with a
   * model and a source, and only code that passed the syntax check and
   * defines the function it names.
   */
  lemma CatchRunsOnlyCheckedCode(hasModel: bool, source: Option<string>, lib: Library, sandbox: Sandbox,
                                 original: Outcome, oracle: Reply, src: string, name: string)
    requires CatchCall(hasModel, source, lib, sandbox, original, oracle) == Generated(src, name)
    ensures original.Raised? && hasModel && source.Some? && source.value != []
    ensures lib.validSyntax(src) && sandbox.load(src).None? && sandbox.binds(src, name)
    ensures ExtractFuncName(src) == Ok(name)
  {
  }
}
