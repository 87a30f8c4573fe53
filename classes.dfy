/**
 * generative/classes.py: `generate_attribute(model, database)`, a class
 * decorator whose instances answer a missing attribute with a callable
 * (`method_not_found`) that looks the attribute up in the database or asks
 * the oracle for its source.
 */
module Classes {
  import opened Python
  import opened Utils
  import opened Metaclasses

  const IsGenerativeInstanceAttr := "_is_generative"

  /** What attribute lookup on an instance gives: the attribute, or the `method_not_found` callable for `name`. */
  datatype Lookup = Found(value: PyValue) | MethodNotFound(name: string)

  /** How one call of `method_not_found` ends, and the database after it. */
  datatype Handled = Handled(verdict: Verdict, store: Option<Store>)

  /**
   * One call `method_not_found(*args, **kwargs)` for the missing attribute
   * `name`: the function name derived from `name` keys the database; with
   * no hit, the oracle's cleaned output must parse and be complete before it
   * is stored and returned as a string.
   */
  function MethodNotFoundSpec(hasModel: bool, name: string, args: Args, store: Option<Store>,
                              lib: Library, oracle: Reply): Handled
  {
    match ToFuncName(name)
    case Err(e) => Handled(Raise(e), store)
    case Ok(funcName) =>
      var q := Fingerprint(funcName, args.positional, args.keywords);
      if store.Some? && q in store.value.entries then Handled(Return(Str(store.value.entries[q])), store)
      else if !hasModel then Handled(Raise(AttributeError(name)), store)
      else match oracle
        case Failed(e) => Handled(Raise(e), store)
        case Said(text) => CheckAndStore(name, funcName, args, store, lib, CleanFunction(lib, text))
  }

  /** Lines 100-120: the cleaned output `source` must parse and be complete before it is stored and returned. */
  function CheckAndStore(name: string, funcName: string, args: Args, store: Option<Store>,
                         lib: Library, source: string): Handled
  {
    if !lib.validSyntax(source) then Handled(Raise(SyntaxError), store)
    else if IsIncompleteCode(source) then Handled(Raise(AttributeError(name)), store)
    else match store
      case None => Handled(Return(Str(source)), store)
      case Some(s) =>
        if s.setFails then Handled(Raise(DatabaseException), store)
        else Handled(Return(Str(source)), Some(Recorded(s, Capability(funcName, args.positional, args.keywords, source))))
  }

  /** An instance of a class decorated with `generate_attribute(model, database)`. */
  class GenerativeInstance {
    /** what normal attribute lookup finds: instance and class attributes */
    var attributes: map<string, PyValue>
    const hasModel: bool
    const database: Database?

    /** `Wrapper.__init__`: the decorated class's own initialisation gave `attrs`. */
    constructor (attrs: map<string, PyValue>, hasModel: bool, database: Database?)
      ensures hasModel ==> attributes == attrs[IsGenerativeInstanceAttr := Bool(true)]
      ensures !hasModel ==> attributes == attrs
      ensures this.hasModel == hasModel && this.database == database
    {
      attributes := if hasModel then attrs[IsGenerativeInstanceAttr := Bool(true)] else attrs;
      this.hasModel := hasModel;
      this.database := database;
    }

    /** `Wrapper.__getattribute__`: never raises. */
    function GetAttribute(name: string): (r: Lookup)
      reads this
      ensures name in attributes <==> r.Found?
      ensures r.Found? ==> r.value == attributes[name]
      ensures r.MethodNotFound? ==> r.name == name
    {
      if name in attributes then Found(attributes[name]) else MethodNotFound(name)
    }

    /** Calling the `method_not_found` that lookup of `name` returned. */
    method CallMissing(name: string, args: Args, lib: Library, oracle: Reply) returns (verdict: Verdict)
      modifies database
      ensures Handled(verdict, SnapshotOf(database)) ==
              MethodNotFoundSpec(hasModel, name, args, old(SnapshotOf(database)), lib, oracle)
      ensures attributes == old(attributes)
    {
      var funcName := ToFuncName(name);
      if funcName.Err? {
        return Raise(funcName.error);
      }
      var q := Fingerprint(funcName.value, args.positional, args.keywords);
      if database != null && database.Contains(q) {
        return Return(Str(database.Get(q)));
      }
      if !hasModel {
        return Raise(AttributeError(name));
      }
      if oracle.Failed? {
        return Raise(oracle.error);
      }
      verdict := StoreChecked(name, funcName.value, args, lib, CleanFunction(lib, oracle.text));
    }

    /** The end of `method_not_found`: check the cleaned `source`, store it, return it. */
    method StoreChecked(name: string, funcName: string, args: Args, lib: Library, source: string) returns (verdict: Verdict)
      modifies database
      ensures Handled(verdict, SnapshotOf(database)) ==
              CheckAndStore(name, funcName, args, old(SnapshotOf(database)), lib, source)
    {
      if !lib.validSyntax(source) {
        return Raise(SyntaxError);
      }
      if IsIncompleteCode(source) {
        return Raise(AttributeError(name));
      }
      if database != null {
        var ok := database.Set(Capability(funcName, args.positional, args.keywords, source));
        if !ok {
          return Raise(DatabaseException);
        }
      }
      verdict := Return(Str(source));
    }
  }

  /**
   * A database hit returns the stored value: the model is not consulted and
   * nothing is written.
   */
  lemma MissingCacheHit(hasModel: bool, name: string, funcName: string, args: Args, s: Store,
                        lib: Library, oracle: Reply, oracle': Reply)
    requires ToFuncName(name) == Ok(funcName)
    requires Fingerprint(funcName, args.positional, args.keywords) in s.entries
    ensures MethodNotFoundSpec(hasModel, name, args, Some(s), lib, oracle) ==
            Handled(Return(Str(s.entries[Fingerprint(funcName, args.positional, args.keywords)])), Some(s))
    ensures MethodNotFoundSpec(hasModel, name, args, Some(s), lib, oracle) ==
            MethodNotFoundSpec(hasModel, name, args, Some(s), lib, oracle')
  {
  }

  /** Without a model and without a hit, the call raises the AttributeError of the lookup. */
  lemma MissingWithoutModel(name: string, args: Args, store: Option<Store>, lib: Library, oracle: Reply)
    requires ToFuncName(name).Ok?
    requires store.None? ||
             Fingerprint(ToFuncName(name).value, args.positional, args.keywords) !in store.value.entries
    ensures MethodNotFoundSpec(false, name, args, store, lib, oracle) == Handled(Raise(AttributeError(name)), store)
  {
  }

  /**
   * The syntax check comes first: invalid output raises SyntaxError even when
   * it contains `pass`; valid output containing `pass` raises the
   * AttributeError. Neither writes to the database.
   */
  lemma MissingChecksInOrder(name: string, args: Args, store: Option<Store>, lib: Library, text: string)
    requires ToFuncName(name).Ok?
    requires store.None? ||
             Fingerprint(ToFuncName(name).value, args.positional, args.keywords) !in store.value.entries
    ensures !lib.validSyntax(CleanFunction(lib, text)) ==>
            MethodNotFoundSpec(true, name, args, store, lib, Said(text)) == Handled(Raise(SyntaxError), store)
    ensures lib.validSyntax(CleanFunction(lib, text)) && IsIncompleteCode(CleanFunction(lib, text)) ==>
            MethodNotFoundSpec(true, name, args, store, lib, Said(text)) == Handled(Raise(AttributeError(name)), store)
  {
  }

  /**
   * Whatever the call returns without a hit is the oracle's cleaned output,
   * as a string, and only output that passed both checks; the database
   * changes only then, by one `set` of that output under the derived name.
   */
  lemma MissingReturnsCheckedSource(hasModel: bool, name: string, args: Args, store: Option<Store>,
                                    lib: Library, oracle: Reply)
    requires ToFuncName(name).Ok?
    requires store.None? ||
             Fingerprint(ToFuncName(name).value, args.positional, args.keywords) !in store.value.entries
    ensures var h := MethodNotFoundSpec(hasModel, name, args, store, lib, oracle);
      (h.verdict.Return? || h.store != store) ==>
        hasModel && oracle.Said? &&
        h.verdict == Return(Str(CleanFunction(lib, oracle.text))) &&
        lib.validSyntax(CleanFunction(lib, oracle.text)) && !IsIncompleteCode(CleanFunction(lib, oracle.text)) &&
        (store.Some? ==> h.store == Some(Recorded(store.value,
          Capability(ToFuncName(name).value, args.positional, args.keywords, CleanFunction(lib, oracle.text)))))
  {
  }

  /**
   * A `set` that raises becomes DatabaseException; only a hit returns a value.
   * A miss whose cleaned output passed both checks, which a working database
   * would have stored and returned, raises DatabaseException instead.
   */
  lemma MissingDatabaseFailure(hasModel: bool, name: string, args: Args, s: Store, lib: Library, oracle: Reply)
    requires s.setFails
    ensures var h := MethodNotFoundSpec(hasModel, name, args, Some(s), lib, oracle);
      h.store == Some(s) &&
      (h.verdict.Return? ==> ToFuncName(name).Ok? &&
                             Fingerprint(ToFuncName(name).value, args.positional, args.keywords) in s.entries)
    ensures MethodNotFoundSpec(hasModel, name, args, Some(s.(setFails := false)), lib, oracle).store != Some(s.(setFails := false)) ==>
              MethodNotFoundSpec(hasModel, name, args, Some(s), lib, oracle) == Handled(Raise(DatabaseException), Some(s))
  {
    var r := ToFuncName(name);
    if r.Ok? && hasModel && oracle.Said? {
      CheckAndStoreFails(name, r.value, args, s, lib, CleanFunction(lib, oracle.text));
    }
  }

  /** Lines 115-118: output that passed both checks meets the failing `set`, which raises DatabaseException. */
  lemma CheckAndStoreFails(name: string, funcName: string, args: Args, s: Store, lib: Library, source: string)
    requires s.setFails
    ensures var h := CheckAndStore(name, funcName, args, Some(s), lib, source);
      h.verdict.Raise? && h.store == Some(s)
    ensures lib.validSyntax(source) && !IsIncompleteCode(source) ==>
              CheckAndStore(name, funcName, args, Some(s), lib, source) == Handled(Raise(DatabaseException), Some(s))
  {
  }

  /** A name without word characters fails in `to_func_name` before anything else happens. */
  lemma MissingUnnameable(hasModel: bool, name: string, args: Args, store: Option<Store>, lib: Library, oracle: Reply)
    requires forall k :: 0 <= k < |name| ==> !Chars.IsWordChar(name[k])
    ensures MethodNotFoundSpec(hasModel, name, args, store, lib, oracle) == Handled(Raise(IndexError), store)
  {
    ToFuncNameSucceeds(name);
  }
}
