/**
 * generative/metaclasses.py: the database interface the decorators share
 * (AbstractDatabase), the two metaclasses, and the `generate` function that
 * GenerativeMetaClass stores on the classes it creates: clean the code,
 * check it, name it, consult the database, then compile it and bind the
 * function it defines as an attribute of the object `generate` is called on.
 */
module Metaclasses {
  import opened Python
  import opened Utils

  // ---------------------------------------------------------------------
  // AbstractDatabase
  // ---------------------------------------------------------------------

  /**
   * A database key: `str` of the dict the decorators build. Two different
   * dicts are taken to print differently.
   */
  datatype Query =
      /** `{"function_name": ..., "args": ..., "kwargs": ...}` */
    | Fingerprint(functionName: string, args: seq<PyValue>, kwargs: seq<(string, PyValue)>)
      /** `{"args": {}, "kwargs": {}}`, the key `generate` uses for every call */
    | EmptyCapability

  /** One call of `set`, in the form the caller used. */
  datatype Write =
      /** `set(capability)` with the generated code, as functions.py and classes.py call it */
    | Capability(functionName: string, args: seq<PyValue>, kwargs: seq<(string, PyValue)>, generatedCode: string)
      /** `set(key, data)`, as `generate` calls it */
    | Keyed(key: string, data: Query)

  /**
   * A snapshot of a database: what `contains` and `get` see, the `set` calls
   * made so far, and whether `set` raises.
   */
  datatype Store = Store(entries: map<Query, string>, writes: seq<Write>, setFails: bool)

  /** A store after a `set` that did not raise. */
  function Recorded(s: Store, w: Write): (r: Store)
    ensures r.entries == s.entries && r.setFails == s.setFails
    ensures r.writes == s.writes + [w]
  {
    s.(writes := s.writes + [w])
  }

  /**
   * An implementation of AbstractDatabase. `contains` and `get` read
   * `entries`; `set` either raises or is recorded in `writes`. Whether a
   * recorded `set` becomes visible to a later `contains` depends on the
   * backend and is left open.
   */
  class Database {
    var entries: map<Query, string>
    var writes: seq<Write>
    const setFails: bool

    constructor (entries: map<Query, string>, setFails: bool)
      ensures Snapshot() == Store(entries, [], setFails)
    {
      this.entries := entries;
      this.writes := [];
      this.setFails := setFails;
    }

    function Snapshot(): Store
      reads this
    {
      Store(entries, writes, setFails)
    }

    predicate Contains(q: Query)
      reads this
    {
      q in entries
    }

    function Get(q: Query): string
      reads this
      requires Contains(q)
    {
      entries[q]
    }

    /** `set`: `ok` is false when it raised; only a `set` that returned is recorded. */
    method Set(w: Write) returns (ok: bool)
      modifies this
      ensures ok == !setFails
      ensures Snapshot() == if ok then Recorded(old(Snapshot()), w) else old(Snapshot())
    {
      ok := !setFails;
      if ok {
        writes := writes + [w];
      }
    }
  }

  /** The snapshot of an optional database, as the pure models take it. */
  function SnapshotOf(db: Database?): Option<Store>
    reads db
  {
    if db == null then None else Some(db.Snapshot())
  }

  // ---------------------------------------------------------------------
  // BaseMetaClass and GenerativeMetaClass
  // ---------------------------------------------------------------------

  const IsGenerativeAttr := "is_generative"
  const GenerateAttr := "generate"

  datatype Metaclass = BaseMeta | GenerativeMeta

  /**
   * The attributes of a class the metaclass has just initialised from the
   * attributes `attrs` its body and bases provide: GenerativeMetaClass sets
   * `is_generative` to True and adds `generate`; BaseMetaClass adds nothing.
   */
  function Initialised(attrs: map<string, PyValue>, meta: Metaclass): (r: map<string, PyValue>)
    ensures meta == BaseMeta ==> r == attrs
    ensures meta == GenerativeMeta ==>
      r.Keys == attrs.Keys + {IsGenerativeAttr, GenerateAttr} &&
      r[IsGenerativeAttr] == Bool(true) && r[GenerateAttr] == GenerateFunction &&
      forall k :: k in attrs && k != IsGenerativeAttr && k != GenerateAttr ==> r[k] == attrs[k]
  {
    match meta
    case BaseMeta => attrs
    case GenerativeMeta => attrs[IsGenerativeAttr := Bool(true)][GenerateAttr := GenerateFunction]
  }

  /**
   * `cls.is_generative`: the class's own attribute if it has one, otherwise
   * the metaclass attribute, which both metaclasses inherit as False.
   */
  function IsGenerative(attrs: map<string, PyValue>): PyValue {
    if IsGenerativeAttr in attrs then attrs[IsGenerativeAttr] else Bool(false)
  }

  /**
   * A class made by GenerativeMetaClass reports `is_generative` as True and
   * has `generate`; one made by BaseMetaClass that does not set the
   * attribute itself reports the default False.
   */
  lemma MetaclassFlags(attrs: map<string, PyValue>)
    ensures IsGenerative(Initialised(attrs, GenerativeMeta)) == Bool(true)
    ensures Initialised(attrs, GenerativeMeta)[GenerateAttr] == GenerateFunction
    ensures IsGenerativeAttr !in attrs ==> IsGenerative(Initialised(attrs, BaseMeta)) == Bool(false)
  {
  }

  /**
   * The object `generate` is called on, whose attribute table it updates in
   * place. `generate` is a plain function stored on the class, so
   * `obj.generate(code)` binds `self` to the instance `obj` and attaches the
   * function there; `Cls.generate(Cls, code)` attaches it to the class.
   */
  class PyClass {
    var attributes: map<string, PyValue>

    constructor (attrs: map<string, PyValue>, meta: Metaclass)
      ensures attributes == Initialised(attrs, meta)
    {
      attributes := Initialised(attrs, meta);
    }
  }

  // ---------------------------------------------------------------------
  // generate
  // ---------------------------------------------------------------------

  /** The attributes, the store and the outcome one call of `generate` leaves. */
  datatype Generation = Generation(outcome: Outcome, attributes: map<string, PyValue>, store: Option<Store>)

  /**
   * Lines 177-192: with a database, look up the constant key; on a hit its
   * code replaces the caller's, on a miss `set(func_name, key)` is called.
   * The result is the code to compile and the store, or the exception.
   */
  function Consult(name: string, code: string, store: Option<Store>): (r: Result<(string, Option<Store>)>)
    ensures r.Err? ==> r.error == DatabaseException
    ensures r.Ok? ==> r.value.1.Some? == store.Some?
    ensures r.Ok? && store.Some? ==>
      r.value.1.value.entries == store.value.entries &&
      (r.value.1 == store || r.value.1.value.writes == store.value.writes + [Keyed(name, EmptyCapability)])
  {
    match store
    case None => Ok((code, None))
    case Some(s) =>
      if EmptyCapability in s.entries then Ok((s.entries[EmptyCapability], store))
      else if s.setFails then Err(DatabaseException)
      else Ok((code, Some(Recorded(s, Keyed(name, EmptyCapability)))))
  }

  /** The whole of one `generate(self, code, database)` call on a class with attributes `attrs`. */
  function GenerateSpec(lib: Library, sandbox: Sandbox, code: string, attrs: map<string, PyValue>,
                        store: Option<Store>): Generation
  {
    GenerateCleaned(lib, sandbox, CleanFunction(lib, code), attrs, store)
  }

  /** Lines 171-196: what `generate` does once `clean_function` has given `cleaned`. */
  function GenerateCleaned(lib: Library, sandbox: Sandbox, cleaned: string, attrs: map<string, PyValue>,
                           store: Option<Store>): Generation
  {
    if !lib.validSyntax(cleaned) then Generation(Raised(SyntaxError), attrs, store)
    else match ExtractFuncName(cleaned)
      case Err(e) => Generation(Raised(e), attrs, store)
      case Ok(name) =>
        match Consult(name, cleaned, store)
        case Err(e) => Generation(Raised(e), attrs, store)
        case Ok((src, store')) =>
          match sandbox.load(src)
          case Some(e) => Generation(Raised(e), attrs, store')
          case None =>
            if !sandbox.binds(src, name) then Generation(Raised(KeyError(name)), attrs, store')
            else Generation(Returned(NoneValue), attrs[name := Loaded(src, name)], store')
  }

  /** `generate`, updating the object it is called on and the database in place. */
  method Generate(cls: PyClass, code: string, database: Database?, lib: Library, sandbox: Sandbox)
    returns (outcome: Outcome)
    modifies cls, database
    ensures var g := GenerateSpec(lib, sandbox, code, old(cls.attributes), old(SnapshotOf(database)));
      outcome == g.outcome && cls.attributes == g.attributes && SnapshotOf(database) == g.store
  {
    var cleaned := CleanFunction(lib, code);
    if !lib.validSyntax(cleaned) {
      return Raised(SyntaxError);
    }
    var name := ExtractFuncName(cleaned);
    if name.Err? {
      return Raised(name.error);
    }
    var src := cleaned;
    if database != null {
      if database.Contains(EmptyCapability) {
        src := database.Get(EmptyCapability);
      } else {
        var ok := database.Set(Keyed(name.value, EmptyCapability));
        if !ok {
          return Raised(DatabaseException);
        }
      }
    }
    var loadError := sandbox.load(src);
    if loadError.Some? {
      return Raised(loadError.value);
    }
    if !sandbox.binds(src, name.value) {
      return Raised(KeyError(name.value));
    }
    cls.attributes := cls.attributes[name.value := Loaded(src, name.value)];
    outcome := Returned(NoneValue);
  }

  // The lemmas below speak of `GenerateCleaned`, so they hold of `GenerateSpec`
  // for every `code` whose `clean_function` output is `cleaned`.

  /** Code that fails the syntax check raises SyntaxError and touches neither the class nor the database. */
  lemma GenerateRejectsInvalidSyntax(lib: Library, sandbox: Sandbox, cleaned: string,
                                     attrs: map<string, PyValue>, store: Option<Store>)
    requires !lib.validSyntax(cleaned)
    ensures GenerateCleaned(lib, sandbox, cleaned, attrs, store) == Generation(Raised(SyntaxError), attrs, store)
  {
  }

  /** Valid code without a function definition raises ValueError before the database is consulted. */
  lemma GenerateNeedsDefinition(lib: Library, sandbox: Sandbox, cleaned: string,
                                attrs: map<string, PyValue>, store: Option<Store>)
    requires lib.validSyntax(cleaned)
    requires forall k :: 0 <= k <= |cleaned| ==> DefNameAt(cleaned, k).None?
    ensures GenerateCleaned(lib, sandbox, cleaned, attrs, store) ==
            Generation(Raised(ValueError(NoFunctionDefinition)), attrs, store)
  {
    ExtractFuncNameLeftmost(cleaned);
  }

  /**
   * Whatever the code, the database sees at most one `set`, under the
   * extracted name with the same constant key as data, and what `contains`
   * and `get` read is unchanged.
   */
  lemma GenerateConstantKey(lib: Library, sandbox: Sandbox, cleaned: string,
                            attrs: map<string, PyValue>, store: Option<Store>)
    ensures var g := GenerateCleaned(lib, sandbox, cleaned, attrs, store);
      g.store.Some? <==> store.Some?
    ensures var g := GenerateCleaned(lib, sandbox, cleaned, attrs, store);
      store.Some? ==>
        g.store.value.entries == store.value.entries &&
        (g.store == store ||
         exists name :: ExtractFuncName(cleaned) == Ok(name) &&
                        g.store.value.writes == store.value.writes + [Keyed(name, EmptyCapability)])
  {
    if lib.validSyntax(cleaned) && ExtractFuncName(cleaned).Ok? {
      var name := ExtractFuncName(cleaned).value;
      var c := Consult(name, cleaned, store);
    }
  }

  /**
   * On a miss the caller's cleaned code is recorded under its name and,
   * if it loads, bound under that name.
   */
  lemma GenerateMiss(lib: Library, sandbox: Sandbox, cleaned: string, attrs: map<string, PyValue>,
                     s: Store, name: string)
    requires lib.validSyntax(cleaned)
    requires ExtractFuncName(cleaned) == Ok(name)
    requires EmptyCapability !in s.entries && !s.setFails
    ensures var g := GenerateCleaned(lib, sandbox, cleaned, attrs, Some(s));
      g.store == Some(Recorded(s, Keyed(name, EmptyCapability))) &&
      (g.outcome.Returned? ==> g.attributes == attrs[name := Loaded(cleaned, name)])
  {
  }

  /**
   * On a hit the stored code is compiled in place of the caller's without
   * being checked again, and nothing is written.
   */
  lemma GenerateHit(lib: Library, sandbox: Sandbox, cleaned: string, attrs: map<string, PyValue>,
                    s: Store, name: string)
    requires lib.validSyntax(cleaned)
    requires ExtractFuncName(cleaned) == Ok(name)
    requires EmptyCapability in s.entries
    ensures var g := GenerateCleaned(lib, sandbox, cleaned, attrs, Some(s));
      var stored := s.entries[EmptyCapability];
      g.store == Some(s) &&
      (g.outcome.Returned? <==> sandbox.load(stored).None? && sandbox.binds(stored, name)) &&
      (g.outcome.Returned? ==> g.attributes == attrs[name := Loaded(stored, name)])
  {
  }

  /** A `set` that raises becomes DatabaseException, and nothing is attached. */
  lemma GenerateDatabaseFailure(lib: Library, sandbox: Sandbox, cleaned: string,
                                attrs: map<string, PyValue>, s: Store)
    requires lib.validSyntax(cleaned)
    requires ExtractFuncName(cleaned).Ok?
    requires EmptyCapability !in s.entries && s.setFails
    ensures GenerateCleaned(lib, sandbox, cleaned, attrs, Some(s)) ==
            Generation(Raised(DatabaseException), attrs, Some(s))
  {
  }

  /**
   * A call that raises leaves the attributes as they were; one that returns
   * returns None and sets exactly one attribute, named by the extracted name.
   */
  lemma GenerateFrame(lib: Library, sandbox: Sandbox, cleaned: string,
                      attrs: map<string, PyValue>, store: Option<Store>)
    ensures var g := GenerateCleaned(lib, sandbox, cleaned, attrs, store);
      g.outcome.Raised? ==> g.attributes == attrs
    ensures var g := GenerateCleaned(lib, sandbox, cleaned, attrs, store);
      g.outcome.Returned? ==>
        g.outcome.value == NoneValue &&
        exists name, src :: ExtractFuncName(cleaned) == Ok(name) &&
                            g.attributes == attrs[name := Loaded(src, name)]
  {
    var g := GenerateCleaned(lib, sandbox, cleaned, attrs, store);
    if g.outcome.Returned? {
      var name := ExtractFuncName(cleaned).value;
      var src := Consult(name, cleaned, store).value.0;
      assert g.attributes == attrs[name := Loaded(src, name)];
    }
  }
}
