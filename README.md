# smart: generative decorators, modelled in Dafny

`smart` wraps Python functions and classes so that a language model (an
"oracle") can supply their code. This project models the decision logic of
those wrappers and proves properties about it. It covers:

- The text utilities that clean and judge oracle output (`generative/utils.py`
  and the duplicate `remove_prepended` in `utils.py`). Their regular
  expressions are written out as explicit scans.
- `adapt` and `catch` (`generative/functions.py`) and their older versions
  (`generative/decorators.py`). Each wrapper call decides one of four things:
  call the wrapped function, run generated code, return a value, or raise.
  `adapt` also rebinds the captured `code` and may write the database.
- `generate_attribute` (`generative/classes.py` and the older version in
  `generative/decorators.py`). A missing attribute becomes a callable, and
  that callable consults the database and then the oracle.
- `GenerativeMetaClass` and its `generate` function, and the
  `AbstractDatabase` interface (`generative/metaclasses.py`). `generate` is
  stored on each class the metaclass creates; called as `obj.generate(code)`,
  it attaches the compiled function to `obj`, usually an instance.
  `Metaclasses.PyClass` stands for whatever object `generate` is called on.
  The database is a class with
  `contains`, `get` and a `set` that may raise.

Modules:

- `Python`: values, exceptions, replies, the library and the sandbox.
- `Chars`: ASCII `\s`, `\w`, `\b`, `lower`, `strip` and `find`.
- `Utils`, `UtilsExamples`, `RootUtils`, `Metaclasses`, `Functions`, `Classes`
  and `Decorators`: one per source file, plus the test expectations.

Some of the program's behaviour is given to the model as parameters:

- the oracle's and critic's replies, as a `Reply` for each call;
- whether `ast.parse` accepts a text, and `textwrap.dedent` (`Library`);
- what compiling and executing a text raises, whether it binds a name, and
  what the bound function returns (`Sandbox`);
- the wrapped function's outcome.

Where the documentation and the code disagree, the model follows the code:

- An exception from the oracle or the critic propagates; nothing catches it.
- In `generative/functions.py`, non-blank code that fails the syntax check
  raises SyntaxError. It does not fall back to the wrapped function.
- When code generated inside `catch` raises, that exception propagates. The
  docstring promises the original exception instead.
- `catch` ends in a bare `raise` placed after its `except` block has ended.
  The comment above it and the docstring promise that the original exception
  is raised again. In Python 3, a bare `raise` outside the handler raises
  RuntimeError("No active exception to reraise"). The model keeps both
  readings; see "## Findings".
- The docstring of `generate_attribute` says the generated function is
  executed and stored on the instance. The code stores nothing on the
  instance and returns a source string instead. In `generative/classes.py`
  (lines 98 and 120) it is the cleaned source. In the older
  `generative/decorators.py` (lines 299 and 305) it is the model's raw output.

## Model

| member | source | states |
|---|---|---|
| Utils.SearchPrepended | generative/utils.py:20 | finds the leftmost position where `\s*def .+` matches, or reports that none exists |
| Utils.RemovePrepended | generative/utils.py:19-28 | `remove_prepended`: the text from the leftmost `\s*def .+` match, or all of it, cut after the first end marker; its properties are the lemmas below |
| Utils.SearchHeader | generative/utils.py:20 | finds the leftmost `def ` header followed by a character on the same line, or reports that none exists |
| Utils.LeftmostMatchIsHeaderRun | generative/utils.py:20-22 | the leftmost match of `\s*def .+` starts at the whitespace run just before the first header |
| Utils.RemovePrependedSlice | generative/utils.py:19-28 | the result is a contiguous substring of the input; if the marker occurs in it, it ends with the marker and contains no earlier occurrence |
| Utils.HeaderCut | generative/utils.py:20-22 | the position where the text is cut lies within the input |
| Utils.RemovePrependedCut | generative/utils.py:19-28 | the result is a prefix of the text from the cut; it is all of that text when the marker does not occur; with neither header nor marker the input comes back unchanged |
| Utils.CutTextStartsAtMatch | generative/utils.py:20-22 | the text after the cut starts with a match of the header pattern |
| Utils.PrefixStartsAtMatch | generative/utils.py:24-26 | truncating a text that starts at a header match keeps it starting at a match |
| Utils.ResultStartsAtMatch | generative/utils.py:19-28 | every result starts with its own header match, or has no header at all |
| Utils.RemovePrependedIdempotent | generative/utils.py:19-28 | applying `remove_prepended` twice gives the same result as applying it once |
| Utils.SelfParamEnd | generative/utils.py:43 | a match of `(?<=\()\s*self\b,?\s*` spans at least the four letters of `self` |
| Utils.RemoveSelfFrom | generative/utils.py:43-44 | splitting on the pattern and joining never makes the rest of the text longer |
| Utils.RemoveSelfFromUnchanged | generative/utils.py:43-44 | the rest of the text is unchanged exactly when no match starts in it, and an unchanged length means an unchanged text |
| Utils.RemoveSelfParam | generative/utils.py:42-44 | the result is never longer; it equals the input exactly when no whole-word `self` directly follows a `(` |
| Utils.CleanFunction | generative/utils.py:59-62 | `clean_function`: `self` parameters removed, then `remove_prepended`, then `dedent`; CleanFunctionDedentsSlice states what reaches `dedent` |
| Utils.CleanFunctionDedentsSlice | generative/utils.py:59-62 | what reaches `dedent` is a contiguous piece of the text after the `self` parameters are removed |
| Utils.SearchDefName | generative/utils.py:78 | a captured group is never empty |
| Utils.SearchDefNameNone | generative/utils.py:78 | the search finds nothing exactly when `def\s+(\w+)` matches at no position from the start onwards |
| Utils.SearchDefNameLeftmost | generative/utils.py:78 | a found group is the group of a match at some position, and no match starts before that position |
| Utils.ExtractFuncName | generative/utils.py:77-82 | a failure is ValueError with the source's message; a returned name is non-empty |
| Utils.ExtractFuncNameLeftmost | generative/utils.py:77-82 | fails exactly when `def\s+\w` occurs nowhere; otherwise returns the group of the leftmost match, a maximal non-empty run of word characters |
| Chars.StripTrims | generative/utils.py:104 | `strip` returns a contiguous piece of the text, with only whitespace cut on either side and no whitespace left at either end |
| Utils.SubNonWord | generative/utils.py:108 | `re.sub(r"\W+", " ", ...)` leaves only spaces and word characters |
| Utils.SubNonWordKeeps | generative/utils.py:108 | the substitution keeps every word character, in order |
| Utils.SubNonWordNoUpper | generative/utils.py:106-108 | the substitution brings in no upper-case letter |
| Utils.SpacesToUnderscores | generative/utils.py:108 | `replace(" ", "_")` leaves no space, keeps every other character in place, and the underscores of the result are exactly the spaces and underscores of the input |
| Utils.KeepAlnumUnderscores | generative/utils.py:108 | the replacement leaves the letters and digits as they were |
| Utils.SnakeTextChars | generative/utils.py:104-108 | the normalised text holds only lower-case letters, digits and `_` |
| Utils.SnakeTextEmpty | generative/utils.py:104-110 | the normalised text is empty exactly when the input has no word character |
| Utils.SnakeTextAlnum | generative/utils.py:104-108 | the normalised text keeps the input's letters and digits, in order, lower-cased |
| Utils.ToFuncName | generative/utils.py:102-113 | a failure is IndexError; a returned name is non-empty and does not start with a digit |
| Utils.ToFuncNameSucceeds | generative/utils.py:102-113 | succeeds exactly when the input has a word character |
| Utils.ToFuncNameSnakeCase | generative/utils.py:102-113 | a returned name holds only lower-case letters, digits and underscores |
| Utils.ToFuncNameKeepsAlnum | generative/utils.py:102-113 | a returned name holds the input's letters and digits, in order, lower-cased |
| Utils.StripUnpadded | generative/utils.py:104 | `strip` leaves a text without surrounding whitespace unchanged |
| Utils.SubNonWordWords | generative/utils.py:108 | the substitution leaves a run of word characters unchanged |
| Utils.ToFuncNameIdempotent | generative/utils.py:102-113 | a returned name converts to itself |
| Utils.StripStable | generative/utils.py:104 | stripping a stripped text changes nothing |
| Utils.ToFuncNameStrips | generative/utils.py:102-104 | whitespace around the text does not change the name |
| Utils.SnakeTextWord | generative/utils.py:104-108 | a text of word characters only is just lower-cased |
| Utils.SubNonWordAvoids | generative/utils.py:108 | the substitution brings in no character other than the space |
| Utils.SubNonWordSingleSpaces | generative/utils.py:108 | the substitution never leaves two spaces side by side |
| Utils.StripAvoids | generative/utils.py:104 | `strip` brings in no character that the text lacks |
| Utils.StripSingleSpaces | generative/utils.py:104 | `strip` keeps spaces standing alone |
| Utils.SnakeTextUnderscores | generative/utils.py:104-108 | for a text without `_`, the normalised text neither starts nor ends with `_` and has no two `_` side by side |
| Utils.ToFuncNameUnderscores | generative/utils.py:102-113 | for a text without `_`, a returned name does not end with `_` and has no two `_` side by side; a leading `_` is always followed by a digit |
| Utils.SearchPassFinds | generative/utils.py:130-131 | the search succeeds exactly when whole-word `pass` occurs in any letter case from a position onwards |
| Utils.IsIncompleteCode | generative/utils.py:128-131 | `is_incomplete_code`: whether `\bpass\b` matches, ignoring case, as IsIncompleteCodeFinds and IsIncompleteCodeIgnoresCase state |
| Utils.IsIncompleteCodeFinds | generative/utils.py:128-131 | true exactly when `pass` occurs as a whole word in any letter case |
| Utils.IsIncompleteCodeIgnoresCase | generative/utils.py:131 | lower-casing the input does not change the answer |
| Utils.DropPunctuation | generative/utils.py:151 | keeps exactly the word and whitespace characters, in order |
| Utils.SearchBoolWordLeftmost | generative/utils.py:154 | the search finds the leftmost whole-word `true` or `false`, or reports that none exists |
| Utils.FormatBinaryOutput | generative/utils.py:149-159 | a failure is ValueError with the source's message |
| Utils.FormatBinaryOutputFirstWord | generative/utils.py:149-159 | fails exactly when no whole-word true/false remains after punctuation is dropped; otherwise true exactly when the first such word is `true`, in any letter case |
| Utils.FormatBinaryOutputIgnoresCase | generative/utils.py:154 | lower-casing the answer does not change the verdict |
| UtilsExamples.ToFuncNameHelloWorld | tests/test_utils.py:8 | `"Hello World"` becomes `hello_world` |
| UtilsExamples.ToFuncNameLeadingDigit | tests/test_utils.py:10 | `"123abc"` becomes `_123abc` |
| UtilsExamples.ToFuncNamePadded | tests/test_utils.py:9 | `"    space    "` becomes `space` |
| UtilsExamples.ToFuncNameMixedCase | tests/test_utils.py:11 | `"MixedCase123"` becomes `mixedcase123` |
| UtilsExamples.ToFuncNameHyphenated | tests/test_utils.py:12 | `"non-alphanumeric!@#"` becomes `non_alphanumeric` |
| UtilsExamples.SubNonWordHyphenated | generative/utils.py:108 | in `non-alphanumeric!@#`, the hyphen and the trailing `!@#` each become one space |
| UtilsExamples.SubNonWordWordGap | generative/utils.py:108 | a run of non-word characters that follows a word becomes exactly one space |
| UtilsExamples.StripBetween | generative/utils.py:104 | `strip` keeps exactly what lies between the leading and the trailing whitespace |
| UtilsExamples.DigitLedName | generative/utils.py:110-111 | a snake_case name that starts with a digit gets one underscore in front |
| UtilsExamples.ToFuncNamePunctuationOnly | generative/utils.py:108-110 | a text of punctuation and spaces fails with IndexError |
| UtilsExamples.SubNonWordHelloWorld | generative/utils.py:108 | the substitution leaves `hello world` unchanged |
| UtilsExamples.RemoveSelfSkips | generative/utils.py:43-44 | characters before the first match are copied unchanged |
| UtilsExamples.WithSelfMatch | tests/test_utils.py:17 | in the test's header, `self, ` after the `(` is one match |
| UtilsExamples.WithSelfNoOtherMatch | tests/test_utils.py:17 | the test's header has no other match |
| UtilsExamples.WithSelfCut | tests/test_utils.py:17-19 | removing the pattern cuts exactly `self, ` |
| UtilsExamples.WithSelfJoined | tests/test_utils.py:18 | what remains is the expected header |
| UtilsExamples.RemoveSelfParamWithSelf | tests/test_utils.py:16-19 | `def my_func(self, arg1, arg2):` loses its `self, ` |
| UtilsExamples.RemoveSelfParamWithoutSelf | tests/test_utils.py:21-23 | `def my_func(arg1, arg2):` has no `self` and is left as it is |
| UtilsExamples.WithoutSelfNoMatch | tests/test_utils.py:22 | the pattern matches nowhere in a header without `self` |
| UtilsExamples.RemoveSelfParamSelfish | tests/test_utils.py:25-27 | `selfish` is left untouched |
| UtilsExamples.ExtractFuncNameAdd | tests/test_decorators.py:8-11 | the name extracted from the test's code string, a newline and four spaces before `def add(a, b):` and its `sum` body, is `add`: no `def` starts at indices 0-4 and the first match is at index 5 |
| UtilsExamples.FormatBinaryOutputTrue | generative/utils.py:149-157 | the answer `True.` decodes to true |
| UtilsExamples.AnswerTrue | generative/utils.py:154-157 | an answer that reads `true` once cleaned decodes to true |
| UtilsExamples.IsIncompleteCodeUpperPass | generative/utils.py:128-131 | a body of `PASS` counts as incomplete |
| UtilsExamples.IsIncompleteCodePassword | generative/utils.py:129-131 | `password` does not count as `pass` |
| RootUtils.RemovePrepended | utils.py:16-25 | gives the same result as `remove_prepended` in generative/utils.py on every input, so all its properties carry over |
| RootUtils.RemovePrependedIdempotent | utils.py:16-25 | applying the function twice gives the same result as applying it once |
| Metaclasses.Recorded | generative/metaclasses.py:56-69 | a `set` that returns appends one write and leaves what `contains` and `get` see unchanged |
| Metaclasses.Database.constructor | generative/metaclasses.py:35-69 | a fresh store holds the given entries and no writes |
| Metaclasses.Database.Contains | generative/metaclasses.py:37-45 | `contains(query)`: whether the query has an entry; it reads the store and changes nothing |
| Metaclasses.Database.Get | generative/metaclasses.py:47-55 | `get(query)`: the entry stored under a query that `contains` reports; it reads the store and changes nothing |
| Metaclasses.Database.Set | generative/metaclasses.py:56-69 | `set` reports whether it raised; only a `set` that returned is recorded, and nothing else changes |
| Metaclasses.Initialised | generative/metaclasses.py:140-147 | GenerativeMetaClass adds `is_generative = True` and `generate` and keeps every other attribute; BaseMetaClass adds nothing |
| Metaclasses.MetaclassFlags | generative/metaclasses.py:114-115 | a generative class reports True and has `generate`; a base class that does not set the flag reports False |
| Metaclasses.PyClass.constructor | generative/metaclasses.py:140-147 | a new class holds the attributes its metaclass initialised; the same type stands for an instance that `generate` is called on |
| Metaclasses.Consult | generative/metaclasses.py:177-192 | a database failure is DatabaseException; what `contains` and `get` see is unchanged; the store is either untouched or gains one `set(func_name, key)` |
| Metaclasses.GenerateSpec | generative/metaclasses.py:165-196 | the whole of one `generate` call on the old attributes and store; its properties are the Generate* lemmas below, and Metaclasses.Generate is proved equal to it |
| Metaclasses.Generate | generative/metaclasses.py:165-196 | the outcome, the class attributes and the store after one call are those of the pure specification on the old state |
| Metaclasses.GenerateRejectsInvalidSyntax | generative/metaclasses.py:170-173 | invalid cleaned code raises SyntaxError and touches neither the class nor the store |
| Metaclasses.GenerateNeedsDefinition | generative/metaclasses.py:175 | valid code without a `def` raises ValueError before the database is used |
| Metaclasses.GenerateConstantKey | generative/metaclasses.py:177-188 | whatever the code, the store sees at most one `set`, under the extracted name with the one constant key |
| Metaclasses.GenerateMiss | generative/metaclasses.py:185-186 | on a miss the key is set under the name, and the caller's cleaned code is what gets bound |
| Metaclasses.GenerateHit | generative/metaclasses.py:187-188 | on a hit the stored code is compiled without any new check, nothing is written, and the call succeeds exactly when that code loads and binds the name |
| Metaclasses.GenerateDatabaseFailure | generative/metaclasses.py:189-192 | a failing `set` raises DatabaseException and nothing is attached |
| Metaclasses.GenerateFrame | generative/metaclasses.py:194-196 | a call that raises leaves the class alone; a call that returns returns None and sets exactly one attribute, named by the extracted name |
| Functions.LookupAsWritten | generative/functions.py:57-71 | the lookup fails exactly when the wrapped function's source names no function |
| Functions.Lookup | generative/functions.py:57-71 | without a database there is no lookup and no failure; with one it is the lookup as written |
| Functions.AdaptCallAsWritten | generative/functions.py:55-134 | one call of `adapt`'s wrapper as written, with the name extracted on every call; AdaptAsWrittenRaisesWithoutSource and AdaptReadingsAgree relate it to the corrected call |
| Functions.AdaptCall | generative/functions.py:55-134 | one call of `adapt`'s wrapper with the corrected lookup; its properties are the Adapt* lemmas below, and AdaptWrapper.Call is proved equal to it |
| Functions.AdaptWrapper.constructor | generative/functions.py:46-137 | a wrapper whose source cannot be read starts with empty code; `_is_generative` says whether a model was given |
| Functions.AdaptWrapper.Call | generative/functions.py:55-134 | the verdict, the code left for the next call and the store are those of the pure specification on the old state |
| Functions.AdaptWrapper.Run | generative/functions.py:94-134 | running the captured code gives the verdict, new code and store of the specification |
| Functions.AdaptNoOp | generative/functions.py:94-95 | with blank code, no model and no database, the caller gets the wrapped function's outcome and nothing changes |
| Functions.AdaptModelWithoutCritic | generative/functions.py:73-92 | with a model and no critic, a call without a hit never runs generated code: it raises the model's exception or calls the wrapped function, and stores nothing |
| Functions.AdaptCriticRejects | generative/functions.py:86-92 | when the critic's answer decodes to false, the wrapped function is called, nothing is run or stored, and the cleaned output becomes the code |
| Functions.AdaptCacheHit | generative/functions.py:60-73 | on a hit the cached code runs as captured code would, and the model's and critic's replies make no difference |
| Functions.AdaptStoresOnlyWhatRuns | generative/functions.py:117-132 | the store changes exactly when generated code is about to run: one `set` with the name, arguments and code; every other call leaves it as it was |
| Functions.RunCodeStores | generative/functions.py:104-132 | running code writes one capability exactly when the verdict is to call the generated function |
| Functions.RunCodeRaisesOnInvalidSyntax | generative/functions.py:94-108 | any non-blank code that fails the syntax check, once cut and dedented, raises SyntaxError, keeps the cut code and leaves the store alone |
| Functions.AdaptRaisesOnInvalidSyntax | generative/functions.py:94-108 | non-blank captured code that fails the syntax check raises SyntaxError and does not fall back to the wrapped function |
| Functions.AdaptCachedInvalidSyntax | generative/functions.py:60-108 | a cached code string that fails the syntax check raises SyntaxError, whatever the model and the critic say |
| Functions.AdaptApprovedInvalidSyntax | generative/functions.py:73-108 | model output that the critic approved but that fails the syntax check raises SyntaxError |
| Functions.AdaptDatabaseFailure | generative/functions.py:117-132 | with a failing `set`, generated code is never called and the store is unchanged; a call that would run generated code with a working database raises DatabaseException instead |
| Functions.AdaptDatabaseFailureRaises | generative/functions.py:126-129 | a call that runs generated code with a working database raises DatabaseException when `set` raises |
| Functions.RunCodeRaisesWithFailingStore | generative/functions.py:117-129 | running code that would reach the generated function with a working database raises DatabaseException when `set` raises |
| Functions.RunCodeNeverRunsWithFailingStore | generative/functions.py:117-129 | with a failing `set`, running code never reaches the generated function |
| Functions.AdaptAsWrittenRaisesWithoutSource | generative/functions.py:48-58 | as written, a wrapper without source raises ValueError on every call; the corrected wrapper calls the wrapped function |
| Functions.AdaptReadingsAgree | generative/functions.py:57-71 | both readings agree whenever the source names a function |
| Functions.CatchPassesValues | generative/functions.py:179-182 | a call that returns passes its value through, whatever the model says |
| Functions.CatchCall | generative/functions.py:179-215 | the corrected `catch` call, which re-raises the original exception on the fall-through paths; its properties are CatchPassesValues, CatchReraises and CatchRunsOnlyCheckedCode |
| Functions.CatchCallAsWritten | generative/functions.py:179-215 | the `catch` call as written, whose bare `raise` at line 215 raises RuntimeError on the fall-through paths; CatchAsWrittenLosesFailure and CatchReadingsAgree relate it to the corrected call |
| Functions.CatchReraises | generative/functions.py:183-215 | with no model, no source or blank cleaned output, the corrected wrapper raises the original exception again, as the comment at lines 213-214 promises |
| Functions.CatchAsWrittenLosesFailure | generative/functions.py:213-215 | in the same cases, the bare `raise` as written raises RuntimeError("No active exception to reraise") instead, so any other original exception is lost |
| Functions.CatchReadingsAgree | generative/functions.py:179-215 | the two readings agree on every call that returns, and on every failure handed to a model that produced non-blank code |
| Functions.CatchRunsOnlyCheckedCode | generative/functions.py:183-211 | generated code runs only after the wrapped function raised, with a model and a source, and only code that passed the syntax check and binds the name it defines |
| Classes.GenerativeInstance.constructor | generative/classes.py:50-53 | `_is_generative` is set on the instance only when a model is given; every other attribute is kept |
| Classes.GenerativeInstance.GetAttribute | generative/classes.py:55-124 | lookup never raises: an existing attribute is returned unchanged, and only a missing one gives the `method_not_found` callable for its name |
| Classes.MethodNotFoundSpec | generative/classes.py:62-122 | one call of `method_not_found` on the old store; its properties are the Missing* lemmas below, and GenerativeInstance.CallMissing is proved equal to it |
| Classes.GenerativeInstance.CallMissing | generative/classes.py:62-122 | the verdict and store after one call are those of the pure specification; the instance's attributes do not change |
| Classes.GenerativeInstance.StoreChecked | generative/classes.py:100-120 | the verdict and store after checking and storing the cleaned output are those of the pure specification on the old store |
| Classes.MissingCacheHit | generative/classes.py:63-77 | a hit returns the stored value; the model is not consulted and nothing is written |
| Classes.MissingWithoutModel | generative/classes.py:80-122 | with no model and no hit, the call raises the AttributeError for the name |
| Classes.MissingChecksInOrder | generative/classes.py:100-104 | invalid syntax raises SyntaxError even when the output has `pass`; valid output with `pass` raises the AttributeError; neither writes |
| Classes.MissingReturnsCheckedSource | generative/classes.py:98-120 | without a hit, any returned value or change to the store comes from the cleaned output, which passed both checks; the return is that source string, and the store gains one `set` of it |
| Classes.MissingDatabaseFailure | generative/classes.py:106-118 | with a failing `set`, the store is unchanged and only a hit returns a value; a call that a working database would have recorded raises DatabaseException instead |
| Classes.CheckAndStoreFails | generative/classes.py:100-118 | with a failing `set`, the store is unchanged and the call raises; output that passed both checks raises DatabaseException |
| Classes.MissingUnnameable | generative/classes.py:63 | a name without word characters raises IndexError before anything else |
| Decorators.AdaptWrapper.constructor | generative/decorators.py:42-94 | a wrapper whose source cannot be read starts with empty code; `_is_generative` says whether a model was given |
| Decorators.AdaptCall | generative/decorators.py:51-91 | one call of the older `adapt` wrapper; its properties are the Adapt* lemmas below, and AdaptWrapper.Call is proved equal to it |
| Decorators.AdaptWrapper.Call | generative/decorators.py:51-91 | the verdict and the code left for the next call are those of the pure specification on the old code |
| Decorators.AdaptNoOp | generative/decorators.py:71-72 | blank code and no model call the wrapped function and keep the code |
| Decorators.AdaptRunsGivenCode | generative/decorators.py:71-91 | non-blank code with no model and no critic runs the function it names, once it is cut, dedented and loaded |
| Decorators.AdaptModelWithoutCritic | generative/decorators.py:61-71 | with a model and no critic, non-blank output runs as captured code would |
| Decorators.AdaptCriticGate | generative/decorators.py:59-72 | with a critic, code runs only if the model answered and the critic's reply decoded to true; a reply that decodes to false calls the wrapped function and keeps the model's output as the code; without a model the wrapped function is called |
| Decorators.CatchPassesValues | generative/decorators.py:135-138 | a call that returns passes its value through |
| Decorators.CatchCall | generative/decorators.py:135-167 | the corrected older `catch` call, which re-raises the original exception on the fall-through paths; its properties are CatchPassesValues, CatchReraises and CatchRunsOnlyAfterFailure |
| Decorators.CatchCallAsWritten | generative/decorators.py:135-167 | the older `catch` call as written, whose bare `raise` at line 167 raises RuntimeError on the fall-through paths; CatchAsWrittenLosesFailure and CatchReadingsAgree relate it to the corrected call |
| Decorators.CatchReraises | generative/decorators.py:139-167 | with no model, no source or blank raw output, the corrected wrapper raises the original exception again, as the comment at line 166 promises |
| Decorators.CatchAsWrittenLosesFailure | generative/decorators.py:166-167 | in the same cases, the bare `raise` as written raises RuntimeError("No active exception to reraise") instead, so any other original exception is lost |
| Decorators.CatchReadingsAgree | generative/decorators.py:135-167 | the two readings agree on every call that returns, and on every failure handed to a model that produced non-blank output |
| Decorators.CatchRunsOnlyAfterFailure | generative/decorators.py:139-164 | generated code runs only after a failure, and it is the model's raw output, cut and dedented |
| Decorators.MethodNotFound | generative/decorators.py:279-307 | without a model the callable raises the AttributeError; with one it behaves as written |
| Decorators.MethodNotFoundAsWritten | generative/decorators.py:276-307 | `method_not_found` as written, whose `raise e` without a model raises NameError; MethodNotFoundWithoutModelAsWritten contrasts it with the corrected call |
| Decorators.MethodNotFoundReturnsRawOutput | generative/decorators.py:295-305 | with a model, the raw output is returned as a string exactly when it has no whole-word `pass`; otherwise the AttributeError is raised |
| Decorators.MethodNotFoundWithoutModelAsWritten | generative/decorators.py:276-307 | without a model the code as written raises NameError, which differs from the corrected AttributeError |

## Left out

- Prompt formatting (`generative/prompt.py`) and the contents of prompts: an oracle's reply is an input of each call.
- `inspect.getsource`, `inspect.getmembers` and the class context collected for prompts: their only effect modelled is whether the source was found.
- `ast.parse`, `textwrap.dedent`, `compile`, `compile_restricted` and `exec` are abstract. The model does not tell the restricted compiler from the plain one.
- The result of calling generated code is abstract (`Sandbox.run`).
- Character classes are ASCII only. Unicode word characters, whitespace and case mapping are not modelled.
- `print` calls in the older decorators are not modelled.
- The `stack_trace` decorators are not modelled: they only format a traceback, ask for a summary and print it.
- Exceptions raised by `contains` and `get` are not modelled. Only `set` can fail.
- Exceptions that do not derive from `Exception`, such as KeyboardInterrupt and SystemExit, are not modelled. Every error in the model, including `Foreign`, stands for an `Exception`. In the source, `catch` (generative/functions.py:183, generative/decorators.py:139) and the handlers around `set` (generative/functions.py:126, generative/classes.py:115, generative/metaclasses.py:189) would let such an exception pass through untouched.
- A recorded `set` is not made visible to later `contains` or `get`: that depends on the backend.
- Database values are strings, the generated code.
- The query string `str({...})` is modelled as a structured key, so two different queries never collide.
- One `adapt(...)` result can decorate several functions, and they then share one `code` variable. The model gives each wrapper its own `code`.
- The wrapper's required positional `self` is passed through unchanged; `Functions.WithSelf` prepends it to the arguments.
- The abstract `AbstractGenerativeModel` interface has no behaviour to model.
- Functions.AdaptWrapper.Call: models the corrected lookup, which extracts the function name only when a database is given; the as-written lookup is `Functions.LookupAsWritten`.
- Decorators.MethodNotFound: models the corrected error, AttributeError; the as-written NameError is `Decorators.MethodNotFoundAsWritten`.
- Functions.CatchReraises: states the corrected re-raise of the original exception; the bare `raise` as written is `Functions.CatchCallAsWritten`.
- Decorators.CatchReraises: states the corrected re-raise of the original exception; the bare `raise` as written is `Decorators.CatchCallAsWritten`.
- A caller that calls a `catch` wrapper while itself handling an exception would see that exception re-raised by the bare `raise`. The model does not track the caller's exception context.

## Findings

| source | as written | input that shows it | evidently intended | confidence | as-written member | corrected member |
|---|---|---|---|---|---|---|
| generative/functions.py:58 | the wrapper extracts the function name from `func_source` on every call, even without a database | a function whose source cannot be read, such as one built by `exec`: `func_source` is `""`, so every call raises ValueError, although line 53 clears `code` so that the wrapped function is called | extract the name only for the database query | medium, not executed | Functions.AdaptAsWrittenRaisesWithoutSource | Functions.Lookup |
| generative/decorators.py:306-307 | `raise e` inside `method_not_found`, after the `except ... as e` clause has ended | any missing attribute on a class decorated with `generate_attribute(None)`: Python unbinds `e` when the clause ends, so the call raises NameError | raise the AttributeError, as generative/classes.py:60, 122 does | high, not executed | Decorators.MethodNotFoundWithoutModelAsWritten | Decorators.MethodNotFound |
| generative/functions.py:215 | a bare `raise` after the `except Exception:` block of `wrapper` has ended | the wrapped function raises ValueError and no model is given: the code falls out of the `except` block to `raise`, which, with no exception being handled, raises RuntimeError("No active exception to reraise") | raise the original exception again, as the comment at lines 213-214 says | high, not executed | Functions.CatchAsWrittenLosesFailure | Functions.CatchReraises |
| generative/decorators.py:167 | a bare `raise` after the `except Exception as e:` block of `wrapper` has ended | the wrapped function raises ValueError and no model is given: the bare `raise` raises RuntimeError("No active exception to reraise") | raise the original exception again, as the comment at line 166 says | high, not executed | Decorators.CatchAsWrittenLosesFailure | Decorators.CatchReraises |
