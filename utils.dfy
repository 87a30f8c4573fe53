/**
 * generative/utils.py: the string functions that clean an oracle's reply
 * into a single function definition and judge it. Each regular expression
 * of the source is an explicit scan: a predicate saying where the pattern
 * matches, and a search for its leftmost match.
 */
module Utils {
  import opened Python
  import opened Chars

  const EndMarker := "### END FUNCTION ###"

  // ---------------------------------------------------------------------
  // remove_prepended
  // ---------------------------------------------------------------------

  /** A function header at `k`: `def ` and then a character `.` matches (any but a newline). */
  predicate HeaderAt(s: string, k: int) {
    0 <= k && k + 5 <= |s| && s[k..k + 4] == "def " && s[k + 4] != '\n'
  }

  /** `k` is the first header of `s`. */
  predicate FirstHeader(s: string, k: int) {
    HeaderAt(s, k) && forall k' :: 0 <= k' < k ==> !HeaderAt(s, k')
  }

  /**
   * `\s*def .+` matches at `i`. The greedy `\s*` is the only choice that can
   * succeed: giving back a whitespace character would put it where `d` is needed.
   */
  predicate PrependedMatchAt(s: string, i: nat)
    requires i <= |s|
  {
    HeaderAt(s, SkipSpace(s, i))
  }

  /** `re.search(r"\s*def .+", s)` started at `i`: the leftmost match start. */
  function SearchPrepended(s: string, i: nat): (r: Option<nat>)
    requires i <= |s|
    ensures r.Some? ==> i <= r.value <= |s| && PrependedMatchAt(s, r.value)
    ensures r.Some? ==> forall k :: i <= k < r.value ==> !PrependedMatchAt(s, k)
    ensures r.None? ==> forall k :: i <= k <= |s| ==> !PrependedMatchAt(s, k)
    decreases |s| - i
  {
    if PrependedMatchAt(s, i) then Some(i)
    else if i == |s| then None
    else SearchPrepended(s, i + 1)
  }

  /** The first header at or after `i`. */
  function SearchHeader(s: string, i: nat): (r: Option<nat>)
    requires i <= |s|
    ensures r.Some? ==> i <= r.value && HeaderAt(s, r.value)
    ensures r.Some? ==> forall k :: i <= k < r.value ==> !HeaderAt(s, k)
    ensures r.None? ==> forall k :: i <= k ==> !HeaderAt(s, k)
    decreases |s| - i
  {
    if HeaderAt(s, i) then Some(i)
    else if i == |s| then None
    else SearchHeader(s, i + 1)
  }

  lemma {:induction false} SkipSpaceTo(s: string, i: nat, k: nat)
    requires i <= k < |s|
    requires forall m :: i <= m < k ==> IsSpace(s[m])
    requires !IsSpace(s[k])
    ensures SkipSpace(s, i) == k
    decreases k - i
  {
    if i < k {
      SkipSpaceTo(s, i + 1, k);
    }
  }

  /**
   * The leftmost match of `\s*def .+` starts where the whitespace run before
   * the first header starts, and there is no match without a header.
   */
  lemma LeftmostMatchIsHeaderRun(s: string)
    ensures SearchPrepended(s, 0) ==
      match SearchHeader(s, 0)
      case Some(k) => Some(SpaceRunStart(s, k))
      case None => None
  {
    match SearchHeader(s, 0)
    case None =>
      forall i | 0 <= i <= |s| ensures !PrependedMatchAt(s, i) {}
    case Some(k) =>
      var c := SpaceRunStart(s, k);
      HeaderRunMatches(s, k);
      NoMatchBeforeHeaderRun(s, k);
      var r := SearchPrepended(s, 0);
      assert r.Some? && r.value <= c;
  }

  /** The whitespace run before a header, with the header, is a match. */
  lemma HeaderRunMatches(s: string, k: nat)
    requires HeaderAt(s, k)
    ensures PrependedMatchAt(s, SpaceRunStart(s, k))
  {
    var c := SpaceRunStart(s, k);
    assert AllSpace(s[c..k]);
    forall m | c <= m < k ensures IsSpace(s[m]) {
      assert s[m] == s[c..k][m - c];
    }
    assert s[k] == s[k..k + 4][0] == 'd';
    SkipSpaceTo(s, c, k);
  }

  /** The whitespace scan from `i` stops at the first non-whitespace character. */
  lemma {:induction false} SkipSpaceStops(s: string, i: nat, m: nat)
    requires i <= m < |s|
    requires !IsSpace(s[m])
    ensures SkipSpace(s, i) <= m
    decreases m - i
  {
    if i < m && IsSpace(s[i]) {
      SkipSpaceStops(s, i + 1, m);
    }
  }

  /** No match starts before the whitespace run of the first header. */
  lemma NoMatchBeforeHeaderRun(s: string, k: nat)
    requires HeaderAt(s, k)
    requires forall k' :: 0 <= k' < k ==> !HeaderAt(s, k')
    ensures forall i :: 0 <= i < SpaceRunStart(s, k) ==> !PrependedMatchAt(s, i)
  {
    var c := SpaceRunStart(s, k);
    forall i | 0 <= i < c ensures !PrependedMatchAt(s, i) {
      SkipSpaceStops(s, i, c - 1);
      assert SkipSpace(s, i) < k;
    }
  }

  /**
   * `remove_prepended`: cut the text before the first function header, keeping
   * the whitespace run just before it, then cut everything after the first
   * end marker, keeping the marker.
   */
  function RemovePrepended(s: string, marker: string := EndMarker): string {
    var t := s[PrependedStart(s)..];
    var m := Find(t, marker);
    if m == -1 then t else t[..m + |marker|]
  }

  /** Where `remove_prepended` starts its result: the leftmost match, or the start. */
  function PrependedStart(s: string): (c: nat)
    ensures c <= |s|
  {
    match SearchPrepended(s, 0) case Some(p) => p case None => 0
  }

  /**
   * The result is a contiguous piece of the input, and when it contains the
   * marker, its only occurrence is the one it ends with.
   */
  lemma RemovePrependedSlice(s: string, marker: string)
    ensures var r := RemovePrepended(s, marker);
      exists i, j :: 0 <= i <= j <= |s| && r == s[i..j]
    ensures var r := RemovePrepended(s, marker);
      (exists k :: OccursAt(r, marker, k)) ==>
        OccursAt(r, marker, |r| - |marker|) &&
        forall k :: 0 <= k < |r| - |marker| ==> !OccursAt(r, marker, k)
  {
    var c := PrependedStart(s);
    var t := s[c..];
    var m := Find(t, marker);
    var r := RemovePrepended(s, marker);
    if m == -1 {
      assert r == t == s[c..|s|];
    } else {
      var n := m + |marker|;
      assert r == t[..n];
      MarkerEndsPrefix(t, marker, m, n);
      assert t[..n] == s[c..c + n];
    }
  }

  /** The prefix of `t` that ends with the first occurrence of `marker` has no other occurrence. */
  lemma MarkerEndsPrefix(t: string, marker: string, m: nat, n: nat)
    requires n == m + |marker| <= |t|
    requires OccursAt(t, marker, m)
    requires forall k :: 0 <= k < m ==> !OccursAt(t, marker, k)
    ensures OccursAt(t[..n], marker, m)
    ensures forall k :: 0 <= k < m ==> !OccursAt(t[..n], marker, k)
  {
    OccursInPrefix(t, n, marker, m);
    forall k | 0 <= k < m ensures !OccursAt(t[..n], marker, k) {
      OccursInPrefix(t, n, marker, k);
    }
  }

  /** Where `remove_prepended` cuts the front: the whitespace run before the first header, or nowhere. */
  function HeaderCut(s: string): (c: nat)
    ensures c <= |s|
  {
    match SearchHeader(s, 0)
    case Some(k) => SpaceRunStart(s, k)
    case None => 0
  }

  /**
   * With a header, the result is a prefix of the text from the whitespace run
   * before the first header; it is that whole text when the marker does not
   * occur in it. Without a header it is a prefix of the input, and the input
   * itself when the marker does not occur.
   */
  lemma RemovePrependedCut(s: string, marker: string)
    ensures RemovePrepended(s, marker) <= s[HeaderCut(s)..]
    ensures (forall m :: !OccursAt(s[HeaderCut(s)..], marker, m)) ==>
              RemovePrepended(s, marker) == s[HeaderCut(s)..]
    ensures (forall k :: !HeaderAt(s, k)) ==> HeaderCut(s) == 0
    ensures (forall k :: !HeaderAt(s, k)) && (forall m :: !OccursAt(s, marker, m)) ==>
              RemovePrepended(s, marker) == s
  {
    LeftmostMatchIsHeaderRun(s);
    if forall k :: !HeaderAt(s, k) {
      assert SearchHeader(s, 0).None?;
    }
  }

  /** A header is a header of every longer text with the same start. */
  lemma HeaderInPrefix(r: string, t: string, k: int)
    requires r <= t
    requires HeaderAt(r, k)
    ensures HeaderAt(t, k)
  {
    assert r[k..k + 4] == t[k..k + 4];
  }

  /** Texts whose leftmost match of `\s*def .+` is at their start, or nowhere. */
  predicate StartsAtMatch(s: string) {
    SearchPrepended(s, 0).None? || SearchPrepended(s, 0) == Some(0)
  }

  /** The text after the cut starts at its match. */
  lemma CutTextStartsAtMatch(s: string)
    ensures StartsAtMatch(s[HeaderCut(s)..])
  {
    match SearchHeader(s, 0)
    case None =>
      assert s[0..] == s;
    case Some(k0) =>
      HeaderRunStartsAtMatch(s, k0);
  }

  /** The text from the whitespace run before a header matches at its start. */
  lemma HeaderRunStartsAtMatch(s: string, k0: nat)
    requires HeaderAt(s, k0)
    ensures PrependedMatchAt(s[SpaceRunStart(s, k0)..], 0)
  {
    var c := SpaceRunStart(s, k0);
    var t := s[c..];
    var h := k0 - c;
    HeaderShift(s, c, k0);
    HeaderStartsWithD(t, h);
    forall m | 0 <= m < h ensures IsSpace(t[m]) {
      assert t[m] == s[c..k0][m];
    }
    SkipSpaceTo(t, 0, h);
  }

  /** A header stays a header when text before it is dropped. */
  lemma HeaderShift(s: string, c: nat, k: nat)
    requires c <= k && HeaderAt(s, k)
    ensures HeaderAt(s[c..], k - c)
  {
    assert s[c..][k - c..k - c + 4] == s[k..k + 4];
  }

  /** A header starts with a non-whitespace character. */
  lemma HeaderStartsWithD(s: string, k: nat)
    requires HeaderAt(s, k)
    ensures s[k] == 'd' && !IsSpace(s[k])
  {
    assert s[k] == s[k..k + 4][0];
  }

  /** Every prefix of a text that starts at its match starts at its own match. */
  lemma PrefixStartsAtMatch(t: string, r: string)
    requires r <= t
    requires StartsAtMatch(t)
    ensures StartsAtMatch(r)
  {
    match SearchPrepended(r, 0)
    case None =>
    case Some(q) =>
      var j := SkipSpace(r, q);
      PrefixMatchInText(t, r, q, j);
      var j0 := SkipSpace(t, 0);
      HeaderStartsWithD(t, j);
      SkipSpaceStops(t, 0, j);
      HeaderFromText(t, r, j0, j);
      assert PrependedMatchAt(r, 0);
  }

  /** A match of the prefix `r` at `q` is a match of `t` at `q`, so `t` matches at its start. */
  lemma PrefixMatchInText(t: string, r: string, q: nat, j: nat)
    requires r <= t && q <= |r|
    requires StartsAtMatch(t)
    requires j == SkipSpace(r, q) && HeaderAt(r, j)
    ensures HeaderAt(t, j) && SkipSpace(t, q) == j
    ensures PrependedMatchAt(t, 0)
  {
    HeaderInPrefix(r, t, j);
    HeaderStartsWithD(t, j);
    forall m | q <= m < j ensures IsSpace(t[m]) {
      assert r[q..j][m - q] == r[m];
    }
    SkipSpaceTo(t, q, j);
    assert PrependedMatchAt(t, q);
  }

  /**
   * A header of `t` at `j0`, before a header of its prefix `r` at `j`, is a
   * header of `r`; with only whitespace before it, `r` matches at its start.
   */
  lemma HeaderFromText(t: string, r: string, j0: nat, j: nat)
    requires r <= t && j0 <= j
    requires HeaderAt(t, j0) && HeaderAt(r, j)
    requires j0 == SkipSpace(t, 0)
    ensures HeaderAt(r, j0) && SkipSpace(r, 0) == j0
  {
    assert r[j0..j0 + 4] == t[j0..j0 + 4];
    HeaderStartsWithD(r, j0);
    forall m | 0 <= m < j0 ensures IsSpace(r[m]) {
      assert t[0..j0][m] == t[m];
    }
    SkipSpaceTo(r, 0, j0);
  }

  /** The text `remove_prepended` returns has nothing left to cut at its front. */
  lemma ResultStartsAtMatch(s: string, marker: string)
    ensures StartsAtMatch(RemovePrepended(s, marker))
  {
    RemovePrependedCut(s, marker);
    CutTextStartsAtMatch(s);
    PrefixStartsAtMatch(s[HeaderCut(s)..], RemovePrepended(s, marker));
  }

  /** Cleaning a second time changes nothing. */
  lemma RemovePrependedIdempotent(s: string, marker: string)
    ensures RemovePrepended(RemovePrepended(s, marker), marker) == RemovePrepended(s, marker)
  {
    var r := RemovePrepended(s, marker);
    ResultStartsAtMatch(s, marker);
    RemovePrependedSlice(s, marker);
    assert r[0..] == r;
    if exists k :: OccursAt(r, marker, k) {
      assert Find(r, marker) == |r| - |marker|;
    } else {
      assert Find(r, marker) == -1;
    }
  }

  // ---------------------------------------------------------------------
  // remove_self_param
  // ---------------------------------------------------------------------

  /**
   * Where `(?<=\()\s*self\b,?\s*` ends when it matches at `i`: right after a
   * `(`, optional whitespace, the whole word `self`, an optional comma and
   * optional whitespace. The greedy choices are the ones that succeed.
   */
  function SelfParamEnd(s: string, i: nat): (e: Option<nat>)
    requires i <= |s|
    ensures e.Some? ==> i + 4 <= e.value <= |s|
  {
    if 0 < i && s[i - 1] == '(' then SelfParamAfterParen(s, i) else None
  }

  /** The part of `SelfParamEnd` after the look-behind has seen a `(` at `i - 1`. */
  function SelfParamAfterParen(s: string, i: nat): (e: Option<nat>)
    requires 0 < i <= |s|
    ensures e.Some? ==> i + 4 <= e.value <= |s|
  {
    var j := SkipSpace(s, i);
    if j + 4 <= |s| && s[j..j + 4] == "self" && Boundary(s, j + 4) then
      var k := if j + 4 < |s| && s[j + 4] == ',' then j + 5 else j + 4;
      Some(SkipSpace(s, k))
    else None
  }

  /** `"".join(re.split(pattern, s[i:]))` with the look-behind reading the whole of `s`. */
  function RemoveSelfFrom(s: string, i: nat): (r: string)
    requires i <= |s|
    ensures |r| <= |s| - i
    decreases |s| - i
  {
    if i == |s| then []
    else if 0 < i && s[i - 1] == '(' then
      match SelfParamAfterParen(s, i)
      case Some(e) => RemoveSelfFrom(s, e)
      case None => [s[i]] + RemoveSelfFrom(s, i + 1)
    else [s[i]] + RemoveSelfFrom(s, i + 1)
  }

  /** Where no match starts, the character is copied. */
  lemma RemoveSelfFromCopies(s: string, i: nat)
    requires i < |s| && SelfParamEnd(s, i).None?
    ensures RemoveSelfFrom(s, i) == [s[i]] + RemoveSelfFrom(s, i + 1)
  {
  }

  /** Where a match starts, the text jumps to its end. */
  lemma RemoveSelfFromJumps(s: string, i: nat, e: nat)
    requires i < |s| && SelfParamEnd(s, i) == Some(e)
    ensures RemoveSelfFrom(s, i) == RemoveSelfFrom(s, e) && |RemoveSelfFrom(s, i)| < |s| - i
  {
  }

  lemma SuffixCons(s: string, i: nat)
    requires i < |s|
    ensures s[i..] == [s[i]] + s[i + 1..]
  {
  }

  lemma SuffixSplit(s: string, i: nat, e: nat)
    requires i <= e <= |s|
    ensures s[i..] == s[i..e] + s[e..]
  {
  }

  /** Putting the same character in front keeps two texts equal or different. */
  lemma ConsCancel(c: char, a: string, b: string)
    ensures [c] + a == [c] + b <==> a == b
  {
    if [c] + a == [c] + b {
      assert a == ([c] + a)[1..] == ([c] + b)[1..] == b;
    }
  }

  /** The split-and-join keeps the text exactly when the pattern matches nowhere; otherwise it shrinks. */
  lemma {:induction false} RemoveSelfFromUnchanged(s: string, i: nat)
    requires i <= |s|
    ensures RemoveSelfFrom(s, i) == s[i..] <==> forall k :: i <= k <= |s| ==> SelfParamEnd(s, k).None?
    ensures |RemoveSelfFrom(s, i)| == |s| - i ==> RemoveSelfFrom(s, i) == s[i..]
    decreases |s| - i
  {
    if i == |s| {
      assert SelfParamEnd(s, i).None?;
    } else if SelfParamEnd(s, i).Some? {
      RemoveSelfFromJumps(s, i, SelfParamEnd(s, i).value);
    } else {
      RemoveSelfFromUnchanged(s, i + 1);
      RemoveSelfFromUnchangedStep(s, i);
    }
  }

  /** The inductive step of `RemoveSelfFromUnchanged` where no match starts at `i`. */
  lemma RemoveSelfFromUnchangedStep(s: string, i: nat)
    requires i < |s| && SelfParamEnd(s, i).None?
    requires RemoveSelfFrom(s, i + 1) == s[i + 1..] <==> forall k :: i + 1 <= k <= |s| ==> SelfParamEnd(s, k).None?
    requires |RemoveSelfFrom(s, i + 1)| == |s| - (i + 1) ==> RemoveSelfFrom(s, i + 1) == s[i + 1..]
    ensures RemoveSelfFrom(s, i) == s[i..] <==> forall k :: i <= k <= |s| ==> SelfParamEnd(s, k).None?
    ensures |RemoveSelfFrom(s, i)| == |s| - i ==> RemoveSelfFrom(s, i) == s[i..]
  {
    RemoveSelfFromCopies(s, i);
    SuffixCons(s, i);
    ConsCancel(s[i], RemoveSelfFrom(s, i + 1), s[i + 1..]);
  }

  /**
   * `remove_self_param`: delete every `self` parameter written right after an
   * opening parenthesis, with the whitespace around it and one comma. The
   * result never grows, and it is the input exactly when no such parameter occurs.
   */
  function RemoveSelfParam(s: string): (r: string)
    ensures |r| <= |s|
    ensures r == s <==> forall k :: 0 <= k <= |s| ==> SelfParamEnd(s, k).None?
  {
    RemoveSelfFromUnchanged(s, 0);
    assert s[0..] == s;
    RemoveSelfFrom(s, 0)
  }

  // ---------------------------------------------------------------------
  // clean_function
  // ---------------------------------------------------------------------

  /**
   * `clean_function`: drop `self` parameters, cut to the function between its
   * header and the end marker, and dedent.
   */
  function CleanFunction(lib: Library, code: string): string {
    lib.dedent(RemovePrepended(RemoveSelfParam(code)))
  }

  /** What reaches `dedent` is a contiguous piece of the text without `self` parameters. */
  lemma CleanFunctionDedentsSlice(lib: Library, code: string)
    ensures exists i, j :: 0 <= i <= j <= |RemoveSelfParam(code)| &&
              CleanFunction(lib, code) == lib.dedent(RemoveSelfParam(code)[i..j])
  {
    RemovePrependedSlice(RemoveSelfParam(code), EndMarker);
  }

  // ---------------------------------------------------------------------
  // extract_func_name
  // ---------------------------------------------------------------------

  /**
   * `def\s+(\w+)` matching at `i`: `def`, at least one whitespace character,
   * then the maximal word run, which is the captured group.
   */
  function DefNameAt(s: string, i: nat): (r: Option<string>)
    requires i <= |s|
  {
    if i + 3 <= |s| && s[i..i + 3] == "def" then
      var j := SkipSpace(s, i + 3);
      if i + 3 < j < |s| && IsWordChar(s[j]) then Some(s[j..WordEnd(s, j)]) else None
    else None
  }

  /** `re.search(r"def\s+(\w+)", s)` started at `i`: the group of the leftmost match. */
  function SearchDefName(s: string, i: nat): (r: Option<string>)
    requires i <= |s|
    ensures r.Some? ==> |r.value| > 0
    decreases |s| - i
  {
    if DefNameAt(s, i).Some? then DefNameAt(s, i)
    else if i == |s| then None
    else SearchDefName(s, i + 1)
  }

  /** The search reports no match exactly when there is none. */
  lemma {:induction false} SearchDefNameNone(s: string, i: nat)
    requires i <= |s|
    ensures SearchDefName(s, i).None? <==> forall k :: i <= k <= |s| ==> DefNameAt(s, k).None?
    decreases |s| - i
  {
    if DefNameAt(s, i).None? && i < |s| {
      SearchDefNameNone(s, i + 1);
    }
  }

  /** A reported match is the group at the leftmost position where the pattern matches. */
  lemma {:induction false} SearchDefNameLeftmost(s: string, i: nat) returns (k: nat)
    requires i <= |s| && SearchDefName(s, i).Some?
    ensures i <= k <= |s| && DefNameAt(s, k) == SearchDefName(s, i)
    ensures forall k' :: i <= k' < k ==> DefNameAt(s, k').None?
    decreases |s| - i
  {
    if DefNameAt(s, i).Some? {
      k := i;
    } else {
      k := SearchDefNameLeftmost(s, i + 1);
    }
  }

  /**
   * `extract_func_name`: the name after the first `def` that is followed by
   * whitespace and a word character; a ValueError when there is none.
   */
  function ExtractFuncName(code: string): (r: Result<string>)
    ensures r.Err? ==> r.error == ValueError(NoFunctionDefinition)
    ensures r.Ok? ==> |r.value| > 0
  {
    match SearchDefName(code, 0)
    case Some(name) => Ok(name)
    case None => Err(ValueError(NoFunctionDefinition))
  }

  /**
   * `extract_func_name` fails exactly when `def\s+\w` occurs nowhere, and
   * otherwise returns the leftmost match's group: a non-empty run of word
   * characters not followed by another.
   */
  lemma ExtractFuncNameLeftmost(code: string)
    ensures ExtractFuncName(code).Err? <==> forall k :: 0 <= k <= |code| ==> DefNameAt(code, k).None?
    ensures ExtractFuncName(code).Ok? ==>
              exists k :: 0 <= k <= |code| && DefNameAt(code, k) == Some(ExtractFuncName(code).value) &&
                          forall k' :: 0 <= k' < k ==> DefNameAt(code, k').None?
    ensures ExtractFuncName(code).Ok? ==> forall c :: c in ExtractFuncName(code).value ==> IsWordChar(c)
  {
    SearchDefNameNone(code, 0);
    if ExtractFuncName(code).Ok? {
      var k := SearchDefNameLeftmost(code, 0);
      DefNameIsWord(code, k);
    }
  }

  /** A captured group is a run of word characters. */
  lemma DefNameIsWord(s: string, i: nat)
    requires i <= |s| && DefNameAt(s, i).Some?
    ensures forall c :: c in DefNameAt(s, i).value ==> IsWordChar(c)
  {
    var j := SkipSpace(s, i + 3);
    var name := DefNameAt(s, i).value;
    assert name == s[j..WordEnd(s, j)];
    forall c | c in name ensures IsWordChar(c) {
      var m :| 0 <= m < |name| && name[m] == c;
      assert name[m] == s[j + m];
    }
  }

  // ---------------------------------------------------------------------
  // to_func_name
  // ---------------------------------------------------------------------

  predicate IsAlnum(c: char) {
    IsWordChar(c) && c != '_'
  }

  /** The characters a snake_case name is made of. */
  predicate IsSnakeChar(c: char) {
    'a' <= c <= 'z' || '0' <= c <= '9' || c == '_'
  }

  predicate IsUpper(c: char) {
    'A' <= c <= 'Z'
  }

  lemma KeepCons(c: char, s: string, p: char -> bool)
    ensures Keep([c] + s, p) == (if p(c) then [c] else []) + Keep(s, p)
  {
    KeepAppend([c], s, p);
    KeepSingle(c, p);
  }

  /** `re.sub(r"\W+", " ", s[i:])`: each maximal run of non-word characters becomes one space. */
  function SubNonWord(s: string, i: nat): (r: string)
    requires i <= |s|
    ensures forall k :: 0 <= k < |r| ==> r[k] == ' ' || IsWordChar(r[k])
    decreases |s| - i
  {
    if i == |s| then []
    else if IsWordChar(s[i]) then [s[i]] + SubNonWord(s, i + 1)
    else [' '] + SubNonWord(s, NonWordEnd(s, i))
  }

  /** The substitution keeps every word character, in order. */
  lemma {:induction false} SubNonWordKeeps(s: string, i: nat, p: char -> bool)
    requires i <= |s|
    requires forall c :: p(c) ==> IsWordChar(c)
    ensures Keep(SubNonWord(s, i), p) == Keep(s[i..], p)
    decreases |s| - i
  {
    if i < |s| {
      if IsWordChar(s[i]) {
        SubNonWordKeeps(s, i + 1, p);
        SubNonWordKeepsWord(s, i, p);
      } else {
        SubNonWordKeeps(s, NonWordEnd(s, i), p);
        SubNonWordKeepsGap(s, i, p);
      }
    }
  }

  /** The step of `SubNonWordKeeps` over a word character, which is copied. */
  lemma SubNonWordKeepsWord(s: string, i: nat, p: char -> bool)
    requires i < |s| && IsWordChar(s[i])
    requires Keep(SubNonWord(s, i + 1), p) == Keep(s[i + 1..], p)
    ensures Keep(SubNonWord(s, i), p) == Keep(s[i..], p)
  {
    SuffixCons(s, i);
    KeepCons(s[i], SubNonWord(s, i + 1), p);
    KeepCons(s[i], s[i + 1..], p);
  }

  /** The step of `SubNonWordKeeps` over a run of non-word characters, which becomes one space. */
  lemma SubNonWordKeepsGap(s: string, i: nat, p: char -> bool)
    requires i < |s| && !IsWordChar(s[i])
    requires forall c :: p(c) ==> IsWordChar(c)
    requires Keep(SubNonWord(s, NonWordEnd(s, i)), p) == Keep(s[NonWordEnd(s, i)..], p)
    ensures Keep(SubNonWord(s, i), p) == Keep(s[i..], p)
  {
    var e := NonWordEnd(s, i);
    var gap := s[i..e];
    forall k | 0 <= k < |gap| ensures !p(gap[k]) {
      assert gap[k] == s[i + k];
    }
    KeepNone(gap, p);
    SuffixSplit(s, i, e);
    KeepAppend(gap, s[e..], p);
    KeepCons(' ', SubNonWord(s, e), p);
  }

  /** The substitution introduces no upper-case letter. */
  lemma {:induction false} SubNonWordNoUpper(s: string, i: nat)
    requires i <= |s|
    requires forall k :: i <= k < |s| ==> !IsUpper(s[k])
    ensures forall k :: 0 <= k < |SubNonWord(s, i)| ==> !IsUpper(SubNonWord(s, i)[k])
    decreases |s| - i
  {
    if i < |s| {
      if IsWordChar(s[i]) {
        SubNonWordNoUpper(s, i + 1);
      } else {
        SubNonWordNoUpper(s, NonWordEnd(s, i));
      }
    }
  }

  /**
   * `s.replace(" ", "_")`: no space is left, every other character stays
   * where it was, and the underscores are exactly the old spaces and
   * underscores.
   */
  function SpacesToUnderscores(s: string): (r: string)
    ensures |r| == |s|
    ensures forall k :: 0 <= k < |r| ==> r[k] != ' '
    ensures forall k :: 0 <= k < |s| && s[k] != ' ' ==> r[k] == s[k]
    ensures forall k :: 0 <= k < |s| ==> (r[k] == '_' <==> s[k] == ' ' || s[k] == '_')
  {
    seq(|s|, k requires 0 <= k < |s| => if s[k] == ' ' then '_' else s[k])
  }

  /** The name `to_func_name` builds before the digit check. */
  function SnakeText(text: string): string {
    SpacesToUnderscores(Strip(SubNonWord(Lower(Strip(text)), 0)))
  }

  lemma SpaceIsNot(c: char, p: char -> bool)
    requires forall c :: IsSpace(c) ==> !p(c)
    requires IsSpace(c)
    ensures !p(c)
  {
  }

  /** Stripping whitespace keeps every character `p` keeps. */
  lemma StripKeeps(s: string, p: char -> bool)
    requires forall c :: IsSpace(c) ==> !p(c)
    ensures Keep(Strip(s), p) == Keep(s, p)
  {
    StripTrims(s);
    var i, j :| 0 <= i <= j <= |s| && Strip(s) == s[i..j] && AllSpace(s[..i]) && AllSpace(s[j..]);
    assert AllSpace(s[..i]) && AllSpace(s[j..]);
    assert forall k :: 0 <= k < i ==> IsSpace(s[..i][k]);
    assert forall k :: 0 <= k < |s| - j ==> IsSpace(s[j..][k]);
    forall k | 0 <= k < i ensures !p(s[k]) {
      assert s[..i][k] == s[k];
      SpaceIsNot(s[k], p);
    }
    forall k | j <= k < |s| ensures !p(s[k]) {
      assert s[j..][k - j] == s[k];
      SpaceIsNot(s[k], p);
    }
    KeepSlice(s, i, j, p);
  }

  /** Lower-casing then keeping what `p` keeps is keeping then lower-casing, for `p` blind to case. */
  lemma {:induction false} KeepLower(s: string, p: char -> bool)
    requires forall c :: p(LowerChar(c)) == p(c)
    ensures Keep(Lower(s), p) == Lower(Keep(s, p))
    decreases |s|
  {
    if s != [] {
      var s' := s[..|s| - 1];
      var c := s[|s| - 1];
      KeepLower(s', p);
      LowerInit(s);
      LowerAppend(Keep(s', p), if p(c) then [c] else []);
    }
  }

  lemma LowerInit(s: string)
    requires s != []
    ensures Lower(s)[..|s| - 1] == Lower(s[..|s| - 1])
  {
  }

  lemma LowerAppend(a: string, b: string)
    ensures Lower(a + b) == Lower(a) + Lower(b)
  {
  }

  /** Turning spaces into underscores keeps the letters and digits. */
  lemma {:induction false} KeepAlnumUnderscores(s: string)
    ensures Keep(SpacesToUnderscores(s), IsAlnum) == Keep(s, IsAlnum)
    decreases |s|
  {
    if s != [] {
      var s' := s[..|s| - 1];
      KeepAlnumUnderscores(s');
      assert SpacesToUnderscores(s)[..|s| - 1] == SpacesToUnderscores(s');
    }
  }

  /** The substituted name is made of lower-case letters, digits and underscores. */
  lemma SnakeTextChars(text: string)
    ensures forall k :: 0 <= k < |SnakeText(text)| ==> IsSnakeChar(SnakeText(text)[k])
  {
    var c := SubNonWord(Lower(Strip(text)), 0);
    SubNonWordNoUpper(Lower(Strip(text)), 0);
    StripSnake(c);
  }

  /** Stripping a text of spaces and non-upper-case word characters leaves one that becomes snake_case. */
  lemma StripSnake(c: string)
    requires forall k :: 0 <= k < |c| ==> c[k] == ' ' || IsWordChar(c[k])
    requires forall k :: 0 <= k < |c| ==> !IsUpper(c[k])
    ensures forall k :: 0 <= k < |Strip(c)| ==> IsSnakeChar(SpacesToUnderscores(Strip(c))[k])
  {
    var d := Strip(c);
    StripTrims(c);
    var i, j :| 0 <= i <= j <= |c| && d == c[i..j] && AllSpace(c[..i]) && AllSpace(c[j..]);
    forall k | 0 <= k < |d| ensures IsSnakeChar(SpacesToUnderscores(d)[k]) {
      assert d[k] == c[i + k];
    }
  }

  /** A text of spaces and word characters strips to nothing exactly when it has no word character. */
  lemma StripWordsEmpty(c: string)
    requires forall k :: 0 <= k < |c| ==> c[k] == ' ' || IsWordChar(c[k])
    ensures |Strip(c)| == 0 <==> Keep(c, IsWordChar) == []
  {
    StripKeeps(c, IsWordChar);
    var d := Strip(c);
    KeepEmpty(d, IsWordChar);
    if |d| > 0 {
      StripTrims(c);
      var i, j :| 0 <= i <= j <= |c| && d == c[i..j] && AllSpace(c[..i]) && AllSpace(c[j..]);
      assert d[0] == c[i];
    }
  }

  /** The substituted name is empty exactly when the text has no word character. */
  lemma SnakeTextEmpty(text: string)
    ensures |SnakeText(text)| == 0 <==> forall k :: 0 <= k < |text| ==> !IsWordChar(text[k])
  {
    var a := Strip(text);
    var b := Lower(a);
    var c := SubNonWord(b, 0);
    assert b[0..] == b;
    StripKeeps(text, IsWordChar);
    KeepLower(a, IsWordChar);
    SubNonWordKeeps(b, 0, IsWordChar);
    StripWordsEmpty(c);
    KeepEmpty(text, IsWordChar);
    assert |Lower(Keep(a, IsWordChar))| == |Keep(a, IsWordChar)|;
  }

  /** The substituted name holds the letters and digits of the text, lower-cased, in order. */
  lemma SnakeTextAlnum(text: string)
    ensures Keep(SnakeText(text), IsAlnum) == Lower(Keep(text, IsAlnum))
  {
    var a := Strip(text);
    var b := Lower(a);
    var c := SubNonWord(b, 0);
    var d := Strip(c);
    assert b[0..] == b;
    StripKeeps(text, IsAlnum);
    KeepLower(a, IsAlnum);
    SubNonWordKeeps(b, 0, IsAlnum);
    StripKeeps(c, IsAlnum);
    KeepAlnumUnderscores(d);
  }

  /**
   * `to_func_name`: a snake_case name made of the word runs of the lower-cased
   * text joined by underscores, with an underscore in front when it would start
   * with a digit. `text[0]` raises IndexError when the name would be empty.
   */
  function ToFuncName(text: string): (r: Result<string>)
    ensures r.Err? ==> r.error == IndexError
    ensures r.Ok? ==> |r.value| > 0 && !IsDigit(r.value[0])
  {
    var t := SnakeText(text);
    if |t| == 0 then Err(IndexError)
    else if IsDigit(t[0]) then Ok("_" + t)
    else Ok(t)
  }

  /** `to_func_name` succeeds exactly when the text has a word character. */
  lemma ToFuncNameSucceeds(text: string)
    ensures ToFuncName(text).Ok? <==> exists k :: 0 <= k < |text| && IsWordChar(text[k])
  {
    SnakeTextEmpty(text);
  }

  /** A name `to_func_name` returns is snake_case: lower-case letters, digits and underscores. */
  lemma ToFuncNameSnakeCase(text: string, name: string)
    requires ToFuncName(text) == Ok(name)
    ensures forall k :: 0 <= k < |name| ==> IsSnakeChar(name[k])
  {
    var t := SnakeText(text);
    SnakeTextChars(text);
    UnderscoreSnake(t);
  }

  lemma UnderscoreSnake(t: string)
    requires forall k :: 0 <= k < |t| ==> IsSnakeChar(t[k])
    ensures forall k :: 0 <= k < |"_" + t| ==> IsSnakeChar(("_" + t)[k])
  {
  }

  /** A name `to_func_name` returns holds the letters and digits of the text, lower-cased, in order. */
  lemma ToFuncNameKeepsAlnum(text: string, name: string)
    requires ToFuncName(text) == Ok(name)
    ensures Keep(name, IsAlnum) == Lower(Keep(text, IsAlnum))
  {
    var t := SnakeText(text);
    SnakeTextAlnum(text);
    KeepUnderscore(t, name);
  }

  /** An underscore in front adds no letter or digit. */
  lemma KeepUnderscore(t: string, name: string)
    requires name == t || name == "_" + t
    ensures Keep(name, IsAlnum) == Keep(t, IsAlnum)
  {
    KeepCons('_', t, IsAlnum);
    assert "_" + t == ['_'] + t;
  }

  /** A text with no whitespace at either end strips to itself. */
  lemma StripUnpadded(s: string)
    requires s == [] || (!IsSpace(s[0]) && !IsSpace(s[|s| - 1]))
    ensures Strip(s) == s
  {
    if s != [] {
      assert SkipSpace(s, 0) == 0;
      assert SpaceRunStart(s, |s|) == |s|;
      assert s[0..|s|] == s;
    }
  }

  /** The substitution leaves a run of word characters as it is. */
  lemma {:induction false} SubNonWordWords(s: string, i: nat)
    requires i <= |s|
    requires forall k :: i <= k < |s| ==> IsWordChar(s[k])
    ensures SubNonWord(s, i) == s[i..]
    decreases |s| - i
  {
    if i < |s| {
      SubNonWordWords(s, i + 1);
      assert s[i..] == [s[i]] + s[i + 1..];
    }
  }

  /** `to_func_name` is idempotent: a name it returns is its own name. */
  lemma ToFuncNameIdempotent(text: string, name: string)
    requires ToFuncName(text) == Ok(name)
    ensures ToFuncName(name) == Ok(name)
  {
    ToFuncNameSnakeCase(text, name);
    SnakeTextFixes(name);
  }

  /** A snake_case text is its own substituted name. */
  lemma SnakeTextFixes(n: string)
    requires forall k :: 0 <= k < |n| ==> IsSnakeChar(n[k])
    ensures SnakeText(n) == n
  {
    StripUnpadded(n);
    LowerSnake(n);
    SubNonWordWords(n, 0);
    assert n[0..] == n;
    UnderscoresSnake(n);
  }

  lemma LowerSnake(n: string)
    requires forall k :: 0 <= k < |n| ==> IsSnakeChar(n[k])
    ensures Lower(n) == n
  {
  }

  lemma UnderscoresSnake(n: string)
    requires forall k :: 0 <= k < |n| ==> IsSnakeChar(n[k])
    ensures SpacesToUnderscores(n) == n
  {
  }

  /** Stripping a stripped text changes nothing. */
  lemma StripStable(s: string)
    ensures Strip(Strip(s)) == Strip(s)
  {
    StripTrims(s);
    StripUnpadded(Strip(s));
  }

  /** `to_func_name` strips the text first, so whitespace around it does not matter. */
  lemma ToFuncNameStrips(text: string)
    ensures ToFuncName(Strip(text)) == ToFuncName(text)
  {
    StripStable(text);
  }

  /** A text made only of word characters gives its lower-cased self. */
  lemma SnakeTextWord(text: string)
    requires forall k :: 0 <= k < |text| ==> IsWordChar(text[k])
    ensures SnakeText(text) == Lower(text)
  {
    StripUnpadded(text);
    var u := Lower(text);
    SubNonWordWords(u, 0);
    assert u[0..] == u;
    StripUnpadded(u);
    assert SpacesToUnderscores(u) == u;
  }

  /** The substitution brings in no character but the space. */
  lemma {:induction false} SubNonWordAvoids(s: string, i: nat, c: char)
    requires i <= |s| && c != ' '
    requires forall k :: i <= k < |s| ==> s[k] != c
    ensures forall k :: 0 <= k < |SubNonWord(s, i)| ==> SubNonWord(s, i)[k] != c
    decreases |s| - i
  {
    if i < |s| {
      if IsWordChar(s[i]) {
        SubNonWordAvoids(s, i + 1, c);
      } else {
        SubNonWordAvoids(s, NonWordEnd(s, i), c);
      }
    }
  }

  /** No two spaces stand side by side. */
  predicate SingleSpaces(s: string) {
    forall k :: 0 <= k < |s| - 1 && s[k] == ' ' ==> s[k + 1] != ' '
  }

  /** Each run of non-word characters becomes one space, and a word character follows it. */
  lemma {:induction false} SubNonWordSingleSpaces(s: string, i: nat)
    requires i <= |s|
    ensures SingleSpaces(SubNonWord(s, i))
    decreases |s| - i
  {
    if i < |s| {
      if IsWordChar(s[i]) {
        SubNonWordSingleSpaces(s, i + 1);
      } else {
        var e := NonWordEnd(s, i);
        SubNonWordSingleSpaces(s, e);
        assert e < |s| ==> SubNonWord(s, e)[0] == s[e];
      }
    }
  }

  /** What `strip` keeps of a text is a slice of it, so it has no character the text lacks. */
  lemma StripAvoids(s: string, c: char)
    requires forall k :: 0 <= k < |s| ==> s[k] != c
    ensures forall k :: 0 <= k < |Strip(s)| ==> Strip(s)[k] != c
  {
    StripTrims(s);
  }

  /** A slice of a text whose spaces stand alone has its spaces standing alone. */
  lemma StripSingleSpaces(s: string)
    requires SingleSpaces(s)
    ensures SingleSpaces(Strip(s))
  {
    StripTrims(s);
    var i, j :| 0 <= i <= j <= |s| && Strip(s) == s[i..j];
    assert forall k :: 0 <= k < j - i ==> Strip(s)[k] == s[i + k];
  }

  /**
   * A text with no underscore gives a name whose underscores each stand for
   * one run of non-word characters between two words: none at either end
   * and no two side by side.
   */
  lemma SnakeTextUnderscores(text: string)
    requires forall k :: 0 <= k < |text| ==> text[k] != '_'
    ensures var t := SnakeText(text);
      (t == [] || (t[0] != '_' && t[|t| - 1] != '_')) &&
      forall k :: 0 <= k < |t| - 1 && t[k] == '_' ==> t[k + 1] != '_'
  {
    StripAvoids(text, '_');
    var u := Lower(Strip(text));
    var w := SubNonWord(u, 0);
    SubNonWordAvoids(u, 0, '_');
    SubNonWordSingleSpaces(u, 0);
    var v := Strip(w);
    StripAvoids(w, '_');
    StripSingleSpaces(w);
    StripTrims(w);
    var t := SpacesToUnderscores(v);
    assert forall k :: 0 <= k < |t| ==> (t[k] == '_' <==> v[k] == ' ');
  }

  /**
   * A text with no underscore gives a name with no underscore at its end
   * and no two side by side; one in front only marks a leading digit.
   */
  lemma ToFuncNameUnderscores(text: string)
    requires forall k :: 0 <= k < |text| ==> text[k] != '_'
    ensures ToFuncName(text).Ok? ==>
      var n := ToFuncName(text).value;
      n[|n| - 1] != '_' &&
      (n[0] == '_' ==> |n| > 1 && IsDigit(n[1])) &&
      forall k :: 0 <= k < |n| - 1 && n[k] == '_' ==> n[k + 1] != '_'
  {
    SnakeTextUnderscores(text);
    var t := SnakeText(text);
    if |t| > 0 && IsDigit(t[0]) {
      var n := "_" + t;
      assert forall k :: 0 < k < |n| ==> n[k] == t[k - 1];
    }
  }

  // ---------------------------------------------------------------------
  // is_incomplete_code
  // ---------------------------------------------------------------------

  /** `pat` occurs at `i` when compared case-insensitively; `pat` is lower case. */
  predicate OccursAtIgnoringCase(s: string, pat: string, i: int) {
    0 <= i && i + |pat| <= |s| && forall k :: 0 <= k < |pat| ==> LowerChar(s[i + k]) == pat[k]
  }

  /** `\bpass\b` with `re.IGNORECASE` matches at `i`. */
  predicate PassAt(s: string, i: int) {
    OccursAtIgnoringCase(s, "pass", i) && Boundary(s, i) && Boundary(s, i + 4)
  }

  function SearchPass(s: string, i: nat): bool
    requires i <= |s|
    decreases |s| - i
  {
    if PassAt(s, i) then true
    else if i == |s| then false
    else SearchPass(s, i + 1)
  }

  /** The search from `i` succeeds exactly when the word occurs at or after `i`. */
  lemma {:induction false} SearchPassFinds(s: string, i: nat)
    requires i <= |s|
    ensures SearchPass(s, i) <==> exists k :: i <= k <= |s| && PassAt(s, k)
    decreases |s| - i
  {
    if !PassAt(s, i) && i < |s| {
      SearchPassFinds(s, i + 1);
      if SearchPass(s, i) {
        var k :| i + 1 <= k <= |s| && PassAt(s, k);
        assert i <= k;
      }
    }
  }

  /**
   * `is_incomplete_code`: whether the text holds the whole word "pass" in
   * any letter case (the match object's truth value).
   */
  function IsIncompleteCode(s: string): bool {
    SearchPass(s, 0)
  }

  /** The code is incomplete exactly when `\bpass\b` matches somewhere, ignoring case. */
  lemma IsIncompleteCodeFinds(s: string)
    ensures IsIncompleteCode(s) <==> exists k :: PassAt(s, k)
  {
    SearchPassFinds(s, 0);
    if exists k :: PassAt(s, k) {
      var k :| PassAt(s, k);
      assert 0 <= k <= |s|;
    }
  }

  /** Lower-casing the text does not change where the word matches. */
  lemma PassAtLower(s: string, k: int)
    ensures PassAt(Lower(s), k) <==> PassAt(s, k)
  {
    if 0 <= k && k + 4 <= |s| {
      forall j | k <= j < k + 4 ensures LowerChar(Lower(s)[j]) == LowerChar(s[j]) {
        assert Lower(s)[j] == LowerChar(s[j]);
      }
    }
  }

  /** `re.IGNORECASE` makes the search blind to the letter case of the text. */
  lemma IsIncompleteCodeIgnoresCase(s: string)
    ensures IsIncompleteCode(Lower(s)) == IsIncompleteCode(s)
  {
    IsIncompleteCodeFinds(s);
    IsIncompleteCodeFinds(Lower(s));
    forall k ensures PassAt(Lower(s), k) <==> PassAt(s, k) {
      PassAtLower(s, k);
    }
  }

  // ---------------------------------------------------------------------
  // format_binary_output
  // ---------------------------------------------------------------------

  predicate IsWordOrSpace(c: char) {
    IsWordChar(c) || IsSpace(c)
  }

  /** `re.sub(r"[^\w\s]", "", s[i:])`: delete every character that is neither a word character nor whitespace. */
  function DropPunctuation(s: string, i: nat := 0): (r: string)
    requires i <= |s|
    ensures r == Keep(s[i..], IsWordOrSpace)
    decreases |s| - i
  {
    if i == |s| then []
    else
      var rest := DropPunctuation(s, i + 1);
      assert s[i..] == [s[i]] + s[i + 1..];
      KeepCons(s[i], s[i + 1..], IsWordOrSpace);
      (if IsWordOrSpace(s[i]) then [s[i]] else []) + rest
  }

  /** `\b(true|false)\b` matches at `i`, the first alternative tried first. */
  predicate BoolWordAt(t: string, i: int) {
    0 <= i <= |t| && Boundary(t, i) &&
    ((OccursAt(t, "true", i) && Boundary(t, i + 4)) || (OccursAt(t, "false", i) && Boundary(t, i + 5)))
  }

  function SearchBoolWord(t: string, i: nat): (r: Option<nat>)
    requires i <= |t|
    ensures r.Some? ==> i <= r.value <= |t|
    decreases |t| - i
  {
    if BoolWordAt(t, i) then Some(i)
    else if i == |t| then None
    else SearchBoolWord(t, i + 1)
  }

  /** The search reports the leftmost match from `i`, or that there is none. */
  lemma {:induction false} SearchBoolWordLeftmost(t: string, i: nat)
    requires i <= |t|
    ensures SearchBoolWord(t, i).None? ==> forall k :: i <= k ==> !BoolWordAt(t, k)
    ensures SearchBoolWord(t, i).Some? ==>
              BoolWordAt(t, SearchBoolWord(t, i).value) &&
              forall k :: i <= k < SearchBoolWord(t, i).value ==> !BoolWordAt(t, k)
    decreases |t| - i
  {
    if !BoolWordAt(t, i) && i < |t| {
      SearchBoolWordLeftmost(t, i + 1);
    }
  }

  /** The text the critic's answer is searched in: punctuation dropped, lower-cased. */
  function CriticText(s: string): string {
    Lower(DropPunctuation(s))
  }

  /**
   * `format_binary_output`: the critic's verdict is the first whole word "true"
   * or "false", in any letter case, once punctuation is dropped; an answer
   * with neither raises ValueError.
   */
  function FormatBinaryOutput(s: string): (r: Result<bool>)
    ensures r.Err? ==> r.error == ValueError(NoBooleanValue)
  {
    var t := CriticText(s);
    match SearchBoolWord(t, 0)
    case None => Err(ValueError(NoBooleanValue))
    case Some(k) => Ok(OccursAt(t, "true", k))
  }

  /**
   * The verdict fails exactly when neither word occurs; otherwise it is true
   * exactly when the first of them is "true".
   */
  lemma FormatBinaryOutputFirstWord(s: string)
    ensures FormatBinaryOutput(s).Err? <==> forall k :: !BoolWordAt(CriticText(s), k)
    ensures FormatBinaryOutput(s).Ok? ==>
              exists k :: BoolWordAt(CriticText(s), k) && (forall j :: 0 <= j < k ==> !BoolWordAt(CriticText(s), j)) &&
                          (FormatBinaryOutput(s).value <==> OccursAt(CriticText(s), "true", k))
  {
    var t := CriticText(s);
    SearchBoolWordLeftmost(t, 0);
    if SearchBoolWord(t, 0).Some? {
      var k := SearchBoolWord(t, 0).value;
      assert BoolWordAt(t, k) && (forall j :: 0 <= j < k ==> !BoolWordAt(t, j));
    }
  }

  /** Lower-casing twice is lower-casing once. */
  lemma LowerIdempotent(s: string)
    ensures Lower(Lower(s)) == Lower(s)
  {
  }

  /** The verdict does not depend on the letter case of the critic's answer. */
  lemma FormatBinaryOutputIgnoresCase(s: string)
    ensures FormatBinaryOutput(Lower(s)) == FormatBinaryOutput(s)
  {
    assert Lower(s)[0..] == Lower(s);
    assert s[0..] == s;
    KeepLower(s, IsWordOrSpace);
    LowerIdempotent(Keep(s, IsWordOrSpace));
    assert CriticText(Lower(s)) == CriticText(s);
  }
}
