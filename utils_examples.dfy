/**
 * The expectations of tests/test_utils.py and a few more inputs, as lemmas
 * about the model of generative/utils.py.
 */
module UtilsExamples {
  import opened Python
  import opened Chars
  import opened Utils

  /** A run of word characters is copied as it is, followed by whatever the rest becomes. */
  lemma {:induction false} SubNonWordCopies(s: string, i: nat, m: nat, rest: string)
    requires i <= m <= |s|
    requires forall k :: i <= k < m ==> IsWordChar(s[k])
    requires rest == SubNonWord(s, m)
    ensures SubNonWord(s, i) == s[i..m] + rest
    decreases m - i
  {
    if i < m {
      SubNonWordCopies(s, i + 1, m, rest);
      SliceCons(s, i, m);
      ConsSlice(s[i], SubNonWord(s, i), SubNonWord(s, i + 1), s[i + 1..m], rest, s[i..m]);
    } else {
      assert s[i..m] == [];
    }
  }

  lemma HelloWorldSpace()
    ensures SubNonWord("hello world", 5) == " world"
  {
    var b := "hello world";
    SubNonWordWords(b, 6);
    assert b[6..] == "world";
    assert NonWordEnd(b, 5) == 6;
  }

  lemma SubNonWordHelloWorld()
    ensures SubNonWord("hello world", 0) == "hello world"
  {
    var b := "hello world";
    HelloWorldSpace();
    SubNonWordCopies(b, 0, 5, " world");
    assert b[0..5] == "hello";
  }

  lemma LowerHelloWorld()
    ensures Lower("Hello World") == "hello world"
  {
  }

  lemma UnderscoreHelloWorld()
    ensures SpacesToUnderscores("hello world") == "hello_world"
  {
  }

  lemma SnakeTextHelloWorld()
    ensures SnakeText("Hello World") == "hello_world"
  {
    StripUnpadded("Hello World");
    LowerHelloWorld();
    SubNonWordHelloWorld();
    StripUnpadded("hello world");
    UnderscoreHelloWorld();
  }

  /** Words are lower-cased and joined by an underscore. */
  lemma ToFuncNameHelloWorld()
    ensures ToFuncName("Hello World") == Ok("hello_world")
  {
    SnakeTextHelloWorld();
  }

  /** A name that would start with a digit gets an underscore in front. */
  lemma ToFuncNameLeadingDigit()
    ensures ToFuncName("123abc") == Ok("_123abc")
  {
    var s := "123abc";
    assert "_" + s == "_123abc";
    assert forall k :: 0 <= k < |s| ==> IsSnakeChar(s[k]);
    assert IsDigit(s[0]);
    DigitLedName(s);
  }

  /** A snake_case name that starts with a digit gets an underscore in front. */
  lemma DigitLedName(n: string)
    requires forall k :: 0 <= k < |n| ==> IsSnakeChar(n[k])
    requires |n| > 0 && IsDigit(n[0])
    ensures ToFuncName(n) == Ok("_" + n)
  {
    SnakeTextFixes(n);
  }

  /** A text without a word character has no name: `text[0]` fails. */
  lemma ToFuncNamePunctuationOnly()
    ensures ToFuncName("!@# ") == Err(IndexError)
  {
    var s := "!@# ";
    assert forall k :: 0 <= k < |s| ==> !IsWordChar(s[k]);
    ToFuncNameSucceeds(s);
  }

  /** The whitespace run that ends at `k` starts at `j` when only whitespace lies between and none before it. */
  lemma {:induction false} SpaceRunStartTo(s: string, j: nat, k: nat)
    requires 0 < j <= k <= |s|
    requires forall m :: j <= m < k ==> IsSpace(s[m])
    requires !IsSpace(s[j - 1])
    ensures SpaceRunStart(s, k) == j
    decreases k - j
  {
    if j < k {
      SpaceRunStartTo(s, j, k - 1);
    }
  }

  /** `strip` keeps what lies between the leading and the trailing whitespace. */
  lemma StripBetween(s: string, i: nat, j: nat)
    requires i < j <= |s|
    requires forall m :: 0 <= m < i ==> IsSpace(s[m])
    requires forall m :: j <= m < |s| ==> IsSpace(s[m])
    requires !IsSpace(s[i]) && !IsSpace(s[j - 1])
    ensures Strip(s) == s[i..j]
  {
    SkipSpaceTo(s, 0, i);
    SpaceRunStartTo(s, j, |s|);
  }

  const Padded := "    space    "

  lemma StripPadded()
    ensures Strip(Padded) == "space"
  {
    var s := Padded;
    assert forall m :: 0 <= m < 4 || 9 <= m < 13 ==> s[m] == ' ';
    StripBetween(s, 4, 9);
    assert s[4..9] == "space";
  }

  lemma ToFuncNameSpace()
    ensures ToFuncName("space") == Ok("space")
  {
    var n := "space";
    assert forall k :: 0 <= k < |n| ==> IsSnakeChar(n[k]);
    SnakeTextFixes(n);
  }

  /** Whitespace around the text is dropped. */
  lemma ToFuncNamePadded()
    ensures ToFuncName(Padded) == Ok("space")
  {
    StripPadded();
    ToFuncNameStrips(Padded);
    ToFuncNameSpace();
  }

  lemma LowerMixedCase()
    ensures Lower("MixedCase123") == "mixedcase123"
  {
  }

  lemma SnakeTextMixedCase()
    ensures SnakeText("MixedCase123") == "mixedcase123"
  {
    var s := "MixedCase123";
    assert forall k :: 0 <= k < |s| ==> IsWordChar(s[k]);
    SnakeTextWord(s);
    LowerMixedCase();
  }

  /** Upper-case letters are lowered and digits kept. */
  lemma ToFuncNameMixedCase()
    ensures ToFuncName("MixedCase123") == Ok("mixedcase123")
  {
    SnakeTextMixedCase();
  }

  /** The non-word run that starts at `i` ends at `e` when a word character, or the end, stands there. */
  lemma NonWordEndAt(s: string, i: nat, e: nat)
    requires i <= e <= |s|
    requires forall k :: i <= k < e ==> !IsWordChar(s[k])
    requires e == |s| || IsWordChar(s[e])
    ensures NonWordEnd(s, i) == e
  {
  }

  /**
   * Word characters from `i` to `m`, then non-word characters up to `e`
   * and a word character or the end there: the run becomes one space.
   */
  lemma SubNonWordWordGap(s: string, i: nat, m: nat, e: nat)
    requires i <= m < e <= |s|
    requires forall k :: i <= k < m ==> IsWordChar(s[k])
    requires forall k :: m <= k < e ==> !IsWordChar(s[k])
    requires e == |s| || IsWordChar(s[e])
    ensures SubNonWord(s, i) == s[i..m] + " " + SubNonWord(s, e)
  {
    NonWordEndAt(s, m, e);
    SubNonWordCopies(s, i, m, " " + SubNonWord(s, e));
  }

  const Non := "non"
  const Alphanumeric := "alphanumeric"
  const Hyphenated := Non + "-" + Alphanumeric + "!@#"

  lemma HyphenatedWords()
    ensures |Hyphenated| == 19 && Hyphenated[0..3] == Non && Hyphenated[4..16] == Alphanumeric
    ensures forall k :: 0 <= k < 3 || 4 <= k < 16 ==> IsWordChar(Hyphenated[k])
    ensures forall k :: 3 <= k < 4 || 16 <= k < 19 ==> !IsWordChar(Hyphenated[k])
  {
    assert forall k :: 0 <= k < 12 ==> IsWordChar(Alphanumeric[k]);
  }

  /** The hyphen and the trailing `!@#` each become one space. */
  lemma SubNonWordHyphenated()
    ensures SubNonWord(Hyphenated, 0) == Non + " " + Alphanumeric + " "
  {
    var s := Hyphenated;
    HyphenatedWords();
    SubNonWordWordGap(s, 4, 16, 19);
    SubNonWordWordGap(s, 0, 3, 4);
  }

  lemma LowerHyphenated()
    ensures Strip(Hyphenated) == Hyphenated && Lower(Hyphenated) == Hyphenated
  {
    var s := Hyphenated;
    HyphenatedWords();
    StripUnpadded(s);
    assert forall m :: 0 <= m < |s| ==> !IsUpper(s[m]);
  }

  lemma StripTrailingSpace()
    ensures Strip(Non + " " + Alphanumeric + " ") == Non + " " + Alphanumeric
  {
    var w := Non + " " + Alphanumeric + " ";
    StripBetween(w, 0, 16);
  }

  lemma UnderscoreHyphenated()
    ensures SpacesToUnderscores(Non + " " + Alphanumeric) == Non + "_" + Alphanumeric
  {
    assert forall k :: 0 <= k < 12 ==> Alphanumeric[k] != ' ';
  }

  lemma SnakeTextHyphenated()
    ensures SnakeText(Hyphenated) == Non + "_" + Alphanumeric
  {
    LowerHyphenated();
    SubNonWordHyphenated();
    StripTrailingSpace();
    UnderscoreHyphenated();
  }

  /** Runs of punctuation become single underscores between words, and vanish at the end. */
  lemma ToFuncNameHyphenated()
    ensures ToFuncName(Hyphenated) == Ok("non_alphanumeric")
  {
    assert Non + "_" + Alphanumeric == "non_alphanumeric";
    SnakeTextHyphenated();
  }

  /** The header of the test's function, in three parts: up to the `(`, the `self` parameter, the rest. */
  const WithSelfHead := "def my_func("
  const SelfParameter := "self, "
  const WithSelfTail := "arg1, arg2):\n    pass\n"
  const WithSelf := WithSelfHead + SelfParameter + WithSelfTail

  /** Where the pattern does not match, the character is copied. */
  lemma RemoveSelfCopies(s: string, i: nat)
    requires i < |s|
    requires i == 0 || s[i - 1] != '('
    ensures RemoveSelfFrom(s, i) == [s[i]] + RemoveSelfFrom(s, i + 1)
  {
  }

  /** Copying one more character in front of a copied slice extends the slice. */
  lemma ConsSlice(c: char, a: string, b: string, slice: string, rest: string, longer: string)
    requires a == [c] + b && b == slice + rest && longer == [c] + slice
    ensures a == longer + rest
  {
    assert [c] + (slice + rest) == ([c] + slice) + rest;
  }

  lemma SliceCons(s: string, i: nat, m: nat)
    requires i < m <= |s|
    ensures s[i..m] == [s[i]] + s[i + 1..m]
  {
  }

  /** Where no `(` precedes, the text is copied unchanged up to `m`, followed by whatever `m` onwards becomes. */
  lemma {:induction false} RemoveSelfSkips(s: string, i: nat, m: nat, rest: string)
    requires i <= m <= |s|
    requires forall k :: 0 <= k && i <= k + 1 < m ==> s[k] != '('
    requires rest == RemoveSelfFrom(s, m)
    ensures RemoveSelfFrom(s, i) == s[i..m] + rest
    decreases m - i
  {
    if i < m {
      RemoveSelfSkips(s, i + 1, m, rest);
      RemoveSelfCopies(s, i);
      SliceCons(s, i, m);
      ConsSlice(s[i], RemoveSelfFrom(s, i), RemoveSelfFrom(s, i + 1), s[i + 1..m], rest, s[i..m]);
    } else {
      assert s[i..m] == [];
    }
  }

  /** The test's header has a single `(`, the last character of its first part. */
  lemma WithSelfParens()
    ensures |WithSelfHead| == 12 && |WithSelf| == 40 && WithSelf[11] == '('
    ensures forall k :: 0 <= k < |WithSelf| && k != 11 ==> WithSelf[k] != '('
  {
    assert forall k :: 0 <= k < 11 ==> WithSelfHead[k] != '(';
    assert forall k :: 0 <= k < 6 ==> SelfParameter[k] != '(';
    assert forall k :: 0 <= k < 22 ==> WithSelfTail[k] != '(';
  }

  lemma WithSelfMatch()
    ensures SelfParamEnd(WithSelf, 12) == Some(18)
  {
    var s := WithSelf;
    WithSelfParens();
    assert s[11] == '(' && s[12] == 's' && s[13] == 'e' && s[14] == 'l' && s[15] == 'f';
    assert s[16] == ',' && s[17] == ' ' && s[18] == 'a';
    assert SkipSpace(s, 12) == 12;
    assert s[12..16] == "self";
    assert SkipSpace(s, 17) == 18;
  }

  lemma WithSelfNoOtherMatch()
    ensures forall k :: 0 <= k < 12 || 18 <= k <= |WithSelf| ==> SelfParamEnd(WithSelf, k).None?
  {
    WithSelfParens();
  }

  lemma WithSelfCut()
    ensures RemoveSelfFrom(WithSelf, 0) == WithSelfHead + WithSelfTail
  {
    var s := WithSelf;
    WithSelfParens();
    WithSelfMatch();
    WithSelfNoOtherMatch();
    RemoveSelfFromUnchanged(s, 18);
    RemoveSelfFromJumps(s, 12, 18);
    assert s[18..] == WithSelfTail;
    assert s[0..12] == WithSelfHead;
    RemoveSelfSkips(s, 0, 12, WithSelfTail);
  }

  lemma WithSelfJoined()
    ensures WithSelfHead + WithSelfTail == "def my_func(arg1, arg2):\n    pass\n"
  {
  }

  /** The `self` parameter, its comma and the space after it go. */
  lemma RemoveSelfParamWithSelf()
    ensures RemoveSelfParam(WithSelf) == "def my_func(arg1, arg2):\n    pass\n"
  {
    WithSelfCut();
    WithSelfJoined();
  }

  const Selfish := WithSelfHead + "selfish, " + WithSelfTail

  /** The `(` of the header is followed by `selfish`, whose `self` ends inside a word. */
  lemma SelfishParens()
    ensures |Selfish| == 43 && Selfish[11] == '(' && Selfish[12..16] == "self" && Selfish[16] == 'i'
    ensures forall k :: 0 <= k < |Selfish| && k != 11 ==> Selfish[k] != '('
  {
    var p := "selfish, ";
    assert forall k :: 0 <= k < 11 ==> WithSelfHead[k] != '(';
    assert forall k :: 0 <= k < 9 ==> p[k] != '(';
    assert forall k :: 0 <= k < 22 ==> WithSelfTail[k] != '(';
    assert Selfish[12..16] == p[0..4];
  }

  lemma SelfishNoMatch()
    ensures forall k :: 0 <= k <= |Selfish| ==> SelfParamEnd(Selfish, k).None?
  {
    var s := Selfish;
    SelfishParens();
    assert SkipSpace(s, 12) == 12;
    assert !Boundary(s, 16);
  }

  /** `\b` keeps a parameter that only starts with `self`. */
  lemma RemoveSelfParamSelfish()
    ensures RemoveSelfParam(Selfish) == Selfish
  {
    SelfishNoMatch();
  }

  const WithoutSelf := WithSelfHead + WithSelfTail

  /** Without `self` the `(` of the header is followed by `arg1`. */
  lemma WithoutSelfParens()
    ensures |WithoutSelf| == 34 && WithoutSelf[11] == '(' && WithoutSelf[12] == 'a'
    ensures forall k :: 0 <= k < |WithoutSelf| && k != 11 ==> WithoutSelf[k] != '('
  {
    assert forall k :: 0 <= k < 11 ==> WithSelfHead[k] != '(';
    assert forall k :: 0 <= k < 22 ==> WithSelfTail[k] != '(';
  }

  lemma WithoutSelfNoMatch()
    ensures forall k :: 0 <= k <= |WithoutSelf| ==> SelfParamEnd(WithoutSelf, k).None?
  {
    var s := WithoutSelf;
    WithoutSelfParens();
    assert SkipSpace(s, 12) == 12;
    assert s[12..16] != "self" by {
      assert s[12..16][0] == 'a';
    }
  }

  /** A header without `self` is left as it is. */
  lemma RemoveSelfParamWithoutSelf()
    ensures RemoveSelfParam(WithoutSelf) == "def my_func(arg1, arg2):\n    pass\n"
  {
    WithoutSelfNoMatch();
    WithSelfJoined();
  }

  /** The code string of the `add` test: a leading newline, then an indented definition. */
  const AddIndent := "\n    "
  const AddHeader := "def add(a, b):"
  const AddBody := "\n        return sum([a, b])\n    "
  const AddCode := AddIndent + AddHeader + AddBody

  /** The characters of the `add` code that the search looks at. */
  lemma AddCodeChars()
    ensures |AddCode| > 13
    ensures AddCode[0] == '\n' && forall k :: 1 <= k < 5 ==> AddCode[k] == ' '
    ensures AddCode[5..8] == "def" && AddCode[8] == ' '
    ensures AddCode[9..12] == "add" && AddCode[12] == '('
  {
    var s := AddCode;
    assert s[5..] == AddHeader + AddBody;
    assert s[5..8] == AddHeader[0..3];
    assert s[9..12] == AddHeader[4..7];
  }

  /** No `def` starts where the character is not `d`. */
  lemma NoDefAt(s: string, i: nat)
    requires i < |s| && s[i] != 'd'
    ensures DefNameAt(s, i).None?
  {
    if i + 3 <= |s| {
      assert s[i..i + 3][0] == s[i];
    }
  }

  /** No `def` starts before index 5: the first five characters are blanks. */
  lemma AddNoEarlierDef()
    ensures SearchDefName(AddCode, 0) == SearchDefName(AddCode, 5)
  {
    var s := AddCode;
    AddCodeChars();
    NoDefAt(s, 4);
    NoDefAt(s, 3);
    NoDefAt(s, 2);
    NoDefAt(s, 1);
    NoDefAt(s, 0);
    assert SearchDefName(s, 4) == SearchDefName(s, 5);
    assert SearchDefName(s, 3) == SearchDefName(s, 4);
    assert SearchDefName(s, 2) == SearchDefName(s, 3);
    assert SearchDefName(s, 1) == SearchDefName(s, 2);
  }

  /** At index 5, `def` is followed by one space and the word run `add`. */
  lemma AddDefName()
    ensures DefNameAt(AddCode, 5) == Some("add")
  {
    var s := AddCode;
    AddCodeChars();
    assert SkipSpace(s, 9) == 9;
    assert SkipSpace(s, 8) == 9;
    assert WordEnd(s, 12) == 12;
    assert WordEnd(s, 11) == 12;
    assert WordEnd(s, 10) == 12;
    assert WordEnd(s, 9) == 12;
  }

  lemma ExtractFuncNameAdd()
    ensures ExtractFuncName(AddCode) == Ok("add")
  {
    AddNoEarlierDef();
    AddDefName();
  }

  /** Capitals and trailing punctuation do not hide the verdict. */
  lemma FormatBinaryOutputTrue()
    ensures FormatBinaryOutput("True.") == Ok(true)
  {
    TrueDotText();
    AnswerTrue("True.");
  }

  /** "True." loses its full stop and its capital. */
  lemma TrueDotText()
    ensures CriticText("True.") == "true"
  {
    DropTrueDot();
    assert Lower("True") == "true";
  }

  lemma DropTrueDot()
    ensures DropPunctuation("True.", 0) == "True"
  {
    var s := "True.";
    assert DropPunctuation(s, 5) == [];
    assert DropPunctuation(s, 4) == [];
    assert DropPunctuation(s, 3) == "e";
    assert DropPunctuation(s, 2) == "ue";
    assert DropPunctuation(s, 1) == "rue";
  }

  /** An answer that reads "true" once cleaned is a true verdict. */
  lemma AnswerTrue(s: string)
    requires CriticText(s) == "true"
    ensures FormatBinaryOutput(s) == Ok(true)
  {
    var t := CriticText(s);
    assert OccursAt(t, "true", 0);
    assert BoolWordAt(t, 0);
  }

  /** "pass" in capitals on its own line marks the code incomplete. */
  lemma IsIncompleteCodeUpperPass()
    ensures IsIncompleteCode("def f():\n    PASS\n")
  {
    assert PassAt("def f():\n    PASS\n", 13);
    IsIncompleteCodeFinds("def f():\n    PASS\n");
  }

  /** "pass" inside a longer word does not count. */
  lemma IsIncompleteCodePassword()
    ensures !IsIncompleteCode("password = 1")
  {
    var s := "password = 1";
    forall k ensures !PassAt(s, k) {
      if 0 < k && k + 4 <= |s| {
        assert LowerChar(s[k]) != 'p';
      }
    }
    IsIncompleteCodeFinds(s);
  }
}
