/**
 * Character classes and scanning primitives that Python's `re` module and
 * `str` methods use on the ASCII range: `\s` and `str.isspace`, `\w`,
 * `str.isdigit`, `str.lower`, the word boundary `\b` and `str.find`.
 * Every character outside ASCII is treated as neither a word character nor
 * whitespace, and `lower` leaves it unchanged.
 */
module Chars {

  /** `\s` / `str.isspace` on ASCII: tab, newline, vertical tab, form feed,
      carriage return, the four separators 0x1C-0x1F, and space. */
  predicate IsSpace(c: char) {
    c == ' ' || 9 <= c as int <= 13 || 28 <= c as int <= 31
  }

  /** `\w` on ASCII: letters, digits and the underscore. */
  predicate IsWordChar(c: char) {
    'a' <= c <= 'z' || 'A' <= c <= 'Z' || '0' <= c <= '9' || c == '_'
  }

  predicate IsDigit(c: char) {
    '0' <= c <= '9'
  }

  function LowerChar(c: char): (r: char)
    ensures IsWordChar(r) == IsWordChar(c)
    ensures IsSpace(r) == IsSpace(c)
    ensures !('A' <= r <= 'Z')
    ensures 'A' <= c <= 'Z' || r == c
  {
    if 'A' <= c <= 'Z' then (c as int + 32) as char else c
  }

  /** `str.lower` */
  function Lower(s: string): (r: string)
    ensures |r| == |s|
    ensures forall i :: 0 <= i < |s| ==> r[i] == LowerChar(s[i])
  {
    seq(|s|, i requires 0 <= i < |s| => LowerChar(s[i]))
  }

  predicate AllSpace(s: string) {
    forall i :: 0 <= i < |s| ==> IsSpace(s[i])
  }

  /** `\b` at position `i`: exactly one of the characters either side is a word character. */
  predicate Boundary(s: string, i: int)
    requires 0 <= i <= |s|
  {
    (i > 0 && IsWordChar(s[i - 1])) != (i < |s| && IsWordChar(s[i]))
  }

  /** The end of the whitespace run that starts at `i` (a greedy `\s*`). */
  function SkipSpace(s: string, i: nat): (j: nat)
    requires i <= |s|
    ensures i <= j <= |s|
    ensures AllSpace(s[i..j])
    ensures j == |s| || !IsSpace(s[j])
    decreases |s| - i
  {
    if i < |s| && IsSpace(s[i]) then SkipSpace(s, i + 1) else i
  }

  /** The end of the word run that starts at `i` (a greedy `\w*`). */
  function WordEnd(s: string, i: nat): (j: nat)
    requires i <= |s|
    ensures i <= j <= |s|
    ensures forall k :: i <= k < j ==> IsWordChar(s[k])
    ensures j == |s| || !IsWordChar(s[j])
    decreases |s| - i
  {
    if i < |s| && IsWordChar(s[i]) then WordEnd(s, i + 1) else i
  }

  /** The end of the non-word run that starts at `i` (a greedy `\W*`). */
  function NonWordEnd(s: string, i: nat): (j: nat)
    requires i <= |s|
    ensures i <= j <= |s|
    ensures forall k :: i <= k < j ==> !IsWordChar(s[k])
    ensures j == |s| || IsWordChar(s[j])
    decreases |s| - i
  {
    if i < |s| && !IsWordChar(s[i]) then NonWordEnd(s, i + 1) else i
  }

  /** The start of the whitespace run that ends at `k` (scanning backwards). */
  function SpaceRunStart(s: string, k: nat): (i: nat)
    requires k <= |s|
    ensures i <= k
    ensures AllSpace(s[i..k])
    ensures i == 0 || !IsSpace(s[i - 1])
  {
    if k > 0 && IsSpace(s[k - 1]) then
      var i := SpaceRunStart(s, k - 1);
      AllSpaceSnoc(s, i, k);
      i
    else k
  }

  lemma AllSpaceSnoc(s: string, i: nat, k: nat)
    requires i < k <= |s| && AllSpace(s[i..k - 1]) && IsSpace(s[k - 1])
    ensures AllSpace(s[i..k])
  {
    assert s[i..k] == s[i..k - 1] + [s[k - 1]];
  }

  /** `str.strip()`: drop leading and trailing whitespace. */
  function Strip(s: string): string {
    var i := SkipSpace(s, 0);
    var j := SpaceRunStart(s, |s|);
    if j <= i then [] else s[i..j]
  }

  /**
   * What `strip` keeps is a slice with only whitespace around it, and it
   * neither starts nor ends with whitespace.
   */
  lemma StripTrims(s: string)
    ensures exists i, j :: 0 <= i <= j <= |s| && Strip(s) == s[i..j] && AllSpace(s[..i]) && AllSpace(s[j..])
    ensures Strip(s) == [] || (!IsSpace(Strip(s)[0]) && !IsSpace(Strip(s)[|Strip(s)| - 1]))
  {
    TextBetweenSpace(s);
    if SpaceRunStart(s, |s|) <= SkipSpace(s, 0) {
      StripBlank(s);
    } else {
      StripText(s);
    }
  }

  /** A text of whitespace strips to nothing. */
  lemma StripBlank(s: string)
    requires SkipSpace(s, 0) == |s|
    ensures Strip(s) == s[|s|..|s|] && AllSpace(s[..|s|]) && AllSpace(s[|s|..])
  {
    LeadingSpace(s);
  }

  /** Otherwise it strips to the slice between the two whitespace runs. */
  lemma StripText(s: string)
    requires SkipSpace(s, 0) < SpaceRunStart(s, |s|)
    ensures var i, j := SkipSpace(s, 0), SpaceRunStart(s, |s|);
      Strip(s) == s[i..j] && AllSpace(s[..i]) && AllSpace(s[j..]) &&
      !IsSpace(Strip(s)[0]) && !IsSpace(Strip(s)[|Strip(s)| - 1])
  {
    LeadingSpace(s);
    TrailingSpace(s);
  }

  /** The whitespace `strip` drops in front. */
  lemma LeadingSpace(s: string)
    ensures AllSpace(s[..SkipSpace(s, 0)])
  {
    var i := SkipSpace(s, 0);
    assert s[..i] == s[0..i];
  }

  /** Where there is text, it starts before the trailing whitespace does. */
  lemma TextBetweenSpace(s: string)
    ensures SkipSpace(s, 0) < |s| ==> SkipSpace(s, 0) < SpaceRunStart(s, |s|)
  {
    var i := SkipSpace(s, 0);
    if i < |s| {
      RunStartAfter(s, |s|, i);
    }
  }

  /** The backward scan for whitespace stops after any non-space character. */
  lemma {:induction false} RunStartAfter(s: string, k: nat, m: nat)
    requires m < k <= |s| && !IsSpace(s[m])
    ensures m < SpaceRunStart(s, k)
    decreases k
  {
    if k - 1 > m && IsSpace(s[k - 1]) {
      RunStartAfter(s, k - 1, m);
    }
  }

  /** The whitespace `strip` drops at the end. */
  lemma TrailingSpace(s: string)
    ensures AllSpace(s[SpaceRunStart(s, |s|)..])
  {
    var j := SpaceRunStart(s, |s|);
    assert s[j..] == s[j..|s|];
  }

  /** The characters of `s` that satisfy `p`, in order. */
  function Keep(s: string, p: char -> bool): (r: string)
    ensures |r| <= |s|
  {
    if s == [] then [] else Keep(s[..|s| - 1], p) + (if p(s[|s| - 1]) then [s[|s| - 1]] else [])
  }

  lemma {:induction false} KeepAppend(a: string, b: string, p: char -> bool)
    ensures Keep(a + b, p) == Keep(a, p) + Keep(b, p)
    decreases |b|
  {
    if b == [] {
      assert a + b == a;
    } else {
      var b' := b[..|b| - 1];
      assert (a + b)[..|a + b| - 1] == a + b';
      KeepAppend(a, b', p);
    }
  }

  lemma {:induction false} KeepNone(s: string, p: char -> bool)
    requires forall k :: 0 <= k < |s| ==> !p(s[k])
    ensures Keep(s, p) == []
    decreases |s|
  {
    if s != [] {
      KeepNone(s[..|s| - 1], p);
    }
  }

  lemma {:induction false} KeepAll(s: string, p: char -> bool)
    requires forall k :: 0 <= k < |s| ==> p(s[k])
    ensures Keep(s, p) == s
    decreases |s|
  {
    if s != [] {
      KeepAll(s[..|s| - 1], p);
      assert s == s[..|s| - 1] + [s[|s| - 1]];
    }
  }

  /** `s` has a character satisfying `p` exactly when `Keep` retains one. */
  lemma {:induction false} KeepEmpty(s: string, p: char -> bool)
    ensures Keep(s, p) == [] <==> forall k :: 0 <= k < |s| ==> !p(s[k])
    decreases |s|
  {
    if s != [] {
      var s' := s[..|s| - 1];
      KeepEmpty(s', p);
      if Keep(s, p) == [] {
        forall k | 0 <= k < |s| ensures !p(s[k]) {
          if k < |s| - 1 { assert s[k] == s'[k]; }
        }
      }
    }
  }

  lemma KeepSingle(c: char, p: char -> bool)
    ensures Keep([c], p) == (if p(c) then [c] else [])
  {
    assert [c][..0] == [];
  }

  /** Keeping the characters of a slice whose surroundings hold none of them. */
  lemma KeepSlice(s: string, i: nat, j: nat, p: char -> bool)
    requires i <= j <= |s|
    requires forall k :: 0 <= k < i ==> !p(s[k])
    requires forall k :: j <= k < |s| ==> !p(s[k])
    ensures Keep(s[i..j], p) == Keep(s, p)
  {
    KeepDropSuffix(s, j, p);
    KeepDropPrefix(s[..j], i, p);
    assert s[..j][i..] == s[i..j];
  }

  lemma KeepDropSuffix(s: string, j: nat, p: char -> bool)
    requires j <= |s|
    requires forall k :: j <= k < |s| ==> !p(s[k])
    ensures Keep(s[..j], p) == Keep(s, p)
  {
    KeepSuffixNone(s, j, p);
    KeepAppend(s[..j], s[j..], p);
    SplitJoin(s, j);
  }

  lemma KeepDropPrefix(s: string, i: nat, p: char -> bool)
    requires i <= |s|
    requires forall k :: 0 <= k < i ==> !p(s[k])
    ensures Keep(s[i..], p) == Keep(s, p)
  {
    KeepPrefixNone(s, i, p);
    KeepAppend(s[..i], s[i..], p);
    SplitJoin(s, i);
  }

  lemma KeepPrefixNone(s: string, i: nat, p: char -> bool)
    requires i <= |s|
    requires forall k :: 0 <= k < i ==> !p(s[k])
    ensures Keep(s[..i], p) == []
  {
    var a := s[..i];
    forall k | 0 <= k < |a| ensures !p(a[k]) {
      assert a[k] == s[k];
    }
    KeepNone(a, p);
  }

  lemma KeepSuffixNone(s: string, j: nat, p: char -> bool)
    requires j <= |s|
    requires forall k :: j <= k < |s| ==> !p(s[k])
    ensures Keep(s[j..], p) == []
  {
    var c := s[j..];
    forall k | 0 <= k < |c| ensures !p(c[k]) {
      assert c[k] == s[j + k];
    }
    KeepNone(c, p);
  }

  lemma SplitJoin(s: string, i: nat)
    requires i <= |s|
    ensures s[..i] + s[i..] == s
  {
  }

  predicate OccursAt(s: string, pat: string, i: int) {
    0 <= i && i + |pat| <= |s| && s[i..i + |pat|] == pat
  }

  /** An occurrence that ends inside a prefix is an occurrence in the prefix. */
  lemma OccursInPrefix(t: string, n: nat, pat: string, k: int)
    requires n <= |t|
    requires k + |pat| <= n
    ensures OccursAt(t[..n], pat, k) <==> OccursAt(t, pat, k)
  {
    if 0 <= k {
      assert t[..n][k..k + |pat|] == t[k..k + |pat|];
    }
  }

  /** `s.find(pat, i)`: the first occurrence at or after `i`, or -1. */
  function Find(s: string, pat: string, i: nat := 0): (r: int)
    requires i <= |s|
    ensures r == -1 || (i <= r && OccursAt(s, pat, r))
    ensures r == -1 ==> forall k :: i <= k ==> !OccursAt(s, pat, k)
    ensures r != -1 ==> forall k :: i <= k < r ==> !OccursAt(s, pat, k)
    decreases |s| - i
  {
    if OccursAt(s, pat, i) then i
    else if i == |s| then -1
    else Find(s, pat, i + 1)
  }
}
