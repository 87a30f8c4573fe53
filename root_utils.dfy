/**
 * utils.py at the top of the repository: an earlier copy of
 * `remove_prepended`. It is stated here by where it cuts the text, the
 * whitespace run before the first function header and the end of the first
 * end marker after it, and proved to agree with the regular-expression
 * reading in module Utils.
 */
module RootUtils {
  import opened Chars
  import Utils

  /**
   * `remove_prepended`: the text from the whitespace run before the first
   * function header (or from the start, without a header), up to and
   * including the first end marker in that text (or to the end, without one).
   */
  function RemovePrepended(s: string, marker: string := Utils.EndMarker): (r: string)
    ensures r == Utils.RemovePrepended(s, marker)
  {
    var t := s[Utils.HeaderCut(s)..];
    var m := Find(t, marker);
    Utils.LeftmostMatchIsHeaderRun(s);
    if m == -1 then t else t[..m + |marker|]
  }

  /** Applying the older copy twice is applying it once. */
  lemma RemovePrependedIdempotent(s: string, marker: string)
    ensures RemovePrepended(RemovePrepended(s, marker), marker) == RemovePrepended(s, marker)
  {
    Utils.RemovePrependedIdempotent(s, marker);
  }
}
