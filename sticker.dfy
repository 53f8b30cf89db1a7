/**
 * The two string predicates around the radar's sticker id: the validation of
 * `--sticker_id` in `parse_args` and the advertisement match in
 * `device_filter_func` (src/main.py).
 */
module Sticker {

  datatype Option<T> = None | Some(value: T)

  /** `str.isalnum()` for one character, restricted to ASCII letters and digits. */
  predicate IsAlnum(c: char) {
    'a' <= c <= 'z' || 'A' <= c <= 'Z' || '0' <= c <= '9'
  }

  /** Every character of `s` is a letter or a digit. */
  function AllAlnum(s: string): (r: bool)
    ensures r <==> forall i :: 0 <= i < |s| ==> IsAlnum(s[i])
  {
    if s == [] then true
    else IsAlnum(s[0]) && AllAlnum(s[1..])
  }

  /**
   * Whether `parse_args` rejects the `--sticker_id` argument: an absent argument
   * is accepted; a given one must be 9 characters long and alphanumeric
   * (`isalnum()` is false on the empty string, which the length test excludes).
   */
  function StickerIdRejected(arg: Option<string>): (rejected: bool)
    ensures arg.None? ==> !rejected
    ensures arg.Some? && |arg.value| != 9 ==> rejected
    ensures arg.Some? && !rejected ==> |arg.value| == 9 && forall i :: 0 <= i < 9 ==> IsAlnum(arg.value[i])
    ensures arg.Some? && rejected ==> |arg.value| != 9 || exists i :: 0 <= i < |arg.value| && !IsAlnum(arg.value[i])
  {
    match arg
    case None => false
    case Some(id) => |id| != 9 || !AllAlnum(id)
  }

  /** Python's `s[-5:]`: the last five characters, or all of `s` when it is shorter. */
  function LastFive(s: string): (r: string)
    ensures |r| == if |s| < 5 then |s| else 5
    ensures s == s[..|s| - |r|] + r
  {
    if |s| <= 5 then s else s[|s| - 5..]
  }

  /** `pattern` occurs in `text` starting at index `i`. */
  predicate OccursAt(text: string, pattern: string, i: int) {
    0 <= i <= |text| - |pattern| && text[i..i + |pattern|] == pattern
  }

  /** Python's `pattern in text` for strings: `pattern` occurs as a contiguous slice of `text`. */
  function Contains(text: string, pattern: string): (r: bool)
    ensures r <==> exists i :: OccursAt(text, pattern, i)
    decreases |text|
  {
    if |pattern| > |text| then false
    else if text[..|pattern|] == pattern then assert OccursAt(text, pattern, 0); true
    else
      var rest := Contains(text[1..], pattern);
      assert rest ==> exists i :: OccursAt(text, pattern, i) by {
        if rest {
          var j :| OccursAt(text[1..], pattern, j);
          assert text[1..][j..j + |pattern|] == text[j + 1..j + 1 + |pattern|];
          assert OccursAt(text, pattern, j + 1);
        }
      }
      assert (exists i :: OccursAt(text, pattern, i)) ==> rest by {
        if exists i :: OccursAt(text, pattern, i) {
          var i :| OccursAt(text, pattern, i);
          assert i != 0;
          assert text[1..][i - 1..i - 1 + |pattern|] == text[i..i + |pattern|];
          assert OccursAt(text[1..], pattern, i - 1);
        }
      }
      rest
  }

  /**
   * `device_filter_func`: a device matches when the last five characters of
   * the sticker id occur in the text of its advertisement data.
   */
  function DeviceMatches(stickerId: string, advertisement: string): (r: bool)
    ensures |stickerId| < 5 ==> (r <==> exists i :: OccursAt(advertisement, stickerId, i))
    ensures |stickerId| >= 5 ==> (r <==> Contains(advertisement, stickerId[|stickerId| - 5..]))
  {
    var tail := LastFive(stickerId);
    assert stickerId[|stickerId| - |tail|..] == tail;
    Contains(advertisement, tail)
  }

  /**
   * For a sticker id that `parse_args` accepts, the match looks for exactly
   * the id's characters 5 to 9, which are five alphanumeric characters.
   */
  lemma AcceptedIdMatchesLastFive(stickerId: string, advertisement: string)
    requires !StickerIdRejected(Some(stickerId))
    ensures |LastFive(stickerId)| == 5 && LastFive(stickerId) == stickerId[4..]
    ensures forall i :: 0 <= i < 5 ==> IsAlnum(LastFive(stickerId)[i])
    ensures DeviceMatches(stickerId, advertisement) <==> exists i :: OccursAt(advertisement, stickerId[4..], i)
  {
    assert |stickerId| == 9;
    assert forall i :: 0 <= i < 5 ==> LastFive(stickerId)[i] == stickerId[i + 4];
  }

  /** A sticker id shorter than five characters (one read back from a config file) is matched whole. */
  lemma ShortIdMatchedWhole(stickerId: string, advertisement: string)
    requires |stickerId| < 5
    ensures DeviceMatches(stickerId, advertisement) <==> Contains(advertisement, stickerId)
    ensures stickerId == [] ==> DeviceMatches(stickerId, advertisement)
  {
    assert stickerId == [] ==> OccursAt(advertisement, stickerId, 0);
  }
}
