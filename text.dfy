/**
 * The few JavaScript string operations the proposal pages rely on:
 * `toLowerCase`, `includes` and `slice`. Strings are sequences of characters.
 */
module Text {

  /** `toLowerCase` on one character, for the ASCII letters A-Z. */
  function LowerChar(c: char): (d: char)
    ensures 'A' <= c <= 'Z' ==> 'a' <= d <= 'z' && d as int - c as int == 32
    ensures !('A' <= c <= 'Z') ==> d == c
    ensures !('A' <= d <= 'Z')
  {
    if 'A' <= c <= 'Z' then (c as int + 32) as char else c
  }

  /** `s.toLowerCase()`: every character lower-cased, nothing else changes. */
  function Lower(s: string): (r: string)
    ensures |r| == |s|
    ensures forall i :: 0 <= i < |s| ==> r[i] == LowerChar(s[i])
  {
    if s == [] then [] else [LowerChar(s[0])] + Lower(s[1..])
  }

  /** Lower-casing twice is lower-casing once. */
  lemma LowerIdempotent(s: string)
    ensures Lower(Lower(s)) == Lower(s)
  {
  }

  /** `needle` occurs in `hay` starting at position `i`. */
  ghost predicate OccursAt(hay: string, needle: string, i: int) {
    0 <= i && i + |needle| <= |hay| && hay[i..i + |needle|] == needle
  }

  /** `hay.includes(needle)`: the needle occurs somewhere in the haystack. */
  function Includes(hay: string, needle: string): (r: bool)
    ensures r <==> exists i :: OccursAt(hay, needle, i)
    decreases |hay|
  {
    if |needle| > |hay| then
      NoRoom(hay, needle);
      false
    else if needle == hay[..|needle|] then
      assert OccursAt(hay, needle, 0);
      true
    else
      ShiftOccurrence(hay, needle);
      Includes(hay[1..], needle)
  }

  lemma NoRoom(hay: string, needle: string)
    requires |needle| > |hay|
    ensures forall i :: !OccursAt(hay, needle, i)
  {
  }

  /** When the needle is not a prefix, occurrences in `hay` are exactly those in `hay[1..]`, shifted by one. */
  lemma ShiftOccurrence(hay: string, needle: string)
    requires |needle| <= |hay| && needle != hay[..|needle|]
    ensures (exists i :: OccursAt(hay, needle, i)) <==> (exists i :: OccursAt(hay[1..], needle, i))
  {
    if i :| OccursAt(hay, needle, i) {
      assert i != 0 by { assert hay[..|needle|] == hay[0..0 + |needle|]; }
      assert hay[1..][i - 1..i - 1 + |needle|] == hay[i..i + |needle|];
      assert OccursAt(hay[1..], needle, i - 1);
    }
    if i :| OccursAt(hay[1..], needle, i) {
      assert hay[i + 1..i + 1 + |needle|] == hay[1..][i..i + |needle|];
      assert OccursAt(hay, needle, i + 1);
    }
  }

  /** JavaScript's clamping of a relative `slice` index into 0..len. */
  function RelativeIndex(index: int, len: nat): (k: nat)
    ensures k <= len
  {
    if index < 0 then (if len + index < 0 then 0 else len + index)
    else if index < len then index else len
  }

  /** `s.slice(start, end)`, negative indices counting from the end. */
  function Slice(s: string, start: int, end: int): (r: string)
    ensures |r| <= |s|
    // the result is always one contiguous piece of `s`
    ensures exists i :: OccursAt(s, r, i)
    // indices inside the string select exactly that range
    ensures 0 <= start <= end <= |s| ==> r == s[start..end]
    // `slice(0, -k)` drops the last k characters, or everything when k >= |s|
    ensures start == 0 && end < 0 ==> r == s[..if |s| <= -end then 0 else |s| + end]
    // a start at or past the end, or past a non-negative end, selects nothing
    ensures start >= |s| || 0 <= end <= start ==> r == []
  {
    var from, to := RelativeIndex(start, |s|), RelativeIndex(end, |s|);
    assert from <= to ==> OccursAt(s, s[from..to], from);
    assert OccursAt(s, [], 0);
    if from <= to then s[from..to] else []
  }
}
