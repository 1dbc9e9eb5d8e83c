/**
 Python's `s[start:stop]` on a string with the default step: a negative index
 counts from the end, and both indices are then clamped into `[0, len(s)]`;
 an empty string results when the clamped stop does not exceed the clamped
 start. The chunker only ever slices in range when `chunk_size >= 1`, but
 modelling the general rule lets the chunker itself take any integers.
 */
module PySlice {

  /** How Python adjusts one slice bound against a sequence of length `len`. */
  function AdjustIndex(i: int, len: nat): (r: nat)
    ensures r <= len
    ensures 0 <= i <= len ==> r == i
    ensures -(len as int) <= i < 0 ==> r == i + len
    ensures i < -(len as int) ==> r == 0
    ensures i > len ==> r == len
  {
    if i < 0 then (if i + len < 0 then 0 else i + len)
    else if i > len then len
    else i
  }

  function Slice(s: string, start: int, stop: int): (r: string)
    ensures |r| <= |s|
    ensures 0 <= start <= stop <= |s| ==> r == s[start..stop]
    ensures 0 <= stop <= start ==> r == []
  {
    var lo := AdjustIndex(start, |s|);
    var hi := AdjustIndex(stop, |s|);
    if hi <= lo then [] else s[lo..hi]
  }
}
