/** The few operations of the Arduino `String` class (WString) that the path
    helpers call, with an Arduino string modelled as an immutable `seq<char>`.

    Each operation computes the same result as the library (by a character
    comparison, a scan from the front or from the back, or a
    character-by-character copy) and its contract states what that result is,
    in terms of positions of the sequence. Positions are `int` because the
    library returns -1 for "not found". Contracts are stated position by
    position rather than with slices, so that callers reason about single
    characters. */
module ArduinoString {

  /** `r` is the last |r| characters of `s`. */
  predicate IsSuffix(r: string, s: string)
  {
    |r| <= |s| && forall k :: 0 <= k < |r| ==> r[k] == s[|s| - |r| + k]
  }

  /** The comparison loop of `endsWith`: characters `i..` of `suffix` equal
      the characters of `s` from `start + i` on. */
  function MatchesFrom(s: string, start: nat, suffix: string, i: nat): (b: bool)
    requires start + |suffix| <= |s|
    requires i <= |suffix|
    ensures b <==> forall k :: i <= k < |suffix| ==> s[start + k] == suffix[k]
    decreases |suffix| - i
  {
    if i == |suffix| then true
    else s[start + i] == suffix[i] && MatchesFrom(s, start, suffix, i + 1)
  }

  /** `s.endsWith(suffix)`: compares the last |suffix| characters of `s`
      with `suffix`; a `suffix` longer than `s` never matches, so no
      non-empty suffix matches the empty string. */
  function EndsWith(s: string, suffix: string): (b: bool)
    ensures b <==> IsSuffix(suffix, s)
  {
    |suffix| <= |s| && MatchesFrom(s, |s| - |suffix|, suffix, 0)
  }

  /** `s.indexOf(c, from)`: the first position at or after `from` that
      holds `c`, or -1 when there is none (in particular when `from` is at or
      past the end). */
  function IndexOfFrom(s: string, c: char, from: nat): (r: int)
    ensures r == -1 || from <= r < |s|
    ensures r == -1 <==> forall j :: from <= j < |s| ==> s[j] != c
    ensures r >= 0 ==> s[r] == c && forall j :: from <= j < r ==> s[j] != c
    decreases |s| - from
  {
    if from >= |s| then -1
    else if s[from] == c then from
    else IndexOfFrom(s, c, from + 1)
  }

  /** `s.indexOf(c)`: the position of the first `c` in `s`, or -1 when `c`
      does not occur. */
  function IndexOf(s: string, c: char): (r: int)
    ensures -1 <= r < |s|
    ensures r == -1 <==> c !in s
    ensures r >= 0 ==> s[r] == c && forall j :: 0 <= j < r ==> s[j] != c
  {
    IndexOfFrom(s, c, 0)
  }

  /** The position of the last `c` among the first `end` characters of `s`,
      or -1 when there is none; with `end` = |s| it computes the same position
      as `lastIndexOf`. */
  function LastIndexBefore(s: string, c: char, end: nat): (r: int)
    requires end <= |s|
    ensures -1 <= r < end
    ensures r == -1 <==> forall j :: 0 <= j < end ==> s[j] != c
    ensures r >= 0 ==> s[r] == c && forall j :: r < j < end ==> s[j] != c
  {
    if end == 0 then -1
    else if s[end - 1] == c then end - 1
    else LastIndexBefore(s, c, end - 1)
  }

  /** `s.lastIndexOf(c)`: the position of the last `c` in `s`, or -1 when `c`
      does not occur (the library also answers -1 for an empty `s`). The
      source passes one-character string literals, for which the library's
      substring search finds exactly the last occurrence of that character. */
  function LastIndexOf(s: string, c: char): (r: int)
    ensures -1 <= r < |s|
    ensures r == -1 <==> c !in s
    ensures r >= 0 ==> s[r] == c && forall j :: r < j < |s| ==> s[j] != c
  {
    LastIndexBefore(s, c, |s|)
  }

  /** `s.substring(from)`: a copy of the characters of `s` from position
      `from` to the end; a start at or past the end gives the empty string. */
  function Substring(s: string, from: nat): (r: string)
    ensures |r| == if from < |s| then |s| - from else 0
    ensures forall k :: 0 <= k < |r| ==> r[k] == s[from + k]
    decreases |s| - from
  {
    if from >= |s| then [] else [s[from]] + Substring(s, from + 1)
  }
}
