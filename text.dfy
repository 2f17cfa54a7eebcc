/** String helpers the pipeline relies on: prefix and substring tests,
    ASCII lower-casing, and splitting on a separator character the way
    Python's `str.split(sep)` does. */
module Text {

  /** `p` is a prefix of `s` (Python's `s.startswith(p)`). */
  predicate HasPrefix(s: string, p: string) {
    |p| <= |s| && s[..|p|] == p
  }

  /** `t` occurs somewhere inside `s` (Python's `t in s`), scanned from the left. */
  predicate HasSubstring(s: string, t: string)
    decreases |s|
  {
    HasPrefix(s, t) || (|s| > 0 && HasSubstring(s[1..], t))
  }

  /** `t` sits in `s` starting at index `i`. */
  predicate WindowAt(s: string, t: string, i: int) {
    0 <= i && i + |t| <= |s| && s[i..i + |t|] == t
  }

  /** The scan agrees with the textbook definition: some window of `s` equals `t`. */
  lemma {:induction false} HasSubstringIffWindow(s: string, t: string)
    ensures HasSubstring(s, t) <==> exists i :: WindowAt(s, t, i)
    decreases |s|
  {
    if HasPrefix(s, t) {
      assert WindowAt(s, t, 0);
    } else if |s| == 0 {
      assert forall i :: WindowAt(s, t, i) ==> i == 0 && HasPrefix(s, t);
    } else {
      HasSubstringIffWindow(s[1..], t);
      if HasSubstring(s[1..], t) {
        var i :| WindowAt(s[1..], t, i);
        assert s[i + 1..i + 1 + |t|] == s[1..][i..i + |t|];
        assert WindowAt(s, t, i + 1);
      }
      if exists i :: WindowAt(s, t, i) {
        var i :| WindowAt(s, t, i);
        assert i != 0;
        assert s[1..][i - 1..i - 1 + |t|] == s[i..i + |t|];
        assert WindowAt(s[1..], t, i - 1);
      }
    }
  }

  /** ASCII lower-casing of one character; every other character is kept. */
  function LowerChar(c: char): char {
    if 'A' <= c <= 'Z' then (c as int + 32) as char else c
  }

  /** Python's `str.lower()` restricted to ASCII letters. */
  function Lower(s: string): (r: string)
    ensures |r| == |s|
    ensures forall i :: 0 <= i < |s| && 'A' <= s[i] <= 'Z' ==> r[i] != s[i] && r[i] == (s[i] as int + 32) as char
    ensures forall i :: 0 <= i < |s| && !('A' <= s[i] <= 'Z') ==> r[i] == s[i]
  {
    seq(|s|, i requires 0 <= i < |s| => LowerChar(s[i]))
  }

  /** Joins non-empty `parts` with `sep` between neighbours (Python's `sep.join(parts)`). */
  function JoinWith(parts: seq<string>, sep: char): string
    requires |parts| >= 1
  {
    if |parts| == 1 then parts[0] else parts[0] + [sep] + JoinWith(parts[1..], sep)
  }

  /** Python's `s.split(sep)`: the maximal runs between separators, empty runs
      included, so there is always at least one part; joining the parts back
      with `sep` gives `s` again. */
  function SplitOn(s: string, sep: char): (parts: seq<string>)
    ensures |parts| >= 1
    ensures forall i :: 0 <= i < |parts| ==> sep !in parts[i]
    ensures JoinWith(parts, sep) == s
    ensures |parts| >= 2 <==> sep in s
    decreases |s|
  {
    if s == [] then [[]]
    else
      var rest := SplitOn(s[1..], sep);
      if s[0] == sep then
        assert s == [sep] + s[1..];
        [[]] + rest
      else
        var parts := [[s[0]] + rest[0]] + rest[1..];
        assert parts[1..] == rest[1..];
        assert s == [s[0]] + s[1..];
        parts
  }
}
