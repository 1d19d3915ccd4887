/** Models of the Python `str` operations the patch tools rely on: `find`,
    slicing with non-negative bounds, `strip`, `startswith` and `endswith`.
    Strings are sequences of characters; nothing here depends on an encoding. */
module PyText {

  /** `sub` occurs in `s` starting at index `i`. */
  predicate OccursAt(s: string, sub: string, i: int)
  {
    0 <= i && i + |sub| <= |s| && s[i..i + |sub|] == sub
  }

  predicate Contains(s: string, sub: string)
  {
    exists i :: 0 <= i <= |s| && OccursAt(s, sub, i)
  }

  /** A non-empty pattern does not occur where its first character is absent. */
  lemma StartNotMatched(s: string, sub: string, i: int)
    requires |sub| > 0 && 0 <= i < |s| && s[i] != sub[0]
    ensures !OccursAt(s, sub, i)
  {
    if i + |sub| <= |s| {
      assert s[i..i + |sub|][0] == s[i];
    }
  }

  /** A one-character pattern occurs exactly where that character stands. */
  lemma OccursAtChar(s: string, c: char, i: int)
    ensures OccursAt(s, [c], i) <==> 0 <= i < |s| && s[i] == c
  {
    if 0 <= i < |s| && s[i] == c {
      assert s[i..i + 1] == [c];
    }
  }

  /** A two-character pattern occurs exactly where those two characters stand. */
  lemma OccursAtPair(s: string, c: char, d: char, i: int)
    ensures OccursAt(s, [c, d], i) <==> 0 <= i && i + 1 < |s| && s[i] == c && s[i + 1] == d
  {
    if 0 <= i && i + 1 < |s| && s[i] == c && s[i + 1] == d {
      assert s[i..i + 2] == [c, d];
    }
    if OccursAt(s, [c, d], i) {
      assert s[i..i + 2][0] == s[i] && s[i..i + 2][1] == s[i + 1];
    }
  }

  /** Python's `s.find(sub, start)` for a non-negative `start`: the first index
      at or after `start` where `sub` occurs, or -1 when there is none. */
  function Find(s: string, sub: string, start: nat): (r: int)
    ensures r == -1 || (start <= r && OccursAt(s, sub, r))
    ensures r != -1 ==> forall i :: start <= i < r ==> !OccursAt(s, sub, i)
    ensures r == -1 ==> forall i :: start <= i ==> !OccursAt(s, sub, i)
    decreases |s| - start
  {
    if |s| < start + |sub| then -1
    else if OccursAt(s, sub, start) then start
    else Find(s, sub, start + 1)
  }

  /** `Find` answers -1 from the start of the text exactly when the pattern is absent. */
  lemma FindAbsent(s: string, sub: string)
    ensures Find(s, sub, 0) == -1 <==> !Contains(s, sub)
  {
    var r := Find(s, sub, 0);
    if r != -1 {
      assert OccursAt(s, sub, r);
    }
  }

  /** Python's `s[a:b]` for non-negative bounds: both bounds are cut down to
      `|s|`, and a range whose end is not after its start gives "". */
  function Slice(s: string, a: nat, b: nat): (r: string)
    ensures b <= a ==> r == []
    ensures |r| <= |s|
    ensures |r| == (if a < b && a < |s| then (if b < |s| then b else |s|) - a else 0)
    ensures forall k :: 0 <= k < |r| ==> a + k < |s| && r[k] == s[a + k]
  {
    var lo := if a < |s| then a else |s|;
    var hi := if b < |s| then b else |s|;
    if lo < hi then s[lo..hi] else []
  }

  /** The characters for which Python's `str.isspace()` holds. */
  predicate IsSpace(c: char)
  {
    || c == ' '
    || ('\t' <= c <= '\r')
    || ('\U{1c}' <= c <= '\U{1f}')
    || c == '\U{85}'
    || c == '\U{a0}'
    || c == '\U{1680}'
    || ('\U{2000}' <= c <= '\U{200a}')
    || c == '\U{2028}'
    || c == '\U{2029}'
    || c == '\U{202f}'
    || c == '\U{205f}'
    || c == '\U{3000}'
  }

  /** Neither the first nor the last character is whitespace. */
  predicate NoOuterSpace(s: string)
  {
    s == [] || (!IsSpace(s[0]) && !IsSpace(s[|s| - 1]))
  }

  /** Length of the longest whitespace prefix. */
  function LeadingSpace(s: string): (n: nat)
    ensures n <= |s|
    ensures forall k :: 0 <= k < n ==> IsSpace(s[k])
    ensures n < |s| ==> !IsSpace(s[n])
    decreases |s|
  {
    if s == [] || !IsSpace(s[0]) then 0 else 1 + LeadingSpace(s[1..])
  }

  /** Length of the longest whitespace suffix. */
  function TrailingSpace(s: string): (n: nat)
    ensures n <= |s|
    ensures forall k :: |s| - n <= k < |s| ==> IsSpace(s[k])
    ensures n < |s| ==> !IsSpace(s[|s| - 1 - n])
    decreases |s|
  {
    if s == [] || !IsSpace(s[|s| - 1]) then 0 else 1 + TrailingSpace(s[..|s| - 1])
  }

  /** Python's `s.strip()`: `s` with its leading and trailing whitespace
      removed, "" when `s` is all whitespace. */
  function Strip(s: string): (r: string)
    ensures NoOuterSpace(r)
    ensures exists i :: TrimmedAt(s, r, i)
  {
    var i := LeadingSpace(s);
    var t := s[i..];
    var j := i + |t| - TrailingSpace(t);
    assert TrimmedAt(s, s[i..j], i);
    s[i..j]
  }

  /** `r` stands in `s` at index `i`, and everything of `s` around it is whitespace. */
  predicate TrimmedAt(s: string, r: string, i: int)
  {
    && 0 <= i && i + |r| <= |s| && r == s[i..i + |r|]
    && (forall k :: 0 <= k < i ==> IsSpace(s[k]))
    && (forall k :: i + |r| <= k < |s| ==> IsSpace(s[k]))
  }

  predicate StartsWith(s: string, prefix: string)
  {
    |prefix| <= |s| && s[..|prefix|] == prefix
  }

  predicate EndsWith(s: string, suffix: string)
  {
    |suffix| <= |s| && s[|s| - |suffix|..] == suffix
  }
}
