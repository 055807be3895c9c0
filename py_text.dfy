/** The Python `str` operations the mapping-file parser relies on, over
    Dafny strings (sequences of Unicode scalar values). */
module PyText {

  /** The characters for which Python's `str.isspace()` holds, which are the
      characters `str.strip()` removes when called without an argument. */
  predicate IsPySpace(c: char)
  {
    var n := c as int;
    (0x09 <= n <= 0x0D) || (0x1C <= n <= 0x20) || n == 0x85 || n == 0xA0 ||
    n == 0x1680 || (0x2000 <= n <= 0x200A) || n == 0x2028 || n == 0x2029 ||
    n == 0x202F || n == 0x205F || n == 0x3000
  }

  predicate IsSlash(c: char) { c == '/' }

  /** `r` is the slice `s[i..i + |r|]` and everything outside it is dropped. */
  predicate StrippedAt(s: string, r: string, i: int, drop: char -> bool)
  {
    0 <= i <= |s| - |r| && r == s[i..i + |r|] &&
    (forall k :: 0 <= k < i ==> drop(s[k])) &&
    (forall k :: i + |r| <= k < |s| ==> drop(s[k]))
  }

  /** `s.strip(chars)`: removes dropped characters from both ends while there
      are any. */
  function Strip(s: string, drop: char -> bool): string
    decreases |s|
  {
    if s != [] && drop(s[0]) then Strip(s[1..], drop)
    else if s != [] && drop(s[|s| - 1]) then Strip(s[..|s| - 1], drop)
    else s
  }

  /** The stripped string is a slice of `s` with only dropped characters
      outside it, and it neither starts nor ends with a dropped character, so
      no longer slice has that property. */
  lemma {:induction false} StripSpec(s: string, drop: char -> bool)
    ensures exists i :: StrippedAt(s, Strip(s, drop), i, drop)
    ensures var r := Strip(s, drop); r == [] || (!drop(r[0]) && !drop(r[|r| - 1]))
    decreases |s|
  {
    var r := Strip(s, drop);
    if s != [] && drop(s[0]) {
      StripSpec(s[1..], drop);
      var i :| StrippedAt(s[1..], r, i, drop);
      assert r == s[i + 1..i + 1 + |r|];
      assert forall k :: 1 <= k < |s| ==> s[1..][k - 1] == s[k];
      assert StrippedAt(s, r, i + 1, drop);
    } else if s != [] && drop(s[|s| - 1]) {
      var init := s[..|s| - 1];
      StripSpec(init, drop);
      var i :| StrippedAt(init, r, i, drop);
      assert r == s[i..i + |r|];
      assert forall k :: 0 <= k < |init| ==> init[k] == s[k];
      assert StrippedAt(s, r, i, drop);
    } else {
      assert r == s && s[0..|s|] == s;
      assert StrippedAt(s, r, 0, drop);
    }
  }

  /** Concatenates `parts`, putting one `sep` between neighbours. */
  function JoinWith(parts: seq<string>, sep: char): string
  {
    if parts == [] then []
    else if |parts| == 1 then parts[0]
    else parts[0] + [sep] + JoinWith(parts[1..], sep)
  }

  /** `s.split(sep)` for a one-character separator: the pieces between
      consecutive separators, empty ones included, so there is always one
      more piece than there are separators. */
  function Split(s: string, sep: char): (parts: seq<string>)
    ensures |parts| >= 1
    ensures forall k :: 0 <= k < |parts| ==> sep !in parts[k]
    ensures JoinWith(parts, sep) == s
    decreases |s|
  {
    if s == [] then [[]]
    else
      var rest := Split(s[1..], sep);
      if s[0] == sep then
        [[]] + rest
      else
        var parts := [[s[0]] + rest[0]] + rest[1..];
        assert JoinWith(parts, sep) == [s[0]] + JoinWith(rest, sep);
        assert s == [s[0]] + s[1..];
        parts
  }

  /** The other round trip: splitting a join of separator-free pieces gives
      the pieces back, so `Split` is the only decomposition with its contract. */
  lemma {:induction false} SplitJoin(parts: seq<string>, sep: char)
    requires |parts| >= 1
    requires forall k :: 0 <= k < |parts| ==> sep !in parts[k]
    ensures Split(JoinWith(parts, sep), sep) == parts
    decreases |parts|, |parts[0]|
  {
    if |parts| == 1 {
      SplitPiece(parts[0], sep);
    } else if parts[0] == [] {
      var tail := JoinWith(parts[1..], sep);
      SplitJoin(parts[1..], sep);
      assert JoinWith(parts, sep) == [sep] + tail;
      assert ([sep] + tail)[1..] == tail;
    } else {
      var shorter := [parts[0][1..]] + parts[1..];
      assert forall k :: 0 <= k < |shorter| ==> sep !in shorter[k] by {
        forall k | 0 <= k < |shorter| ensures sep !in shorter[k] {
          if k == 0 { assert forall c :: c in parts[0][1..] ==> c in parts[0]; }
          else { assert shorter[k] == parts[k]; }
        }
      }
      SplitJoin(shorter, sep);
      var j := JoinWith(parts, sep);
      assert parts[0] == [parts[0][0]] + parts[0][1..];
      assert j == [parts[0][0]] + JoinWith(shorter, sep);
      assert j[0] != sep && j[1..] == JoinWith(shorter, sep);
      assert shorter[1..] == parts[1..];
    }
  }

  /** A separator-free piece splits into itself. */
  lemma {:induction false} SplitPiece(s: string, sep: char)
    requires sep !in s
    ensures Split(s, sep) == [s]
    decreases |s|
  {
    if s != [] {
      assert forall c :: c in s[1..] ==> c in s;
      SplitPiece(s[1..], sep);
      assert s == [s[0]] + s[1..];
    }
  }

  /** `s.replace(from, to)` for one-character `from` and `to`. */
  function ReplaceChar(s: string, from: char, to: char): (r: string)
    ensures |r| == |s|
    ensures forall k :: 0 <= k < |s| ==> r[k] == (if s[k] == from then to else s[k])
    ensures from != to ==> from !in r
    decreases |s|
  {
    if s == [] then []
    else [if s[0] == from then to else s[0]] + ReplaceChar(s[1..], from, to)
  }

  /** `s.endswith(suffix)`. */
  predicate EndsWith(s: string, suffix: string)
  {
    |suffix| <= |s| && s[|s| - |suffix|..] == suffix
  }
}
