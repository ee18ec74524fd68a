/**
 * The Python string and list built-ins the sync script leans on:
 * `str.strip()`, `str.split(sep)` with a one-character separator, and
 * `list.index(x)`.
 */
module Strings {
  import opened Wrappers

  /** Python's `str.isspace()` for one character: what `str.strip()` skips. */
  predicate IsSpace(c: char) {
    || '\t' <= c <= '\r'
    || '\U{1C}' <= c <= ' '
    || c == '\U{85}' || c == '\U{A0}' || c == '\U{1680}'
    || '\U{2000}' <= c <= '\U{200A}'
    || c == '\U{2028}' || c == '\U{2029}' || c == '\U{202F}' || c == '\U{205F}'
    || c == '\U{3000}'
  }

  /**
   * The whitespace a built-in skips around its argument. `int()` maps
   * non-ASCII whitespace to a space and then skips only ASCII
   * ` \t\n\v\f\r`, so the separators U+001C..U+001F, which `strip()`
   * removes, make `int()` raise.
   */
  datatype Blanks = StrBlanks | IntBlanks

  predicate IsBlank(b: Blanks, c: char) {
    match b
    case StrBlanks => IsSpace(c)
    case IntBlanks => c == ' ' || '\t' <= c <= '\r' || (c > '\U{7F}' && IsSpace(c))
  }

  predicate AllBlank(b: Blanks, s: string) {
    forall k | 0 <= k < |s| :: IsBlank(b, s[k])
  }

  predicate AllSpace(s: string) {
    AllBlank(StrBlanks, s)
  }

  /** Length of the run of blanks at the front of `s`. */
  function LeadingBlanks(b: Blanks, s: string): (n: nat)
    ensures n <= |s|
    ensures AllBlank(b, s[..n])
    ensures n < |s| ==> !IsBlank(b, s[n])
  {
    if s == [] || !IsBlank(b, s[0]) then 0 else 1 + LeadingBlanks(b, s[1..])
  }

  /** Length of the run of blanks at the back of `s`. */
  function TrailingBlanks(b: Blanks, s: string): (n: nat)
    ensures n <= |s|
    ensures AllBlank(b, s[|s| - n..])
    ensures n < |s| ==> !IsBlank(b, s[|s| - n - 1])
  {
    if s == [] || !IsBlank(b, s[|s| - 1]) then 0 else 1 + TrailingBlanks(b, s[..|s| - 1])
  }

  /** `s` without its leading and trailing blanks of kind `b`. */
  function Trim(b: Blanks, s: string): (r: string)
    ensures |r| <= |s|
    ensures r == [] || (!IsBlank(b, r[0]) && !IsBlank(b, r[|r| - 1]))
    ensures r == [] <==> AllBlank(b, s)
  {
    var t := s[LeadingBlanks(b, s)..];
    t[..|t| - TrailingBlanks(b, t)]
  }

  /** `s.strip()`: `s` without its leading and trailing whitespace. */
  function Strip(s: string): (r: string)
    ensures |r| <= |s|
    ensures r == [] || (!IsSpace(r[0]) && !IsSpace(r[|r| - 1]))
    ensures r == [] <==> AllSpace(s)
  {
    Trim(StrBlanks, s)
  }

  /** What trimming removes is blank, and what it keeps is one slice of the input. */
  lemma TrimDecompose(b: Blanks, s: string) returns (lo: nat, hi: nat)
    ensures lo <= hi <= |s|
    ensures Trim(b, s) == s[lo..hi]
    ensures AllBlank(b, s[..lo]) && AllBlank(b, s[hi..])
  {
    lo := LeadingBlanks(b, s);
    var t := s[lo..];
    var n := TrailingBlanks(b, t);
    hi := |s| - n;
    assert Trim(b, s) == s[lo..hi] by {
      assert t[..|t| - n] == s[lo..hi];
    }
    assert AllBlank(b, s[hi..]) by {
      assert s[hi..] == t[|t| - n..];
    }
  }

  /** A string that neither starts nor ends with a blank is its own trim. */
  lemma TrimKeeps(b: Blanks, s: string)
    requires s == [] || (!IsBlank(b, s[0]) && !IsBlank(b, s[|s| - 1]))
    ensures Trim(b, s) == s
  {
    assert s[0..] == s;
  }

  /** Blanks around a core that neither starts nor ends with one are exactly what trimming removes. */
  lemma TrimSurrounded(b: Blanks, pre: string, core: string, post: string)
    requires AllBlank(b, pre) && AllBlank(b, post)
    requires core != [] && !IsBlank(b, core[0]) && !IsBlank(b, core[|core| - 1])
    ensures Trim(b, pre + core + post) == core
  {
    var s := pre + core + post;
    var lo := LeadingBlanks(b, s);
    assert lo == |pre| by {
      assert s[|pre|] == core[0];
    }
    var t := s[lo..];
    assert t == core + post;
    var n := TrailingBlanks(b, t);
    assert n == |post| by {
      assert t[|core| - 1] == core[|core| - 1];
    }
    assert t[..|t| - n] == core;
  }

  /** Number of occurrences of `c` in `s`. */
  function Occurrences(s: string, c: char): nat {
    if s == [] then 0 else (if s[0] == c then 1 else 0) + Occurrences(s[1..], c)
  }

  /**
   * `s.split(sep)`: the pieces between the separators, empty pieces included;
   * never an empty list (`"".split(sep) == [""]`).
   */
  function Split(s: string, sep: char): (parts: seq<string>)
    ensures |parts| == Occurrences(s, sep) + 1
    ensures forall k | 0 <= k < |parts| :: sep !in parts[k]
  {
    if s == [] then [""]
    else
      var rest := Split(s[1..], sep);
      if s[0] == sep then [""] + rest else [[s[0]] + rest[0]] + rest[1..]
  }

  /** `sep.join(parts)`, the inverse of `Split`. */
  function Join(parts: seq<string>, sep: char): string
    requires |parts| > 0
  {
    if |parts| == 1 then parts[0] else parts[0] + [sep] + Join(parts[1..], sep)
  }

  /** Joining the pieces of a split gives back the string. */
  lemma {:induction false} JoinSplit(s: string, sep: char)
    ensures Join(Split(s, sep), sep) == s
  {
    if s != [] {
      var rest := Split(s[1..], sep);
      JoinSplit(s[1..], sep);
      if s[0] == sep {
        assert Split(s, sep)[1..] == rest;
      } else {
        var parts := Split(s, sep);
        if |rest| == 1 {
          assert parts == [[s[0]] + rest[0]];
        } else {
          assert parts[1..] == rest[1..];
          assert Join(rest, sep) == rest[0] + [sep] + Join(rest[1..], sep);
        }
      }
    }
  }

  /** A piece without separators followed by a separator splits off as one piece. */
  lemma {:induction false} SplitPiece(p: string, rest: string, sep: char)
    requires sep !in p
    ensures Split(p + [sep] + rest, sep) == [p] + Split(rest, sep)
  {
    if p != [] {
      assert (p + [sep] + rest)[1..] == p[1..] + [sep] + rest;
      SplitPiece(p[1..], rest, sep);
      assert [p[0]] + p[1..] == p;
    } else {
      assert ([sep] + rest)[1..] == rest;
    }
  }

  /** A string without separators splits into itself alone. */
  lemma {:induction false} SplitNone(p: string, sep: char)
    requires sep !in p
    ensures Split(p, sep) == [p]
  {
    if p != [] {
      SplitNone(p[1..], sep);
      assert [p[0]] + p[1..] == p;
    }
  }

  /** Splitting what was joined gives back the pieces, when no piece holds the separator. */
  lemma {:induction false} SplitJoin(parts: seq<string>, sep: char)
    requires |parts| > 0
    requires forall k | 0 <= k < |parts| :: sep !in parts[k]
    ensures Split(Join(parts, sep), sep) == parts
  {
    if |parts| == 1 {
      SplitNone(parts[0], sep);
    } else {
      SplitJoin(parts[1..], sep);
      SplitPiece(parts[0], Join(parts[1..], sep), sep);
      assert [parts[0]] + parts[1..] == parts;
    }
  }

  /**
   * `xs.index(x)`: the position of the first occurrence of `x`;
   * `None` where Python raises `ValueError`.
   */
  function IndexOf<T(==)>(xs: seq<T>, x: T): (r: Option<nat>)
    ensures r.None? <==> x !in xs
    ensures r.Some? ==> r.value < |xs| && xs[r.value] == x && x !in xs[..r.value]
  {
    if xs == [] then None
    else if xs[0] == x then Some(0)
    else match IndexOf(xs[1..], x)
      case None => None
      case Some(i) => Some(i + 1)
  }
}
