/** The optional-value wrapper used across the model (stands for JavaScript's
    `undefined`/`null` results and for absent map or storage entries). */
module Wrappers {
  datatype Option<+T> = None | Some(value: T) {
    function GetOr(default: T): T {
      match this
      case Some(v) => v
      case None => default
    }
  }
}

/** The JavaScript string operations the extension relies on, with their
    ECMAScript semantics: `\s` and `trim`, `indexOf`/`includes`,
    `startsWith`, `split` on one character, and `substring` with its
    clamping and argument swap. */
module JsString {
  import opened Wrappers

  /** The characters in ECMAScript's WhiteSpace and LineTerminator productions:
      what the regular-expression class `\s` matches and what `trim` removes. */
  predicate IsJsWhitespace(c: char) {
    var n := c as int;
    || (0x09 <= n <= 0x0D)
    || n == 0x20 || n == 0xA0 || n == 0x1680
    || (0x2000 <= n <= 0x200A)
    || n == 0x2028 || n == 0x2029 || n == 0x202F || n == 0x205F
    || n == 0x3000 || n == 0xFEFF
  }

  /** `trimStart`: drops leading white space and nothing else. */
  function TrimStart(s: string): (r: string)
    ensures |r| <= |s| && r == s[|s| - |r|..]
    ensures r == [] || !IsJsWhitespace(r[0])
    ensures forall k :: 0 <= k < |s| - |r| ==> IsJsWhitespace(s[k])
  {
    if s != [] && IsJsWhitespace(s[0]) then TrimStart(s[1..]) else s
  }

  /** `trimEnd`: drops trailing white space and nothing else. */
  function TrimEnd(s: string): (r: string)
    ensures |r| <= |s| && r == s[..|r|]
    ensures r == [] || !IsJsWhitespace(r[|r| - 1])
    ensures forall k :: |r| <= k < |s| ==> IsJsWhitespace(s[k])
  {
    if s != [] && IsJsWhitespace(s[|s| - 1]) then TrimEnd(s[..|s| - 1]) else s
  }

  /** `String.prototype.trim`. */
  function Trim(s: string): (r: string)
    ensures r == [] || (!IsJsWhitespace(r[0]) && !IsJsWhitespace(r[|r| - 1]))
  {
    TrimEnd(TrimStart(s))
  }

  /** `trim` keeps one contiguous slice of its input and removes only white
      space around it. */
  lemma TrimIsSlice(s: string) returns (i: nat)
    ensures i + |Trim(s)| <= |s| && Trim(s) == s[i..i + |Trim(s)|]
    ensures forall k :: 0 <= k < i ==> IsJsWhitespace(s[k])
    ensures forall k :: i + |Trim(s)| <= k < |s| ==> IsJsWhitespace(s[k])
  {
    i := |s| - |TrimStart(s)|;
    TrimEndOfSuffix(s, i);
  }

  /** Trimming the end of a suffix of `s` keeps a slice of `s` and drops
      only white space of `s`. */
  lemma TrimEndOfSuffix(s: string, i: nat)
    requires i <= |s|
    ensures var r := TrimEnd(s[i..]);
      i + |r| <= |s| && r == s[i..i + |r|]
      && forall k :: i + |r| <= k < |s| ==> IsJsWhitespace(s[k])
  {
    var t := s[i..];
    var r := TrimEnd(t);
    assert r == t[..|r|];
    forall k | i + |r| <= k < |s|
      ensures IsJsWhitespace(s[k])
    {
      assert s[k] == t[k - i];
    }
  }

  /** A string is blank, in the sense of `s.trim() === ''`, exactly when every
      character is white space. */
  lemma TrimEmptyIffBlank(s: string)
    ensures Trim(s) == [] <==> forall k :: 0 <= k < |s| ==> IsJsWhitespace(s[k])
  {
    var i := TrimIsSlice(s);
    if Trim(s) != [] {
      assert !IsJsWhitespace(s[i]);
    }
  }

  /** `pat` occurs in `s` starting at index `i`. */
  predicate OccursAt(s: string, pat: string, i: nat) {
    i + |pat| <= |s| && s[i..i + |pat|] == pat
  }

  /** `s.indexOf(pat, from)`, with `None` for JavaScript's -1. */
  function IndexOfFrom(s: string, pat: string, from: nat): (r: Option<nat>)
    ensures r.Some? ==> from <= r.value && OccursAt(s, pat, r.value)
    ensures r.Some? ==> forall j :: from <= j < r.value ==> !OccursAt(s, pat, j)
    ensures r.None? ==> forall j :: from <= j ==> !OccursAt(s, pat, j)
    decreases |s| - from
  {
    if from + |pat| > |s| then None
    else if s[from..from + |pat|] == pat then Some(from)
    else IndexOfFrom(s, pat, from + 1)
  }

  /** `s.indexOf(pat)`: the first occurrence. */
  function IndexOf(s: string, pat: string): Option<nat> {
    IndexOfFrom(s, pat, 0)
  }

  /** `s.includes(pat)`. */
  predicate Includes(s: string, pat: string) {
    IndexOf(s, pat).Some?
  }

  /** `includes` holds exactly when there is an occurrence somewhere. */
  lemma IncludesIff(s: string, pat: string, i: nat)
    requires OccursAt(s, pat, i)
    ensures Includes(s, pat) && IndexOf(s, pat).value <= i
  {
  }

  /** Any occurrence inside a slice of `s` is an occurrence in `s`. */
  lemma IncludedInSlice(s: string, pat: string, i: nat, j: nat)
    requires i <= j <= |s|
    ensures Includes(s[i..j], pat) ==> Includes(s, pat)
  {
    if Includes(s[i..j], pat) {
      var k := IndexOf(s[i..j], pat).value;
      assert s[i..j][k..k + |pat|] == s[i + k..i + k + |pat|];
      IncludesIff(s, pat, i + k);
    }
  }

  /** A slice of a string that lacks `pat` lacks it too. */
  lemma NotIncludedInSlice(s: string, pat: string, i: nat, j: nat)
    requires i <= j <= |s| && !Includes(s, pat)
    ensures !Includes(s[i..j], pat)
  {
    IncludedInSlice(s, pat, i, j);
  }

  /** `s.startsWith(p)`. */
  predicate StartsWith(s: string, p: string) {
    |p| <= |s| && s[..|p|] == p
  }

  /** `toLowerCase` on one character, for the ASCII capitals A-Z; every
      other character is left as it is. */
  function LowerChar(c: char): (r: char)
    ensures 'A' <= c <= 'Z' ==> r as int == c as int + 32
    ensures !('A' <= c <= 'Z') ==> r == c
  {
    if 'A' <= c <= 'Z' then (c as int + 32) as char else c
  }

  /** `s.toLowerCase()`, character by character. */
  function ToLowerCase(s: string): (r: string)
    ensures |r| == |s|
    ensures forall i :: 0 <= i < |s| ==> r[i] == LowerChar(s[i])
  {
    seq(|s|, i requires 0 <= i < |s| => LowerChar(s[i]))
  }

  /** `s.split(sep)` for a one-character separator: the pieces between
      separators, empty ones included, so there is always at least one. */
  function Split(s: string, sep: char): (parts: seq<string>)
    ensures |parts| >= 1
    ensures forall k :: 0 <= k < |parts| ==> sep !in parts[k]
  {
    if s == [] then [""]
    else
      var rest := Split(s[1..], sep);
      if s[0] == sep then [""] + rest
      else [[s[0]] + rest[0]] + rest[1..]
  }

  /** `parts.join(sep)`. */
  function Join(parts: seq<string>, sep: char): string
    requires |parts| >= 1
  {
    if |parts| == 1 then parts[0] else parts[0] + [sep] + Join(parts[1..], sep)
  }

  /** Splitting loses nothing: joining the pieces back gives the input. */
  lemma {:induction false} JoinSplit(s: string, sep: char)
    ensures Join(Split(s, sep), sep) == s
  {
    if s != [] {
      var rest := Split(s[1..], sep);
      JoinSplit(s[1..], sep);
      if s[0] == sep {
        assert Split(s, sep)[1..] == rest;
      } else {
        var parts := Split(s, sep);
        if |rest| == 1 {
          assert parts == [[s[0]] + rest[0]];
        } else {
          assert parts[1..] == rest[1..];
          assert Join(rest, sep) == rest[0] + [sep] + Join(rest[1..], sep);
        }
      }
    }
  }

  /** A piece without the separator splits to itself. */
  lemma {:induction false} SplitNoSeparator(s: string, sep: char)
    requires sep !in s
    ensures Split(s, sep) == [s]
  {
    if s != [] {
      SplitNoSeparator(s[1..], sep);
      assert s[0] != sep;
      assert [s[0]] + s[1..] == s;
    }
  }

  /** Splitting `a + sep + b`, where `a` has no separator, yields `a` and then
      the pieces of `b`. */
  lemma {:induction false} SplitAfterPiece(a: string, sep: char, b: string)
    requires sep !in a
    ensures Split(a + [sep] + b, sep) == [a] + Split(b, sep)
  {
    if a == [] {
      assert a + [sep] + b == [sep] + b;
      assert ([sep] + b)[1..] == b;
    } else {
      assert (a + [sep] + b)[1..] == a[1..] + [sep] + b;
      SplitAfterPiece(a[1..], sep, b);
      assert [a[0]] + a[1..] == a;
    }
  }

  /** `Math.min(Math.max(x, 0), len)`: how `substring` clamps an index. */
  function Clamp(x: int, len: nat): (r: nat)
    ensures r <= len
    ensures 0 <= x <= len ==> r == x
  {
    if x < 0 then 0 else if x > len then len else x
  }

  /** `s.substring(start, end)`: both indices clamped to the string, and
      swapped when the first is larger. */
  function Substring(s: string, start: int, end: int): string {
    var a := Clamp(start, |s|);
    var b := Clamp(end, |s|);
    if a <= b then s[a..b] else s[b..a]
  }

  /** `s.substring(start)`: from the clamped index to the end. */
  function SubstringFrom(s: string, start: int): string {
    s[Clamp(start, |s|)..]
  }
}
