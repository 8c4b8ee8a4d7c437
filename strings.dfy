/**
 * The string primitives the PHP and JavaScript code relies on: `trim` with a
 * character list, ASCII `strtolower`/`ucfirst`, PHP's `empty` on strings,
 * `explode`/`implode` on one separator character, `str_replace` of one
 * character, and JavaScript's UTF-16 `length`.
 *
 * PHP strings are byte strings; here a PHP string is a `seq<char>` holding one
 * character per byte, so `strlen` is `|s|`.
 */
module Strings {

  /** The characters PHP's `trim` strips by default: " \t\n\r\0\x0B". */
  const PhpTrimSet: set<char> := {' ', '\t', '\n', '\r', '\0', '\U{B}'}

  /**
   * The characters `String.prototype.trim` strips: ECMAScript WhiteSpace
   * (TAB, VT, FF, SP, NBSP, ZWNBSP and the Zs category) and LineTerminator
   * (LF, CR, LS, PS).
   */
  const JsTrimSet: set<char> := {
    '\t', '\U{B}', '\U{C}', ' ', '\U{A0}', '\U{FEFF}',
    '\U{1680}', '\U{2000}', '\U{2001}', '\U{2002}', '\U{2003}', '\U{2004}',
    '\U{2005}', '\U{2006}', '\U{2007}', '\U{2008}', '\U{2009}', '\U{200A}',
    '\U{202F}', '\U{205F}', '\U{3000}',
    '\n', '\r', '\U{2028}', '\U{2029}'
  }

  ghost predicate AllIn(s: string, cut: set<char>)
  {
    forall i :: 0 <= i < |s| ==> s[i] in cut
  }

  /** Neither end of `s` is a character of `cut`. */
  ghost predicate Unpadded(s: string, cut: set<char>)
  {
    s == [] || (s[0] !in cut && s[|s| - 1] !in cut)
  }

  /** Strips the characters of `cut` from the start of `s`. */
  function TrimLeft(s: string, cut: set<char>): (r: string)
    ensures |r| <= |s| && r == s[|s| - |r|..]
    ensures r == [] || r[0] !in cut
    ensures AllIn(s[..|s| - |r|], cut)
    decreases |s|
  {
    if s != [] && s[0] in cut then TrimLeft(s[1..], cut) else s
  }

  /** Strips the characters of `cut` from the end of `s`. */
  function TrimRight(s: string, cut: set<char>): (r: string)
    ensures |r| <= |s| && r == s[..|r|]
    ensures r == [] || r[|r| - 1] !in cut
    ensures AllIn(s[|r|..], cut)
    decreases |s|
  {
    if s != [] && s[|s| - 1] in cut then TrimRight(s[..|s| - 1], cut) else s
  }

  /** PHP `trim($s, $cut)` and, with `JsTrimSet`, JavaScript `s.trim()`. */
  function Trim(s: string, cut: set<char>): (r: string)
    ensures |r| <= |s|
    ensures Unpadded(r, cut)
  {
    TrimRight(TrimLeft(s, cut), cut)
  }

  /**
   * The trimmed string is the middle of `s`, starting at offset `a`, between
   * two runs of `cut` characters.
   */
  lemma TrimIsInfix(s: string, cut: set<char>) returns (a: nat)
    ensures a + |Trim(s, cut)| <= |s|
    ensures Trim(s, cut) == s[a..a + |Trim(s, cut)|]
    ensures AllIn(s[..a], cut) && AllIn(s[a + |Trim(s, cut)|..], cut)
  {
    var l := TrimLeft(s, cut);
    var r := TrimRight(l, cut);
    a := |s| - |l|;
    SuffixSlices(s, a, |r|);
  }

  /** Slicing a suffix is slicing the original further along. */
  lemma SuffixSlices(s: string, a: int, m: int)
    requires 0 <= a <= |s| && 0 <= m <= |s| - a
    ensures s[a..][..m] == s[a..a + m] && s[a..][m..] == s[a + m..]
  {
  }

  lemma {:induction false} TrimLeftPadded(pre: string, t: string, cut: set<char>)
    requires AllIn(pre, cut)
    requires t == [] || t[0] !in cut
    ensures TrimLeft(pre + t, cut) == t
    decreases |pre|
  {
    if pre != [] {
      assert (pre + t)[1..] == pre[1..] + t;
      TrimLeftPadded(pre[1..], t, cut);
    } else {
      assert pre + t == t;
    }
  }

  lemma {:induction false} TrimRightPadded(t: string, post: string, cut: set<char>)
    requires AllIn(post, cut)
    requires t == [] || t[|t| - 1] !in cut
    ensures TrimRight(t + post, cut) == t
    decreases |post|
  {
    if post != [] {
      var s := t + post;
      assert s[..|s| - 1] == t + post[..|post| - 1];
      TrimRightPadded(t, post[..|post| - 1], cut);
    } else {
      assert t + post == t;
    }
  }

  /** Right trimming keeps every character up to the last one outside `cut`. */
  lemma {:induction false} TrimRightKeepsKept(s: string, cut: set<char>, j: int)
    requires 0 <= j < |s| && s[j] !in cut
    ensures |TrimRight(s, cut)| > j
    decreases |s|
  {
    if s[|s| - 1] in cut {
      TrimRightKeepsKept(s[..|s| - 1], cut, j);
    }
  }

  /**
   * Trim is characterised by what it removes: an unpadded core surrounded by
   * any amount of `cut` characters trims to that core.
   */
  lemma TrimPadded(pre: string, t: string, post: string, cut: set<char>)
    requires AllIn(pre, cut) && AllIn(post, cut)
    requires t != [] && Unpadded(t, cut)
    ensures Trim(pre + t + post, cut) == t
  {
    assert pre + t + post == pre + (t + post);
    TrimLeftPadded(pre, t + post, cut);
    TrimRightPadded(t, post, cut);
  }

  /** An unpadded non-empty string is its own trim. */
  lemma TrimUnpadded(t: string, cut: set<char>)
    requires t != [] && Unpadded(t, cut)
    ensures Trim(t, cut) == t
  {
    TrimPadded([], t, [], cut);
    assert [] + t + [] == t;
  }

  /** A string made only of `cut` characters trims to the empty string. */
  lemma {:induction false} TrimAllCut(s: string, cut: set<char>)
    requires AllIn(s, cut)
    ensures Trim(s, cut) == []
    decreases |s|
  {
    if s != [] {
      TrimAllCut(s[1..], cut);
    }
  }

  /** Trimming twice is trimming once. */
  lemma TrimIdempotent(s: string, cut: set<char>)
    ensures Trim(Trim(s, cut), cut) == Trim(s, cut)
  {
    var r := Trim(s, cut);
    assert TrimLeft(r, cut) == r;
    assert TrimRight(r, cut) == r;
  }

  /** Helper: regrouping a concatenation, for callers whose proofs lose the association. */
  lemma ConcatAssoc(x: string, y: string, z: string)
    ensures x + y + z == x + (y + z)
  {
  }

  /** PHP `empty()` on a string: true exactly for "" and "0". */
  predicate PhpEmpty(s: string)
    ensures PhpEmpty(s) <==> |s| <= 1 && forall i :: 0 <= i < |s| ==> s[i] == '0'
  {
    s == "" || s == "0"
  }

  predicate IsAsciiUpper(c: char)
  {
    'A' <= c <= 'Z'
  }

  predicate IsAsciiLower(c: char)
  {
    'a' <= c <= 'z'
  }

  function LowerChar(c: char): (r: char)
    ensures !IsAsciiUpper(r)
    ensures IsAsciiUpper(c) ==> IsAsciiLower(r)
    ensures !IsAsciiUpper(c) ==> r == c
  {
    if IsAsciiUpper(c) then (c as int + 32) as char else c
  }

  function UpperChar(c: char): (r: char)
    ensures !IsAsciiLower(r)
    ensures IsAsciiLower(c) ==> IsAsciiUpper(r)
    ensures !IsAsciiLower(c) ==> r == c
  {
    if IsAsciiLower(c) then (c as int - 32) as char else c
  }

  /** `LowerChar` maps a character to a lower-case letter `x` exactly when it is `x` in either case. */
  lemma LowerCharMatches(c: char, x: char)
    requires IsAsciiLower(x)
    ensures LowerChar(c) == x <==> (c == x || c == UpperChar(x))
  {
  }

  /** PHP 8 `strtolower`: ASCII letters only, every other byte unchanged. */
  function AsciiLower(s: string): (r: string)
    ensures |r| == |s|
    ensures forall i :: 0 <= i < |r| ==> !IsAsciiUpper(r[i])
    ensures forall i :: 0 <= i < |r| ==> (IsAsciiLower(r[i]) <==> IsAsciiLower(s[i]) || IsAsciiUpper(s[i]))
  {
    seq(|s|, i requires 0 <= i < |s| => LowerChar(s[i]))
  }

  /** Lower-casing twice is lower-casing once. */
  lemma AsciiLowerIdempotent(s: string)
    ensures AsciiLower(AsciiLower(s)) == AsciiLower(s)
  {
  }

  /** PHP 8 `ucfirst`: the first byte upper-cased when it is an ASCII letter. */
  function UcFirst(s: string): (r: string)
    ensures |r| == |s|
    ensures s != [] ==> r[0] == UpperChar(s[0]) && r[1..] == s[1..]
  {
    if s == [] then [] else [UpperChar(s[0])] + s[1..]
  }

  /**
   * PHP `explode($d, $s)` for a one-character separator: the pieces between
   * separators, always at least one (the empty string gives `[""]`).
   */
  function Split(s: string, d: char): (parts: seq<string>)
    ensures |parts| >= 1
    ensures forall k :: 0 <= k < |parts| ==> d !in parts[k]
    decreases |s|
  {
    if s == [] then [[]]
    else
      var rest := Split(s[1..], d);
      if s[0] == d then [[]] + rest else [[s[0]] + rest[0]] + rest[1..]
  }

  /** PHP `implode($sep, $parts)`. */
  function Join(parts: seq<string>, sep: string): (r: string)
    ensures |parts| == 0 ==> r == ""
    ensures |parts| >= 1 ==> |parts[0]| <= |r| && r[..|parts[0]|] == parts[0]
    ensures |parts| == 1 ==> r == parts[0]
    decreases |parts|
  {
    if |parts| == 0 then ""
    else if |parts| == 1 then parts[0]
    else parts[0] + sep + Join(parts[1..], sep)
  }

  /** Joining the pieces of `explode` restores the string. */
  lemma {:induction false} JoinSplit(s: string, d: char)
    ensures Join(Split(s, d), [d]) == s
    decreases |s|
  {
    if s != [] {
      var rest := Split(s[1..], d);
      JoinSplit(s[1..], d);
      if s[0] == d {
        assert Split(s, d) == [[]] + rest;
        assert ([[]] + rest)[1..] == rest;
        assert s == [d] + s[1..];
      } else {
        var parts := Split(s, d);
        assert parts == [[s[0]] + rest[0]] + rest[1..];
        if |rest| == 1 {
          assert parts == [[s[0]] + rest[0]];
          assert rest[0] == s[1..];
        } else {
          assert parts[1..] == rest[1..];
          assert Join(rest, [d]) == rest[0] + [d] + Join(rest[1..], [d]);
          assert s == [s[0]] + s[1..];
        }
      }
    }
  }

  /** A string without the separator is a single piece. */
  lemma {:induction false} SplitNoSeparator(c: string, d: char)
    requires d !in c
    ensures Split(c, d) == [c]
    decreases |c|
  {
    if c != [] {
      SplitNoSeparator(c[1..], d);
      assert [c[0]] + c[1..] == c;
    }
  }

  /** The first piece of `explode` ends at the first separator. */
  lemma {:induction false} SplitAtFirst(c: string, d: char, rest: string)
    requires d !in c
    ensures Split(c + [d] + rest, d) == [c] + Split(rest, d)
    decreases |c|
  {
    var s := c + [d] + rest;
    if c == [] {
      assert s[0] == d && s[1..] == rest;
    } else {
      assert s[0] == c[0] && s[1..] == c[1..] + [d] + rest;
      SplitAtFirst(c[1..], d, rest);
      assert [c[0]] + c[1..] == c;
    }
  }

  /** Splitting joined separator-free pieces gives the pieces back. */
  lemma {:induction false} SplitJoin(parts: seq<string>, d: char)
    requires |parts| >= 1
    requires forall k :: 0 <= k < |parts| ==> d !in parts[k]
    ensures Split(Join(parts, [d]), d) == parts
    decreases |parts|
  {
    if |parts| == 1 {
      SplitNoSeparator(parts[0], d);
    } else {
      SplitJoin(parts[1..], d);
      SplitAtFirst(parts[0], d, Join(parts[1..], [d]));
      assert [parts[0]] + parts[1..] == parts;
    }
  }

  /** PHP `str_replace($from, $to, $s)` for single characters. */
  function ReplaceChar(s: string, from: char, to: char): (r: string)
    ensures from != to ==> from !in r
  {
    seq(|s|, i requires 0 <= i < |s| => if s[i] == from then to else s[i])
  }

  /** Replacing back undoes the replacement when the target character did not occur. */
  lemma ReplaceCharRoundTrip(s: string, from: char, to: char)
    requires to !in s
    ensures ReplaceChar(ReplaceChar(s, from, to), to, from) == s
  {
    var r := ReplaceChar(ReplaceChar(s, from, to), to, from);
    assert forall i :: 0 <= i < |s| ==> r[i] == s[i];
  }

  /** Replacing distributes over concatenation. */
  lemma ReplaceCharAppend(a: string, b: string, from: char, to: char)
    ensures ReplaceChar(a + b, from, to) == ReplaceChar(a, from, to) + ReplaceChar(b, from, to)
  {
    var l := ReplaceChar(a + b, from, to);
    var r := ReplaceChar(a, from, to) + ReplaceChar(b, from, to);
    assert forall i :: 0 <= i < |a + b| ==> l[i] == r[i];
  }

  function DigitChar(d: nat): (c: char)
    requires d < 10
    ensures '0' <= c <= '9'
  {
    ('0' as int + d) as char
  }

  /** PHP's decimal rendering of a non-negative integer in string interpolation. */
  function NatToString(n: nat): (s: string)
    ensures |s| >= 1
    ensures forall i :: 0 <= i < |s| ==> '0' <= s[i] <= '9'
    ensures |s| > 1 ==> s[0] != '0'
  {
    if n < 10 then [DigitChar(n)] else NatToString(n / 10) + [DigitChar(n % 10)]
  }

  /** The number a string of decimal digits denotes, most significant digit first. */
  function DigitsValue(s: string): nat
    requires forall i :: 0 <= i < |s| ==> '0' <= s[i] <= '9'
  {
    if s == [] then 0 else 10 * DigitsValue(s[..|s| - 1]) + (s[|s| - 1] as int - '0' as int)
  }

  /** Reading the rendered digits back gives the number: the rendering is exact. */
  lemma {:induction false} NatToStringValue(n: nat)
    ensures DigitsValue(NatToString(n)) == n
  {
    if n >= 10 {
      NatToStringValue(n / 10);
      var s := NatToString(n);
      assert s[..|s| - 1] == NatToString(n / 10);
    }
  }

  /** JavaScript `length`: UTF-16 code units, two for a character outside the BMP. */
  function Utf16Length(s: string): (n: nat)
    ensures |s| <= n <= 2 * |s|
    ensures (forall i :: 0 <= i < |s| ==> s[i] as int <= 0xFFFF) ==> n == |s|
  {
    if s == [] then 0 else (if s[0] as int > 0xFFFF then 2 else 1) + Utf16Length(s[1..])
  }

  /** A character above U+FFFF takes a surrogate pair, two code units; any other takes one. */
  lemma Utf16LengthChar(c: char)
    ensures Utf16Length([c]) == if c as int > 0xFFFF then 2 else 1
  {
    assert [c][1..] == [];
  }

  /** The code-unit count of a concatenation is the sum of the counts. */
  lemma {:induction false} Utf16LengthAppend(a: string, b: string)
    ensures Utf16Length(a + b) == Utf16Length(a) + Utf16Length(b)
    decreases |a|
  {
    if a == [] {
      assert a + b == b;
    } else {
      assert (a + b)[0] == a[0];
      assert (a + b)[1..] == a[1..] + b;
      Utf16LengthAppend(a[1..], b);
    }
  }
}
