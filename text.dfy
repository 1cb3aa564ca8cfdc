/** The Python string operations the OCR tool relies on: `str.strip()` with
    no argument, `str.lower()`, `str.endswith`, `sep.join(parts)` and the
    clamped slice `s[:n]`. `Split` is not called by the code; `SplitJoin`
    uses it to show that the newline join can be undone. */
module Text {

  /** Python's `str.isspace()` for one character: exactly the characters that
      `str.strip()` without an argument removes. */
  predicate IsSpace(c: char) {
    || ('\U{09}' <= c <= '\U{0D}')
    || ('\U{1C}' <= c <= '\U{1F}')
    || c == ' '
    || c == '\U{85}'
    || c == '\U{A0}'
    || c == '\U{1680}'
    || ('\U{2000}' <= c <= '\U{200A}')
    || c == '\U{2028}'
    || c == '\U{2029}'
    || c == '\U{202F}'
    || c == '\U{205F}'
    || c == '\U{3000}'
  }

  predicate AllSpace(s: string) {
    forall k :: 0 <= k < |s| ==> IsSpace(s[k])
  }

  /** Neither end of `s` is whitespace. */
  predicate IsTrimmed(s: string) {
    s == [] || (!IsSpace(s[0]) && !IsSpace(s[|s| - 1]))
  }

  lemma AllSpaceAppend(x: string, y: string)
    requires AllSpace(x) && AllSpace(y)
    ensures AllSpace(x + y)
  {
    forall k | 0 <= k < |x + y| ensures IsSpace((x + y)[k]) {
      if k < |x| { assert (x + y)[k] == x[k]; } else { assert (x + y)[k] == y[k - |x|]; }
    }
  }

  /** `s.strip()`: `s` without its leading and trailing whitespace. */
  function Strip(s: string): (r: string)
    ensures IsTrimmed(r)
    ensures |r| <= |s|
    decreases |s|
  {
    if |s| > 0 && IsSpace(s[0]) then Strip(s[1..])
    else if |s| > 0 && IsSpace(s[|s| - 1]) then Strip(s[..|s| - 1])
    else s
  }

  /** What `strip()` removes is whitespace: `s` is some whitespace, then
      `s.strip()`, then some more whitespace. */
  lemma {:induction false} StripShape(s: string) returns (before: string, after: string)
    ensures s == before + Strip(s) + after
    ensures AllSpace(before) && AllSpace(after)
    decreases |s|
  {
    if |s| > 0 && IsSpace(s[0]) {
      var b, a := StripShape(s[1..]);
      assert s == [s[0]] + s[1..];
      before := SpaceBefore(s[0], s[1..], b, Strip(s[1..]), a);
      after := a;
    } else if |s| > 0 && IsSpace(s[|s| - 1]) {
      var b, a := StripShape(s[..|s| - 1]);
      assert s == s[..|s| - 1] + [s[|s| - 1]];
      before := b;
      after := SpaceAfter(s[..|s| - 1], b, Strip(s[..|s| - 1]), a, s[|s| - 1]);
    } else {
      before, after := [], [];
    }
  }

  /** One more whitespace character in front joins the leading whitespace. */
  lemma {:induction false} SpaceBefore(c: char, s: string, b: string, m: string, a: string) returns (b': string)
    requires IsSpace(c) && AllSpace(b)
    requires s == b + m + a
    ensures b' == [c] + b
    ensures [c] + s == b' + m + a && AllSpace(b')
  {
    b' := [c] + b;
    AllSpaceAppend([c], b);
  }

  /** One more whitespace character at the end joins the trailing whitespace. */
  lemma {:induction false} SpaceAfter(s: string, b: string, m: string, a: string, c: char) returns (a': string)
    requires IsSpace(c) && AllSpace(a)
    requires s == b + m + a
    ensures a' == a + [c]
    ensures s + [c] == b + m + a' && AllSpace(a')
  {
    a' := a + [c];
    AllSpaceAppend(a, [c]);
  }

  /** Stripping is determined by the whitespace around the text: whenever `s`
      is some whitespace, then a trimmed `m`, then more whitespace, `s.strip()`
      is exactly `m`. */
  lemma {:induction false} StripUnique(s: string, a: string, m: string, b: string)
    requires s == a + m + b
    requires AllSpace(a) && AllSpace(b) && IsTrimmed(m)
    ensures Strip(s) == m
    decreases |s|
  {
    if |a| > 0 {
      DropFirst(a, m, b);
      StripFirst(s);
      StripUnique(s[1..], a[1..], m, b);
    } else if |m| > 0 {
      DropFirst(m, b, []);
      assert s == m + b + [];
      if |b| > 0 {
        DropLast(a, m, b);
        StripLast(s);
        StripUnique(s[..|s| - 1], a, m, b[..|b| - 1]);
      } else {
        DropLast([], [], m);
        StripTrimmed(s);
      }
    } else if |b| > 0 {
      DropFirst(b, [], []);
      assert s == b + [] + [];
      StripFirst(s);
      StripUnique(s[1..], [], [], b[1..]);
    }
  }

  /** Leading whitespace goes first. */
  lemma {:induction false} StripFirst(s: string)
    requires |s| > 0 && IsSpace(s[0])
    ensures Strip(s) == Strip(s[1..])
  {
  }

  /** Then trailing whitespace. */
  lemma {:induction false} StripLast(s: string)
    requires |s| > 0 && !IsSpace(s[0]) && IsSpace(s[|s| - 1])
    ensures Strip(s) == Strip(s[..|s| - 1])
  {
  }

  /** A string with no whitespace at either end is its own stripped form. */
  lemma {:induction false} StripTrimmed(s: string)
    requires IsTrimmed(s)
    ensures Strip(s) == s
  {
  }

  /** The first character of `x + y + z`, and what follows it, when `x` is
      not empty. */
  lemma {:induction false} DropFirst(x: string, y: string, z: string)
    requires |x| > 0
    ensures (x + y + z)[0] == x[0]
    ensures (x + y + z)[1..] == x[1..] + y + z
  {
  }

  /** The last character of `x + y + z`, and what precedes it, when `z` is
      not empty. */
  lemma {:induction false} DropLast(x: string, y: string, z: string)
    requires |z| > 0
    ensures (x + y + z)[|x + y + z| - 1] == z[|z| - 1]
    ensures (x + y + z)[..|x + y + z| - 1] == x + y + z[..|z| - 1]
  {
  }

  /** Stripping twice is stripping once. */
  lemma {:induction false} StripIdempotent(s: string)
    ensures Strip(Strip(s)) == Strip(s)
  {
    StripUnique(Strip(s), [], Strip(s), []);
  }

  /** Python's `str.lower()` on one character, for the ASCII letters. */
  function LowerChar(c: char): char {
    if 'A' <= c <= 'Z' then (c as int + 32) as char else c
  }

  /** `s.lower()`, folding ASCII letters only. */
  function Lower(s: string): (r: string)
    ensures |r| == |s|
  {
    if s == [] then [] else [LowerChar(s[0])] + Lower(s[1..])
  }

  /** Lowering works character by character. */
  lemma {:induction false} LowerAt(s: string, k: nat)
    requires k < |s|
    ensures Lower(s)[k] == LowerChar(s[k])
  {
    if k > 0 {
      LowerAt(s[1..], k - 1);
    }
  }

  /** Lowering commutes with taking a suffix. */
  lemma {:induction false} LowerSuffix(s: string, i: nat)
    requires i <= |s|
    ensures Lower(s)[i..] == Lower(s[i..])
  {
    forall k | 0 <= k < |s| - i
      ensures Lower(s)[i..][k] == Lower(s[i..])[k]
    {
      LowerAt(s, i + k);
      LowerAt(s[i..], k);
    }
  }

  /** `s.endswith(suffix)`. */
  predicate EndsWith(s: string, suffix: string) {
    |suffix| <= |s| && s[|s| - |suffix|..] == suffix
  }

  /** `s[:n]`: Python's slice clamps an `n` past the end to the whole string. */
  function Prefix(s: string, n: nat): (r: string)
    ensures |r| == if |s| <= n then |s| else n
    ensures r == s[..|r|]
  {
    if |s| <= n then s else s[..n]
  }

  /** `sep.join(parts)`: the parts in order with `sep` between neighbours and
      nothing before the first or after the last. */
  function Join(parts: seq<string>, sep: string): string {
    if |parts| == 0 then ""
    else if |parts| == 1 then parts[0]
    else parts[0] + sep + Join(parts[1..], sep)
  }

  /** The position of the first `c` in `s`. */
  function IndexOf(s: string, c: char): (i: nat)
    requires c in s
    ensures i < |s| && s[i] == c && c !in s[..i]
  {
    if s[0] == c then 0 else 1 + IndexOf(s[1..], c)
  }

  /** `s.split(sep)` for a one-character separator: the pieces between the
      separators, never fewer than one, none containing `sep`. The code never
      splits; this is the reference that undoes `Join`. */
  function Split(s: string, sep: char): (r: seq<string>)
    ensures |r| >= 1
    ensures forall k :: 0 <= k < |r| ==> sep !in r[k]
    decreases |s|
  {
    if sep !in s then [s]
    else
      var i := IndexOf(s, sep);
      [s[..i]] + Split(s[i + 1..], sep)
  }

  /** Splitting the joined text at the separator gives the parts back, as long
      as there is at least one part and no part contains the separator. */
  lemma {:induction false} SplitJoin(parts: seq<string>, sep: char)
    requires |parts| >= 1
    requires forall k :: 0 <= k < |parts| ==> sep !in parts[k]
    ensures Split(Join(parts, [sep]), sep) == parts
  {
    if |parts| > 1 {
      var rest := Join(parts[1..], [sep]);
      var s := parts[0] + [sep] + rest;
      assert s == Join(parts, [sep]);
      SplitFirst(parts[0], sep, rest);
      SplitJoin(parts[1..], sep);
      assert parts == [parts[0]] + parts[1..];
    }
  }

  /** The first separator of `first + [sep] + rest` ends `first` when `first`
      has none. */
  lemma {:induction false} SplitFirst(first: string, sep: char, rest: string)
    requires sep !in first
    ensures Split(first + [sep] + rest, sep) == [first] + Split(rest, sep)
  {
    var s := first + [sep] + rest;
    assert s[|first|] == sep;
    var i := IndexOf(s, sep);
    assert s[..|first|] == first;
    assert i == |first|;
    assert s[i + 1..] == rest;
  }

  /** Joining non-empty trimmed parts gives a trimmed text, empty exactly when
      there are no parts: the separator never appears at either end. */
  lemma {:induction false} JoinTrimmed(parts: seq<string>, sep: string)
    requires forall k :: 0 <= k < |parts| ==> parts[k] != [] && IsTrimmed(parts[k])
    ensures IsTrimmed(Join(parts, sep))
    ensures Join(parts, sep) == [] <==> parts == []
  {
    if |parts| > 1 {
      JoinTrimmed(parts[1..], sep);
      var rest := Join(parts[1..], sep);
      var s := parts[0] + sep + rest;
      assert s[0] == parts[0][0];
      assert s[|s| - 1] == rest[|rest| - 1];
    }
  }
}
