/**
 * The few pieces of JavaScript string semantics the model relies on: `split` and `join` on one
 * separator character, `trim`, `includes`, the character classes `\s` and `.` of regular
 * expressions, and ASCII case mapping.
 */
module JsText {
  import opened Wrappers
  import opened SeqFacts

  /** The line terminators, which `.` in a regular expression does not match. */
  predicate IsLineTerminator(c: char) {
    c == '\n' || c == '\r' || c == '\U{2028}' || c == '\U{2029}'
  }

  /** The class `\s` of JavaScript regular expressions; `trim()` strips the same characters. */
  predicate IsJsWhitespace(c: char) {
    || IsLineTerminator(c)
    || c == '\t' || c == '\U{000B}' || c == '\U{000C}' || c == ' ' || c == '\U{00A0}'
    || c == '\U{1680}' || ('\U{2000}' <= c <= '\U{200A}') || c == '\U{202F}'
    || c == '\U{205F}' || c == '\U{3000}' || c == '\U{FEFF}'
  }

  predicate IsAsciiUpper(c: char) { 'A' <= c <= 'Z' }

  predicate IsAsciiLower(c: char) { 'a' <= c <= 'z' }

  function ToAsciiLower(c: char): (r: char)
    ensures !IsAsciiUpper(r)
    ensures !IsAsciiUpper(c) ==> r == c
  {
    if IsAsciiUpper(c) then (c as int + 32) as char else c
  }

  function ToAsciiUpper(c: char): (r: char)
    ensures !IsAsciiLower(r)
    ensures !IsAsciiLower(c) ==> r == c
  {
    if IsAsciiLower(c) then (c as int - 32) as char else c
  }

  /** `toLowerCase()` restricted to ASCII letters. */
  function LowerAscii(s: string): (r: string)
    ensures |r| == |s|
    ensures forall i :: 0 <= i < |s| ==> r[i] == ToAsciiLower(s[i])
  {
    seq(|s|, i requires 0 <= i < |s| => ToAsciiLower(s[i]))
  }

  /** The first index at or after `from` that holds `c`, or `|s|` when there is none. */
  function IndexOf(s: string, c: char, from: nat): (r: nat)
    requires from <= |s|
    ensures from <= r <= |s|
    ensures r < |s| ==> s[r] == c
    ensures forall k :: from <= k < r ==> s[k] != c
    decreases |s| - from
  {
    if from == |s| || s[from] == c then from else IndexOf(s, c, from + 1)
  }

  /** The first index at or after `from` whose character satisfies `stop`, or `|s|` when there is none. */
  function FindFrom(s: string, stop: char -> bool, from: nat): (r: nat)
    requires from <= |s|
    ensures from <= r <= |s|
    ensures r < |s| ==> stop(s[r])
    ensures forall k :: from <= k < r ==> !stop(s[k])
    decreases |s| - from
  {
    if from == |s| || stop(s[from]) then from else FindFrom(s, stop, from + 1)
  }

  /** The last index in `[lo, hi)` that holds `c`, if there is one. */
  function LastIndexIn(s: string, c: char, lo: nat, hi: nat): (r: Option<nat>)
    requires lo <= hi <= |s|
    ensures r.Some? ==> lo <= r.value < hi && s[r.value] == c && forall k :: r.value < k < hi ==> s[k] != c
    ensures r.None? ==> forall k :: lo <= k < hi ==> s[k] != c
    decreases hi - lo
  {
    if lo == hi then None else if s[hi - 1] == c then Some(hi - 1) else LastIndexIn(s, c, lo, hi - 1)
  }

  /** `s.includes(sub)`, which is also what a regular expression made of plain letters tests. */
  predicate Contains(s: string, sub: string) {
    exists i :: 0 <= i <= |s| - |sub| && OccursAt(s, sub, i)
  }

  predicate OccursAt(s: string, sub: string, i: nat)
    requires i + |sub| <= |s|
  {
    s[i..i + |sub|] == sub
  }

  /** `s.split(sep)` for a one-character separator: never empty, and no piece holds `sep`. */
  function Split(s: string, sep: char): (parts: seq<string>)
    ensures |parts| >= 1
    ensures forall i :: 0 <= i < |parts| ==> sep !in parts[i]
    decreases |s|
  {
    var i := IndexOf(s, sep, 0);
    if i == |s| then [s] else [s[..i]] + Split(s[i + 1..], sep)
  }

  /** `parts.join(sep)` for a one-character separator. */
  function Join(parts: seq<string>, sep: char): string
  {
    if |parts| == 0 then ""
    else if |parts| == 1 then parts[0]
    else parts[0] + [sep] + Join(parts[1..], sep)
  }

  /** Every character of a join is the separator or a character of one of the pieces. */
  lemma {:induction false} JoinCharacters(parts: seq<string>, sep: char)
    ensures forall c :: c in Join(parts, sep) ==> c == sep || exists i :: 0 <= i < |parts| && c in parts[i]
    decreases |parts|
  {
    if |parts| > 1 {
      JoinCharacters(parts[1..], sep);
      assert forall i :: 1 <= i < |parts| ==> parts[i] == parts[1..][i - 1];
    }
  }

  /** Splitting at a separator placed between two strings splits each of them separately. */
  lemma {:induction false} SplitAround(a: string, b: string, sep: char)
    ensures Split(a + [sep] + b, sep) == Split(a, sep) + Split(b, sep)
    decreases |a|
  {
    var i := IndexOf(a, sep, 0);
    if i == |a| {
      SplitAroundLast(a, b, sep);
    } else {
      SplitAround(a[i + 1..], b, sep);
      SplitAroundFirst(a, b, sep);
    }
  }

  /** When `a` holds no separator, the added one is the first. */
  lemma SplitAroundLast(a: string, b: string, sep: char)
    requires IndexOf(a, sep, 0) == |a|
    ensures Split(a + [sep] + b, sep) == Split(a, sep) + Split(b, sep)
  {
    var x := a + [sep] + b;
    assert forall k :: 0 <= k < |a| ==> x[k] == a[k];
    assert x[|a|] == sep;
    assert IndexOf(x, sep, 0) == |a|;
    assert x[..|a|] == a && x[|a| + 1..] == b;
    assert Split(x, sep) == [a] + Split(b, sep);
  }

  /** When `a` holds a separator, both splits take the same first piece and go on with the rest. */
  lemma SplitAroundFirst(a: string, b: string, sep: char)
    requires IndexOf(a, sep, 0) < |a|
    requires Split(a[IndexOf(a, sep, 0) + 1..] + [sep] + b, sep)
             == Split(a[IndexOf(a, sep, 0) + 1..], sep) + Split(b, sep)
    ensures Split(a + [sep] + b, sep) == Split(a, sep) + Split(b, sep)
  {
    var i := IndexOf(a, sep, 0);
    SplitFirstPiece(a, b, sep);
    SplitStep(a, sep);
    AppendChain(Split(a + [sep] + b, sep), Split(a, sep), Split(b, sep), [a[..i]], Split(a[i + 1..], sep));
  }

  /** Appending a separator and more text to `a` keeps the first piece of `a`'s split. */
  lemma SplitFirstPiece(a: string, b: string, sep: char)
    requires IndexOf(a, sep, 0) < |a|
    ensures Split(a + [sep] + b, sep) == [a[..IndexOf(a, sep, 0)]] + Split(a[IndexOf(a, sep, 0) + 1..] + [sep] + b, sep)
  {
    FirstSeparatorKept(a, b, sep);
    SplitStep(a + [sep] + b, sep);
  }

  /** Appending a separator and more text keeps the first separator of `a`, and what comes before it. */
  lemma FirstSeparatorKept(a: string, b: string, sep: char)
    requires IndexOf(a, sep, 0) < |a|
    ensures IndexOf(a + [sep] + b, sep, 0) == IndexOf(a, sep, 0)
    ensures (a + [sep] + b)[..IndexOf(a, sep, 0)] == a[..IndexOf(a, sep, 0)]
    ensures (a + [sep] + b)[IndexOf(a, sep, 0) + 1..] == a[IndexOf(a, sep, 0) + 1..] + [sep] + b
  {
    var x := a + [sep] + b;
    var i := IndexOf(a, sep, 0);
    assert forall k :: 0 <= k < |a| ==> x[k] == a[k];
    assert IndexOf(x, sep, 0) == i;
    assert x[..i] == a[..i];
    assert x[i + 1..] == a[i + 1..] + [sep] + b;
  }

  /** One step of `Split`: the piece before the first separator, then the split of the rest. */
  lemma SplitStep(s: string, sep: char)
    ensures IndexOf(s, sep, 0) < |s| ==>
              Split(s, sep) == [s[..IndexOf(s, sep, 0)]] + Split(s[IndexOf(s, sep, 0) + 1..], sep)
  {
  }

  /** Joining the pieces of a split gives the string back. */
  lemma {:induction false} JoinSplit(s: string, sep: char)
    ensures Join(Split(s, sep), sep) == s
    decreases |s|
  {
    var i := IndexOf(s, sep, 0);
    if i < |s| {
      var parts := Split(s, sep);
      var rest := Split(s[i + 1..], sep);
      JoinSplit(s[i + 1..], sep);
      SplitStep(s, sep);
      assert parts == [s[..i]] + rest && parts[1..] == rest;
      assert Join(parts, sep) == s[..i] + [sep] + Join(rest, sep);
      assert s == s[..i] + [sep] + s[i + 1..];
    }
  }

  /** Splitting a join of separator-free pieces gives the pieces back. */
  lemma {:induction false} SplitJoin(parts: seq<string>, sep: char)
    requires |parts| >= 1
    requires forall i :: 0 <= i < |parts| ==> sep !in parts[i]
    ensures Split(Join(parts, sep), sep) == parts
    decreases |parts|
  {
    if |parts| == 1 {
      var i := IndexOf(parts[0], sep, 0);
      assert i == |parts[0]|;
    } else {
      var rest := Join(parts[1..], sep);
      assert Join(parts, sep) == parts[0] + [sep] + rest;
      assert IndexOf(parts[0], sep, 0) == |parts[0]|;
      SplitAroundLast(parts[0], rest, sep);
      SplitJoin(parts[1..], sep);
      assert parts == [parts[0]] + parts[1..];
    }
  }

  function TrimStart(s: string): (r: string)
    ensures |r| <= |s| && r == s[|s| - |r|..]
    ensures |r| > 0 ==> !IsJsWhitespace(r[0])
    ensures forall j :: 0 <= j < |s| - |r| ==> IsJsWhitespace(s[j])
    decreases |s|
  {
    if |s| > 0 && IsJsWhitespace(s[0]) then TrimStart(s[1..]) else s
  }

  function TrimEnd(s: string): (r: string)
    ensures |r| <= |s| && r == s[..|r|]
    ensures |r| > 0 ==> !IsJsWhitespace(r[|r| - 1])
    ensures forall j :: |r| <= j < |s| ==> IsJsWhitespace(s[j])
    decreases |s|
  {
    if |s| > 0 && IsJsWhitespace(s[|s| - 1]) then TrimEnd(s[..|s| - 1]) else s
  }

  /** `s.trim()`: the longest inner piece of `s` with no white space at either end. */
  function Trim(s: string): (r: string)
    ensures |r| == 0 || (!IsJsWhitespace(r[0]) && !IsJsWhitespace(r[|r| - 1]))
    ensures exists a, b :: 0 <= a <= b <= |s| && r == s[a..b]
              && (forall j :: 0 <= j < a ==> IsJsWhitespace(s[j]))
              && (forall j :: b <= j < |s| ==> IsJsWhitespace(s[j]))
  {
    TrimmedBetween(s, TrimStart(s), TrimEnd(TrimStart(s)));
    TrimEnd(TrimStart(s))
  }

  /**
   * Cutting leading white space from `s` to get `t`, then trailing white space from `t` to get
   * `r`, leaves the slice of `s` between its white space at either end.
   */
  lemma TrimmedBetween(s: string, t: string, r: string)
    requires |t| <= |s| && t == s[|s| - |t|..]
    requires |t| > 0 ==> !IsJsWhitespace(t[0])
    requires forall j :: 0 <= j < |s| - |t| ==> IsJsWhitespace(s[j])
    requires |r| <= |t| && r == t[..|r|]
    requires |r| > 0 ==> !IsJsWhitespace(r[|r| - 1])
    requires forall j :: |r| <= j < |t| ==> IsJsWhitespace(t[j])
    ensures |r| == 0 || (!IsJsWhitespace(r[0]) && !IsJsWhitespace(r[|r| - 1]))
    ensures exists a, b :: 0 <= a <= b <= |s| && r == s[a..b]
              && (forall j :: 0 <= j < a ==> IsJsWhitespace(s[j]))
              && (forall j :: b <= j < |s| ==> IsJsWhitespace(s[j]))
  {
    var a := |s| - |t|;
    assert |r| > 0 ==> r[0] == t[0];
    assert r == s[a..a + |r|];
    forall j | a + |r| <= j < |s| ensures IsJsWhitespace(s[j]) {
      assert s[j] == t[j - a];
    }
  }

  /** Trimming only removes characters from the ends, so it adds none. */
  lemma TrimKeepsCharacters(s: string)
    ensures forall c :: c in Trim(s) ==> c in s
  {
    var a := TrimStart(s);
    assert a == s[|s| - |a|..];
    var b := TrimEnd(a);
    assert b == a[..|b|];
  }

  /** A string with no white space at either end is its own trim. */
  lemma TrimUnpadded(s: string)
    requires |s| == 0 || (!IsJsWhitespace(s[0]) && !IsJsWhitespace(s[|s| - 1]))
    ensures Trim(s) == s
  {
  }
}
