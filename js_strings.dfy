/**
 * The ECMAScript string operations the core relies on, over Dafny strings
 * (sequences of Unicode scalar values): `startsWith`, `indexOf`, `includes`,
 * `replace` with a string pattern, `split` on a one-character separator,
 * `trim`, and the `length` property, which counts UTF-16 code units.
 */
module JsStrings {
  import opened Common

  /** `s.startsWith(p)`. */
  predicate StartsWith(s: string, p: string)
  {
    |p| <= |s| && s[..|p|] == p
  }

  /** `p` occurs in `s` starting at index `j`. */
  predicate OccursAt(s: string, p: string, j: nat)
  {
    j + |p| <= |s| && s[j..j + |p|] == p
  }

  /** `s.indexOf(p, from)` for `from <= |s|`, with -1 written as None. */
  function IndexFrom(s: string, p: string, from: nat): (r: Option<nat>)
    requires from <= |s|
    ensures r.Some? ==> from <= r.value && OccursAt(s, p, r.value)
    ensures forall j: nat :: from <= j && (r.None? || j < r.value) ==> !OccursAt(s, p, j)
    decreases |s| - from
  {
    if from + |p| > |s| then None
    else if s[from..from + |p|] == p then Some(from)
    else IndexFrom(s, p, from + 1)
  }

  /** `s.indexOf(p)`: the first occurrence of `p` in `s`. */
  function IndexOf(s: string, p: string): Option<nat>
  {
    IndexFrom(s, p, 0)
  }

  /** `s.includes(p)`. */
  predicate Includes(s: string, p: string)
  {
    IndexOf(s, p).Some?
  }

  lemma IncludesIffOccurs(s: string, p: string)
    ensures Includes(s, p) <==> exists j: nat :: OccursAt(s, p, j)
  {
    var r := IndexOf(s, p);
    if r.Some? {
      assert OccursAt(s, p, r.value);
    }
  }

  /**
   * `s.replace(p, q)` with a string pattern and a replacement without `$`
   * patterns (`q` is inserted literally): only the first occurrence is replaced.
   */
  function ReplaceFirst(s: string, p: string, q: string): string
  {
    match IndexOf(s, p)
    case None => s
    case Some(i) => s[..i] + q + s[i + |p|..]
  }

  /** Replacing a prefix by the empty string drops exactly that prefix. */
  lemma ReplacePrefixDropsIt(s: string, p: string)
    requires StartsWith(s, p)
    ensures ReplaceFirst(s, p, "") == s[|p|..]
  {
    assert OccursAt(s, p, 0);
    assert IndexOf(s, p) == Some(0);
  }

  /** The number of occurrences of `c` in `s`. */
  function Count(s: string, c: char): nat
  {
    if s == [] then 0 else (if s[0] == c then 1 else 0) + Count(s[1..], c)
  }

  /** `parts.join(d)`. */
  function Join(parts: seq<string>, d: char): string
    requires |parts| >= 1
  {
    if |parts| == 1 then parts[0] else parts[0] + [d] + Join(parts[1..], d)
  }

  /**
   * `s.split(d)` for a one-character separator: one more part than
   * there are separators, no part holds the separator, and joining the
   * parts restores `s`.
   */
  function Split(s: string, d: char): (parts: seq<string>)
    ensures |parts| == Count(s, d) + 1
    ensures forall i :: 0 <= i < |parts| ==> d !in parts[i]
    ensures Join(parts, d) == s
  {
    if s == [] then [""]
    else
      var rest := Split(s[1..], d);
      if s[0] == d then [""] + rest
      else [[s[0]] + rest[0]] + rest[1..]
  }

  /** The other half of the round trip: splitting a join gives the parts back. */
  lemma {:induction false} SplitJoin(parts: seq<string>, d: char)
    requires |parts| >= 1
    requires forall i :: 0 <= i < |parts| ==> d !in parts[i]
    ensures Split(Join(parts, d), d) == parts
  {
    if |parts| == 1 {
      SplitNoSeparator(parts[0], d);
    } else {
      SplitJoin(parts[1..], d);
      SplitAfterHead(parts[0], Join(parts[1..], d), d);
    }
  }

  lemma {:induction false} SplitNoSeparator(s: string, d: char)
    requires d !in s
    ensures Split(s, d) == [s]
  {
    if s != [] {
      SplitNoSeparator(s[1..], d);
    }
  }

  /** Splitting `a + [d] + b`, where `a` has no separator, puts `a` in front of the parts of `b`. */
  lemma {:induction false} SplitAfterHead(a: string, b: string, d: char)
    requires d !in a
    ensures Split(a + [d] + b, d) == [a] + Split(b, d)
  {
    if a == [] {
      assert ([] + [d] + b)[1..] == b;
    } else {
      SplitAfterHead(a[1..], b, d);
      assert (a + [d] + b)[1..] == a[1..] + [d] + b;
      assert [a[0]] + a[1..] == a;
    }
  }

  /** Splitting at a separator splits the two sides apart. */
  lemma {:induction false} SplitAround(a: string, b: string, d: char)
    ensures Split(a + [d] + b, d) == Split(a, d) + Split(b, d)
  {
    if a == [] {
      assert [] + [d] + b == [d] + b;
      assert ([d] + b)[1..] == b;
    } else {
      assert (a + [d] + b)[1..] == a[1..] + [d] + b;
      SplitAround(a[1..], b, d);
    }
  }

  /** The first part of `s.split(d)` is the prefix of `s` up to the first separator. */
  lemma {:induction false} SplitFirst(s: string, d: char)
    ensures var first := Split(s, d)[0];
      StartsWith(s, first) && (|first| == |s| || s[|first|] == d)
  {
    if s != [] && s[0] != d {
      SplitFirst(s[1..], d);
    }
  }

  /** The last part of `s.split(d)` is the suffix of `s` after the last separator. */
  lemma {:induction false} SplitLast(s: string, d: char)
    ensures var parts := Split(s, d); var last := parts[|parts| - 1];
      |last| <= |s| && s[|s| - |last|..] == last &&
      (|last| == |s| || s[|s| - |last| - 1] == d)
  {
    if s != [] {
      SplitLast(s[1..], d);
      var rest := Split(s[1..], d);
      if s[0] != d && |rest| == 1 {
        assert Join(rest, d) == rest[0];
      }
    }
  }

  /** ECMAScript WhiteSpace and LineTerminator code points, which `trim` removes. */
  predicate IsJsWhitespace(c: char)
  {
    var n := c as int;
    n == 0x09 || n == 0x0A || n == 0x0B || n == 0x0C || n == 0x0D || n == 0x20 ||
    n == 0xA0 || n == 0x1680 || (0x2000 <= n <= 0x200A) || n == 0x2028 ||
    n == 0x2029 || n == 0x202F || n == 0x205F || n == 0x3000 || n == 0xFEFF
  }

  /** `s.trimStart()`: the suffix of `s` left after its leading white space. */
  function TrimStart(s: string): (r: string)
    ensures |r| <= |s| && r == s[|s| - |r|..]
    ensures forall i :: 0 <= i < |s| - |r| ==> IsJsWhitespace(s[i])
    ensures r == [] || !IsJsWhitespace(r[0])
  {
    if |s| > 0 && IsJsWhitespace(s[0]) then TrimStart(s[1..]) else s
  }

  /** `s.trimEnd()`: the prefix of `s` left before its trailing white space. */
  function TrimEnd(s: string): (r: string)
    ensures |r| <= |s| && r == s[..|r|]
    ensures forall i :: |r| <= i < |s| ==> IsJsWhitespace(s[i])
    ensures r == [] || !IsJsWhitespace(r[|r| - 1])
  {
    if |s| > 0 && IsJsWhitespace(s[|s| - 1]) then TrimEnd(s[..|s| - 1]) else s
  }

  /** A prefix of the suffix from `k` is the slice starting at `k`. */
  lemma SliceOfSuffix(s: string, k: nat, n: nat)
    requires k + n <= |s|
    ensures s[k..k + n] == s[k..][..n]
  {
  }

  /** `r` sits in `s` at `k`, and everything of `s` before and after it is white space. */
  predicate TrimmedAt(s: string, r: string, k: nat)
  {
    OccursAt(s, r, k) && (forall i :: 0 <= i < k ==> IsJsWhitespace(s[i])) &&
    (forall i :: k + |r| <= i < |s| ==> IsJsWhitespace(s[i]))
  }

  /** Trimming the start and then the end leaves the slice after the leading white space. */
  lemma TrimStartThenEnd(s: string)
    ensures var t := TrimStart(s);
      TrimmedAt(s, TrimEnd(t), |s| - |t|)
  {
    var t := TrimStart(s);
    var r := TrimEnd(t);
    var k := |s| - |t|;
    assert t == s[k..];
    SliceOfSuffix(s, k, |r|);
    assert forall i :: k + |r| <= i < |s| ==> s[i] == t[i - k];
  }

  /** `s.trim()`. */
  function Trim(s: string): (r: string)
    ensures exists k: nat :: TrimmedAt(s, r, k)
    ensures r == [] || (!IsJsWhitespace(r[0]) && !IsJsWhitespace(r[|r| - 1]))
  {
    TrimStartThenEnd(s);
    TrimEnd(TrimStart(s))
  }

  /** `s.trim() === ""` holds exactly when every character of `s` is white space. */
  lemma TrimEmptyIffBlank(s: string)
    ensures Trim(s) == "" <==> forall i :: 0 <= i < |s| ==> IsJsWhitespace(s[i])
  {
  }

  /** `s.length`: characters outside the Basic Multilingual Plane count twice. */
  function Utf16Length(s: string): (n: nat)
    ensures |s| <= n <= 2 * |s|
    ensures (forall i :: 0 <= i < |s| ==> s[i] as int <= 0xFFFF) ==> n == |s|
  {
    if s == [] then 0 else (if s[0] as int > 0xFFFF then 2 else 1) + Utf16Length(s[1..])
  }
}
