/**
 * The few string operations of the Swift standard library and Foundation that
 * the codecs rely on, each given an explicit definition. A string is a
 * sequence of characters; a character is ASCII when its code is below 128.
 */
module Text {

  /** `Character.isASCII`. */
  predicate IsAscii(c: char) {
    c as int < 128
  }

  predicate AllAscii(s: seq<char>) {
    forall i :: 0 <= i < |s| ==> IsAscii(s[i])
  }

  /** `asciiValue` of every character of an all-ASCII string. */
  function AsciiCodes(s: seq<char>): (r: seq<nat>)
    requires AllAscii(s)
    ensures |r| == |s| && forall i :: 0 <= i < |s| ==> r[i] < 128 && r[i] == s[i] as int
  {
    seq(|s|, i requires 0 <= i < |s| => s[i] as int)
  }

  /** `Array(repeating: x, count: n)`. */
  function Repeat<T>(x: T, n: nat): (r: seq<T>)
    ensures |r| == n && forall i :: 0 <= i < n ==> r[i] == x
  {
    seq(n, _ => x)
  }

  /** A sequence of at least two elements is what precedes its last two, then those two. */
  lemma LastTwo<T>(s: seq<T>)
    requires |s| >= 2
    ensures s == s[..|s| - 2] + [s[|s| - 2], s[|s| - 1]]
  {
  }

  /** Concatenation is associative. */
  lemma Associative<T>(a: seq<T>, b: seq<T>, c: seq<T>)
    ensures (a + b) + c == a + (b + c)
  {
  }

  /** The last c elements of the second part, all equal to x, are the last c of the concatenation. */
  lemma SuffixOf<T>(s: seq<T>, g: seq<T>, c: nat, x: T)
    requires c <= |g| && forall j :: |g| - c <= j < |g| ==> g[j] == x
    ensures forall j :: |s + g| - c <= j < |s + g| ==> (s + g)[j] == x
  {
    forall j | |s + g| - c <= j < |s + g|
      ensures (s + g)[j] == x
    {
      assert (s + g)[j] == g[j - |s|];
    }
  }

  /** `String.filter`: the characters that satisfy `keep`, in order. */
  function Filter(s: seq<char>, keep: char -> bool): (r: seq<char>)
    ensures |r| <= |s|
    ensures forall i :: 0 <= i < |r| ==> keep(r[i]) && r[i] in s
  {
    if |s| == 0 then []
    else (if keep(s[0]) then [s[0]] else []) + Filter(s[1..], keep)
  }

  lemma {:induction false} FilterAppend(x: seq<char>, y: seq<char>, keep: char -> bool)
    ensures Filter(x + y, keep) == Filter(x, keep) + Filter(y, keep)
    decreases |x|
  {
    if |x| == 0 {
      assert x + y == y;
    } else {
      assert (x + y)[1..] == x[1..] + y;
      FilterAppend(x[1..], y, keep);
    }
  }

  /** Filtering keeps a string whose characters all satisfy the predicate. */
  lemma {:induction false} FilterKeepsAll(s: seq<char>, keep: char -> bool)
    requires forall i :: 0 <= i < |s| ==> keep(s[i])
    ensures Filter(s, keep) == s
    decreases |s|
  {
    if |s| > 0 {
      FilterKeepsAll(s[1..], keep);
    }
  }

  /** Filtering removes a string none of whose characters satisfies the predicate. */
  lemma {:induction false} FilterDropsAll(s: seq<char>, keep: char -> bool)
    requires forall i :: 0 <= i < |s| ==> !keep(s[i])
    ensures Filter(s, keep) == []
    decreases |s|
  {
    if |s| > 0 {
      FilterDropsAll(s[1..], keep);
    }
  }

  /** The predicate `{ $0 == c }`. */
  function EqualTo(c: char): char -> bool {
    x => x == c
  }

  /** `[Substring].joined(separator:)`. */
  function Joined(parts: seq<seq<char>>, separator: seq<char>): (r: seq<char>)
    ensures |parts| == 1 ==> r == parts[0]
  {
    if |parts| == 0 then []
    else if |parts| == 1 then parts[0]
    else parts[0] + separator + Joined(parts[1..], separator)
  }

  predicate HasPrefix(s: seq<char>, prefix: seq<char>) {
    |prefix| <= |s| && s[..|prefix|] == prefix
  }

  predicate HasSuffix(s: seq<char>, suffix: seq<char>) {
    |suffix| <= |s| && s[|s| - |suffix|..] == suffix
  }

  /**
   * Foundation's `replacingOccurrences(of: target, with: replacement)`:
   * scanning left to right, every occurrence of `target` that does not
   * overlap an earlier replaced one is replaced; an empty target changes
   * nothing.
   */
  function ReplacingOccurrences(s: seq<char>, target: seq<char>, replacement: seq<char>): (r: seq<char>)
    decreases |s|
  {
    if |target| == 0 || |s| == 0 then s
    else if HasPrefix(s, target) then replacement + ReplacingOccurrences(s[|target|..], target, replacement)
    else [s[0]] + ReplacingOccurrences(s[1..], target, replacement)
  }

  /** Text that cannot start an occurrence of the target passes through unchanged. */
  lemma {:induction false} ReplacingSkipsUnmatched(x: seq<char>, y: seq<char>, target: seq<char>, replacement: seq<char>)
    requires |target| > 0 && forall i :: 0 <= i < |x| ==> x[i] != target[0]
    ensures ReplacingOccurrences(x + y, target, replacement) == x + ReplacingOccurrences(y, target, replacement)
    decreases |x|
  {
    if |x| == 0 {
      assert x + y == y;
    } else {
      assert (x + y)[0] == x[0];
      assert (x + y)[1..] == x[1..] + y;
      ReplacingSkipsUnmatched(x[1..], y, target, replacement);
    }
  }

  /** A leading occurrence is replaced. */
  lemma ReplacingLeading(y: seq<char>, target: seq<char>, replacement: seq<char>)
    requires |target| > 0
    ensures ReplacingOccurrences(target + y, target, replacement) == replacement + ReplacingOccurrences(y, target, replacement)
  {
    assert HasPrefix(target + y, target);
    assert (target + y)[|target|..] == y;
  }

  /** Replacing a single character commutes with concatenation. */
  lemma {:induction false} ReplacingCharAppend(x: seq<char>, y: seq<char>, c: char, replacement: seq<char>)
    ensures ReplacingOccurrences(x + y, [c], replacement)
         == ReplacingOccurrences(x, [c], replacement) + ReplacingOccurrences(y, [c], replacement)
    decreases |x|
  {
    if |x| == 0 {
      assert x + y == y;
    } else {
      assert (x + y)[0] == x[0];
      assert (x + y)[1..] == x[1..] + y;
      ReplacingCharAppend(x[1..], y, c, replacement);
    }
  }

  /** Replacing a character that does not occur changes nothing. */
  lemma ReplacingAbsentChar(s: seq<char>, c: char, replacement: seq<char>)
    requires forall i :: 0 <= i < |s| ==> s[i] != c
    ensures ReplacingOccurrences(s, [c], replacement) == s
  {
    ReplacingSkipsUnmatched(s, [], [c], replacement);
    assert s + [] == s;
  }
}
