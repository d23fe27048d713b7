/**
 * The two collection helpers of Sources/Bases/Collection+Extensions.swift:
 * splitting into fixed-size chunks, and dropping a trailing run of elements.
 * Each is a loop (a method) proved against a recursive definition, and the
 * definitions' properties are proved as lemmas.
 */
module CollectionExtensions {

  import Bits

  /** The chunks of `s`: consecutive pieces of `count` elements, the last one possibly shorter. */
  function Chunked<T>(s: seq<T>, count: nat): seq<seq<T>>
    requires count > 0
    decreases |s|
  {
    if |s| == 0 then []
    else if |s| <= count then [s]
    else [s[..count]] + Chunked(s[count..], count)
  }

  /**
   * `chunks(ofCount:)`. A count of zero traps on the division that sizes the
   * result's capacity before the loop starts, so it is excluded; every
   * caller passes 2, 3, 4, 5, 8 or a checked line length.
   */
  method Chunks<T>(s: seq<T>, count: nat) returns (result: seq<seq<T>>)
    requires count > 0
    ensures result == Chunked(s, count)
  {
    var startIndex := 0;
    result := [];
    while startIndex < |s|
      invariant 0 <= startIndex <= |s|
      invariant result + Chunked(s[startIndex..], count) == Chunked(s, count)
      decreases |s| - startIndex
    {
      var endIndex := if startIndex + count <= |s| then startIndex + count else |s|;
      var rest := s[startIndex..];
      assert rest[..endIndex - startIndex] == s[startIndex..endIndex];
      assert rest[endIndex - startIndex..] == s[endIndex..];
      if |rest| <= count {
        assert rest == s[startIndex..endIndex] && s[endIndex..] == [];
      } else {
        assert rest[count..] == s[endIndex..];
      }
      assert Chunked(rest, count) == [s[startIndex..endIndex]] + Chunked(s[endIndex..], count);
      result := result + [s[startIndex..endIndex]];
      startIndex := endIndex;
    }
    assert s[startIndex..] == [];
  }

  /** The concatenation of a sequence of sequences. */
  function Flatten<T>(ss: seq<seq<T>>): (r: seq<T>)
    decreases |ss|
  {
    if |ss| == 0 then [] else ss[0] + Flatten(ss[1..])
  }

  /** Putting the chunks back together gives the original sequence. */
  lemma {:induction false} FlattenChunked<T>(s: seq<T>, count: nat)
    requires count > 0
    ensures Flatten(Chunked(s, count)) == s
    decreases |s|
  {
    if |s| > count {
      FlattenChunked(s[count..], count);
      assert Chunked(s, count)[1..] == Chunked(s[count..], count);
      assert s == s[..count] + s[count..];
    } else if |s| > 0 {
      assert Flatten(Chunked(s, count)) == s + Flatten([]);
    }
  }

  /** There are ceil(|s| / count) chunks. */
  lemma {:induction false} ChunkedCount<T>(s: seq<T>, count: nat)
    requires count > 0
    ensures |Chunked(s, count)| == (|s| + count - 1) / count
    decreases |s|
  {
    if |s| == 0 {
      Bits.DivModUnique(count - 1, count, 0, count - 1);
    } else if |s| <= count {
      Bits.DivModUnique(|s| + count - 1, count, 1, |s| - 1);
    } else {
      var rest := s[count..];
      ChunkedCount(rest, count);
      assert |Chunked(s, count)| == 1 + |Chunked(rest, count)|;
      Bits.DivStep(|rest| + count - 1, count);
    }
  }

  /**
   * Chunk i is the window of `s` that starts at i * count and holds count
   * elements, or what is left of `s`.
   */
  lemma {:induction false} ChunkAt<T>(s: seq<T>, count: nat, i: nat)
    requires count > 0 && i < |Chunked(s, count)|
    ensures i * count < |s|
    ensures Chunked(s, count)[i] == s[i * count .. if (i + 1) * count <= |s| then (i + 1) * count else |s|]
    decreases i
  {
    if i == 0 {
      assert i * count == 0;
    } else {
      assert |s| > count;
      var rest := s[count..];
      var j := i - 1;
      assert Chunked(s, count)[i] == Chunked(rest, count)[j];
      ChunkAt(rest, count, j);
      var lo := j * count;
      var hi := if (j + 1) * count <= |rest| then (j + 1) * count else |rest|;
      Bits.MulDistributes(i, 1, count);
      Bits.MulDistributes(i + 1, 1, count);
      assert rest[lo..hi] == s[lo + count .. hi + count];
    }
  }

  /** When the length is a multiple of count, every chunk is full. */
  lemma ChunkedExactly<T>(s: seq<T>, count: nat, n: nat)
    requires count > 0 && |s| == n * count
    ensures |Chunked(s, count)| == n
    ensures forall i :: 0 <= i < n ==> Chunked(s, count)[i] == s[i * count .. (i + 1) * count]
  {
    ChunkedCount(s, count);
    Bits.DivModUnique(|s| + count - 1, count, n, count - 1);
    forall i | 0 <= i < n
      ensures Chunked(s, count)[i] == s[i * count .. (i + 1) * count]
    {
      ChunkAt(s, count, i);
      Bits.MulDistributes(n, i + 1, count);
      Bits.MulAtLeast(n - i, count);
      assert (i + 1) * count <= n * count;
    }
  }

  /** Every chunk but the last holds exactly `count` elements; the last holds between one and `count`. */
  lemma {:induction false} ChunkedLengths<T>(s: seq<T>, count: nat)
    requires count > 0
    ensures forall i :: 0 <= i < |Chunked(s, count)| - 1 ==> |Chunked(s, count)[i]| == count
    ensures |Chunked(s, count)| > 0 ==> 0 < |Chunked(s, count)[|Chunked(s, count)| - 1]| <= count
    decreases |s|
  {
    if |s| > count {
      var rest := s[count..];
      ChunkedLengths(rest, count);
      var c := Chunked(s, count);
      var r := Chunked(rest, count);
      assert c == [s[..count]] + r;
      forall i | 0 < i < |c| - 1
        ensures |c[i]| == count
      {
        assert c[i] == r[i - 1];
      }
      assert c[|c| - 1] == r[|r| - 1];
    }
  }

  /** Every element of every chunk is an element of the sequence. */
  lemma ChunkedElements<T>(s: seq<T>, count: nat)
    requires count > 0
    ensures forall i, j :: 0 <= i < |Chunked(s, count)| && 0 <= j < |Chunked(s, count)[i]| ==> Chunked(s, count)[i][j] in s
  {
    forall i, j | 0 <= i < |Chunked(s, count)| && 0 <= j < |Chunked(s, count)[i]|
      ensures Chunked(s, count)[i][j] in s
    {
      ChunkAt(s, count, i);
      assert Chunked(s, count)[i][j] == s[i * count + j];
    }
  }

  /** The prefix of `s` left after dropping the longest suffix whose elements satisfy `p`. */
  function TrimmedSuffix<T>(s: seq<T>, p: T -> bool): seq<T>
    decreases |s|
  {
    if |s| == 0 then []
    else if p(s[|s| - 1]) then TrimmedSuffix(s[..|s| - 1], p)
    else s
  }

  /** `trimmingSuffix(while:)`: walks back from the end while the predicate holds. */
  method TrimmingSuffix<T>(s: seq<T>, p: T -> bool) returns (r: seq<T>)
    ensures r == TrimmedSuffix(s, p)
  {
    var end := |s|;
    assert s[..end] == s;
    while end != 0
      invariant 0 <= end <= |s|
      invariant TrimmedSuffix(s[..end], p) == TrimmedSuffix(s, p)
      decreases end
    {
      var after := end;
      end := end - 1;
      assert s[..after][..end] == s[..end];
      if !p(s[end]) {
        return s[..after];
      }
    }
    return s[..end];
  }

  /**
   * The trimmed sequence is a prefix, everything dropped satisfies the
   * predicate, and the last element kept (if any) does not.
   */
  lemma {:induction false} TrimmedSuffixSpec<T>(s: seq<T>, p: T -> bool)
    ensures |TrimmedSuffix(s, p)| <= |s| && TrimmedSuffix(s, p) == s[..|TrimmedSuffix(s, p)|]
    ensures forall j :: |TrimmedSuffix(s, p)| <= j < |s| ==> p(s[j])
    ensures |TrimmedSuffix(s, p)| > 0 ==> !p(s[|TrimmedSuffix(s, p)| - 1])
    decreases |s|
  {
    if |s| > 0 && p(s[|s| - 1]) {
      var s' := s[..|s| - 1];
      TrimmedSuffixSpec(s', p);
      var k := |TrimmedSuffix(s', p)|;
      assert s'[..k] == s[..k];
    }
  }

  /** Appending elements that satisfy the predicate does not change the result. */
  lemma {:induction false} TrimmedSuffixAppend<T>(x: seq<T>, y: seq<T>, p: T -> bool)
    requires forall j :: 0 <= j < |y| ==> p(y[j])
    ensures TrimmedSuffix(x + y, p) == TrimmedSuffix(x, p)
    decreases |y|
  {
    if |y| == 0 {
      assert x + y == x;
    } else {
      assert (x + y)[..|x + y| - 1] == x + y[..|y| - 1];
      TrimmedSuffixAppend(x, y[..|y| - 1], p);
    }
  }

  /** The predicates of the test suite: `{ $0 == 2 }` and `{ _ in true }`. */
  predicate IsTwo(x: int) {
    x == 2
  }

  predicate Always(x: int) {
    true
  }

  /** The examples of the test suite: [1, 2, 3, 4] in chunks of 3, and [1, 2, 2, 2] trimmed of its 2s, or of everything. */
  lemma Examples()
    ensures Chunked([1, 2, 3, 4], 3) == [[1, 2, 3], [4]]
    ensures TrimmedSuffix([1, 2, 2, 2], IsTwo) == [1]
    ensures TrimmedSuffix([1, 2, 2, 2], Always) == []
  {
    assert [1, 2, 3, 4][..3] == [1, 2, 3] && [1, 2, 3, 4][3..] == [4];
    var s := [1, 2, 2, 2];
    assert s[..3] == [1, 2, 2] && s[..3][..2] == [1, 2] && s[..3][..2][..1] == [1] && [1][..0] == [];
    assert TrimmedSuffix(s, IsTwo) == TrimmedSuffix([1, 2, 2], IsTwo) == TrimmedSuffix([1, 2], IsTwo) == TrimmedSuffix([1], IsTwo);
    assert TrimmedSuffix(s, Always) == TrimmedSuffix([1, 2, 2], Always) == TrimmedSuffix([1, 2], Always)
      == TrimmedSuffix([1], Always) == TrimmedSuffix([], Always);
  }
}
