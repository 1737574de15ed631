/**
 * The two string operations the program is built from: splitting a string at every
 * occurrence of a one-character separator (Rust's `str::split` with a one-character
 * pattern) and joining a list of strings with a separator between consecutive
 * entries (Rust's `[String]::join`).
 */
module Text {

  /** Number of occurrences of `c` in `s`. */
  function Count(s: string, c: char): (n: nat)
    ensures n <= |s|
    ensures n == 0 <==> c !in s
  {
    if s == [] then 0
    else
      assert s == [s[0]] + s[1..];
      (if s[0] == c then 1 else 0) + Count(s[1..], c)
  }

  /**
   * The pieces of `s` between occurrences of `sep`, in order. Empty pieces are kept:
   * the empty string splits into one empty piece, and a separator at either end or
   * two adjacent separators give an empty piece.
   */
  function Split(s: string, sep: char): (parts: seq<string>)
    ensures |parts| == Count(s, sep) + 1
    ensures forall i :: 0 <= i < |parts| ==> sep !in parts[i]
    decreases |s|
  {
    if s == [] then [""]
    else
      var rest := Split(s[1..], sep);
      if s[0] == sep then [""] + rest
      else [[s[0]] + rest[0]] + rest[1..]
  }

  /** The entries of `parts` with `sep` between consecutive ones; no entries give "". */
  function Join(parts: seq<string>, sep: string): (s: string)
    ensures parts == [] ==> s == ""
    ensures parts != [] ==> |s| >= |parts[0]|
  {
    if |parts| == 0 then ""
    else if |parts| == 1 then parts[0]
    else parts[0] + sep + Join(parts[1..], sep)
  }

  /** Sum of the lengths of the entries of `parts`. */
  function TotalLength(parts: seq<string>): nat
  {
    if parts == [] then 0 else |parts[0]| + TotalLength(parts[1..])
  }

  /** Offset at which `parts[i]` begins in `Join(parts, [sep])` for a one-character `sep`. */
  function SegmentStart(parts: seq<string>, i: nat): nat
    requires i <= |parts|
  {
    if i == 0 then 0 else |parts[0]| + 1 + SegmentStart(parts[1..], i - 1)
  }

  predicate SeparatorFree(parts: seq<string>, sep: char)
  {
    forall k :: 0 <= k < |parts| ==> sep !in parts[k]
  }

  lemma JoinCons(x: string, parts: seq<string>, sep: string)
    requires parts != []
    ensures Join([x] + parts, sep) == x + sep + Join(parts, sep)
  {
    assert ([x] + parts)[1..] == parts;
  }

  /** Joining the pieces of a split with the same separator gives the string back. */
  lemma {:induction false} JoinSplit(s: string, sep: char)
    ensures Join(Split(s, sep), [sep]) == s
    decreases |s|
  {
    if s != [] {
      var rest := Split(s[1..], sep);
      JoinSplit(s[1..], sep);
      assert s == [s[0]] + s[1..];
      if s[0] == sep {
        assert Split(s, sep) == [""] + rest;
        JoinCons("", rest, [sep]);
      } else {
        JoinSplitFirst(s[0], rest, sep);
        assert Split(s, sep) == [[s[0]] + rest[0]] + rest[1..];
      }
    }
  }

  /** Prepending a character to the first entry prepends it to the joined string. */
  lemma JoinSplitFirst(c: char, parts: seq<string>, sep: char)
    requires parts != []
    ensures Join([[c] + parts[0]] + parts[1..], [sep]) == [c] + Join(parts, [sep])
  {
    if |parts| > 1 {
      JoinCons([c] + parts[0], parts[1..], [sep]);
      assert parts == [parts[0]] + parts[1..];
      JoinCons(parts[0], parts[1..], [sep]);
    }
  }

  /** A string without the separator splits into itself alone. */
  lemma SplitSeparatorFree(x: string, sep: char)
    requires sep !in x
    ensures Split(x, sep) == [x]
  {
    JoinSplit(x, sep);
  }

  lemma {:induction false} SplitAfterSeparator(x: string, y: string, sep: char)
    requires sep !in x
    ensures Split(x + [sep] + y, sep) == [x] + Split(y, sep)
    decreases |x|
  {
    var s := x + [sep] + y;
    if x == [] {
      assert s[1..] == y;
    } else {
      assert s[1..] == x[1..] + [sep] + y;
      SplitAfterSeparator(x[1..], y, sep);
      assert [x[0]] + x[1..] == x;
    }
  }

  /**
   * Splitting is the inverse of joining on non-empty lists of separator-free
   * entries: together with JoinSplit, the pieces of a split are the only such list
   * that joins to the string.
   */
  lemma {:induction false} SplitJoin(parts: seq<string>, sep: char)
    requires parts != [] && SeparatorFree(parts, sep)
    ensures Split(Join(parts, [sep]), sep) == parts
    decreases |parts|
  {
    if |parts| == 1 {
      SplitSeparatorFree(parts[0], sep);
    } else {
      SplitAfterSeparator(parts[0], Join(parts[1..], [sep]), sep);
      SplitJoin(parts[1..], sep);
      assert [parts[0]] + parts[1..] == parts;
    }
  }

  lemma {:induction false} CountAppend(a: string, b: string, c: char)
    ensures Count(a + b, c) == Count(a, c) + Count(b, c)
    decreases |a|
  {
    if a == [] {
      assert a + b == b;
    } else {
      assert (a + b)[1..] == a[1..] + b;
      CountAppend(a[1..], b, c);
    }
  }

  /** A one-character separator adds one character between each pair of entries. */
  lemma {:induction false} JoinLength(parts: seq<string>, sep: char)
    requires parts != []
    ensures |Join(parts, [sep])| == TotalLength(parts) + |parts| - 1
    decreases |parts|
  {
    if |parts| > 1 {
      JoinLength(parts[1..], sep);
    }
  }

  /** Appending an entry appends the separator and the entry, unless the list was empty. */
  lemma {:induction false} JoinSnoc(parts: seq<string>, x: string, sep: string)
    ensures Join(parts + [x], sep) == if parts == [] then x else Join(parts, sep) + sep + x
    decreases |parts|
  {
    if |parts| == 1 {
      assert parts + [x] == [parts[0]] + [x];
      JoinCons(parts[0], [x], sep);
    } else if |parts| > 1 {
      assert (parts + [x])[1..] == parts[1..] + [x];
      JoinSnoc(parts[1..], x, sep);
    }
  }

  /**
   * Where entry `i` sits in the joined string: it is copied verbatim starting at
   * `SegmentStart(parts, i)`, preceded by a separator unless it is the first entry,
   * and followed by a separator unless it is the last, which ends the string.
   */
  lemma {:induction false} JoinSegment(parts: seq<string>, sep: char, i: nat)
    requires i < |parts|
    ensures var s, a := Join(parts, [sep]), SegmentStart(parts, i);
      && a + |parts[i]| <= |s|
      && s[a .. a + |parts[i]|] == parts[i]
      && (i > 0 ==> s[a - 1] == sep)
      && (i + 1 < |parts| ==> a + |parts[i]| < |s| && s[a + |parts[i]|] == sep)
      && (i + 1 == |parts| ==> a + |parts[i]| == |s|)
    decreases i
  {
    if |parts| > 1 {
      var s, tail := Join(parts, [sep]), Join(parts[1..], [sep]);
      assert s == parts[0] + [sep] + tail;
      if i == 0 {
        assert s[..|parts[0]|] == parts[0];
        assert s[|parts[0]|] == sep;
      } else {
        JoinSegment(parts[1..], sep, i - 1);
        var a' := SegmentStart(parts[1..], i - 1);
        var a := |parts[0]| + 1 + a';
        var head := parts[0] + [sep];
        assert parts[1..][i - 1] == parts[i];
        assert s == head + tail && |head| == |parts[0]| + 1;
        SliceOfAppend(head, tail, a', a' + |parts[i]|);
      }
    }
  }

  lemma SliceOfAppend(x: string, y: string, j: nat, k: nat)
    requires j <= k <= |y|
    ensures (x + y)[|x| + j .. |x| + k] == y[j..k]
  {
    var lhs := (x + y)[|x| + j .. |x| + k];
    assert forall n :: 0 <= n < |lhs| ==> lhs[n] == y[j + n];
  }

  /** With separator-free entries, exactly `i` separators come before entry `i`. */
  lemma {:induction false} JoinPrefixCount(parts: seq<string>, sep: char, i: nat)
    requires i < |parts| && SeparatorFree(parts, sep)
    ensures SegmentStart(parts, i) <= |Join(parts, [sep])|
    ensures Count(Join(parts, [sep])[..SegmentStart(parts, i)], sep) == i
    decreases i
  {
    JoinSegment(parts, sep, i);
    if i > 0 {
      var s, tail := Join(parts, [sep]), Join(parts[1..], [sep]);
      assert s == parts[0] + [sep] + tail;
      JoinPrefixCount(parts[1..], sep, i - 1);
      var a' := SegmentStart(parts[1..], i - 1);
      assert s[..SegmentStart(parts, i)] == parts[0] + [sep] + tail[..a'];
      CountAppend(parts[0] + [sep], tail[..a'], sep);
      CountAppend(parts[0], [sep], sep);
    }
  }
}
