/** String helpers shared by the validator and the formatter: occurrence counting,
    first/last index of a character, and JavaScript's `String.prototype.split` with a
    one-character separator, together with its inverse `Join`. */
module Strings {

  /** Number of occurrences of `c` in `s`. */
  function Count(s: string, c: char): nat {
    multiset(s)[c]
  }

  /** Index of the first occurrence of `c` (JavaScript `indexOf`). */
  function IndexOf(s: string, c: char): (i: nat)
    requires c in s
    ensures i < |s| && s[i] == c
    ensures c !in s[..i]
  {
    if s[0] == c then 0
    else
      var j := IndexOf(s[1..], c);
      assert s[..j + 1] == [s[0]] + s[1..][..j];
      j + 1
  }

  /** Index of the last occurrence of `c` (JavaScript `lastIndexOf`). */
  function LastIndexOf(s: string, c: char): (i: nat)
    requires c in s
    ensures i < |s| && s[i] == c
    ensures c !in s[i + 1..]
  {
    if s[|s| - 1] == c then |s| - 1
    else
      var init := s[..|s| - 1];
      assert c in init by {
        var k :| 0 <= k < |s| && s[k] == c;
        assert init[k] == c;
      }
      var j := LastIndexOf(init, c);
      assert s[j + 1..] == init[j + 1..] + [s[|s| - 1]];
      j
  }

  /** The first index is the only position of `c` with no earlier `c`. */
  lemma IndexOfUnique(s: string, c: char, a: nat)
    requires a < |s| && s[a] == c && c !in s[..a]
    ensures IndexOf(s, c) == a
  {
  }

  /** The last index is the only position of `c` with no later `c`. */
  lemma LastIndexOfUnique(s: string, c: char, d: nat)
    requires d < |s| && s[d] == c && c !in s[d + 1..]
    ensures LastIndexOf(s, c) == d
  {
  }

  lemma DropDrop(s: string, m: nat, n: nat)
    requires m + n <= |s|
    ensures s[m..][n..] == s[m + n..]
  {
  }

  lemma SliceDrop(s: string, m: nat, a: nat, b: nat)
    requires m <= a <= b <= |s|
    ensures s[m..][a - m..b - m] == s[a..b]
  {
  }

  /** The last occurrence in a suffix that holds `c` is the last occurrence overall. */
  lemma LastIndexOfSuffix(s: string, m: nat, c: char)
    requires m <= |s| && c in s[m..]
    ensures c in s && LastIndexOf(s, c) == m + LastIndexOf(s[m..], c)
  {
    var e := LastIndexOf(s[m..], c);
    assert s[m + e] == c;
    DropDrop(s, m, e + 1);
    LastIndexOfUnique(s, c, m + e);
  }

  /** Concatenation of `parts` with `sep` between neighbours (JavaScript `join`). */
  function Join(parts: seq<string>, sep: char): string
  {
    if |parts| == 0 then ""
    else if |parts| == 1 then parts[0]
    else parts[0] + [sep] + Join(parts[1..], sep)
  }

  /** JavaScript `s.split(sep)` for a one-character separator: the pieces between
      separators, always at least one (the whole string when `sep` is absent). */
  function Split(s: string, sep: char): (parts: seq<string>)
    ensures |parts| == Count(s, sep) + 1
    ensures forall k :: 0 <= k < |parts| ==> sep !in parts[k]
    ensures Join(parts, sep) == s
    decreases |s|
  {
    if sep !in s then
      assert multiset(s)[sep] == 0;
      [s]
    else
      var i := IndexOf(s, sep);
      var rest := Split(s[i + 1..], sep);
      assert s == s[..i] + [s[i]] + s[i + 1..];
      assert multiset(s[..i])[sep] == 0;
      assert multiset(s) == multiset(s[..i]) + multiset([s[i]]) + multiset(s[i + 1..]);
      assert ([s[..i]] + rest)[1..] == rest;
      [s[..i]] + rest
  }

  /** When `sep` is absent, `s` is its own only piece. */
  lemma SplitWithoutSeparator(s: string, sep: char)
    requires sep !in s
    ensures Split(s, sep) == [s]
  {
  }

  /** With `sep` present, the first piece is everything before its first occurrence
      and the second piece is everything after it, up to the next occurrence. */
  lemma SplitFirstPieces(s: string, sep: char)
    requires sep in s
    ensures |Split(s, sep)| >= 2
    ensures Split(s, sep)[0] == s[..IndexOf(s, sep)]
    ensures Split(s, sep)[1] == Split(s[IndexOf(s, sep) + 1..], sep)[0]
  {
    assert s[IndexOf(s, sep)] == sep;
    assert Count(s, sep) >= 1;
  }

  /** `Split` inverts `Join` on pieces free of the separator. */
  lemma {:induction false} SplitJoin(parts: seq<string>, sep: char)
    requires |parts| >= 1
    requires forall k :: 0 <= k < |parts| ==> sep !in parts[k]
    ensures Split(Join(parts, sep), sep) == parts
    decreases |parts|
  {
    if |parts| == 1 {
      SplitWithoutSeparator(parts[0], sep);
    } else {
      var s := Join(parts, sep);
      var tail := Join(parts[1..], sep);
      assert s == parts[0] + [sep] + tail;
      assert s[|parts[0]|] == sep;
      assert s[..|parts[0]|] == parts[0];
      IndexOfUnique(s, sep, |parts[0]|);
      assert s[|parts[0]| + 1..] == tail;
      SplitJoin(parts[1..], sep);
      assert Split(s, sep) == [parts[0]] + parts[1..];
    }
  }

  /** Every segment of `s` longer than `n` contains `c`: no run of characters other
      than `c` is longer than `n`. */
  ghost predicate NoRunLonger(s: string, c: char, n: nat)
  {
    forall i, j :: 0 <= i <= j <= |s| && j - i > n ==> c in s[i..j]
  }

  /** A string without `c` is itself one run. */
  lemma NoRunLongerWithout(s: string, c: char, n: nat)
    requires c !in s
    ensures NoRunLonger(s, c, n) <==> |s| <= n
  {
    if |s| > n {
      assert s[0..|s|] == s;
    }
  }

  /** No long run before the first `c` and none after it means none anywhere. */
  lemma NoRunLongerCons(s: string, c: char, n: nat)
    requires c in s
    ensures NoRunLonger(s, c, n)
        <==> IndexOf(s, c) <= n && NoRunLonger(s[IndexOf(s, c) + 1..], c, n)
  {
    if NoRunLonger(s, c, n) {
      NoRunLongerHead(s, c, n);
      NoRunLongerSuffix(s, c, n, IndexOf(s, c) + 1);
    }
    if IndexOf(s, c) <= n && NoRunLonger(s[IndexOf(s, c) + 1..], c, n) {
      NoRunLongerJoin(s, c, n);
    }
  }

  lemma NoRunLongerHead(s: string, c: char, n: nat)
    requires c in s && NoRunLonger(s, c, n)
    ensures IndexOf(s, c) <= n
  {
    var i := IndexOf(s, c);
    if n + 1 <= |s| {
      assert c in s[0..n + 1];
      var k :| 0 <= k < n + 1 && s[0..n + 1][k] == c;
      assert s[k] == c;
    }
  }

  lemma NoRunLongerSuffix(s: string, c: char, n: nat, m: nat)
    requires m <= |s| && NoRunLonger(s, c, n)
    ensures NoRunLonger(s[m..], c, n)
  {
    var rest := s[m..];
    forall a, b | 0 <= a <= b <= |rest| && b - a > n
      ensures c in rest[a..b]
    {
      assert c in s[m + a..m + b];
      assert rest[a..b] == s[m + a..m + b];
    }
  }

  lemma NoRunLongerJoin(s: string, c: char, n: nat)
    requires c in s
    requires IndexOf(s, c) <= n && NoRunLonger(s[IndexOf(s, c) + 1..], c, n)
    ensures NoRunLonger(s, c, n)
  {
    var i := IndexOf(s, c);
    var rest := s[i + 1..];
    forall a, b | 0 <= a <= b <= |s| && b - a > n
      ensures c in s[a..b]
    {
      if a <= i {
        assert s[a..b][i - a] == c;
      } else {
        var m := i + 1;
        assert c in rest[a - m..b - m];
        SliceDrop(s, m, a, b);
      }
    }
  }

  /** Every piece is at most `n` long. */
  ghost predicate PiecesAtMost(parts: seq<string>, n: nat)
  {
    forall k :: 0 <= k < |parts| ==> |parts[k]| <= n
  }

  lemma PiecesAtMostCons(first: string, rest: seq<string>, n: nat)
    ensures PiecesAtMost([first] + rest, n) <==> |first| <= n && PiecesAtMost(rest, n)
  {
    var parts := [first] + rest;
    if |first| <= n && PiecesAtMost(rest, n) {
      forall k | 0 <= k < |parts|
        ensures |parts[k]| <= n
      {
        if k > 0 {
          assert parts[k] == rest[k - 1];
        }
      }
    }
    if PiecesAtMost(parts, n) {
      assert parts[0] == first;
      forall k | 0 <= k < |rest|
        ensures |rest[k]| <= n
      {
        assert parts[k + 1] == rest[k];
      }
    }
  }

  /** The pieces of `s.split(c)` are all at most `n` long exactly when `s` has no run of
      more than `n` characters other than `c`. */
  lemma {:induction false} SplitPiecesAtMost(s: string, c: char, n: nat)
    ensures PiecesAtMost(Split(s, c), n) <==> NoRunLonger(s, c, n)
    decreases |s|
  {
    var parts := Split(s, c);
    if c !in s {
      assert parts == [s];
      NoRunLongerWithout(s, c, n);
    } else {
      var i := IndexOf(s, c);
      var tail := Split(s[i + 1..], c);
      SplitPiecesAtMost(s[i + 1..], c, n);
      NoRunLongerCons(s, c, n);
      assert parts == [s[..i]] + tail;
      PiecesAtMostCons(s[..i], tail, n);
    }
  }
}
