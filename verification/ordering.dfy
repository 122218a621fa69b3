/** Ordering as Python does it: strings compare by code point, `str.split`
    with an explicit separator keeps empty pieces, and `sorted` is a stable
    sort driven only by a class's `__lt__`. */
module Ordering {

  /** Python's `a < b` on `str`: lexicographic by code point, a proper prefix
      coming first. */
  predicate LexLess(a: string, b: string)
    decreases |a|
  {
    if |a| == 0 then |b| > 0
    else if |b| == 0 then false
    else if a[0] != b[0] then a[0] < b[0]
    else LexLess(a[1..], b[1..])
  }

  lemma {:induction false} LexLessIrreflexive(a: string)
    ensures !LexLess(a, a)
    decreases |a|
  {
    if |a| > 0 {
      LexLessIrreflexive(a[1..]);
    }
  }

  lemma {:induction false} LexLessTransitive(a: string, b: string, c: string)
    requires LexLess(a, b) && LexLess(b, c)
    ensures LexLess(a, c)
    decreases |a|
  {
    if |a| > 0 && |b| > 0 && |c| > 0 && a[0] == b[0] && b[0] == c[0] {
      LexLessTransitive(a[1..], b[1..], c[1..]);
    }
  }

  lemma {:induction false} LexLessTrichotomy(a: string, b: string)
    ensures a == b || LexLess(a, b) || LexLess(b, a)
    decreases |a|
  {
    if |a| > 0 && |b| > 0 && a[0] == b[0] {
      LexLessTrichotomy(a[1..], b[1..]);
      if a[1..] == b[1..] {
        assert a == [a[0]] + a[1..] && b == [b[0]] + b[1..];
      }
    }
  }

  /** Python's `s.split(sep)` with an explicit separator: every occurrence of
      `sep` cuts, so adjacent or trailing separators give empty pieces. */
  function Split(s: string, sep: char): (parts: seq<string>)
    ensures |parts| >= 1
    ensures forall i :: 0 <= i < |parts| ==> sep !in parts[i]
    decreases |s|
  {
    if |s| == 0 then [""]
    else
      var rest := Split(s[1..], sep);
      if s[0] == sep then [""] + rest
      else [[s[0]] + rest[0]] + rest[1..]
  }

  function Join(parts: seq<string>, sep: char): string
    requires |parts| >= 1
    decreases |parts|
  {
    if |parts| == 1 then parts[0] else parts[0] + [sep] + Join(parts[1..], sep)
  }

  /** Splitting loses nothing: joining the pieces back with the separator gives
      the original string. */
  lemma {:induction false} SplitJoinRoundTrip(s: string, sep: char)
    ensures Join(Split(s, sep), sep) == s
    decreases |s|
  {
    if |s| > 0 {
      var rest := Split(s[1..], sep);
      SplitJoinRoundTrip(s[1..], sep);
      if s[0] == sep {
        assert Split(s, sep)[1..] == rest;
      } else {
        var parts := Split(s, sep);
        assert parts[1..] == rest[1..];
        if |rest| == 1 {
          assert Join(parts, sep) == [s[0]] + rest[0];
        } else {
          assert Join(rest, sep) == rest[0] + [sep] + Join(rest[1..], sep);
        }
        assert s == [s[0]] + s[1..];
      }
    }
  }

  lemma {:induction false} SplitWithoutSeparator(s: string, sep: char)
    requires sep !in s
    ensures Split(s, sep) == [s]
    decreases |s|
  {
    if |s| > 0 {
      assert s[0] != sep && sep !in s[1..];
      SplitWithoutSeparator(s[1..], sep);
      assert s == [s[0]] + s[1..];
    }
  }

  /** `name.split(" ")[::-1][0]`: the last space-separated piece of a name,
      used by `User.__lt__` as the surname. */
  function LastName(name: string): (w: string)
    ensures ' ' !in w
  {
    var parts := Split(name, ' ');
    parts[|parts| - 1]
  }

  /** The surname is exactly what follows the last space (the whole name when
      there is none). */
  lemma {:induction false} LastNameIsTail(name: string)
    ensures |LastName(name)| <= |name|
    ensures LastName(name) == name[|name| - |LastName(name)|..]
    ensures |LastName(name)| < |name| ==> name[|name| - |LastName(name)| - 1] == ' '
    decreases |name|
  {
    if |name| > 0 {
      LastNameIsTail(name[1..]);
      var rest := Split(name[1..], ' ');
      if name[0] != ' ' && |rest| == 1 {
        SplitJoinRoundTrip(name[1..], ' ');
        assert LastName(name) == [name[0]] + name[1..];
      } else {
        assert LastName(name) == LastName(name[1..]);
        assert name[1..][|name| - 1 - |LastName(name)|..] == name[|name| - |LastName(name)|..];
        if name[0] != ' ' && |LastName(name)| == |name| - 1 {
          SplitWithoutSeparator(name[1..], ' ');
        }
      }
    }
  }

  /** A name ending in a space and a word has that word as its surname. */
  lemma LastNameAfterSpace(first: string, last: string)
    requires ' ' !in last
    ensures LastName(first + " " + last) == last
  {
    var name := first + " " + last;
    LastNameIsTail(name);
    var n := |LastName(name)|;
    assert name[|first|] == ' ';
    // The surname holds no space, so it cannot reach back to the last one.
    forall k | |name| - n <= k < |name| ensures name[k] != ' ' {
      assert name[k] == LastName(name)[k - (|name| - n)];
    }
    // What precedes the surname is a space, so it cannot stop inside `last`.
    forall k | |first| + 1 <= k < |name| ensures name[k] != ' ' {
      assert name[k] == last[k - |first| - 1];
    }
    assert name[|name| - |last|..] == last;
  }

  /** The relation `__lt__` has to be for `sorted` to produce an ordered list:
      irreflexive, transitive, and with incomparability transitive. */
  ghost predicate StrictWeakOrder<T(!new)>(less: (T, T) -> bool) {
    && (forall a :: !less(a, a))
    && (forall a, b, c :: less(a, b) && less(b, c) ==> less(a, c))
    && (forall a, b, c :: less(a, c) ==> less(a, b) || less(b, c))
  }

  /** No later element is `__lt__` an earlier one: the order `sorted` yields. */
  ghost predicate SortedBy<T>(xs: seq<T>, less: (T, T) -> bool) {
    forall i, j :: 0 <= i < j < |xs| ==> !less(xs[j], xs[i])
  }

  /** Inserts `x` before the first element that is not strictly less than it,
      so that `x` precedes the elements it ties with. */
  function Insert<T(!new)>(x: T, ys: seq<T>, less: (T, T) -> bool): (r: seq<T>)
    ensures multiset(r) == multiset(ys) + multiset{x}
    decreases |ys|
  {
    if |ys| == 0 then [x]
    else if less(ys[0], x) then
      assert ys == [ys[0]] + ys[1..];
      [ys[0]] + Insert(x, ys[1..], less)
    else
      [x] + ys
  }

  /** Inserting into an ordered list keeps it ordered. */
  lemma {:induction false} InsertSorted<T(!new)>(x: T, ys: seq<T>, less: (T, T) -> bool)
    requires StrictWeakOrder(less)
    requires SortedBy(ys, less)
    ensures SortedBy(Insert(x, ys, less), less)
    decreases |ys|
  {
    if |ys| == 0 {
    } else if less(ys[0], x) {
      InsertSorted(x, ys[1..], less);
      var tail := Insert(x, ys[1..], less);
      forall j | 0 <= j < |tail| ensures !less(tail[j], ys[0]) {
        assert tail[j] in multiset(tail);
        if tail[j] != x {
          assert tail[j] in multiset(ys[1..]);
          var k :| 0 <= k < |ys[1..]| && ys[1..][k] == tail[j];
          assert ys[k + 1] == tail[j];
        }
      }
      var r := [ys[0]] + tail;
      forall i, j | 0 <= i < j < |r| ensures !less(r[j], r[i]) {
        assert r[j] == tail[j - 1];
        if i > 0 {
          assert r[i] == tail[i - 1];
        }
      }
    } else {
      var r := [x] + ys;
      forall i, j | 0 <= i < j < |r| ensures !less(r[j], r[i]) {
        assert r[j] == ys[j - 1];
        if i == 0 {
          assert !less(ys[j - 1], ys[0]) && !less(ys[0], x);
        } else {
          assert r[i] == ys[i - 1];
        }
      }
    }
  }

  /** Python's `sorted(xs)` for elements whose class defines `__lt__`: a stable
      sort that returns a permutation of its input in non-decreasing order. */
  function SortBy<T(!new)>(xs: seq<T>, less: (T, T) -> bool): (r: seq<T>)
    requires StrictWeakOrder(less)
    ensures multiset(r) == multiset(xs)
    ensures |r| == |xs|
    ensures SortedBy(r, less)
    decreases |xs|
  {
    if |xs| == 0 then []
    else
      assert xs == [xs[0]] + xs[1..];
      InsertSorted(xs[0], SortBy(xs[1..], less), less);
      Insert(xs[0], SortBy(xs[1..], less), less)
  }
}
