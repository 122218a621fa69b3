/** Shared vocabulary: optional values, the HTTP failures the handlers abort
    with, and the decimal rendering of integers used when ids are embedded in
    URLs and session values. */
module Base {

  datatype Option<+T> = None | Some(value: T)

  /** The ways a request handler can end without its normal response. Each
      corresponds to a Flask `abort(...)` or to an uncaught Python exception,
      which Flask turns into a 500. */
  datatype Failure =
    | Unauthorized      // abort(401)
    | Forbidden         // abort(403)
    | NotFound          // abort(404)
    | Conflict          // abort(409)
    | Unprocessable     // 422, from an explicit return or a webargs validation error
    | InternalError     // an uncaught exception (AttributeError, KeyError, IntegrityError, ...)

  function StatusCode(f: Failure): (code: int)
    ensures 400 <= code < 600
    ensures code == 500 <==> f == InternalError
  {
    match f
    case Unauthorized => 401
    case Forbidden => 403
    case NotFound => 404
    case Conflict => 409
    case Unprocessable => 422
    case InternalError => 500
  }

  datatype Result<+T> = Ok(value: T) | Err(failure: Failure)

  /** A Python list comprehension `[x for x in xs if keep(x)]`: the kept
      elements, in their original order. */
  function Filter<T(!new)>(xs: seq<T>, keep: T -> bool): (r: seq<T>)
    ensures |r| <= |xs|
    ensures forall x :: x in r <==> x in xs && keep(x)
    ensures forall i :: 0 <= i < |r| ==> keep(r[i])
    decreases |xs|
  {
    if |xs| == 0 then []
    else (if keep(xs[0]) then [xs[0]] else []) + Filter(xs[1..], keep)
  }

  /** Filtering commutes with concatenation, so the kept elements keep their
      relative order. */
  lemma {:induction false} FilterAppend<T(!new)>(xs: seq<T>, ys: seq<T>, keep: T -> bool)
    ensures Filter(xs + ys, keep) == Filter(xs, keep) + Filter(ys, keep)
    decreases |xs|
  {
    if |xs| > 0 {
      assert (xs + ys)[1..] == xs[1..] + ys;
      FilterAppend(xs[1..], ys, keep);
    } else {
      assert xs + ys == ys;
    }
  }

  /** Filtering with a predicate that keeps everything changes nothing. */
  lemma {:induction false} FilterKeepsAll<T(!new)>(xs: seq<T>, keep: T -> bool)
    requires forall i :: 0 <= i < |xs| ==> keep(xs[i])
    ensures Filter(xs, keep) == xs
    decreases |xs|
  {
    if |xs| > 0 {
      var tail := xs[1..];
      forall i | 0 <= i < |tail| ensures keep(tail[i]) {
        assert tail[i] == xs[i + 1];
      }
      FilterKeepsAll(tail, keep);
      assert xs == [xs[0]] + tail;
      FilterCons(xs[0], tail, keep);
    }
  }

  /** Filtering with a predicate that keeps nothing gives the empty list. */
  lemma {:induction false} FilterKeepsNone<T(!new)>(xs: seq<T>, keep: T -> bool)
    requires forall i :: 0 <= i < |xs| ==> !keep(xs[i])
    ensures Filter(xs, keep) == []
    decreases |xs|
  {
    if |xs| > 0 {
      FilterKeepsNone(xs[1..], keep);
    }
  }

  /** Two predicates that agree on every element filter alike. */
  lemma {:induction false} FilterCongruent<T(!new)>(xs: seq<T>, p: T -> bool, q: T -> bool)
    requires forall i :: 0 <= i < |xs| ==> p(xs[i]) == q(xs[i])
    ensures Filter(xs, p) == Filter(xs, q)
    decreases |xs|
  {
    if |xs| > 0 {
      FilterCongruent(xs[1..], p, q);
    }
  }

  /** `xs` can be obtained from `ys` by deleting elements: the same elements
      in the same relative order. */
  predicate Subsequence<T(==)>(xs: seq<T>, ys: seq<T>)
    decreases |ys|
  {
    if |xs| == 0 then true
    else if |ys| == 0 then false
    else (xs[0] == ys[0] && Subsequence(xs[1..], ys[1..])) || Subsequence(xs, ys[1..])
  }

  /** Filtering with a weaker predicate keeps a superset, in the same order:
      the stricter filter's result is a subsequence of the weaker one's. */
  lemma {:induction false} FilterMonotone<T(!new)>(xs: seq<T>, strict: T -> bool, weak: T -> bool)
    requires forall i :: 0 <= i < |xs| ==> strict(xs[i]) ==> weak(xs[i])
    ensures Subsequence(Filter(xs, strict), Filter(xs, weak))
    decreases |xs|
  {
    if |xs| > 0 {
      FilterMonotone(xs[1..], strict, weak);
      var s, w := Filter(xs[1..], strict), Filter(xs[1..], weak);
      if strict(xs[0]) {
        assert Filter(xs, strict) == [xs[0]] + s;
        assert Filter(xs, weak) == [xs[0]] + w;
        assert ([xs[0]] + s)[1..] == s;
        assert ([xs[0]] + w)[1..] == w;
      } else if weak(xs[0]) {
        assert Filter(xs, strict) == s;
        assert Filter(xs, weak) == [xs[0]] + w;
        assert ([xs[0]] + w)[1..] == w;
        assert Subsequence(s, [xs[0]] + w);
      } else {
        assert Filter(xs, strict) == s && Filter(xs, weak) == w;
      }
    }
  }

  /** A filter's result is a subsequence of its input. */
  lemma FilterIsSubsequence<T(!new)>(xs: seq<T>, keep: T -> bool)
    ensures Subsequence(Filter(xs, keep), xs)
  {
    FilterMonotone(xs, keep, (x: T) => true);
    FilterKeepsAll(xs, (x: T) => true);
  }

  /** One step of filtering: the head is kept or dropped, then the tail is
      filtered. */
  lemma FilterCons<T(!new)>(x: T, xs: seq<T>, keep: T -> bool)
    ensures Filter([x] + xs, keep) == (if keep(x) then [x] else []) + Filter(xs, keep)
  {
    assert ([x] + xs)[1..] == xs;
  }

  /** Filtering four elements, one at a time. */
  lemma FilterFour<T(!new)>(a: T, b: T, c: T, d: T, keep: T -> bool)
    ensures Filter([a] + ([b] + ([c] + [d])), keep) ==
      (if keep(a) then [a] else [])
      + ((if keep(b) then [b] else [])
      + ((if keep(c) then [c] else [])
      + (if keep(d) then [d] else [])))
  {
    FilterCons(a, [b] + ([c] + [d]), keep);
    FilterCons(b, [c] + [d], keep);
    FilterCons(c, [d], keep);
    assert Filter([d], keep) == if keep(d) then [d] else [];
  }

  /** Adding an absent element and removing it again restores the set. */
  lemma AddThenRemove<T>(s: set<T>, x: T)
    requires x !in s
    ensures s + {x} - {x} == s
  {
  }

  /** Taking two elements out of a pair leaves the one not named. */
  lemma PairMinusPair<T>(a: T, b: T, c: T)
    requires b != a && b != c
    ensures {a, b} - {a, c} == {b}
  {
  }

  /** Concatenation regroups freely. */
  lemma AppendAssoc<T>(a: seq<T>, b: seq<T>, c: seq<T>)
    ensures a + b + c == a + (b + c)
  {
  }

  /** Moving the head of `ys` onto the end of `xs` keeps the whole list. */
  lemma MoveHead<T>(xs: seq<T>, ys: seq<T>)
    requires |ys| > 0
    ensures xs + [ys[0]] + ys[1..] == xs + ys
  {
    assert ys == [ys[0]] + ys[1..];
  }

  /** Membership in a list that starts with two given elements. */
  lemma InTwoThen<T>(x: T, a: T, b: T, xs: seq<T>)
    ensures x in [a, b] + xs <==> x == a || x == b || x in xs
  {
    assert ([a, b] + xs)[0] == a && ([a, b] + xs)[1] == b;
    if x in xs {
      var i :| 0 <= i < |xs| && xs[i] == x;
      assert ([a, b] + xs)[i + 2] == x;
    }
  }

  /** Right-nested concatenations of singletons are list displays. */
  lemma Singletons<T>(a: T, b: T, c: T, d: T)
    ensures [] + ([] + ([] + [a])) == [a]
    ensures [a] + ([] + ([b] + [c])) == [a, b, c]
    ensures [a] + ([b] + ([c] + [d])) == [a, b, c, d]
  {
  }

  function DigitChar(d: nat): (c: char)
    requires d < 10
    ensures '0' <= c <= '9'
  {
    "0123456789"[d]
  }

  function DigitValue(c: char): (d: nat)
    requires '0' <= c <= '9'
    ensures d < 10
    ensures DigitChar(d) == c
  {
    (c as int - '0' as int) as nat
  }

  predicate IsDigits(s: string) {
    forall i :: 0 <= i < |s| ==> '0' <= s[i] <= '9'
  }

  /** Python's `str(n)` for a non-negative integer: its decimal digits without
      leading zeros. */
  function NatToDecimal(n: nat): (s: string)
    ensures |s| >= 1 && IsDigits(s)
    ensures |s| > 1 ==> s[0] != '0'
    decreases n
  {
    if n < 10 then [DigitChar(n)]
    else NatToDecimal(n / 10) + [DigitChar(n % 10)]
  }

  /** `"{}".format(n)` for any integer. */
  function IntToDecimal(n: int): (s: string)
    ensures |s| >= 1
    ensures n >= 0 <==> s[0] != '-'
  {
    if n >= 0 then NatToDecimal(n) else "-" + NatToDecimal(-n)
  }

  /** Reads back a string of decimal digits. */
  function ParseDigits(s: string): (n: nat)
    requires IsDigits(s)
    decreases |s|
  {
    if |s| == 0 then 0
    else ParseDigits(s[..|s| - 1]) * 10 + DigitValue(s[|s| - 1])
  }

  lemma {:induction false} NatDecimalRoundTrip(n: nat)
    ensures ParseDigits(NatToDecimal(n)) == n
    decreases n
  {
    var s := NatToDecimal(n);
    if n >= 10 {
      NatDecimalRoundTrip(n / 10);
      assert s[..|s| - 1] == NatToDecimal(n / 10);
      assert DigitValue(s[|s| - 1]) == n % 10 by {
        assert s[|s| - 1] == DigitChar(n % 10);
      }
    } else {
      assert s[..0] == [];
    }
  }

  /** Reads back what `IntToDecimal` writes: an optional minus sign and
      digits. */
  function ParseInt(s: string): (n: int)
    requires |s| >= 1
    requires if s[0] == '-' then IsDigits(s[1..]) else IsDigits(s)
    ensures s[0] != '-' ==> n >= 0
  {
    if s[0] == '-' then -(ParseDigits(s[1..]) as int) else ParseDigits(s)
  }

  /** A negative number renders as a minus sign and the digits of its
      magnitude. */
  lemma NegativeDecimal(n: int)
    requires n < 0
    ensures IntToDecimal(n)[0] == '-' && IntToDecimal(n)[1..] == NatToDecimal(-n)
  {
    var s := IntToDecimal(n);
    assert s == "-" + NatToDecimal(-n);
  }

  /** Every integer reads back from its rendering. */
  lemma IntDecimalRoundTrip(n: int)
    ensures var s := IntToDecimal(n);
      (if s[0] == '-' then IsDigits(s[1..]) else IsDigits(s)) && ParseInt(s) == n
  {
    if n >= 0 {
      NatDecimalRoundTrip(n);
    } else {
      NegativeDecimal(n);
      NatDecimalRoundTrip(-n);
    }
  }

  /** Decimal rendering loses no information: two ids render alike only when
      they are equal. */
  lemma DecimalInjective(a: int, b: int)
    requires IntToDecimal(a) == IntToDecimal(b)
    ensures a == b
  {
    IntDecimalRoundTrip(a);
    IntDecimalRoundTrip(b);
  }
}
