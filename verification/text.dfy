/** The Kotlin standard-library collection and string operations the
    converter relies on: `split`, `associate`, `filter` and `listOfNotNull`. */
module Text {
  import opened Wrappers

  /** The position of the first `d` in `s`, or `|s|` when there is none. */
  function IndexOf(s: string, d: char): (i: nat)
    ensures i <= |s|
    ensures i < |s| ==> s[i] == d
    ensures forall j :: 0 <= j < i ==> s[j] != d
  {
    if |s| == 0 then 0
    else if s[0] == d then 0
    else 1 + IndexOf(s[1..], d)
  }

  /** The pieces written one after another with `d` between neighbours. */
  function Join(pieces: seq<string>, d: char): string
    requires |pieces| >= 1
  {
    if |pieces| == 1 then pieces[0] else pieces[0] + [d] + Join(pieces[1..], d)
  }

  /** Kotlin's `s.split(d)`: the text between consecutive delimiters, empty
      pieces included, so there is always at least one piece. */
  function Split(s: string, d: char): (pieces: seq<string>)
    ensures |pieces| >= 1
    ensures forall i :: 0 <= i < |pieces| ==> d !in pieces[i]
    ensures Join(pieces, d) == s
    ensures |pieces| == 1 <==> d !in s
    ensures pieces[0] == s[..IndexOf(s, d)]
    decreases |s|
  {
    var i := IndexOf(s, d);
    if i == |s| then
      assert s[..i] == s;
      [s]
    else
      var rest := Split(s[i + 1..], d);
      SplitStep(s, d, rest);
      [s[..i]] + rest
  }

  /** The first piece, then the pieces of the text after the first `d`. */
  lemma SplitStep(s: string, d: char, rest: seq<string>)
    requires IndexOf(s, d) < |s|
    requires |rest| >= 1 && Join(rest, d) == s[IndexOf(s, d) + 1..]
    requires forall k :: 0 <= k < |rest| ==> d !in rest[k]
    ensures var pieces := [s[..IndexOf(s, d)]] + rest;
            && Join(pieces, d) == s
            && forall k :: 0 <= k < |pieces| ==> d !in pieces[k]
  {
    var i := IndexOf(s, d);
    var pieces := [s[..i]] + rest;
    assert pieces[1..] == rest;
    assert s == s[..i] + [d] + s[i + 1..];
    assert d !in s[..i] by {
      forall j | 0 <= j < i ensures s[..i][j] != d {
        assert s[..i][j] == s[j];
      }
    }
    forall k | 0 <= k < |pieces| ensures d !in pieces[k] {
      if k > 0 {
        assert pieces[k] == rest[k - 1];
      }
    }
  }

  /** Splitting undoes joining when no piece contains the delimiter. */
  lemma {:induction false} SplitJoin(pieces: seq<string>, d: char)
    requires |pieces| >= 1
    requires forall i :: 0 <= i < |pieces| ==> d !in pieces[i]
    ensures Split(Join(pieces, d), d) == pieces
    decreases |pieces|
  {
    var s := Join(pieces, d);
    if |pieces| == 1 {
    } else {
      var tail := Join(pieces[1..], d);
      assert s == pieces[0] + [d] + tail;
      var i := IndexOf(s, d);
      assert s[|pieces[0]|] == d;
      assert i == |pieces[0]|;
      assert s[..i] == pieces[0];
      assert s[i + 1..] == tail;
      SplitJoin(pieces[1..], d);
      assert pieces == [pieces[0]] + pieces[1..];
    }
  }

  /** Index `i` holds the last pair with its key. */
  predicate LastOfKey<K(==), V>(pairs: seq<(K, V)>, i: int)
    requires 0 <= i < |pairs|
  {
    forall j :: i < j < |pairs| ==> pairs[j].0 != pairs[i].0
  }

  /** Kotlin's `associate`: a map from the pairs, where a later pair replaces
      an earlier one with the same key. */
  function Associate<K(==, !new), V>(pairs: seq<(K, V)>): (m: map<K, V>)
    ensures forall k :: k in m <==> exists i :: 0 <= i < |pairs| && pairs[i].0 == k
    ensures forall i :: 0 <= i < |pairs| && LastOfKey(pairs, i) ==>
              pairs[i].0 in m && m[pairs[i].0] == pairs[i].1
  {
    if |pairs| == 0 then
      map[]
    else
      var front := pairs[..|pairs| - 1];
      var m := Associate(front);
      AssociateStepKeys(pairs, m);
      AssociateStepValues(pairs, m);
      m[pairs[|pairs| - 1].0 := pairs[|pairs| - 1].1]
  }

  /** Adding one pair at the end adds its key and no other. */
  lemma AssociateStepKeys<K(!new), V>(pairs: seq<(K, V)>, m: map<K, V>)
    requires |pairs| > 0
    requires var front := pairs[..|pairs| - 1];
             forall k :: k in m <==> exists i :: 0 <= i < |front| && front[i].0 == k
    ensures var m' := m[pairs[|pairs| - 1].0 := pairs[|pairs| - 1].1];
            forall k :: k in m' <==> exists i :: 0 <= i < |pairs| && pairs[i].0 == k
  {
    var front := pairs[..|pairs| - 1];
    var last := pairs[|pairs| - 1];
    var m' := m[last.0 := last.1];
    forall k ensures k in m' <==> exists i :: 0 <= i < |pairs| && pairs[i].0 == k {
      if k in m && k != last.0 {
        var i :| 0 <= i < |front| && front[i].0 == k;
        assert pairs[i] == front[i];
      }
      if exists i :: 0 <= i < |pairs| && pairs[i].0 == k {
        var i :| 0 <= i < |pairs| && pairs[i].0 == k;
        if i < |front| {
          assert front[i] == pairs[i];
        }
      }
    }
  }

  /** Adding one pair at the end keeps the value of every key's last pair. */
  lemma AssociateStepValues<K(!new), V>(pairs: seq<(K, V)>, m: map<K, V>)
    requires |pairs| > 0
    requires var front := pairs[..|pairs| - 1];
             forall i :: 0 <= i < |front| && LastOfKey(front, i) ==>
               front[i].0 in m && m[front[i].0] == front[i].1
    ensures var m' := m[pairs[|pairs| - 1].0 := pairs[|pairs| - 1].1];
            forall i :: 0 <= i < |pairs| && LastOfKey(pairs, i) ==>
              pairs[i].0 in m' && m'[pairs[i].0] == pairs[i].1
  {
    var front := pairs[..|pairs| - 1];
    var last := pairs[|pairs| - 1];
    var m' := m[last.0 := last.1];
    forall i | 0 <= i < |pairs| && LastOfKey(pairs, i)
      ensures pairs[i].0 in m' && m'[pairs[i].0] == pairs[i].1
    {
      if i < |front| {
        assert pairs[i] == front[i];
        assert LastOfKey(front, i) by {
          forall j | i < j < |front| ensures front[j].0 != front[i].0 {
            assert pairs[j] == front[j];
          }
        }
      }
    }
  }

  /** `r` holds each element that passes `keep` as often as `s` does, and
      nothing else. */
  ghost predicate KeepsCounts<T(!new)>(s: seq<T>, keep: T -> bool, r: seq<T>) {
    forall x :: multiset(r)[x] == if keep(x) then multiset(s)[x] else 0
  }

  lemma KeepsCountsCons<T(!new)>(s: seq<T>, keep: T -> bool, rest: seq<T>)
    requires |s| > 0 && KeepsCounts(s[1..], keep, rest)
    ensures KeepsCounts(s, keep, (if keep(s[0]) then [s[0]] else []) + rest)
  {
    assert s == [s[0]] + s[1..];
    assert multiset(s) == multiset([s[0]]) + multiset(s[1..]);
  }

  /** Kotlin's `filter`: the elements satisfying `keep`, in their original order. */
  function Filter<T(!new)>(s: seq<T>, keep: T -> bool): (r: seq<T>)
    ensures |r| <= |s|
    ensures forall i :: 0 <= i < |r| ==> keep(r[i])
    ensures forall x :: x in r <==> x in s && keep(x)
  {
    if |s| == 0 then
      []
    else
      assert s == [s[0]] + s[1..];
      (if keep(s[0]) then [s[0]] else []) + Filter(s[1..], keep)
  }

  /** `filter` keeps every element that passes as often as it occurs, and
      drops every other. */
  lemma {:induction false} FilterKeepsCounts<T(!new)>(s: seq<T>, keep: T -> bool)
    ensures KeepsCounts(s, keep, Filter(s, keep))
  {
    if |s| > 0 {
      FilterKeepsCounts(s[1..], keep);
      FilterCons(s, keep);
      KeepsCountsCons(s, keep, Filter(s[1..], keep));
    }
  }

  /** One step of `filter`: the first element, if kept, then the rest filtered. */
  lemma FilterCons<T(!new)>(s: seq<T>, keep: T -> bool)
    requires |s| > 0
    ensures Filter(s, keep) == (if keep(s[0]) then [s[0]] else []) + Filter(s[1..], keep)
  {
  }

  /** Filtering a concatenation filters each part in turn, so the kept
      elements stay in their original order. */
  lemma {:induction false} FilterConcat<T(!new)>(a: seq<T>, b: seq<T>, keep: T -> bool)
    ensures Filter(a + b, keep) == Filter(a, keep) + Filter(b, keep)
  {
    if |a| > 0 {
      var head := if keep(a[0]) then [a[0]] else [];
      assert (a + b)[0] == a[0] && (a + b)[1..] == a[1..] + b;
      assert Filter(a + b, keep) == head + Filter(a[1..] + b, keep);
      FilterConcat(a[1..], b, keep);
      assert Filter(a, keep) == head + Filter(a[1..], keep);
      ConcatAssoc(head, Filter(a[1..], keep), Filter(b, keep));
    } else {
      assert a + b == b;
      assert Filter(a, keep) == [];
    }
  }

  /** Kotlin's one-argument `listOfNotNull(x)`: `[x]` when x is present, else
      empty. */
  function ListOfNotNull<T(==, !new)>(o: Option<T>): (r: seq<T>)
    ensures |r| <= 1
    ensures forall x :: x in r <==> o == Some(x)
  {
    if o.Some? then [o.value] else []
  }

  /** `r` holds each value as often as `xs` holds it present. */
  ghost predicate PresentCounts<T(!new)>(xs: seq<Option<T>>, r: seq<T>) {
    forall x :: multiset(r)[x] == multiset(xs)[Some(x)]
  }

  /** Kotlin's `filterNotNull`, which the many-argument `listOfNotNull`
      applies to its arguments: the present values, in order. */
  function FilterNotNull<T(==, !new)>(xs: seq<Option<T>>): (r: seq<T>)
    ensures |r| <= |xs|
    ensures forall x :: x in r <==> Some(x) in xs
  {
    if |xs| == 0 then [] else ListOfNotNull(xs[0]) + FilterNotNull(xs[1..])
  }

  /** `filterNotNull` keeps every present value as often as it occurs. */
  lemma {:induction false} FilterNotNullCounts<T(!new)>(xs: seq<Option<T>>)
    ensures PresentCounts(xs, FilterNotNull(xs))
  {
    if |xs| > 0 {
      FilterNotNullCounts(xs[1..]);
      PresentCountsCons(xs, FilterNotNull(xs[1..]));
    }
  }

  lemma PresentCountsCons<T(!new)>(xs: seq<Option<T>>, rest: seq<T>)
    requires |xs| > 0 && PresentCounts(xs[1..], rest)
    ensures PresentCounts(xs, ListOfNotNull(xs[0]) + rest)
  {
    assert xs == [xs[0]] + xs[1..];
    assert multiset(xs) == multiset([xs[0]]) + multiset(xs[1..]);
  }

  /** `filterNotNull` of a concatenation is that of each part in turn, so the
      present values stay in their original order. */
  lemma {:induction false} FilterNotNullConcat<T(!new)>(a: seq<Option<T>>, b: seq<Option<T>>)
    ensures FilterNotNull(a + b) == FilterNotNull(a) + FilterNotNull(b)
  {
    if |a| > 0 {
      assert (a + b)[0] == a[0] && (a + b)[1..] == a[1..] + b;
      assert FilterNotNull(a + b) == ListOfNotNull(a[0]) + FilterNotNull(a[1..] + b);
      FilterNotNullConcat(a[1..], b);
      ConcatAssoc(ListOfNotNull(a[0]), FilterNotNull(a[1..]), FilterNotNull(b));
      assert FilterNotNull(a) == ListOfNotNull(a[0]) + FilterNotNull(a[1..]);
    } else {
      assert a + b == b;
    }
  }

  /** A character in the Basic Multilingual Plane, one UTF-16 code unit. */
  predicate IsBmp(c: char) {
    c as int < 0x1_0000
  }

  /** The UTF-16 code units of a character: itself, or a surrogate pair. */
  function CharUnits(c: char): (u: seq<int>)
    ensures |u| == if IsBmp(c) then 1 else 2
  {
    if IsBmp(c) then [c as int]
    else
      var v := c as int - 0x1_0000;
      [0xD800 + v / 0x400, 0xDC00 + v % 0x400]
  }

  /** How many characters lie outside the Basic Multilingual Plane. */
  function SupplementaryCount(s: string): nat
  {
    if |s| == 0 then 0 else (if IsBmp(s[0]) then 0 else 1) + SupplementaryCount(s[1..])
  }

  /** A JVM string's UTF-16 code units; `length` and `substring` count these. */
  function Utf16(s: string): (u: seq<int>)
    ensures |u| == |s| + SupplementaryCount(s)
    ensures |u| >= |s|
    ensures (forall i :: 0 <= i < |s| ==> IsBmp(s[i])) ==> |u| == |s|
  {
    if |s| == 0 then [] else CharUnits(s[0]) + Utf16(s[1..])
  }

  lemma {:induction false} Utf16Concat(a: string, b: string)
    ensures Utf16(a + b) == Utf16(a) + Utf16(b)
  {
    if |a| > 0 {
      assert (a + b)[0] == a[0] && (a + b)[1..] == a[1..] + b;
      Utf16Concat(a[1..], b);
      ConcatAssoc(CharUnits(a[0]), Utf16(a[1..]), Utf16(b));
    } else {
      assert a + b == b;
    }
  }

  lemma ConcatAssoc<T>(x: seq<T>, y: seq<T>, z: seq<T>)
    ensures x + (y + z) == (x + y) + z
  {
  }

  /** Putting a pair in front moves every pair one place on. */
  lemma PairsShift<T>(a: T, b: T, r: seq<T>, k: nat)
    requires 0 < k && 2 * k + 1 < |r| + 2
    ensures ([a, b] + r)[2 * k] == r[2 * (k - 1)] && ([a, b] + r)[2 * k + 1] == r[2 * (k - 1) + 1]
  {
  }

  /** The three parts of a concatenation of three. */
  lemma SlicesOfConcat3<T>(a: seq<T>, b: seq<T>, c: seq<T>)
    ensures var r := a + b + c;
            && r[..|a|] == a && r[|a|..|a| + |b|] == b && r[|a| + |b|..] == c
  {
    var r := a + b + c;
    forall n | 0 <= n < |b| ensures r[|a|..|a| + |b|][n] == b[n] { assert r[|a| + n] == b[n]; }
  }

  /** The five parts of a concatenation of five. */
  lemma SlicesOfConcat5<T>(a: seq<T>, b: seq<T>, c: seq<T>, d: seq<T>, e: seq<T>)
    ensures var r := a + b + c + d + e;
            var i := |a|;
            var j := i + |b|;
            var k := j + |c|;
            var l := k + |d|;
            && r[..i] == a && r[i..j] == b && r[j..k] == c && r[k..l] == d && r[l..] == e
  {
    var r := a + b + c + d + e;
    var i, j, k, l := |a|, |a| + |b|, |a| + |b| + |c|, |a| + |b| + |c| + |d|;
    forall n | 0 <= n < |b| ensures r[i..j][n] == b[n] { assert r[i + n] == b[n]; }
    forall n | 0 <= n < |c| ensures r[j..k][n] == c[n] { assert r[j + n] == c[n]; }
    forall n | 0 <= n < |d| ensures r[k..l][n] == d[n] { assert r[k + n] == d[n]; }
  }
}
