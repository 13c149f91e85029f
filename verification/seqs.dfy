/** Sequence helpers shared by the store and exchange models: order-keeping
    filtering, first-match search and ascending keys. */
module Seqs {
  import opened Wrappers

  /** The elements of `s` that satisfy `keep`, in their original order. */
  function Filter<T(!new)>(s: seq<T>, keep: T -> bool): (r: seq<T>)
    ensures |r| <= |s|
  {
    if |s| == 0 then []
    else (if keep(s[0]) then [s[0]] else []) + Filter(s[1..], keep)
  }

  /** The filtered elements are exactly the admitted elements. */
  lemma {:induction false} FilterMembers<T(!new)>(s: seq<T>, keep: T -> bool)
    ensures forall x :: x in Filter(s, keep) <==> x in s && keep(x)
  {
    if |s| > 0 {
      FilterMembers(s[1..], keep);
      assert s == [s[0]] + s[1..];
    }
  }

  /** A filter that admits nothing leaves nothing. */
  lemma {:induction false} FilterNoneKept<T(!new)>(s: seq<T>, keep: T -> bool)
    requires forall x :: x in s ==> !keep(x)
    ensures Filter(s, keep) == []
  {
    if |s| > 0 {
      assert forall x :: x in s[1..] ==> x in s;
      FilterNoneKept(s[1..], keep);
      assert s[0] in s;
    }
  }

  /** Filtering by a predicate and by its negation splits the sequence. */
  lemma {:induction false} FilterSplit<T(!new)>(s: seq<T>, keep: T -> bool, drop: T -> bool)
    requires forall x :: x in s ==> drop(x) == !keep(x)
    ensures |Filter(s, keep)| + |Filter(s, drop)| == |s|
  {
    if |s| > 0 {
      assert forall x :: x in s[1..] ==> x in s;
      FilterSplit(s[1..], keep, drop);
      assert s[0] in s;
    }
  }

  /** Filtering distributes over concatenation. */
  lemma {:induction false} FilterAppend<T(!new)>(a: seq<T>, b: seq<T>, keep: T -> bool)
    ensures Filter(a + b, keep) == Filter(a, keep) + Filter(b, keep)
  {
    if |a| == 0 {
      assert a + b == b;
    } else {
      assert (a + b)[1..] == a[1..] + b;
      assert (a + b)[0] == a[0];
      FilterAppend(a[1..], b, keep);
      var head := if keep(a[0]) then [a[0]] else [];
      SeqAssoc(head, Filter(a[1..], keep), Filter(b, keep));
    }
  }

  /** A filter that admits everything keeps the sequence. */
  lemma {:induction false} FilterAllKept<T(!new)>(s: seq<T>, keep: T -> bool)
    requires forall i :: 0 <= i < |s| ==> keep(s[i])
    ensures Filter(s, keep) == s
  {
    if |s| > 0 {
      assert forall i :: 0 <= i < |s| - 1 ==> s[1..][i] == s[i + 1];
      FilterAllKept(s[1..], keep);
      assert [s[0]] + s[1..] == s;
    }
  }

  /** A prefix whose elements are all admitted passes through whole. */
  lemma {:induction false} FilterKeptPrefix<T(!new)>(s: seq<T>, keep: T -> bool, n: nat)
    requires n <= |s| && forall i :: 0 <= i < n ==> keep(s[i])
    ensures Filter(s, keep) == s[..n] + Filter(s[n..], keep)
  {
    assert s == s[..n] + s[n..];
    FilterAppend(s[..n], s[n..], keep);
    FilterAllKept(s[..n], keep);
  }

  /** Predicates that agree on the elements filter alike. */
  lemma {:induction false} FilterSame<T(!new)>(s: seq<T>, p: T -> bool, q: T -> bool)
    requires forall x :: x in s ==> p(x) == q(x)
    ensures Filter(s, p) == Filter(s, q)
  {
    if |s| > 0 {
      assert forall x :: x in s[1..] ==> x in s;
      FilterSame(s[1..], p, q);
    }
  }

  /** Each element passed through `f`, in order. */
  function Map<T, U>(s: seq<T>, f: T -> U): (r: seq<U>)
    ensures |r| == |s| && forall k :: 0 <= k < |s| ==> r[k] == f(s[k])
  {
    seq(|s|, k requires 0 <= k < |s| => f(s[k]))
  }

  /** A loop that runs `step` on each element in order, stops at the first
      error and collects the values the steps yield. */
  function Collect<T, U, E>(s: seq<T>, step: T -> Result<Option<U>, E>): (r: Result<seq<U>, E>)
    ensures r.Ok? <==> forall k :: 0 <= k < |s| ==> step(s[k]).Ok?
  {
    if |s| == 0 then Ok([])
    else
      match step(s[0])
      case Err(e) => Err(e)
      case Ok(head) =>
        match Collect(s[1..], step)
        case Err(e) =>
          assert forall k :: 1 <= k < |s| ==> s[k] == s[1..][k - 1];
          Err(e)
        case Ok(rest) => Ok((if head.Some? then [head.value] else []) + rest)
  }

  /** When each step yields `f(x)` exactly for the elements `keep` admits,
      the loop collects `f` of the admitted elements, in order. */
  lemma {:induction false} CollectKept<T(!new), U, E>(s: seq<T>, step: T -> Result<Option<U>, E>,
                                                      keep: T -> bool, f: T -> U)
    requires forall x :: x in s && step(x).Ok? ==> step(x).value == (if keep(x) then Some(f(x)) else None)
    ensures Collect(s, step).Ok? ==> Collect(s, step).value == Map(Filter(s, keep), f)
  {
    if |s| > 0 && Collect(s, step).Ok? {
      assert s[0] in s;
      assert forall x :: x in s[1..] ==> x in s;
      CollectKept(s[1..], step, keep, f);
      MapCons(s[0], Filter(s[1..], keep), f);
    }
  }

  /** Mapping over a sequence with a first element maps that element first. */
  lemma {:induction false} MapCons<T, U>(x: T, t: seq<T>, f: T -> U)
    ensures Map([x] + t, f) == [f(x)] + Map(t, f)
  {
    var a, b := Map([x] + t, f), [f(x)] + Map(t, f);
    assert |a| == |b|;
    forall k | 0 <= k < |a| ensures a[k] == b[k] {
      if k > 0 { assert ([x] + t)[k] == t[k - 1]; }
    }
  }

  /** A failing loop fails with the error of the first failing step. */
  lemma {:induction false} CollectError<T, U, E>(s: seq<T>, step: T -> Result<Option<U>, E>) returns (k: nat)
    requires Collect(s, step).Err?
    ensures k < |s| && step(s[k]) == Err(Collect(s, step).error)
    ensures forall j :: 0 <= j < k ==> step(s[j]).Ok?
  {
    if step(s[0]).Err? {
      k := 0;
    } else {
      var j := CollectError(s[1..], step);
      k := j + 1;
      assert s[k] == s[1..][j];
      assert forall i :: 1 <= i < k ==> s[i] == s[1..][i - 1];
    }
  }

  /** `join(sep)`: the items with `sep` between neighbours. */
  function Join<T>(items: seq<seq<T>>, sep: seq<T>): (s: seq<T>)
    ensures |items| == 0 ==> s == []
    ensures |items| == 1 ==> s == items[0]
  {
    if |items| == 0 then []
    else if |items| == 1 then items[0]
    else items[0] + sep + Join(items[1..], sep)
  }

  /** Concatenation regroups freely. */
  lemma SeqAssoc<T>(a: seq<T>, b: seq<T>, c: seq<T>)
    ensures a + (b + c) == (a + b) + c
  {
  }

  /** The items one after another, `concat()`. */
  function Flatten<T>(items: seq<seq<T>>): (s: seq<T>)
    ensures |items| == 1 ==> s == items[0]
  {
    if |items| == 0 then [] else items[0] + Flatten(items[1..])
  }

  /** Flattening distributes over concatenation. */
  lemma {:induction false} FlattenAppend<T>(a: seq<seq<T>>, b: seq<seq<T>>)
    ensures Flatten(a + b) == Flatten(a) + Flatten(b)
  {
    if |a| > 0 {
      assert (a + b)[1..] == a[1..] + b;
      FlattenAppend(a[1..], b);
    } else {
      assert a + b == b;
    }
  }

  /** The positions of the elements `keep` admits, in increasing order. */
  function Positions<T>(s: seq<T>, keep: T -> bool): (idx: seq<nat>)
    ensures forall k :: 0 <= k < |idx| ==> idx[k] < |s|
  {
    if |s| == 0 then []
    else
      var rest := Positions(s[1..], keep);
      (if keep(s[0]) then [0] else []) + seq(|rest|, k requires 0 <= k < |rest| => rest[k] + 1)
  }

  /** Filtering picks the elements at those positions. */
  lemma {:induction false} FilterAtPositions<T(!new)>(s: seq<T>, keep: T -> bool)
    ensures |Positions(s, keep)| == |Filter(s, keep)|
    ensures forall k :: 0 <= k < |Positions(s, keep)| ==> s[Positions(s, keep)[k]] == Filter(s, keep)[k]
  {
    if |s| > 0 {
      FilterAtPositions(s[1..], keep);
      var n := PositionsCons(s, keep);
      var rest, t := Positions(s[1..], keep), Filter(s[1..], keep);
      var p, r := Positions(s, keep), Filter(s, keep);
      assert r == (if keep(s[0]) then [s[0]] else []) + t;
      forall k | n <= k < |p| ensures s[p[k]] == r[k] {
        assert p[k] == rest[k - n] + 1 && r[k] == t[k - n];
        assert s[rest[k - n] + 1] == s[1..][rest[k - n]];
      }
    }
  }

  /** The positions in `s` are those in its tail moved up by one, after a
      leading 0 when the first element is admitted. */
  lemma PositionsCons<T>(s: seq<T>, keep: T -> bool) returns (n: nat)
    requires |s| > 0
    ensures n == (if keep(s[0]) then 1 else 0)
    ensures |Positions(s, keep)| == n + |Positions(s[1..], keep)|
    ensures n == 1 ==> Positions(s, keep)[0] == 0
    ensures forall j :: 0 <= j < |Positions(s[1..], keep)| ==> Positions(s, keep)[n + j] == Positions(s[1..], keep)[j] + 1
  {
    n := if keep(s[0]) then 1 else 0;
  }

  /** The positions increase strictly. */
  lemma {:induction false} PositionsAscend<T>(s: seq<T>, keep: T -> bool)
    ensures forall a, b :: 0 <= a < b < |Positions(s, keep)| ==> Positions(s, keep)[a] < Positions(s, keep)[b]
  {
    if |s| > 0 {
      PositionsAscend(s[1..], keep);
    }
  }

  /** Every admitted position is listed. */
  lemma {:induction false} PositionsComplete<T>(s: seq<T>, keep: T -> bool, i: nat)
    requires i < |s| && keep(s[i])
    ensures i in Positions(s, keep)
  {
    if i > 0 {
      assert s[1..][i - 1] == s[i];
      PositionsComplete(s[1..], keep, i - 1);
      var rest := Positions(s[1..], keep);
      var k :| 0 <= k < |rest| && rest[k] == i - 1;
      var head := if keep(s[0]) then [0] else [];
      assert Positions(s, keep)[|head| + k] == i;
    }
  }

  /** The first element of `s` satisfying `p`, as an SQL `query_row` or an
      iterator's `find` returns it. */
  function Find<T(!new)>(s: seq<T>, p: T -> bool): (r: Option<T>)
    ensures r.Some? ==> r.value in s && p(r.value)
    ensures r.None? <==> forall x :: x in s ==> !p(x)
  {
    if |s| == 0 then None
    else if p(s[0]) then Some(s[0])
    else Find(s[1..], p)
  }

  /** The first match comes before every other match. */
  lemma {:induction false} FindIsFirst<T(!new)>(s: seq<T>, p: T -> bool, i: nat)
    requires i < |s| && p(s[i])
    ensures Find(s, p).Some?
    ensures exists j :: 0 <= j <= i && s[j] == Find(s, p).value && forall k :: 0 <= k < j ==> !p(s[k])
  {
    if !p(s[0]) {
      FindIsFirst(s[1..], p, i - 1);
      var j :| 0 <= j <= i - 1 && s[1..][j] == Find(s[1..], p).value
                && forall k :: 0 <= k < j ==> !p(s[1..][k]);
      assert s[j + 1] == Find(s, p).value;
      forall k | 0 <= k < j + 1 ensures !p(s[k]) {
        if k > 0 { assert s[k] == s[1..][k - 1]; }
      }
    } else {
      assert s[0] == Find(s, p).value;
    }
  }

  /** Keys strictly increase along the sequence. */
  predicate Ascending<T>(s: seq<T>, key: T -> int) {
    forall i, j :: 0 <= i < j < |s| ==> key(s[i]) < key(s[j])
  }

  /** The tail of an ascending sequence is ascending and lies above its head. */
  lemma AscendingTail<T>(s: seq<T>, key: T -> int)
    requires |s| > 0 && Ascending(s, key)
    ensures Ascending(s[1..], key)
    ensures forall y :: y in s[1..] ==> key(s[0]) < key(y)
  {
    var t := s[1..];
    forall i, j | 0 <= i < j < |t| ensures key(t[i]) < key(t[j]) {
      assert t[i] == s[i + 1] && t[j] == s[j + 1];
    }
    forall y | y in t ensures key(s[0]) < key(y) {
      var k :| 0 <= k < |t| && t[k] == y;
      assert s[k + 1] == y;
    }
  }

  /** An element below every key of an ascending sequence can lead it. */
  lemma AscendingCons<T>(x: T, rest: seq<T>, key: T -> int)
    requires Ascending(rest, key)
    requires forall y :: y in rest ==> key(x) < key(y)
    ensures Ascending([x] + rest, key)
  {
    var r := [x] + rest;
    forall i, j | 0 <= i < j < |r| ensures key(r[i]) < key(r[j]) {
      assert r[j] == rest[j - 1];
      if i > 0 { assert r[i] == rest[i - 1]; } else { assert rest[j - 1] in rest; }
    }
  }

  /** Filtering keeps keys ascending. */
  lemma {:induction false} FilterAscending<T(!new)>(s: seq<T>, key: T -> int, keep: T -> bool)
    ensures Ascending(s, key) ==> Ascending(Filter(s, keep), key)
  {
    if |s| > 0 && Ascending(s, key) {
      AscendingTail(s, key);
      FilterAscending(s[1..], key, keep);
      if keep(s[0]) {
        FilterMembers(s[1..], keep);
        AscendingCons(s[0], Filter(s[1..], keep), key);
      }
    }
  }

  /** A sequence whose keys lie below `bound` stays ascending when an
      element with key `bound` is appended. */
  lemma AppendAscending<T>(s: seq<T>, x: T, key: T -> int, bound: int)
    requires Ascending(s, key)
    requires forall y :: y in s ==> key(y) < bound
    requires key(x) == bound
    ensures Ascending(s + [x], key)
  {
    var r := s + [x];
    forall i, j | 0 <= i < j < |r| ensures key(r[i]) < key(r[j]) {
      assert r[i] == s[i];
      if j < |s| { assert r[j] == s[j]; } else { assert s[i] in s; }
    }
  }
}
