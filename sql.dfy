/** The stock Option datatype, used for absent request fields and empty lookups. */
module Wrappers {
  datatype Option<+T> = None | Some(value: T)
}

/**
  The fragment of the relational engine the handlers rely on, over tables kept
  as sequences of rows in insertion order:
  - `Where` is `SELECT * ... WHERE keep` (and `DELETE ... WHERE`, which keeps the complement),
  - `Select` is a filtered projection `SELECT cols ... WHERE`,
  - `Update` is `UPDATE ... SET change WHERE hit`,
  - `Count` is `COUNT(*) ... WHERE p`,
  - `KeysDistinct` is a uniqueness constraint (primary key, UNIQUE column).
 */
module Sql {
  import opened Wrappers

  /** The rows of `t` satisfying `keep`, in table order. */
  function Where<T(!new)>(t: seq<T>, keep: T -> bool): (r: seq<T>)
    ensures |r| <= |t|
    ensures forall x :: x in r <==> x in t && keep(x)
  {
    if t == [] then []
    else
      assert forall x :: x in t <==> x == t[0] || x in t[1..];
      (if keep(t[0]) then [t[0]] else []) + Where(t[1..], keep)
  }

  /** The first row of `t`, in table order, that satisfies `p`: `rows[0]` of a `SELECT … WHERE`. */
  function First<T(!new)>(t: seq<T>, p: T -> bool): (r: Option<T>)
    ensures r.Some? ==> r.value in t && p(r.value)
    ensures r.None? <==> forall x :: x in t ==> !p(x)
  {
    if t == [] then None
    else if p(t[0]) then Some(t[0])
    else
      assert forall x :: x in t <==> x == t[0] || x in t[1..];
      First(t[1..], p)
  }

  /** No row before the one `First` returns satisfies `p`. */
  lemma {:induction false} FirstIsFirst<T(!new)>(t: seq<T>, p: T -> bool)
    requires First(t, p).Some?
    ensures exists i :: 0 <= i < |t| && t[i] == First(t, p).value && forall j :: 0 <= j < i ==> !p(t[j])
  {
    if !p(t[0]) {
      FirstIsFirst(t[1..], p);
      var k :| 0 <= k < |t[1..]| && t[1..][k] == First(t, p).value && forall j :: 0 <= j < k ==> !p(t[1..][j]);
      assert t[k + 1] == First(t, p).value;
      forall j | 0 <= j < k + 1 ensures !p(t[j]) {
        if j > 0 { assert t[j] == t[1..][j - 1]; }
      }
    }
  }

  /** The projections `pick` yields for the rows of `t`, in table order. */
  function Select<T(!new), R(!new)>(t: seq<T>, pick: T -> Option<R>): (r: seq<R>)
    ensures |r| <= |t|
    ensures forall y :: y in r <==> exists x :: x in t && pick(x) == Some(y)
  {
    if t == [] then []
    else
      assert forall x :: x in t <==> x == t[0] || x in t[1..];
      (if pick(t[0]).Some? then [pick(t[0]).value] else []) + Select(t[1..], pick)
  }

  /** Every row satisfying `hit` replaced by `change` of it; the others kept in place. */
  function Update<T>(t: seq<T>, hit: T -> bool, change: T -> T): (r: seq<T>)
    ensures |r| == |t|
    ensures forall i :: 0 <= i < |t| ==> r[i] == if hit(t[i]) then change(t[i]) else t[i]
  {
    if t == [] then []
    else [if hit(t[0]) then change(t[0]) else t[0]] + Update(t[1..], hit, change)
  }

  /** A projection of every row, `SELECT cols FROM t` with no WHERE. */
  function Project<T, R>(t: seq<T>, f: T -> R): (r: seq<R>)
    ensures |r| == |t|
    ensures forall i :: 0 <= i < |t| ==> r[i] == f(t[i])
  {
    if t == [] then [] else [f(t[0])] + Project(t[1..], f)
  }

  /** The number of rows satisfying `p`. */
  function Count<T(!new)>(t: seq<T>, p: T -> bool): (n: nat)
    ensures n <= |t|
    ensures n == 0 <==> forall x :: x in t ==> !p(x)
  {
    if t == [] then 0
    else
      assert forall x :: x in t <==> x == t[0] || x in t[1..];
      (if p(t[0]) then 1 else 0) + Count(t[1..], p)
  }

  /** No two rows of `t` share a key. */
  ghost predicate KeysDistinct<T, K>(t: seq<T>, key: T -> K) {
    forall i, j :: 0 <= i < j < |t| ==> key(t[i]) != key(t[j])
  }

  /** Every key of `t` lies in `[1, next)`: the auto-increment counter is ahead of all rows. */
  ghost predicate KeysBelow<T>(t: seq<T>, key: T -> int, next: int) {
    forall x :: x in t ==> 1 <= key(x) < next
  }

  /** COUNT(*) counts the rows a WHERE with the same condition returns. */
  lemma {:induction false} CountIsWhereLength<T(!new)>(t: seq<T>, p: T -> bool)
    ensures Count(t, p) == |Where(t, p)|
  {
    if t != [] {
      CountIsWhereLength(t[1..], p);
    }
  }

  /** Two rows carrying the same key are the same row, when keys are distinct. */
  lemma KeyDetermines<T, K>(t: seq<T>, key: T -> K, x: T, y: T)
    requires KeysDistinct(t, key)
    requires x in t && y in t && key(x) == key(y)
    ensures x == y
  {
    var i :| 0 <= i < |t| && t[i] == x;
    var j :| 0 <= j < |t| && t[j] == y;
    assert !(i < j) && !(j < i);
  }

  /** A WHERE (and so a DELETE) keeps a uniqueness constraint. */
  lemma {:induction false} WhereKeepsKeysDistinct<T(!new), K>(t: seq<T>, keep: T -> bool, key: T -> K)
    requires KeysDistinct(t, key)
    ensures KeysDistinct(Where(t, keep), key)
  {
    if t != [] {
      var rest := Where(t[1..], keep);
      WhereKeepsKeysDistinct(t[1..], keep, key);
      forall x | x in rest ensures key(x) != key(t[0]) {
        var j :| 0 <= j < |t[1..]| && t[1..][j] == x;
        assert t[j + 1] == x;
      }
    }
  }

  /** An UPDATE that leaves the key alone keeps a uniqueness constraint on it. */
  lemma UpdateKeepsKeysDistinct<T, K>(t: seq<T>, hit: T -> bool, change: T -> T, key: T -> K)
    requires KeysDistinct(t, key)
    requires forall x :: key(change(x)) == key(x)
    ensures KeysDistinct(Update(t, hit, change), key)
  {
    var r := Update(t, hit, change);
    forall i, j | 0 <= i < j < |r| ensures key(r[i]) != key(r[j]) {
      assert key(r[i]) == key(t[i]) && key(r[j]) == key(t[j]);
    }
  }

  /** An UPDATE that leaves the key alone keeps every key below the counter. */
  lemma UpdateKeepsKeysBelow<T>(t: seq<T>, hit: T -> bool, change: T -> T, key: T -> int, next: int)
    requires KeysBelow(t, key, next)
    requires forall x :: key(change(x)) == key(x)
    ensures KeysBelow(Update(t, hit, change), key, next)
  {
    var r := Update(t, hit, change);
    forall y | y in r ensures 1 <= key(y) < next {
      var i :| 0 <= i < |r| && r[i] == y;
      assert key(y) == key(t[i]) && t[i] in t;
    }
  }

  /** An INSERT under the counter's value, followed by the counter's increment, keeps the counter ahead. */
  lemma AppendKeepsKeysBelow<T>(t: seq<T>, x: T, key: T -> int, next: int)
    requires KeysBelow(t, key, next)
    requires 1 <= key(x) == next
    ensures KeysBelow(t + [x], key, next + 1)
  {
    forall y | y in t + [x] ensures 1 <= key(y) < next + 1 {
      assert y in t || y == x;
    }
  }

  /** An UPDATE that leaves a key alone keeps the set of rows holding each key value. */
  lemma UpdateKeepsKeys<T, K>(t: seq<T>, hit: T -> bool, change: T -> T, key: T -> K, k: K)
    requires forall x :: key(change(x)) == key(x)
    ensures (exists x :: x in t && key(x) == k) <==> (exists y :: y in Update(t, hit, change) && key(y) == k)
  {
    var r := Update(t, hit, change);
    if x :| x in t && key(x) == k {
      var i :| 0 <= i < |t| && t[i] == x;
      assert key(r[i]) == k;
    }
    if y :| y in r && key(y) == k {
      var i :| 0 <= i < |r| && r[i] == y;
      assert key(t[i]) == k;
    }
  }

  /** An INSERT of a row whose key is new keeps a uniqueness constraint. */
  lemma AppendKeepsKeysDistinct<T, K>(t: seq<T>, x: T, key: T -> K)
    requires KeysDistinct(t, key)
    requires forall y :: y in t ==> key(y) != key(x)
    ensures KeysDistinct(t + [x], key)
  {
    var r := t + [x];
    forall i, j | 0 <= i < j < |r| ensures key(r[i]) != key(r[j]) {
      if j == |t| {
        assert r[i] in t;
      }
    }
  }

  /** Two tables with distinct keys and no key in common concatenate to one with distinct keys. */
  lemma ConcatKeepsKeysDistinct<T, K>(a: seq<T>, b: seq<T>, key: T -> K)
    requires KeysDistinct(a, key) && KeysDistinct(b, key)
    requires forall x, y :: x in a && y in b ==> key(x) != key(y)
    ensures KeysDistinct(a + b, key)
  {
    var r := a + b;
    forall i, j | 0 <= i < j < |r| ensures key(r[i]) != key(r[j]) {
      if i < |a| <= j {
        assert r[i] in a && r[j] in b;
      } else if |a| <= i {
        assert r[i] == b[i - |a|] && r[j] == b[j - |a|];
      }
    }
  }

  /**
    A projection whose row key is the source row's key yields distinct row keys
    from distinct source keys: each selected row appears once.
   */
  lemma {:induction false} SelectKeepsKeysDistinct<T(!new), R(!new), K>(t: seq<T>, pick: T -> Option<R>, key: T -> K, rowKey: R -> K)
    requires KeysDistinct(t, key)
    requires forall x :: pick(x).Some? ==> rowKey(pick(x).value) == key(x)
    ensures KeysDistinct(Select(t, pick), rowKey)
  {
    if t != [] {
      var rest := Select(t[1..], pick);
      SelectKeepsKeysDistinct(t[1..], pick, key, rowKey);
      if pick(t[0]).Some? {
        forall y | y in rest ensures rowKey(y) != rowKey(pick(t[0]).value) {
          var x :| x in t[1..] && pick(x) == Some(y);
          var j :| 0 <= j < |t[1..]| && t[1..][j] == x;
          assert t[j + 1] == x;
        }
      }
    }
  }

  /**
    A projection that admits only rows another projection admits, and agrees with it
    on them, yields a sub-multiset of the other's result.
   */
  lemma {:induction false} SelectNarrowing<T(!new), R(!new)>(t: seq<T>, narrow: T -> Option<R>, wide: T -> Option<R>)
    requires forall x :: narrow(x).Some? ==> narrow(x) == wide(x)
    ensures multiset(Select(t, narrow)) <= multiset(Select(t, wide))
  {
    if t != [] {
      SelectNarrowing(t[1..], narrow, wide);
    }
  }

  /** The condition under which a projection yields a row. */
  function Admits<T, R>(pick: T -> Option<R>): T -> bool {
    x => pick(x).Some?
  }

  /** A filtered projection returns as many rows as a COUNT of the rows it admits. */
  lemma {:induction false} SelectLengthIsCount<T(!new), R(!new)>(t: seq<T>, pick: T -> Option<R>)
    ensures |Select(t, pick)| == Count(t, Admits(pick))
  {
    if t != [] {
      SelectLengthIsCount(t[1..], pick);
    }
  }

  /** COUNT is monotone in its condition, and equal for conditions that agree on the table. */
  lemma {:induction false} CountMonotone<T(!new)>(t: seq<T>, p: T -> bool, q: T -> bool)
    requires forall x :: x in t && p(x) ==> q(x)
    ensures Count(t, p) <= Count(t, q)
    ensures (forall x :: x in t && q(x) ==> p(x)) ==> Count(t, p) == Count(t, q)
  {
    if t != [] {
      assert forall x :: x in t[1..] ==> x in t;
      CountMonotone(t[1..], p, q);
    }
  }
}
