/**
 * The two queries the read views start from: `where(disp: 1)` and
 * `order(:position)`. The ordering is a stable insertion sort on the
 * position column, so officers sharing a position keep their table order.
 */
module Ordering {
  import opened Records

  ghost predicate SortedByPosition(s: seq<Row>) {
    forall i, j | 0 <= i < j < |s| :: s[i].position <= s[j].position
  }

  /**
   * The values `f` takes on the rows of `s` (their names, their ids).
   * `Views.Keys` is the same idea for the pairs of a result hash, whose
   * elements are not rows.
   */
  ghost function KeySet<K>(s: seq<Row>, f: Row -> K): set<K> {
    if s == [] then {} else {f(s[0])} + KeySet(s[1..], f)
  }

  /**
   * No two rows of `s` agree on `f`, in the recursive form induction on
   * `s` needs; `DistinctByIndex` relates it to the pairwise index form of
   * `Records.DistinctIds`.
   */
  ghost predicate DistinctBy<K>(s: seq<Row>, f: Row -> K) {
    s == [] || (f(s[0]) !in KeySet(s[1..], f) && DistinctBy(s[1..], f))
  }

  lemma {:induction false} KeySetMembers<K>(s: seq<Row>, f: Row -> K)
    ensures KeySet(s, f) == set x | x in s :: f(x)
  {
    if s != [] {
      KeySetMembers(s[1..], f);
      assert s == [s[0]] + s[1..];
    }
  }

  lemma {:induction false} DistinctByIndex<K>(s: seq<Row>, f: Row -> K)
    ensures DistinctBy(s, f) <==> forall i, j | 0 <= i < j < |s| :: f(s[i]) != f(s[j])
  {
    if s != [] {
      DistinctByIndex(s[1..], f);
      KeySetMembers(s[1..], f);
      if DistinctBy(s, f) {
        forall i, j | 0 <= i < j < |s| ensures f(s[i]) != f(s[j]) {
          if i > 0 {
            assert s[i] == s[1..][i - 1] && s[j] == s[1..][j - 1];
          } else {
            assert s[j] in s[1..];
          }
        }
      }
      if forall i, j | 0 <= i < j < |s| :: f(s[i]) != f(s[j]) {
        forall i, j | 0 <= i < j < |s[1..]| ensures f(s[1..][i]) != f(s[1..][j]) {
          assert s[1..][i] == s[i + 1] && s[1..][j] == s[j + 1];
        }
      }
    }
  }

  /** Put `x` before the first row of `s` whose position is not smaller. */
  function Insert(x: Row, s: seq<Row>): (r: seq<Row>)
    ensures multiset(r) == multiset(s) + multiset{x}
    ensures |r| == |s| + 1
    ensures r[0] == x || (s != [] && r[0] == s[0])
  {
    if s == [] || x.position <= s[0].position then
      [x] + s
    else
      assert s == [s[0]] + s[1..];
      [s[0]] + Insert(x, s[1..])
  }

  lemma {:induction false} InsertSorted(x: Row, s: seq<Row>)
    requires SortedByPosition(s)
    ensures SortedByPosition(Insert(x, s))
  {
    if s != [] && x.position > s[0].position {
      var tail := Insert(x, s[1..]);
      InsertSorted(x, s[1..]);
      assert tail[0] == x || tail[0] == s[1];
      assert Insert(x, s) == [s[0]] + tail;
    }
  }

  lemma {:induction false} InsertKeys<K>(x: Row, s: seq<Row>, f: Row -> K)
    ensures KeySet(Insert(x, s), f) == KeySet(s, f) + {f(x)}
    ensures DistinctBy(s, f) && f(x) !in KeySet(s, f) ==> DistinctBy(Insert(x, s), f)
  {
    if s == [] || x.position <= s[0].position {
      assert ([x] + s)[1..] == s;
    } else {
      var tail := Insert(x, s[1..]);
      InsertKeys(x, s[1..], f);
      assert ([s[0]] + tail)[1..] == tail;
    }
  }

  /** `order(:position)`: the rows sorted by position, a permutation of the input. */
  function ByPosition(s: seq<Row>): (r: seq<Row>)
    ensures multiset(r) == multiset(s)
    ensures |r| == |s|
    ensures SortedByPosition(r)
  {
    if s == [] then []
    else
      var tail := ByPosition(s[1..]);
      assert s == [s[0]] + s[1..];
      InsertSorted(s[0], tail);
      Insert(s[0], tail)
  }

  /** `where(disp: 1)`: the displayed rows, in table order. */
  function Displayed(s: seq<Row>): (r: seq<Row>)
    ensures forall x :: x in r <==> x in s && x.disp
  {
    if s == [] then []
    else
      var tail := Displayed(s[1..]);
      assert s == [s[0]] + s[1..];
      if s[0].disp then [s[0]] + tail else tail
  }

  lemma {:induction false} ByPositionKeys<K>(s: seq<Row>, f: Row -> K)
    ensures KeySet(ByPosition(s), f) == KeySet(s, f)
    ensures DistinctBy(s, f) ==> DistinctBy(ByPosition(s), f)
  {
    if s != [] {
      ByPositionKeys(s[1..], f);
      InsertKeys(s[0], ByPosition(s[1..]), f);
    }
  }

  lemma {:induction false} DisplayedKeys<K>(s: seq<Row>, f: Row -> K)
    ensures KeySet(Displayed(s), f) <= KeySet(s, f)
    ensures DistinctBy(s, f) ==> DistinctBy(Displayed(s), f)
  {
    if s != [] {
      DisplayedKeys(s[1..], f);
      var tail := Displayed(s[1..]);
      if s[0].disp {
        assert ([s[0]] + tail)[1..] == tail;
      }
    }
  }
}
