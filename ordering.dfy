/**
 * `ORDER BY` over a set of row ids: the ids arranged so that a key drawn
 * from each row is in non-decreasing order for a given total preorder.
 * Rows with equal keys may come in any order, as in SQL.
 */
module Ordering {

  /** Every id of `s` has a key. */
  predicate AllIn<K>(s: seq<nat>, key: map<nat, K>) {
    forall i :: 0 <= i < |s| ==> s[i] in key
  }

  /** No id occurs twice. */
  predicate Distinct(s: seq<nat>) {
    forall i, j :: 0 <= i < j < |s| ==> s[i] != s[j]
  }

  /** `le` compares any two keys and is transitive. */
  ghost predicate TotalPreorder<K(!new)>(le: (K, K) -> bool) {
    && (forall a, b :: le(a, b) || le(b, a))
    && (forall a, b, c :: le(a, b) && le(b, c) ==> le(a, c))
  }

  /** The keys of the ids of `s` are in order. */
  predicate SortedBy<K>(s: seq<nat>, key: map<nat, K>, le: (K, K) -> bool) {
    AllIn(s, key) && forall i, j :: 0 <= i < j < |s| ==> le(key[s[i]], key[s[j]])
  }

  /** A non-empty finite set of naturals has a largest element. */
  lemma {:induction false} MaxWitness(s: set<nat>) returns (m: nat)
    requires s != {}
    ensures m in s && forall k :: k in s ==> k <= m
    decreases s
  {
    var x :| x in s;
    var rest := s - {x};
    if rest == {} {
      assert s == {x};
      m := x;
    } else {
      var below := MaxWitness(rest);
      m := if x > below then x else below;
      forall k | k in s ensures k <= m {
        if k != x { assert k in rest; }
      }
    }
  }

  lemma MaxExists(s: set<nat>)
    requires s != {}
    ensures exists m :: m in s && forall k :: k in s ==> k <= m
  {
    var m := MaxWitness(s);
  }

  /** The largest element of a non-empty set. */
  function MaxOf(s: set<nat>): (m: nat)
    requires s != {}
    ensures m in s && forall k :: k in s ==> k <= m
  {
    MaxExists(s);
    var m :| m in s && forall k :: k in s ==> k <= m;
    m
  }

  /** Inserts `x` before the first id whose key is not below `x`'s. */
  function Insert<K>(x: nat, s: seq<nat>, key: map<nat, K>, le: (K, K) -> bool): (r: seq<nat>)
    requires x in key && AllIn(s, key)
    ensures |r| == |s| + 1
    ensures multiset(r) == multiset(s) + multiset{x}
    ensures AllIn(r, key)
  {
    if s == [] then [x]
    else if le(key[x], key[s[0]]) then [x] + s
    else
      assert s == [s[0]] + s[1..];
      [s[0]] + Insert(x, s[1..], key, le)
  }

  /** Inserting into a sequence in key order keeps it in key order. */
  lemma {:induction false} InsertSorted<K(!new)>(x: nat, s: seq<nat>, key: map<nat, K>, le: (K, K) -> bool)
    requires x in key && TotalPreorder(le) && SortedBy(s, key, le)
    ensures SortedBy(Insert(x, s, key, le), key, le)
  {
    if s == [] {
    } else if le(key[x], key[s[0]]) {
      var r := [x] + s;
      forall i, j | 0 <= i < j < |r| ensures le(key[r[i]], key[r[j]]) {
        if i == 0 && j > 1 {
          assert le(key[s[0]], key[s[j - 1]]);
        }
      }
    } else {
      var rest := Insert(x, s[1..], key, le);
      InsertSorted(x, s[1..], key, le);
      assert le(key[s[0]], key[x]);
      var r := [s[0]] + rest;
      forall j | 0 <= j < |rest| ensures le(key[s[0]], key[rest[j]]) {
        assert rest[j] in multiset(rest);
        if rest[j] != x {
          assert rest[j] in multiset(s[1..]);
          var k :| 0 <= k < |s[1..]| && s[1..][k] == rest[j];
          assert s[k + 1] == rest[j];
        }
      }
      forall i, j | 0 <= i < j < |r| ensures le(key[r[i]], key[r[j]]) {
        if i == 0 {
          assert r[j] == rest[j - 1];
        } else {
          assert r[i] == rest[i - 1] && r[j] == rest[j - 1];
        }
      }
    }
  }

  /** A sequence in which no id occurs twice in its multiset is `Distinct`. */
  lemma DistinctByCount(r: seq<nat>)
    requires forall y :: multiset(r)[y] <= 1
    ensures Distinct(r)
  {
    forall i, j | 0 <= i < j < |r| ensures r[i] != r[j] {
      CountPair(r, i, j);
    }
  }

  /** The id at `i` is counted once for itself and once more if it reappears at `j`. */
  lemma CountPair(r: seq<nat>, i: nat, j: nat)
    requires i < j < |r|
    ensures multiset(r)[r[i]] >= if r[i] == r[j] then 2 else 1
  {
    assert r == r[..j] + r[j..];
    assert r[i] == r[..j][i];
    assert r[j] == r[j..][0];
    assert multiset(r)[r[i]] == multiset(r[..j])[r[i]] + multiset(r[j..])[r[i]];
  }

  /** One step of `SortIds`: the largest id inserted into the sorted rest. */
  lemma SortStep<K(!new)>(ids: set<nat>, m: nat, rest: seq<nat>, key: map<nat, K>, le: (K, K) -> bool)
    requires m in ids && ids <= key.Keys && TotalPreorder(le)
    requires multiset(rest) == multiset(ids - {m}) && SortedBy(rest, key, le)
    ensures var r := Insert(m, rest, key, le);
      && multiset(r) == multiset(ids)
      && (forall y :: y in r <==> y in ids)
      && Distinct(r)
      && SortedBy(r, key, le)
  {
    InsertSorted(m, rest, key, le);
    var r := Insert(m, rest, key, le);
    assert ids == (ids - {m}) + {m};
    assert multiset(ids) == multiset(ids - {m}) + multiset{m};
    DistinctByCount(r);
    forall y ensures y in r <==> y in ids {
      assert y in r <==> y in multiset(r);
    }
  }

  /**
   * The ids of `ids`, each once, in key order: what `ORDER BY key` returns
   * for the rows `ids` (the tie order is one of those SQL allows).
   */
  function SortIds<K(!new)>(ids: set<nat>, key: map<nat, K>, le: (K, K) -> bool): (r: seq<nat>)
    requires ids <= key.Keys && TotalPreorder(le)
    ensures multiset(r) == multiset(ids)
    ensures forall y :: y in r <==> y in ids
    ensures Distinct(r)
    ensures SortedBy(r, key, le)
    decreases ids
  {
    if ids == {} then []
    else
      var m := MaxOf(ids);
      var rest := SortIds(ids - {m}, key, le);
      SortStep(ids, m, rest, key, le);
      Insert(m, rest, key, le)
  }
}
