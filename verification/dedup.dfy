/**
 * pandas' `drop_duplicates(subset=[key], keep='last')` on a sequence of rows: of the rows that
 * share a key only the last one stays, and the survivors keep their order.
 */
module Dedup {
  import opened Seqs

  /** Some row of `s` has key `k`. */
  predicate HasKey<T(==), K(==)>(s: seq<T>, key: T -> K, k: K) {
    exists x :: x in s && key(x) == k
  }

  /** The keys that occur in `s`. */
  function KeysOf<T(==), K(==)>(s: seq<T>, key: T -> K): set<K> {
    set x | x in s :: key(x)
  }

  /** No two rows of `s` share a key. */
  predicate UniqueKeys<T, K(==)>(s: seq<T>, key: T -> K) {
    forall i, j :: 0 <= i < j < |s| ==> key(s[i]) != key(s[j])
  }

  /** Position `i` holds the last row of `s` with its key. */
  ghost predicate IsLast<T, K>(s: seq<T>, key: T -> K, i: int) {
    0 <= i < |s| && forall j :: i < j < |s| ==> key(s[j]) != key(s[i])
  }

  /** `x` is the last row of `s` with its key. */
  ghost predicate IsLastRow<T, K>(s: seq<T>, key: T -> K, x: T) {
    exists i :: IsLast(s, key, i) && s[i] == x
  }

  /** `x` and `y` are last rows of their keys in `s`, and `x` comes first. */
  ghost predicate LastRowsInOrder<T, K>(s: seq<T>, key: T -> K, x: T, y: T) {
    exists i, j :: i < j && IsLast(s, key, i) && IsLast(s, key, j) && s[i] == x && s[j] == y
  }

  /** Keeps a row exactly when no later row has its key. */
  function LastWins<T(==), K(==)>(s: seq<T>, key: T -> K): (r: seq<T>)
    ensures forall x :: x in r ==> x in s
    ensures UniqueKeys(r, key)
    decreases |s|
  {
    if s == [] then []
    else if HasKey(s[1..], key, key(s[0])) then LastWins(s[1..], key)
    else [s[0]] + LastWins(s[1..], key)
  }

  /** The rows of `s` whose key is not in `ks`, in order. */
  function DropKeys<T, K(==)>(s: seq<T>, key: T -> K, ks: set<K>): (r: seq<T>)
    ensures forall i :: 0 <= i < |r| ==> key(r[i]) !in ks
  {
    if s == [] then []
    else if key(s[0]) in ks then DropKeys(s[1..], key, ks)
    else [s[0]] + DropKeys(s[1..], key, ks)
  }

  /** A position of the tail is last in the tail exactly when it is last in the whole. */
  lemma IsLastShift<T, K>(s: seq<T>, key: T -> K, i: int)
    requires s != [] && 0 <= i < |s| - 1
    ensures IsLast(s[1..], key, i) <==> IsLast(s, key, i + 1)
  {
    if IsLast(s[1..], key, i) {
      forall j | i + 1 < j < |s| ensures key(s[j]) != key(s[i + 1]) {
        assert s[j] == s[1..][j - 1];
      }
    }
  }

  /** The head of `s` is kept exactly when it is the last row with its key. */
  lemma HeadKeptIffLast<T, K>(s: seq<T>, key: T -> K)
    requires s != []
    ensures !HasKey(s[1..], key, key(s[0])) <==> IsLast(s, key, 0)
  {
    var t := s[1..];
    if HasKey(t, key, key(s[0])) {
      var x :| x in t && key(x) == key(s[0]);
      var j :| 0 <= j < |t| && t[j] == x;
      assert s[j + 1] == x;
    } else {
      forall j | 0 < j < |s| ensures key(s[j]) != key(s[0]) {
        assert s[j] in t;
      }
    }
  }

  /** Every key occurring at or after position `i` has a last position. */
  lemma {:induction false} LastPosition<T, K>(s: seq<T>, key: T -> K, i: nat) returns (j: nat)
    requires i < |s|
    ensures i <= j && IsLast(s, key, j) && key(s[j]) == key(s[i])
    decreases |s| - i
  {
    if IsLast(s, key, i) {
      j := i;
    } else {
      var m :| i < m < |s| && key(s[m]) == key(s[i]);
      j := LastPosition(s, key, m);
    }
  }

  /** A last row survives. */
  lemma {:induction false} LastIsKept<T, K>(s: seq<T>, key: T -> K, i: nat)
    requires IsLast(s, key, i)
    ensures s[i] in LastWins(s, key)
    decreases i
  {
    HeadKeptIffLast(s, key);
    if i > 0 {
      IsLastShift(s, key, i - 1);
      LastIsKept(s[1..], key, i - 1);
      assert s[1..][i - 1] == s[i];
    }
  }

  ghost predicate LaterLast<T, K>(s: seq<T>, key: T -> K, i: int, y: T) {
    exists j :: i < j && IsLast(s, key, j) && s[j] == y
  }

  /** Each survivor is the last row of its key; `i` is its position in `s`. */
  lemma {:induction false} SurvivorOrigin<T, K>(s: seq<T>, key: T -> K, p: nat) returns (i: nat)
    requires p < |LastWins(s, key)|
    ensures IsLast(s, key, i) && LastWins(s, key)[p] == s[i]
    ensures forall q :: p < q < |LastWins(s, key)| ==> LaterLast(s, key, i, LastWins(s, key)[q])
    decreases |s|
  {
    var t := s[1..];
    var r := LastWins(s, key);
    var rt := LastWins(t, key);
    HeadKeptIffLast(s, key);
    var kept := !HasKey(t, key, key(s[0]));
    if kept && p == 0 {
      i := 0;
      forall q | p < q < |r| ensures LaterLast(s, key, i, r[q]) {
        var j := SurvivorOrigin(t, key, q - 1);
        IsLastShift(s, key, j);
        assert r[q] == rt[q - 1] && t[j] == s[j + 1];
        assert i < j + 1 && IsLast(s, key, j + 1) && r[q] == s[j + 1];
      }
    } else {
      var p' := if kept then p - 1 else p;
      assert r[p] == rt[p'];
      var i' := SurvivorOrigin(t, key, p');
      IsLastShift(s, key, i');
      i := i' + 1;
      assert t[i'] == s[i];
      forall q | p < q < |r| ensures LaterLast(s, key, i, r[q]) {
        var q' := if kept then q - 1 else q;
        assert r[q] == rt[q'];
        assert LaterLast(t, key, i', rt[q']);
        var j' :| i' < j' && IsLast(t, key, j') && rt[q'] == t[j'];
        IsLastShift(s, key, j');
        assert t[j'] == s[j' + 1];
        assert i < j' + 1 && IsLast(s, key, j' + 1) && r[q] == s[j' + 1];
      }
    }
  }

  /** The survivors are exactly the last rows of their keys. */
  lemma LastWinsKeepsExactlyTheLast<T, K>(s: seq<T>, key: T -> K)
    ensures forall i :: IsLast(s, key, i) ==> s[i] in LastWins(s, key)
    ensures forall x :: x in LastWins(s, key) ==> IsLastRow(s, key, x)
  {
    forall i | IsLast(s, key, i) ensures s[i] in LastWins(s, key) {
      LastIsKept(s, key, i);
    }
    forall x | x in LastWins(s, key) ensures IsLastRow(s, key, x) {
      var p :| 0 <= p < |LastWins(s, key)| && LastWins(s, key)[p] == x;
      var i := SurvivorOrigin(s, key, p);
    }
  }

  /** Survivors appear in the order of their last occurrences. */
  lemma LastWinsOrderedByLastOccurrence<T, K>(s: seq<T>, key: T -> K)
    ensures forall p, q :: 0 <= p < q < |LastWins(s, key)| ==>
              LastRowsInOrder(s, key, LastWins(s, key)[p], LastWins(s, key)[q])
  {
    var r := LastWins(s, key);
    forall p, q | 0 <= p < q < |r| ensures LastRowsInOrder(s, key, r[p], r[q]) {
      var i := SurvivorOrigin(s, key, p);
      assert LaterLast(s, key, i, r[q]);
      var j :| i < j && IsLast(s, key, j) && s[j] == r[q];
    }
  }

  /** Every key of the input is still present after deduplication. */
  lemma LastWinsKeepsEveryKey<T, K>(s: seq<T>, key: T -> K)
    ensures KeysOf(LastWins(s, key), key) == KeysOf(s, key)
  {
    var r := LastWins(s, key);
    forall k | k in KeysOf(s, key) ensures k in KeysOf(r, key) {
      var x :| x in s && key(x) == k;
      var i :| 0 <= i < |s| && s[i] == x;
      var j := LastPosition(s, key, i);
      LastIsKept(s, key, j);
    }
  }

  /** Survivors keep their relative order: the result is a subsequence of the input. */
  lemma {:induction false} LastWinsKeepsOrder<T, K>(s: seq<T>, key: T -> K)
    ensures IsSubsequence(LastWins(s, key), s)
    decreases |s|
  {
    if s != [] {
      var r := LastWins(s, key);
      LastWinsKeepsOrder(s[1..], key);
      if HasKey(s[1..], key, key(s[0])) {
        SubsequenceOfSuffix(r, s, 1);
      } else {
        assert r[0] == s[0] && r[1..] == LastWins(s[1..], key);
      }
    }
  }

  /** Rows whose keys are already unique all survive, unchanged and in place. */
  lemma {:induction false} LastWinsOfUniqueKeys<T, K>(s: seq<T>, key: T -> K)
    requires UniqueKeys(s, key)
    ensures LastWins(s, key) == s
    decreases |s|
  {
    if s != [] {
      assert UniqueKeys(s[1..], key) by {
        forall i, j | 0 <= i < j < |s| - 1 ensures key(s[1..][i]) != key(s[1..][j]) {
          assert s[1..][i] == s[i + 1] && s[1..][j] == s[j + 1];
        }
      }
      LastWinsOfUniqueKeys(s[1..], key);
      assert !HasKey(s[1..], key, key(s[0])) by {
        forall x | x in s[1..] ensures key(x) != key(s[0]) {
          var j :| 0 <= j < |s| - 1 && s[1..][j] == x;
          assert x == s[j + 1];
        }
      }
      assert s == [s[0]] + s[1..];
    }
  }

  /** Deduplicating twice is deduplicating once. */
  lemma LastWinsIdempotent<T, K>(s: seq<T>, key: T -> K)
    ensures LastWins(LastWins(s, key), key) == LastWins(s, key)
  {
    LastWinsOfUniqueKeys(LastWins(s, key), key);
  }

  /**
   * Deduplicating `a + b`: the survivors of `a` whose key does not occur in `b`, followed by the
   * survivors of `b`. A row of `b` therefore supersedes every row of `a` with its key.
   */
  lemma {:induction false} LastWinsAppend<T, K>(a: seq<T>, b: seq<T>, key: T -> K)
    ensures LastWins(a + b, key) == DropKeys(LastWins(a, key), key, KeysOf(b, key)) + LastWins(b, key)
    decreases |a|
  {
    if a == [] {
      assert a + b == b;
    } else {
      var x, t := a[0], a[1..];
      assert a == [x] + t;
      assert a + b == [x] + (t + b);
      LastWinsAppend(t, b, key);
      LastWinsCons(x, t + b, key);
      LastWinsCons(x, t, key);
      HasKeyAppend(t, b, key, key(x));
      AppendStep(x, LastWins(t, key), LastWins(b, key), key, KeysOf(b, key), HasKey(t, key, key(x)));
    }
  }

  /** Deduplicating a row followed by more rows: the row stays exactly when no later row has its key. */
  lemma LastWinsCons<T, K>(x: T, t: seq<T>, key: T -> K)
    ensures LastWins([x] + t, key) == if HasKey(t, key, key(x)) then LastWins(t, key) else [x] + LastWins(t, key)
  {
    assert ([x] + t)[0] == x && ([x] + t)[1..] == t;
  }

  /** The head step of `LastWinsAppend`, on the survivors of the tails. */
  lemma AppendStep<T, K>(x: T, ra: seq<T>, rb: seq<T>, key: T -> K, kb: set<K>, inRest: bool)
    ensures (if inRest || key(x) in kb then DropKeys(ra, key, kb) + rb else [x] + (DropKeys(ra, key, kb) + rb))
            == DropKeys(if inRest then ra else [x] + ra, key, kb) + rb
  {
    DropKeysCons(x, ra, key, kb);
    assert [x] + (DropKeys(ra, key, kb) + rb) == ([x] + DropKeys(ra, key, kb)) + rb;
  }

  /** Dropping keys from a row followed by more rows: the row goes exactly when its key is dropped. */
  lemma DropKeysCons<T, K>(x: T, r: seq<T>, key: T -> K, ks: set<K>)
    ensures DropKeys([x] + r, key, ks) == if key(x) in ks then DropKeys(r, key, ks) else [x] + DropKeys(r, key, ks)
  {
    assert ([x] + r)[0] == x && ([x] + r)[1..] == r;
  }

  /** A key occurs in `a + b` exactly when it occurs in `a` or in `b`. */
  lemma HasKeyAppend<T, K>(a: seq<T>, b: seq<T>, key: T -> K, k: K)
    ensures HasKey(a + b, key, k) <==> HasKey(a, key, k) || k in KeysOf(b, key)
  {
    if k in KeysOf(b, key) {
      var x :| x in b && key(x) == k;
      assert x in a + b;
    }
    if HasKey(a, key, k) {
      var x :| x in a && key(x) == k;
      assert x in a + b;
    }
  }

  /** Two rows of a duplicate-free sequence with the same key are the same row. */
  lemma UniqueKeysSameRow<T, K>(s: seq<T>, key: T -> K, y: T)
    requires UniqueKeys(s, key) && y in s
    ensures forall x :: x in s && key(x) == key(y) ==> x == y
  {
    var q :| 0 <= q < |s| && s[q] == y;
    forall x | x in s && key(x) == key(y) ensures x == y {
      var p :| 0 <= p < |s| && s[p] == x;
      assert p == q;
    }
  }

  /** A last position of `b` stays a last position once `a` is put before it. */
  lemma IsLastAfterPrefix<T, K>(a: seq<T>, b: seq<T>, key: T -> K, i: int)
    requires IsLast(b, key, i)
    ensures IsLast(a + b, key, |a| + i) && (a + b)[|a| + i] == b[i]
  {
    var s := a + b;
    forall j | |a| + i < j < |s| ensures key(s[j]) != key(s[|a| + i]) {
      assert s[j] == b[j - |a|];
    }
  }

  /** Of two rows, the first goes exactly when the second has its key. */
  lemma LastWinsOfPair<T, K>(x: T, y: T, key: T -> K)
    ensures LastWins([x, y], key) == if key(x) == key(y) then [y] else [x, y]
  {
    var s := [x, y];
    assert s[1..] == [y];
    assert [y][1..] == [];
    assert LastWins([y], key) == [y];
    if key(x) == key(y) {
      assert y in s[1..];
    } else {
      assert !HasKey(s[1..], key, key(x));
    }
  }

  /** The last row of `b` for a key survives deduplicating `a + b`, and is the only survivor with that key. */
  lemma LastOfSuffixWins<T, K>(a: seq<T>, b: seq<T>, key: T -> K, i: int)
    requires IsLast(b, key, i)
    ensures b[i] in LastWins(a + b, key)
    ensures forall x :: x in LastWins(a + b, key) && key(x) == key(b[i]) ==> x == b[i]
  {
    IsLastAfterPrefix(a, b, key, i);
    LastIsKept(a + b, key, |a| + i);
    UniqueKeysSameRow(LastWins(a + b, key), key, b[i]);
  }
}
