/**
 An insertion-ordered dictionary, as Python's `dict` behaves: a sequence of key/value
 entries. Assigning to a key that is present replaces its value where it stands;
 assigning to a new key appends it; `del` removes the entry and closes the gap.
 */
module OrderedMap {
  import opened Wrappers

  /** The keys, in insertion order (`list(d.keys())`). */
  function Keys<K, V>(m: seq<(K, V)>): (r: seq<K>) {
    seq(|m|, i requires 0 <= i < |m| => m[i].0)
  }

  /** No key occurs twice, which every `dict` guarantees. */
  predicate DistinctKeys<K(==), V>(m: seq<(K, V)>) {
    forall i, j :: 0 <= i < j < |m| ==> m[i].0 != m[j].0
  }

  predicate HasKey<K(==), V>(m: seq<(K, V)>, k: K) {
    exists i :: 0 <= i < |m| && m[i].0 == k
  }

  /** The first position at or after `from` holding key `k`. */
  function IndexFrom<K(==), V>(m: seq<(K, V)>, k: K, from: nat): (r: Option<nat>)
    ensures r.Some? ==> from <= r.value < |m| && m[r.value].0 == k
    ensures r.Some? ==> forall j :: from <= j < r.value ==> m[j].0 != k
    ensures r.None? ==> forall j :: from <= j < |m| ==> m[j].0 != k
    decreases |m| - from
  {
    if from >= |m| then None
    else if m[from].0 == k then Some(from)
    else IndexFrom(m, k, from + 1)
  }

  /** `list(d.keys()).index(k)`, or None where Python raises `ValueError`. */
  function IndexOf<K(==), V>(m: seq<(K, V)>, k: K): (r: Option<nat>)
    ensures r.Some? <==> HasKey(m, k)
    ensures r.Some? ==> r.value < |m| && m[r.value].0 == k
    ensures r.Some? ==> forall j :: 0 <= j < r.value ==> m[j].0 != k
  {
    IndexFrom(m, k, 0)
  }

  /** `d.get(k)`. */
  function Get<K(==), V>(m: seq<(K, V)>, k: K): (r: Option<V>) {
    match IndexOf(m, k)
    case None => None
    case Some(i) => Some(m[i].1)
  }

  /** `d[k] = v`. */
  function Put<K(==), V>(m: seq<(K, V)>, k: K, v: V): (r: seq<(K, V)>) {
    match IndexOf(m, k)
    case None => m + [(k, v)]
    case Some(i) => m[i := (k, v)]
  }

  /** `del d[k]` for a key that is present; nothing changes for a missing one. */
  function Delete<K(==), V>(m: seq<(K, V)>, k: K): (r: seq<(K, V)>) {
    match IndexOf(m, k)
    case None => m
    case Some(i) => m[..i] + m[i + 1..]
  }

  /** `d.update(s)` for a sequence of pairs: assign them in order, later ones winning. */
  function PutAll<K(==), V>(m: seq<(K, V)>, s: seq<(K, V)>): (r: seq<(K, V)>)
    decreases |s|
  {
    if s == [] then m
    else Put(PutAll(m, s[..|s| - 1]), s[|s| - 1].0, s[|s| - 1].1)
  }

  /** `s` with the entry at `i` taken out. */
  function RemoveAt<T>(s: seq<T>, i: nat): (r: seq<T>)
    requires i < |s|
    ensures |r| == |s| - 1
  {
    s[..i] + s[i + 1..]
  }

  /**
   Assignment, seen through lookups: the assigned key now maps to the new value and every
   other key maps to what it did before.
   */
  lemma PutGet<K, V>(m: seq<(K, V)>, k: K, v: V, k': K)
    ensures Get(Put(m, k, v), k') == if k' == k then Some(v) else Get(m, k')
  {
    var r := Put(m, k, v);
    match IndexOf(m, k)
    case None =>
      assert r == m + [(k, v)];
      if k' != k {
        assert forall j :: 0 <= j < |r| && r[j].0 == k' ==> j < |m|;
        match IndexOf(m, k')
        case None =>
          assert !HasKey(r, k');
        case Some(i) =>
          assert r[i] == m[i];
          assert IndexOf(r, k') == Some(i);
      } else {
        assert r[|m|].0 == k;
        assert forall j :: 0 <= j < |m| ==> r[j] == m[j];
      }
    case Some(i) =>
      assert r == m[i := (k, v)];
      if k' != k {
        assert forall j :: 0 <= j < |r| ==> (r[j].0 == k' <==> m[j].0 == k');
        match IndexOf(m, k')
        case None =>
          assert !HasKey(r, k');
        case Some(i') =>
          assert r[i'] == m[i'];
          assert IndexOf(r, k') == Some(i');
      } else {
        assert r[i].0 == k;
        assert forall j :: 0 <= j < i ==> r[j] == m[j];
      }
  }

  /**
   Assignment, seen through the key order: a present key keeps its place, a new one goes
   to the end, and distinct keys stay distinct.
   */
  lemma PutKeys<K, V>(m: seq<(K, V)>, k: K, v: V)
    ensures Keys(Put(m, k, v)) == if HasKey(m, k) then Keys(m) else Keys(m) + [k]
    ensures DistinctKeys(m) ==> DistinctKeys(Put(m, k, v))
  {
    var r := Put(m, k, v);
    if HasKey(m, k) {
      assert Keys(r) == Keys(m);
    } else {
      assert Keys(r) == Keys(m) + [k];
    }
  }

  /**
   Deletion, seen through lookups: the deleted key is gone and every other key maps to
   what it did before.
   */
  lemma DeleteGet<K, V>(m: seq<(K, V)>, k: K, k': K)
    requires DistinctKeys(m)
    ensures Get(Delete(m, k), k') == if k' == k then None else Get(m, k')
  {
    var r := Delete(m, k);
    match IndexOf(m, k)
    case None =>
    case Some(i) =>
      assert r == RemoveAt(m, i);
      assert forall j :: 0 <= j < |r| ==> r[j] == if j < i then m[j] else m[j + 1];
      if k' == k {
        assert !HasKey(r, k);
      } else {
        match IndexOf(m, k')
        case None =>
          assert !HasKey(r, k');
        case Some(i') =>
          var p := if i' < i then i' else i' - 1;
          assert r[p] == m[i'];
          assert IndexOf(r, k') == Some(p);
      }
  }

  /**
   Deletion, seen through the key order: the deleted key's place closes up, the others
   keep their order, and distinct keys stay distinct.
   */
  lemma DeleteKeys<K, V>(m: seq<(K, V)>, k: K)
    ensures HasKey(m, k) ==> Keys(Delete(m, k)) == RemoveAt(Keys(m), IndexOf(m, k).value)
    ensures !HasKey(m, k) ==> Delete(m, k) == m
    ensures DistinctKeys(m) ==> DistinctKeys(Delete(m, k))
  {
    if HasKey(m, k) {
      var i := IndexOf(m, k).value;
      var r := Delete(m, k);
      assert forall j :: 0 <= j < |r| ==> r[j] == if j < i then m[j] else m[j + 1];
      assert Keys(r) == RemoveAt(Keys(m), i);
    }
  }

  /** Assigning a run of entries whose keys are new and distinct appends them as they are. */
  lemma {:induction false} PutAllFresh<K, V>(m: seq<(K, V)>, s: seq<(K, V)>)
    requires DistinctKeys(s)
    requires forall i, j :: 0 <= i < |m| && 0 <= j < |s| ==> m[i].0 != s[j].0
    ensures PutAll(m, s) == m + s
    decreases |s|
  {
    if s != [] {
      var n := |s| - 1;
      PutAllFresh(m, s[..n]);
      assert !HasKey(m + s[..n], s[n].0);
      assert m + s[..n] + [s[n]] == m + s;
    }
  }

  /** `d.update(s + t)` is `d.update(s)` followed by `d.update(t)`. */
  lemma {:induction false} PutAllAppend<K, V>(m: seq<(K, V)>, s: seq<(K, V)>, t: seq<(K, V)>)
    ensures PutAll(m, s + t) == PutAll(PutAll(m, s), t)
    decreases |t|
  {
    if t != [] {
      var n := |t| - 1;
      assert (s + t)[..|s + t| - 1] == s + t[..n];
      assert (s + t)[|s + t| - 1] == t[n];
      PutAllAppend(m, s, t[..n]);
    } else {
      assert s + t == s;
    }
  }

  /**
   Replaying a sequence in which one key appears twice, at `a` and later at `b`, and all
   other keys once: the key keeps the earlier place and takes the later value.
   */
  lemma PutAllOneRepeat<K, V>(s: seq<(K, V)>, a: nat, b: nat)
    requires a < b < |s| && s[a].0 == s[b].0
    requires DistinctKeys(RemoveAt(s, b))
    ensures PutAll([], s) == RemoveAt(s[a := s[b]], b)
  {
    var P, y, Q := s[..b], s[b], s[b + 1..];
    assert RemoveAt(s, b) == P + Q;
    DistinctParts(P, Q);
    assert s == P + ([y] + Q);
    RepeatAfterDistinct(P, y, Q, a);
    var s' := s[a := s[b]];
    assert s'[..b] == P[a := y];
    assert s'[b + 1..] == Q;
  }

  /**
   The core of `PutAllOneRepeat`: distinct `P`, then an entry with the key of `P[a]`, then
   entries with fresh distinct keys.
   */
  lemma RepeatAfterDistinct<K, V>(P: seq<(K, V)>, y: (K, V), Q: seq<(K, V)>, a: nat)
    requires a < |P| && y.0 == P[a].0
    requires DistinctKeys(P) && DistinctKeys(Q)
    requires forall i, j :: 0 <= i < |P| && 0 <= j < |Q| ==> P[i].0 != Q[j].0
    ensures PutAll([], P + ([y] + Q)) == P[a := y] + Q
  {
    PutAllFresh([], P);
    assert [] + P == P;
    PutAllAppend([], P, [y] + Q);
    assert PutAll([], P + ([y] + Q)) == PutAll(P, [y] + Q);
    PutAllAppend(P, [y], Q);
    IndexOfDistinct(P, a);
    assert PutAll(P, [y]) == P[a := y];
    SameKeyThenFresh(P, Q, a, y);
  }

  /** Replacing an entry of `P` by one with the same key, then assigning the fresh entries of `Q`, appends them. */
  lemma SameKeyThenFresh<K, V>(P: seq<(K, V)>, Q: seq<(K, V)>, a: nat, y: (K, V))
    requires a < |P| && y.0 == P[a].0 && DistinctKeys(Q)
    requires forall i, j :: 0 <= i < |P| && 0 <= j < |Q| ==> P[i].0 != Q[j].0
    ensures PutAll(P[a := y], Q) == P[a := y] + Q
  {
    var P' := P[a := y];
    forall i, j | 0 <= i < |P'| && 0 <= j < |Q|
      ensures P'[i].0 != Q[j].0
    {
      assert P'[i].0 == P[i].0;
    }
    PutAllFresh(P', Q);
  }

  /** In a sequence with distinct keys, the key at `i` is found at `i`. */
  lemma IndexOfDistinct<K, V>(m: seq<(K, V)>, i: nat)
    requires DistinctKeys(m) && i < |m|
    ensures IndexOf(m, m[i].0) == Some(i)
  {
  }

  /** The two parts of a sequence with distinct keys have distinct keys and none in common. */
  lemma DistinctParts<K, V>(P: seq<(K, V)>, Q: seq<(K, V)>)
    requires DistinctKeys(P + Q)
    ensures DistinctKeys(P) && DistinctKeys(Q)
    ensures forall i, j :: 0 <= i < |P| && 0 <= j < |Q| ==> P[i].0 != Q[j].0
  {
    var R := P + Q;
    assert forall i :: 0 <= i < |P| ==> R[i] == P[i];
    assert forall j :: 0 <= j < |Q| ==> R[|P| + j] == Q[j];
  }

  /** Replaying a sequence with distinct keys into an empty dictionary rebuilds it. */
  lemma PutAllDistinct<K, V>(s: seq<(K, V)>)
    requires DistinctKeys(s)
    ensures PutAll([], s) == s
  {
    PutAllFresh([], s);
  }

  /** After `d.update(s)`, a key maps to its last value in `s`, or to its old value if `s` does not mention it. */
  lemma PutAllGet<K, V>(m: seq<(K, V)>, s: seq<(K, V)>, k: K)
    ensures (exists j :: 0 <= j < |s| && s[j].0 == k) ==>
      exists j :: 0 <= j < |s| && s[j].0 == k && Get(PutAll(m, s), k) == Some(s[j].1)
        && forall j' :: j < j' < |s| ==> s[j'].0 != k
    ensures (forall j :: 0 <= j < |s| ==> s[j].0 != k) ==> Get(PutAll(m, s), k) == Get(m, k)
  {
    if exists j :: 0 <= j < |s| && s[j].0 == k {
      var j := LastAt(s, k);
      PutAllLast(m, s, k, j);
    } else {
      PutAllAbsent(m, s, k);
    }
  }

  /** The last position of a key that `s` mentions. */
  lemma {:induction false} LastAt<K, V>(s: seq<(K, V)>, k: K) returns (j: nat)
    requires exists j :: 0 <= j < |s| && s[j].0 == k
    ensures j < |s| && s[j].0 == k && forall j' :: j < j' < |s| ==> s[j'].0 != k
    decreases |s|
  {
    var n := |s| - 1;
    if s[n].0 == k {
      j := n;
    } else {
      var i :| 0 <= i < |s| && s[i].0 == k;
      assert s[..n][i].0 == k;
      j := LastAt(s[..n], k);
      assert s[..n][j] == s[j];
    }
  }

  /** Assigning entries that do not mention `k` leaves its value alone. */
  lemma {:induction false} PutAllAbsent<K, V>(m: seq<(K, V)>, s: seq<(K, V)>, k: K)
    requires forall j :: 0 <= j < |s| ==> s[j].0 != k
    ensures Get(PutAll(m, s), k) == Get(m, k)
    decreases |s|
  {
    if s != [] {
      var n := |s| - 1;
      PutAllAbsent(m, s[..n], k);
      PutGet(PutAll(m, s[..n]), s[n].0, s[n].1, k);
    }
  }

  /** The value at the last mention of `k` is the one that stays. */
  lemma PutAllLast<K, V>(m: seq<(K, V)>, s: seq<(K, V)>, k: K, j: nat)
    requires j < |s| && s[j].0 == k && forall j' :: j < j' < |s| ==> s[j'].0 != k
    ensures Get(PutAll(m, s), k) == Some(s[j].1)
  {
    var front, back := s[..j + 1], s[j + 1..];
    assert s == front + back;
    PutAllAppend(m, front, back);
    PutAllAbsent(PutAll(m, front), back, k);
    assert front[..j] == s[..j];
    PutGet(PutAll(m, s[..j]), k, s[j].1, k);
  }
}
