/**
 * A JavaScript `Record<string, V>` as the agent CLI uses it: entries in
 * insertion order, one per key. Assigning to a present key replaces its
 * value where it stands; assigning to a new key appends it.
 */
module Records {
  import opened Wrappers
  import Json

  type Record<V> = seq<(string, V)>

  predicate UniqueKeys<V>(m: Record<V>) {
    forall i, j :: 0 <= i < j < |m| ==> m[i].0 != m[j].0
  }

  predicate HasKey<V>(m: Record<V>, k: string) {
    exists i :: 0 <= i < |m| && m[i].0 == k
  }

  /** The position of the first entry with the key. */
  function KeyIndex<V>(m: Record<V>, k: string): (r: Option<nat>)
    ensures r.Some? ==> r.value < |m| && m[r.value].0 == k && forall j :: 0 <= j < r.value ==> m[j].0 != k
    ensures r.None? <==> !HasKey(m, k)
  {
    if |m| == 0 then None
    else if m[0].0 == k then Some(0)
    else match KeyIndex(m[1..], k)
      case None => None
      case Some(i) =>
        assert forall j :: 0 < j <= i ==> m[j] == m[1..][j - 1];
        Some(i + 1)
  }

  /** The first entry with the key is where `KeyIndex` points. */
  lemma KeyIndexIs<V>(m: Record<V>, k: string, i: nat)
    requires i < |m| && m[i].0 == k
    requires forall j :: 0 <= j < i ==> m[j].0 != k
    ensures KeyIndex(m, k) == Some(i)
  {
  }

  /** `m[k]`: the value of the first entry with the key. */
  function Lookup<V>(m: Record<V>, k: string): (r: Option<V>)
    ensures r.None? <==> !HasKey(m, k)
    ensures r.Some? ==> exists i :: 0 <= i < |m| && m[i] == (k, r.value)
  {
    match KeyIndex(m, k)
    case None => None
    case Some(i) => Some(m[i].1)
  }

  /** With unique keys, an entry's value is what a lookup of its key gives. */
  lemma LookupEntry<V>(m: Record<V>, i: nat)
    requires UniqueKeys(m) && i < |m|
    ensures Lookup(m, m[i].0) == Some(m[i].1)
  {
    KeyIndexIs(m, m[i].0, i);
  }

  /** `m[k] = v` */
  function Assign<V>(m: Record<V>, k: string, v: V): (r: Record<V>)
    ensures |r| == if HasKey(m, k) then |m| else |m| + 1
    ensures forall i :: 0 <= i < |m| ==> r[i].0 == m[i].0
    ensures forall i :: 0 <= i < |m| && m[i].0 != k ==> r[i] == m[i]
    ensures !HasKey(m, k) ==> r[|m|] == (k, v)
  {
    match KeyIndex(m, k)
    case None => m + [(k, v)]
    case Some(i) => m[i := (k, v)]
  }

  /** After `m[k] = v`, `k` reads `v` and every other key reads as before. */
  lemma AssignLookup<V>(m: Record<V>, k: string, v: V, j: string)
    ensures Lookup(Assign(m, k, v), j) == if j == k then Some(v) else Lookup(m, j)
  {
    var r := Assign(m, k, v);
    match KeyIndex(m, j)
    case Some(i) =>
      KeyIndexIs(r, j, i);
    case None =>
      if j == k {
        KeyIndexIs(r, j, |m|);
      } else {
        assert !HasKey(r, j);
      }
  }

  /** Assignment keeps keys unique. */
  lemma AssignUnique<V>(m: Record<V>, k: string, v: V)
    ensures UniqueKeys(m) ==> UniqueKeys(Assign(m, k, v))
  {
  }

  /** `Object.fromEntries` and `JSON.parse`: the pairs assigned in order. */
  function FromPairs<V>(ps: seq<(string, V)>): (r: Record<V>)
    ensures UniqueKeys(r)
  {
    if |ps| == 0 then []
    else
      var n := |ps| - 1;
      Assign(FromPairs(ps[..n]), ps[n].0, ps[n].1)
  }

  /** A key's value in the record built from pairs is the value of its last pair, as `Json.Get` reads it. */
  lemma {:induction false} FromPairsIsLastWins(ps: seq<(string, Json.Json)>, k: string)
    ensures Lookup(FromPairs(ps), k) == Json.Get(ps, k)
    decreases |ps|
  {
    if |ps| > 0 {
      var n := |ps| - 1;
      FromPairsIsLastWins(ps[..n], k);
      AssignLookup(FromPairs(ps[..n]), ps[n].0, ps[n].1, k);
      if ps[n].0 == k {
        Json.GetIsLast(ps, k, n);
      }
    }
  }

  /** Pairs with distinct keys make the record they list. */
  lemma {:induction false} FromUniquePairs<V>(ps: seq<(string, V)>)
    requires UniqueKeys(ps)
    ensures FromPairs(ps) == ps
    decreases |ps|
  {
    if |ps| > 0 {
      var n := |ps| - 1;
      var init := ps[..n];
      assert UniqueKeys(init);
      FromUniquePairs(init);
      assert !HasKey(init, ps[n].0);
      assert KeyIndex(init, ps[n].0).None?;
      assert Assign(init, ps[n].0, ps[n].1) == init + [(ps[n].0, ps[n].1)];
      assert ps == init + [ps[n]];
    }
  }

  /** Entries drawn from a record with unique keys, each at most as often as there, have unique keys. */
  lemma UniqueKeysOfSubMultiset<V>(r: Record<V>, m: Record<V>)
    requires UniqueKeys(m) && multiset(r) <= multiset(m)
    ensures UniqueKeys(r)
  {
    forall i, j | 0 <= i < j < |r| ensures r[i].0 != r[j].0 {
      if r[i].0 == r[j].0 {
        assert r[i] in multiset(m) && r[j] in multiset(m);
        var a :| 0 <= a < |m| && m[a] == r[i];
        var b :| 0 <= b < |m| && m[b] == r[j];
        if r[i] == r[j] {
          TwiceCounted(r, i, j);
          TwoPositions(m, r[i]);
        }
      }
    }
  }

  lemma TwiceCounted<T>(s: seq<T>, i: nat, j: nat)
    requires i < j < |s| && s[i] == s[j]
    ensures multiset(s)[s[i]] >= 2
  {
    assert s == s[..j] + [s[j]] + s[j + 1..];
    assert s[..j][i] == s[i];
    assert multiset(s) == multiset(s[..j]) + multiset{s[j]} + multiset(s[j + 1..]);
  }

  /** A record holding some entry twice repeats a key. */
  lemma {:induction false} TwoPositions<V>(m: Record<V>, x: (string, V))
    requires multiset(m)[x] >= 2
    ensures !UniqueKeys(m)
    decreases |m|
  {
    assert m == [m[0]] + m[1..];
    assert multiset(m) == multiset{m[0]} + multiset(m[1..]);
    if m[0] == x {
      assert x in multiset(m[1..]);
      var b :| 0 <= b < |m[1..]| && m[1..][b] == x;
      assert m[b + 1] == x;
    } else {
      TwoPositions(m[1..], x);
      var i, j :| 0 <= i < j < |m[1..]| && m[1..][i].0 == m[1..][j].0;
      assert m[i + 1].0 == m[j + 1].0;
    }
  }
}
