/** The fixed slot arrays of libbubble's scheduler, seen as sequences of slots.
    A slot is either free (all zero bytes) or holds a record under a key.
    The lemmas say that such a table implements a finite map. */
module SlotTable {
  import opened Wrappers
  import opened CText

  datatype Slot<+V> = Free | Used(key: string, val: V)

  /** Size of the character fields that hold keys; one byte is the terminator. */
  const FIELD_SMALL: nat := 64

  /** What a text becomes when it is copied into a character field of `size` bytes. */
  function Field(s: string, size: nat := FIELD_SMALL): string
    requires size > 0
  {
    Cut(s, size)
  }

  predicate Holds<V>(t: seq<Slot<V>>, i: int, key: string) {
    0 <= i < |t| && t[i].Used? && t[i].key == key
  }

  /** First slot at or after `from` that holds `key`, or -1. */
  function Find<V>(t: seq<Slot<V>>, key: string, from: nat := 0): (i: int)
    requires from <= |t|
    ensures i == -1 || (from <= i && Holds(t, i, key))
    ensures forall j :: from <= j && (i == -1 || j < i) ==> !Holds(t, j, key)
    decreases |t| - from
  {
    if from == |t| then -1
    else if t[from].Used? && t[from].key == key then from
    else Find(t, key, from + 1)
  }

  /** First free slot at or after `from`, or -1. */
  function FindFree<V>(t: seq<Slot<V>>, from: nat := 0): (i: int)
    requires from <= |t|
    ensures i == -1 || (from <= i < |t| && t[i].Free?)
    ensures forall j :: from <= j < |t| && (i == -1 || j < i) ==> t[j].Used?
    decreases |t| - from
  {
    if from == |t| then -1
    else if t[from].Free? then from
    else FindFree(t, from + 1)
  }

  /** No key sits in two slots: a lookup finds each record where it is. */
  ghost predicate KeysUnique<V>(t: seq<Slot<V>>) {
    forall i, key {:trigger Holds(t, i, key)} :: Holds(t, i, key) ==> Find(t, key) == i
  }

  /** The keys held by the first `n` slots. */
  ghost function KeySet<V>(t: seq<Slot<V>>, n: nat): (keys: set<string>)
    requires n <= |t|
    ensures forall key :: key in keys <==> 0 <= Find(t, key) < n
  {
    if n == 0 then {}
    else if t[n - 1].Used? then
      assert Holds(t, n - 1, t[n - 1].key);
      KeySet(t, n - 1) + {t[n - 1].key}
    else KeySet(t, n - 1)
  }

  /** The map a table stands for. */
  ghost function AsMap<V>(t: seq<Slot<V>>): (m: map<string, V>)
    ensures forall key :: key in m <==> Find(t, key) >= 0
  {
    map key | key in KeySet(t, |t|) :: t[Find(t, key)].val
  }

  /** Insert or overwrite: the slot of `key` if there is one, else the first free slot. */
  function Put<V>(t: seq<Slot<V>>, key: string, val: V): Option<seq<Slot<V>>> {
    var found := Find(t, key);
    var i := if found >= 0 then found else FindFree(t);
    if i < 0 then None else Some(t[i := Used(Field(key), val)])
  }

  /** Zero the slot of `key`, if there is one. */
  function Delete<V>(t: seq<Slot<V>>, key: string): (r: seq<Slot<V>>)
    ensures |r| == |t|
  {
    var i := Find(t, key);
    if i >= 0 then t[i := Free] else t
  }

  /** Zero a whole set of slots. */
  function Cleared<V>(t: seq<Slot<V>>, gone: seq<nat>): (r: seq<Slot<V>>)
    ensures |r| == |t|
    ensures forall i :: 0 <= i < |t| ==> r[i] == if i in gone then Free else t[i]
  {
    seq(|t|, i requires 0 <= i < |t| => if i in gone then Free else t[i])
  }

  function CountUsed<V>(t: seq<Slot<V>>, n: nat): (c: nat)
    requires n <= |t|
    ensures c <= n
    ensures c == n <==> forall i :: 0 <= i < n ==> t[i].Used?
  {
    if n == 0 then 0 else CountUsed(t, n - 1) + if t[n - 1].Used? then 1 else 0
  }

  lemma {:induction false} KeySetSize<V>(t: seq<Slot<V>>, n: nat)
    requires KeysUnique(t) && n <= |t|
    ensures |KeySet(t, n)| == CountUsed(t, n)
  {
    if n > 0 {
      KeySetSize(t, n - 1);
      if t[n - 1].Used? {
        assert Holds(t, n - 1, t[n - 1].key);
        assert t[n - 1].key !in KeySet(t, n - 1);
      }
    }
  }

  lemma MapSize<V>(t: seq<Slot<V>>)
    requires KeysUnique(t)
    ensures |AsMap(t)| <= |t|
    ensures |AsMap(t)| == |t| <==> FindFree(t) == -1
  {
    KeySetSize(t, |t|);
    assert AsMap(t).Keys == KeySet(t, |t|);
    assert |AsMap(t)| == |AsMap(t).Keys|;
  }

  /** Lookups after a write through the key's own slot, or through a free slot while the key is absent. */
  lemma FindAfterWrite<V>(t: seq<Slot<V>>, i: nat, key: string, val: V, k: string)
    requires KeysUnique(t) && i < |t|
    requires Find(t, key) == i || (t[i].Free? && Find(t, key) == -1)
    ensures Find(t[i := Used(key, val)], k) == if k == key then i else Find(t, k)
  {
    var u := t[i := Used(key, val)];
    var r := Find(u, k);
    assert Holds(u, i, key);
    if r >= 0 && r != i {
      assert Holds(t, r, k);
    } else if r == -1 {
      assert Find(t, k) != -1 ==> Holds(u, Find(t, k), k);
    }
  }

  lemma WriteRefines<V>(t: seq<Slot<V>>, i: nat, key: string, val: V)
    requires KeysUnique(t) && i < |t|
    requires Find(t, key) == i || (t[i].Free? && Find(t, key) == -1)
    ensures KeysUnique(t[i := Used(key, val)])
    ensures AsMap(t[i := Used(key, val)]) == AsMap(t)[key := val]
  {
    var u := t[i := Used(key, val)];
    forall j, k | Holds(u, j, k) ensures Find(u, k) == j {
      FindAfterWrite(t, i, key, val, k);
      assert j != i ==> Holds(t, j, k);
    }
    forall k ensures Find(u, k) == if k == key then i else Find(t, k) {
      FindAfterWrite(t, i, key, val, k);
    }
  }

  /** Insert-or-update, and it fails exactly when the key is new and every slot is taken. */
  lemma PutRefines<V>(t: seq<Slot<V>>, key: string, val: V)
    requires KeysUnique(t) && |key| < FIELD_SMALL
    ensures Put(t, key, val).Some? <==> key in AsMap(t) || |AsMap(t)| < |t|
    ensures var r := Put(t, key, val);
      r.Some? ==> |r.value| == |t| && KeysUnique(r.value) && AsMap(r.value) == AsMap(t)[key := val]
  {
    MapSize(t);
    var found := Find(t, key);
    if found >= 0 {
      WriteRefines(t, found, key, val);
    } else if FindFree(t) >= 0 {
      WriteRefines(t, FindFree(t), key, val);
    }
  }

  /** Keys that do not fit their field are cut when stored but looked up whole, so an insertion
      keeps the keys unique exactly when the key fits or its stored form is new. */
  lemma LongKeyUnique<V>(t: seq<Slot<V>>, key: string, val: V)
    requires KeysUnique(t) && Put(t, key, val).Some? && Find(t, key) == -1
    ensures KeysUnique(Put(t, key, val).value) <==> (|key| < FIELD_SMALL || Find(t, Field(key)) == -1)
  {
    var i := FindFree(t);
    var u := Put(t, key, val).value;
    var j := Find(t, Field(key));
    if j >= 0 {
      assert Holds(u, j, Field(key)) && Holds(u, i, Field(key));
    } else {
      WriteRefines(t, i, Field(key), val);
    }
  }

  /** A key of 64 characters inserted twice stands in the table twice, cut. */
  lemma LongKeyTwice(val: int)
    ensures var key := seq(FIELD_SMALL, _ => 'k');
      var once := Put([Free, Free], key, val);
      once.Some? && var twice := Put(once.value, key, val); twice.Some? && !KeysUnique(twice.value)
  {
    var key := seq(FIELD_SMALL, _ => 'k');
    var empty: seq<Slot<int>> := [Free, Free];
    assert Find(empty, key) == -1 && FindFree(empty) == 0;
    var once := [Used(Field(key), val), Free];
    assert |Field(key)| < |key|;
    assert empty[0 := Used(Field(key), val)] == once;
    assert Find(once, key) == -1 && FindFree(once) == 1;
    var twice := once[1 := Used(Field(key), val)];
    assert Holds(twice, 0, Field(key)) && Holds(twice, 1, Field(key));
  }

  lemma FindAfterClear<V>(t: seq<Slot<V>>, gone: seq<nat>, k: string)
    requires KeysUnique(t)
    ensures Find(Cleared(t, gone), k) == if Find(t, k) in gone then -1 else Find(t, k)
  {
    var u := Cleared(t, gone);
    var r, s := Find(u, k), Find(t, k);
    assert r >= 0 ==> Holds(t, r, k);
    assert s >= 0 && s !in gone ==> Holds(u, s, k);
  }

  lemma ClearedRefines<V>(t: seq<Slot<V>>, gone: seq<nat>)
    requires KeysUnique(t)
    ensures KeysUnique(Cleared(t, gone))
    ensures AsMap(Cleared(t, gone)) == map key | key in AsMap(t) && Find(t, key) !in gone :: AsMap(t)[key]
  {
    var u := Cleared(t, gone);
    forall j, k | Holds(u, j, k) ensures Find(u, k) == j {
      FindAfterClear(t, gone, k);
      assert Holds(t, j, k);
    }
    forall k ensures Find(u, k) == if Find(t, k) in gone then -1 else Find(t, k) {
      FindAfterClear(t, gone, k);
    }
  }

  lemma DeleteRefines<V>(t: seq<Slot<V>>, key: string)
    requires KeysUnique(t)
    ensures KeysUnique(Delete(t, key))
    ensures AsMap(Delete(t, key)) == AsMap(t) - {key}
  {
    var i := Find(t, key);
    var u := Delete(t, key);
    if i >= 0 {
      assert u == Cleared(t, [i]);
      ClearedRefines(t, [i]);
      forall k ensures Find(u, k) == if k == key then -1 else Find(t, k) {
        FindAfterClear(t, [i], k);
        assert Find(t, k) == i ==> t[i].key == k;
      }
    }
    var left, right := AsMap(u), AsMap(t) - {key};
    assert left.Keys == right.Keys;
    forall k | k in left ensures left[k] == right[k] { }
  }
}
