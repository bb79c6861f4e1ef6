/** JavaScript objects used as string-keyed dictionaries, and the array and `Set` operations the
    curriculum engine applies to lists of course codes. */
module Records {
  import opened Wrappers

  /** No element occurs twice. */
  predicate NoDup<T(==)>(s: seq<T>) {
    forall i, j :: 0 <= i < j < |s| ==> s[i] != s[j]
  }

  /** Joining two duplicate-free lists with no element in common gives a duplicate-free list. */
  lemma NoDupAppend<T>(a: seq<T>, b: seq<T>)
    requires NoDup(a) && NoDup(b)
    requires forall x :: x in a ==> x !in b
    ensures NoDup(a + b)
  {
    forall i, j | 0 <= i < j < |a + b|
      ensures (a + b)[i] != (a + b)[j]
    {
      if i < |a| && |a| <= j {
        assert (a + b)[i] in a && (a + b)[j] in b;
      }
    }
  }

  /** Concatenation is associative. */
  lemma AppendAssoc<T>(a: seq<T>, b: seq<T>, c: seq<T>)
    ensures a + (b + c) == (a + b) + c
  {
  }

  /** In a duplicate-free list every element occurs at most once. */
  lemma {:induction false} NoDupCount<T>(s: seq<T>, x: T)
    requires NoDup(s)
    ensures multiset(s)[x] <= 1
  {
    if s != [] {
      var init := s[..|s| - 1];
      assert s == init + [s[|s| - 1]];
      assert NoDup(init);
      NoDupCount(init, x);
      if x == s[|s| - 1] {
        assert x !in init;
      }
    }
  }

  /** An element at two positions occurs at least twice. */
  lemma CountTwo<T>(s: seq<T>, i: nat, j: nat)
    requires i < j < |s| && s[i] == s[j]
    ensures multiset(s)[s[i]] >= 2
  {
    assert s == s[..j] + s[j..];
    assert s[i] in s[..j] && s[j] in s[j..];
  }

  /** The position of the first occurrence of `x` in `s` (`s.indexOf(x)`). */
  function IndexOf<T(==)>(s: seq<T>, x: T): (i: nat)
    requires x in s
    ensures i < |s| && s[i] == x && x !in s[..i]
  {
    if s[0] == x then 0 else 1 + IndexOf(s[1..], x)
  }

  /** The first-occurrence position is the only position of `x` with no earlier `x`. */
  lemma IndexOfUnique<T>(s: seq<T>, x: T, j: nat)
    requires j < |s| && s[j] == x && x !in s[..j]
    ensures IndexOf(s, x) == j
  {
  }

  /** Appending an element moves no first occurrence, and gives a new element the last position. */
  lemma IndexOfAppend<T>(s: seq<T>, x: T, y: T)
    requires y in s + [x]
    ensures y in s ==> IndexOf(s + [x], y) == IndexOf(s, y)
    ensures y !in s ==> IndexOf(s + [x], y) == |s|
  {
    var t := s + [x];
    if y in s {
      var i := IndexOf(s, y);
      assert t[..i] == s[..i];
      IndexOfUnique(t, y, i);
    } else {
      assert t[..|s|] == s;
      IndexOfUnique(t, y, |s|);
    }
  }

  /** `Array.from(new Set(s))`: a JavaScript `Set` keeps insertion order, so this is `s` with
      every repeated occurrence dropped. */
  function Dedup<T(==)>(s: seq<T>): seq<T> {
    if s == [] then []
    else
      var d := Dedup(s[..|s| - 1]);
      if s[|s| - 1] in d then d else d + [s[|s| - 1]]
  }

  /** Deduplication keeps exactly the elements of its input, each once. */
  lemma {:induction false} DedupElements<T>(s: seq<T>)
    ensures NoDup(Dedup(s))
    ensures forall x :: x in Dedup(s) ==> x in s
    ensures forall x :: x in s ==> x in Dedup(s)
  {
    if s != [] {
      var p := s[..|s| - 1];
      DedupElements(p);
      assert s == p + [s[|s| - 1]];
    }
  }

  /** Deduplication keeps first-seen order: of two kept elements, the one that occurs first in
      the input comes first in the output. */
  lemma {:induction false} DedupFirstSeen<T>(s: seq<T>, i: nat, j: nat)
    requires i < j < |Dedup(s)|
    ensures Dedup(s)[i] in s && Dedup(s)[j] in s
    ensures IndexOf(s, Dedup(s)[i]) < IndexOf(s, Dedup(s)[j])
  {
    var p := s[..|s| - 1];
    var x := s[|s| - 1];
    assert s == p + [x];
    var d := Dedup(p);
    DedupElements(p);
    DedupElements(s);
    if x in d {
      DedupFirstSeen(p, i, j);
      IndexOfAppend(p, x, d[i]);
      IndexOfAppend(p, x, d[j]);
    } else if j < |d| {
      DedupFirstSeen(p, i, j);
      IndexOfAppend(p, x, d[i]);
      IndexOfAppend(p, x, d[j]);
    } else {
      assert Dedup(s) == d + [x] && i < |d|;
      assert d[i] in p;
      IndexOfAppend(p, x, d[i]);
      IndexOfAppend(p, x, x);
    }
  }

  /** A list that has no duplicates comes out of deduplication unchanged. */
  lemma {:induction false} DedupOfNoDup<T>(s: seq<T>)
    requires NoDup(s)
    ensures Dedup(s) == s
  {
    if s != [] {
      var p := s[..|s| - 1];
      assert NoDup(p);
      DedupOfNoDup(p);
    }
  }

  /** A JavaScript object used as a dictionary from string keys: the map from keys to values,
      and the keys in the order `Object.entries` and `Object.keys` visit them (insertion order,
      as no key of the curriculum is integer-like). */
  datatype Record<V> = Record(keys: seq<string>, values: map<string, V>) {

    /** Each key is listed once, and the listed keys are exactly those with a value. */
    ghost predicate Valid() {
      && NoDup(keys)
      && (forall k :: k in values ==> k in keys)
      && (forall k :: k in keys ==> k in values)
    }

    /** `record[k]`: `undefined` (here `None`) for a missing key. */
    function Get(k: string): Option<V> {
      if k in values then Some(values[k]) else None
    }

    /** `{...record, [k]: v}`: the value at `k` becomes `v`, every other entry is kept, and a new
        key goes at the end of the iteration order. */
    function Set(k: string, v: V): (r: Record<V>)
      ensures Valid() ==> r.Valid()
      ensures r.Get(k) == Some(v)
      ensures forall other :: other != k ==> r.Get(other) == Get(other)
      ensures k in keys ==> r.keys == keys
      ensures k !in keys ==> r.keys == keys + [k]
    {
      var r := Record(if k in keys then keys else keys + [k], values[k := v]);
      assert Valid() && k !in keys ==> forall i :: 0 <= i < |keys| ==> r.keys[i] == keys[i];
      r
    }
  }

  /** No key of `a` is a key of `b`. */
  predicate Apart<V, W>(a: Record<V>, b: Record<W>) {
    forall k :: k in a.keys ==> k !in b.keys
  }

  /** The record whose entries are those of `parts`, in order: the object literal written as
      consecutive groups of entries. */
  function Join<V>(parts: seq<Record<V>>): Record<V> {
    if parts == [] then Record([], map[])
    else
      var init := Join(parts[..|parts| - 1]);
      var last := parts[|parts| - 1];
      Record(init.keys + last.keys, init.values + last.values)
  }

  /** Every entry of a joined record comes from one of the parts. */
  lemma {:induction false} JoinMember<V>(parts: seq<Record<V>>, k: string)
    requires k in Join(parts).values
    ensures exists i :: 0 <= i < |parts| && k in parts[i].values && Join(parts).values[k] == parts[i].values[k]
  {
    var n := |parts| - 1;
    if k !in parts[n].values {
      JoinMember(parts[..n], k);
      var i :| 0 <= i < n && k in parts[..n][i].values && Join(parts[..n]).values[k] == parts[..n][i].values[k];
      assert parts[..n][i] == parts[i];
    }
  }

  /** Joining well-formed parts with pairwise distinct keys gives a well-formed record in which
      each part's entries keep their values. */
  lemma {:induction false} JoinValid<V>(parts: seq<Record<V>>)
    requires forall i :: 0 <= i < |parts| ==> parts[i].Valid()
    requires forall i, j :: 0 <= i < j < |parts| ==> Apart(parts[i], parts[j])
    ensures Join(parts).Valid()
    ensures forall i, k :: 0 <= i < |parts| && k in parts[i].values ==> k in Join(parts).values && Join(parts).values[k] == parts[i].values[k]
  {
    if parts != [] {
      var n := |parts| - 1;
      var init := parts[..n];
      assert forall i :: 0 <= i < n ==> init[i] == parts[i];
      JoinValid(init);
      var j := Join(init);
      var last := parts[n];
      forall k | k in j.keys
        ensures k !in last.keys
      {
        assert k in j.values;
        JoinMember(init, k);
        var i :| 0 <= i < n && k in init[i].values && j.values[k] == init[i].values[k];
        assert Apart(parts[i], parts[n]);
      }
      NoDupAppend(j.keys, last.keys);
      forall i, k | 0 <= i < |parts| && k in parts[i].values
        ensures k in Join(parts).values && Join(parts).values[k] == parts[i].values[k]
      {
        if i < n {
          assert k in init[i].values;
          assert k !in last.keys by {
            assert k in parts[i].keys;
            assert Apart(parts[i], parts[n]);
          }
        }
      }
    }
  }
}

