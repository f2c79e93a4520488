/**
 * The browser's localStorage as the app uses it: string keys in an order that
 * key(i) exposes, each with a string value. Setting a new key appends it;
 * removing a key closes the gap, shifting later keys down by one index.
 */
module LocalStorage {
  import opened Wrappers

  /** s with every occurrence of x removed. */
  function Without(s: seq<string>, x: string): (r: seq<string>)
    ensures forall y :: y in r <==> y in s && y != x
    ensures |r| <= |s|
  {
    if s == [] then []
    else (if s[0] == x then [] else [s[0]]) + Without(s[1..], x)
  }

  /** The value stored under key, or None (null) when the key is absent. */
  function Lookup(items: map<string, string>, key: string): (r: Option<string>)
    ensures r.Some? <==> key in items
    ensures r.Some? ==> r.value == items[key]
  {
    if key in items then Some(items[key]) else None
  }

  /** The key order after setItem(x): a new key goes last, an existing key keeps its place. */
  function AppendNew(s: seq<string>, x: string): (r: seq<string>)
    ensures x in r && forall y :: y in r <==> y in s || y == x
    ensures x in s ==> r == s
    ensures x !in s ==> |r| == |s| + 1 && r[..|s|] == s && r[|s|] == x
  {
    if x in s then s else s + [x]
  }

  /** No key appears twice. */
  predicate Distinct(s: seq<string>) {
    forall i, j :: 0 <= i < j < |s| ==> s[i] != s[j]
  }

  /** Removing the element at index i of a duplicate-free sequence removes its only occurrence. */
  lemma {:induction false} WithoutAt(s: seq<string>, i: int)
    requires Distinct(s) && 0 <= i < |s|
    ensures Without(s, s[i]) == s[..i] + s[i + 1..]
  {
    if i == 0 {
      WithoutAbsent(s[1..], s[0]);
    } else {
      WithoutAt(s[1..], i - 1);
      assert s[1..][..i - 1] == s[1..i];
      assert s[..i] == [s[0]] + s[1..i];
    }
  }

  /** Removing a value that does not occur changes nothing. */
  lemma {:induction false} WithoutAbsent(s: seq<string>, x: string)
    requires x !in s
    ensures Without(s, x) == s
  {
    if s != [] {
      WithoutAbsent(s[1..], x);
      assert s == [s[0]] + s[1..];
    }
  }

  class Storage {
    /** The keys in index order. */
    var keys: seq<string>
    /** The value stored under each key. */
    var items: map<string, string>

    ghost predicate Valid()
      reads this
    {
      Distinct(keys) && forall k :: k in items <==> k in keys
    }

    /** An empty store. */
    constructor ()
      ensures Valid() && keys == [] && items == map[]
    {
      keys := [];
      items := map[];
    }

    /** localStorage.length */
    function Length(): (n: nat)
      reads this
      requires Valid()
      ensures n == |items|
    {
      KeysCount(keys, items);
      |keys|
    }

    /** localStorage.key(i): the i-th key, or None (null) past the end. */
    function Key(i: int): (r: Option<string>)
      reads this
      ensures r.Some? <==> 0 <= i < |keys|
      ensures r.Some? ==> r.value == keys[i]
    {
      if 0 <= i < |keys| then Some(keys[i]) else None
    }

    /** localStorage.getItem(key): the stored value, or None (null) when the key is absent. */
    function GetItem(key: string): (r: Option<string>)
      reads this
      ensures r.Some? <==> key in items
      ensures r.Some? ==> r.value == items[key]
    {
      Lookup(items, key)
    }

    /** localStorage.setItem(key, value). */
    method SetItem(key: string, value: string)
      requires Valid()
      modifies this
      ensures Valid()
      ensures items == old(items)[key := value]
      ensures keys == AppendNew(old(keys), key)
    {
      if key !in keys {
        keys := keys + [key];
      }
      items := items[key := value];
    }

    /** localStorage.removeItem(key); removing an absent key does nothing. */
    method RemoveItem(key: string)
      requires Valid()
      modifies this
      ensures Valid()
      ensures items == old(items) - {key}
      ensures keys == Without(old(keys), key)
    {
      var i := 0;
      while i < |keys| && keys[i] != key
        invariant 0 <= i <= |keys|
        invariant key !in keys[..i]
      {
        i := i + 1;
      }
      if i == |keys| {
        assert keys[..i] == keys;
        WithoutAbsent(keys, key);
      } else {
        WithoutAt(keys, i);
        keys := keys[..i] + keys[i + 1..];
      }
      items := items - {key};
    }
  }

  /** A duplicate-free key sequence listing exactly the map's keys is as long as the map. */
  lemma {:induction false} KeysCount(keys: seq<string>, items: map<string, string>)
    requires Distinct(keys) && forall k :: k in items <==> k in keys
    ensures |keys| == |items|
  {
    if keys != [] {
      var rest := keys[1..];
      var smaller := items - {keys[0]};
      forall k ensures k in smaller <==> k in rest {
        if k in rest {
          var j :| 0 <= j < |rest| && rest[j] == k;
          assert keys[j + 1] == k;
        }
      }
      KeysCount(rest, smaller);
    } else {
      assert items.Keys == {};
    }
  }
}
