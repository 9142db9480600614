/**
 * The browser's `localStorage`, as far as the key vault uses it: a store of items under
 * distinct names, enumerable by index through `length` and `key(i)`.
 *
 * The order `key(i)` enumerates names in is the browser's choice; the model fixes one
 * (the order names were first set in), and nothing proved about the vault depends on it.
 */
module WebStorage {
  import opened Wrappers

  /** `names` without the name n. */
  function Without(names: seq<string>, n: string): (r: seq<string>)
    ensures forall m :: m in r <==> m in names && m != n
    ensures |r| <= |names|
  {
    if names == [] then []
    else if names[0] == n then Without(names[1..], n)
    else [names[0]] + Without(names[1..], n)
  }

  predicate Distinct(names: seq<string>) {
    forall i, j :: 0 <= i < j < |names| ==> names[i] != names[j]
  }

  /** Removing a name from a list of distinct names keeps them distinct. */
  lemma {:induction false} WithoutDistinct(names: seq<string>, n: string)
    requires Distinct(names)
    ensures Distinct(Without(names, n))
    decreases |names|
  {
    if names != [] {
      WithoutDistinct(names[1..], n);
      if names[0] != n {
        var rest := Without(names[1..], n);
        assert names[0] !in rest;
        assert forall i :: 0 < i < |[names[0]] + rest| ==> ([names[0]] + rest)[i] == rest[i - 1];
      }
    }
  }

  class LocalStorage<V> {
    /** The names, in the order `key(i)` returns them. */
    var names: seq<string>
    /** The item stored under each name. */
    var items: map<string, V>

    /** Each name appears once, and the names are exactly those with an item. */
    ghost predicate Valid()
      reads this
    {
      && Distinct(names)
      && (forall n :: n in names <==> n in items)
    }

    constructor ()
      ensures Valid() && names == [] && items == map[]
    {
      names := [];
      items := map[];
    }

    /** `localStorage.length`. */
    function Length(): (n: nat)
      reads this
      requires Valid()
      ensures n == |items.Keys|
    {
      DistinctCount(names, items.Keys);
      |names|
    }

    /** `localStorage.key(i)`: the i-th name, or null past the end. */
    function Key(i: int): (r: Option<string>)
      reads this
      requires Valid()
      ensures r.Some? <==> 0 <= i < Length()
      ensures r.Some? ==> r.value in items
    {
      if 0 <= i < |names| then Some(names[i]) else None
    }

    /** `localStorage.getItem(name)`: the item, or null when there is none. */
    function GetItem(name: string): (r: Option<V>)
      reads this
      ensures r.Some? <==> name in items
      ensures r.Some? ==> r.value == items[name]
    {
      if name in items then Some(items[name]) else None
    }

    /** `localStorage.setItem(name, value)`: adds the name or replaces its item. */
    method SetItem(name: string, value: V)
      requires Valid()
      modifies this
      ensures Valid()
      ensures items == old(items)[name := value]
      ensures names == if name in old(items) then old(names) else old(names) + [name]
    {
      if name !in items {
        names := names + [name];
      }
      items := items[name := value];
    }

    /** `localStorage.removeItem(name)`: drops the name and its item, if there is one. */
    method RemoveItem(name: string)
      requires Valid()
      modifies this
      ensures Valid()
      ensures items == old(items) - {name}
      ensures names == Without(old(names), name)
    {
      WithoutDistinct(names, name);
      names := Without(names, name);
      items := items - {name};
    }
  }

  /** A list of distinct names that are exactly the members of a set has the set's size. */
  lemma {:induction false} DistinctCount(names: seq<string>, s: set<string>)
    requires Distinct(names)
    requires forall n :: n in names <==> n in s
    ensures |names| == |s|
    decreases |names|
  {
    if names != [] {
      var rest := names[1..];
      assert names[0] !in rest;
      assert forall n :: n in rest <==> n in s - {names[0]};
      DistinctCount(rest, s - {names[0]});
    }
  }
}
