/**
 * The attribute store (attr.go): a map from attribute name to a dynamically
 * typed value. Go's map is a reference type updated in place; here a store is
 * a map value and every update returns the new map.
 */
module Attributes {

  import opened Wrappers

  /** The dynamic values an attribute can carry (Go's interface{}). */
  datatype Value =
    | Str(s: string)
    | Int(i: int)
    | Float(f: real)
    | Bool(b: bool)
    | Nil
    | Other(tag: string)        // any other hashable Go value (a pointer, a struct, ...)
    | Unhashable(tag: string)   // a slice, map or func: it cannot be a Go map key

  type Attrs = map<string, Value>

  /** NewAttributeCollection (attr.go:7-10): an empty store. */
  function NewAttributeCollection(): (a: Attrs)
    ensures Count(a) == 0
    ensures forall k :: !Contains(a, k)
  {
    map[]
  }

  /**
   * BuildAttributes (attr.go:12-16): the template itself becomes the store
   * (Go shares the map; here the value is copied).
   */
  function BuildAttributes(template: map<string, Value>): (a: Attrs)
    ensures Count(a) == Count(template)
    ensures forall k :: Get(a, k) == Get(template, k)
  {
    template
  }

  /** Count (attr.go:19-21): the number of names in the store. */
  function Count(a: Attrs): (n: nat)
    ensures n == |a.Keys|
  {
    |a|
  }

  /** Get (attr.go:24-27): the value and a presence flag; Go yields nil for a missing name. */
  function Get(a: Attrs, name: string): (r: (Value, bool))
    ensures r.1 <==> name in a
    ensures r.1 ==> r.0 == a[name]
    ensures !r.1 ==> r.0 == Nil
  {
    if name in a then (a[name], true) else (Nil, false)
  }

  /** Contains (attr.go:35-38): whether the name is present. */
  function Contains(a: Attrs, name: string): (b: bool)
    ensures b == Get(a, name).1
  {
    name in a
  }

  /** Set (attr.go:30-32): insert or overwrite one name. */
  function Set(a: Attrs, name: string, value: Value): (r: Attrs)
    ensures Get(r, name) == (value, true)
    ensures forall k :: k != name ==> Get(r, k) == Get(a, k)
    ensures Count(r) == if Contains(a, name) then Count(a) else Count(a) + 1
  {
    a[name := value]
  }

  /** Remove (attr.go:53-55): delete one name; a missing name is a no-op. */
  function Remove(a: Attrs, name: string): (r: Attrs)
    ensures !Contains(r, name)
    ensures forall k :: k != name ==> Get(r, k) == Get(a, k)
    ensures !Contains(a, name) ==> r == a
    ensures Count(r) == if Contains(a, name) then Count(a) - 1 else Count(a)
  {
    a - {name}
  }

  /**
   * Merge (attr.go:41-50): copy every entry of items into the store, keeping
   * the store's own value for a name it already holds unless override is set.
   * A nil items map behaves as the empty map. The error is always nil.
   */
  method Merge(a: Attrs, items: Attrs, override: bool) returns (r: Attrs, err: Option<string>)
    ensures err == None
    ensures r == Merged(a, items, override)
    ensures MergeRule(a, items, override, r)
  {
    r := a;
    var pending := items.Keys;
    while pending != {}
      invariant pending <= items.Keys
      invariant MergedExcept(a, items, override, pending, r)
      decreases pending
    {
      var key :| key in pending;
      ghost var before := r;
      if override || key !in r {
        r := r[key := items[key]];
      }
      MergeStep(a, items, override, pending, key, before, r);
      pending := pending - {key};
    }
    assert MergeRule(a, items, override, r);
    MergedIsRule(a, items, override, r);
    err := None;
  }

  /** r is the merge of a with the entries of items outside pending (the loop invariant of Merge). */
  predicate MergedExcept(a: Attrs, items: Attrs, override: bool, pending: set<string>, r: Attrs)
  {
    && r.Keys == a.Keys + (items.Keys - pending)
    && (forall k :: k in items && k !in pending ==> r[k] == (if override || k !in a then items[k] else a[k]))
    && (forall k :: k in a && (k !in items || k in pending) ==> r[k] == a[k])
  }

  /** One round of the merge loop moves one name of items out of pending. */
  lemma MergeStep(a: Attrs, items: Attrs, override: bool, pending: set<string>, key: string, before: Attrs, after: Attrs)
    requires pending <= items.Keys && key in pending && MergedExcept(a, items, override, pending, before)
    requires after == if override || key !in before then before[key := items[key]] else before
    ensures MergedExcept(a, items, override, pending - {key}, after)
  {
  }

  /** What Merge leaves in the store, as a map union biased towards items or towards the store. */
  function Merged(a: Attrs, items: Attrs, override: bool): Attrs
  {
    if override then a + items else items + a
  }

  /** A merged store is characterised name by name by the rule of attr.go:44-46. */
  predicate MergeRule(a: Attrs, items: Attrs, override: bool, r: Attrs)
  {
    && r.Keys == a.Keys + items.Keys
    && (forall k :: k in items ==> r[k] == (if override || k !in a then items[k] else a[k]))
    && (forall k :: k in a && k !in items ==> r[k] == a[k])
  }

  /**
   * Merged follows the rule, and the rule determines the store: every key of
   * items is written when overriding, only missing keys are added otherwise,
   * and names outside items are untouched.
   */
  lemma {:induction false} MergedIsRule(a: Attrs, items: Attrs, override: bool, r: Attrs)
    ensures r == Merged(a, items, override) <==> MergeRule(a, items, override, r)
  {
    var m := Merged(a, items, override);
    assert MergeRule(a, items, override, m);
    if MergeRule(a, items, override, r) {
      assert r.Keys == m.Keys;
      forall k | k in r ensures r[k] == m[k] {
      }
    }
  }

  /** Merging nothing (Go's nil items) leaves the store as it is (attr.go:42). */
  lemma {:induction false} MergeNothing(a: Attrs, override: bool)
    ensures Merged(a, map[], override) == a
  {
    MergedIsRule(a, map[], override, a);
  }
}
