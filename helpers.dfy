/**
 * The state helpers of the app (src/helpers.ts): a value cell, the flag
 * state machine of an asynchronously loaded value, a keyed get-or-create
 * collection backed by an insertion-ordered map, and an element reference.
 * Hook tracking, the debounced re-render trigger and promise plumbing are
 * outside the model; what remains are the fields these objects update.
 */
module Helpers {
  import opened Wrappers

  // ---------------------------------------------------------------------------
  // Insertion order of a JavaScript Map

  /** No key occurs twice. */
  predicate Distinct(keys: seq<string>) {
    forall i, j :: 0 <= i < j < |keys| ==> keys[i] != keys[j]
  }

  /** The key order of a Map after `set(id, …)`: an existing key keeps its place,
      a new key goes last. */
  function Placed(order: seq<string>, id: string): (r: seq<string>)
    ensures |order| <= |r| <= |order| + 1
    ensures r[..|order|] == order
    ensures id in r
    ensures forall x :: x in r <==> x in order || x == id
    ensures Distinct(order) ==> Distinct(r)
    ensures (id in order) <==> |r| == |order|
  {
    if id in order then order else order + [id]
  }

  /** Setting the same key again leaves the order as it was. */
  lemma PlacedIdempotent(order: seq<string>, id: string)
    ensures Placed(Placed(order, id), id) == Placed(order, id)
  {
  }

  // ---------------------------------------------------------------------------
  // HookState

  /** `HookState<T>`: a value cell. `history` records the initial value and every
      value passed to `set`, so the current value is always the last of them. */
  class HookState<T> {
    var value: T
    ghost var history: seq<T>
    /** How many times `set` has asked for a re-render. */
    ghost var triggers: nat

    ghost predicate Valid()
      reads this
    {
      |history| >= 1 && value == history[|history| - 1]
    }

    constructor (initialValue: T)
      ensures Valid()
      ensures value == initialValue && history == [initialValue] && triggers == 0
    {
      value := initialValue;
      history := [initialValue];
      triggers := 0;
    }

    /** `get()`: the current value, the initial one or the one last set. */
    method Get() returns (r: T)
      requires Valid()
      ensures r == value == history[|history| - 1]
    {
      r := value;
    }

    /** `set(v)`: assigns the value first, then triggers a re-render. */
    method Set(v: T)
      modifies this
      ensures Valid()
      ensures value == v && history == old(history) + [v]
      ensures triggers == old(triggers) + 1
    {
      value := v;
      history := history + [v];
      triggers := triggers + 1;
    }
  }

  // ---------------------------------------------------------------------------
  // AsyncContext

  /** `AsyncContext<T>`: the flags of a value loaded by an initializer. The
      initializer's success and failure are the events `Resolve` and `Reject`;
      they can only arrive while a load is in flight, that is while `isLoading`. */
  class AsyncContext<T, E> {
    var hasLoaded: bool
    var isLoading: bool
    var error: Option<E>
    var value: Option<T>
    /** How many times the initializer has been started. */
    ghost var started: nat

    /** A loaded context is never loading at the same time. */
    ghost predicate Valid()
      reads this
    {
      !(hasLoaded && isLoading)
    }

    constructor ()
      ensures Valid()
      ensures !hasLoaded && !isLoading && error == None && value == None && started == 0
    {
      hasLoaded, isLoading := false, false;
      error, value := None, None;
      started := 0;
    }

    /** `load()`: starts the initializer only when nothing is loaded and nothing is loading. */
    method Load() returns (start: bool)
      requires Valid()
      modifies this
      ensures Valid()
      ensures start <==> !old(hasLoaded) && !old(isLoading)
      ensures start ==> isLoading && started == old(started) + 1
      ensures !start ==> isLoading == old(isLoading) && started == old(started)
      ensures hasLoaded == old(hasLoaded) && error == old(error) && value == old(value)
    {
      start := !hasLoaded && !isLoading;
      if start {
        isLoading := true;
        started := started + 1;
      }
    }

    /** The initializer resolved with `v`. */
    method Resolve(v: T)
      requires Valid() && isLoading
      modifies this
      ensures Valid()
      ensures hasLoaded && !isLoading && value == Some(v)
      ensures error == old(error) && started == old(started)
    {
      hasLoaded := true;
      isLoading := false;
      value := Some(v);
    }

    /** The initializer failed with `e`. */
    method Reject(e: E)
      requires Valid() && isLoading
      modifies this
      ensures Valid()
      ensures !hasLoaded && !isLoading && error == Some(e)
      ensures value == old(value) && started == old(started)
    {
      isLoading := false;
      error := Some(e);
    }

    /** `refresh()`: nothing while loading; otherwise forget the loaded state and load again,
        which then always starts the initializer. */
    method Refresh() returns (start: bool)
      requires Valid()
      modifies this
      ensures Valid()
      ensures start <==> !old(isLoading)
      ensures old(isLoading) ==> hasLoaded == old(hasLoaded) && isLoading && started == old(started)
      ensures !old(isLoading) ==> !hasLoaded && isLoading && started == old(started) + 1
      ensures error == old(error) && value == old(value)
    {
      start := false;
      if !isLoading {
        hasLoaded := false;
        start := Load();
      }
    }

    /** `set(v)`: replaces the value; the flags stay as they are. */
    method Set(v: T)
      requires Valid()
      modifies this
      ensures Valid()
      ensures value == Some(v)
      ensures hasLoaded == old(hasLoaded) && isLoading == old(isLoading) && error == old(error)
      ensures started == old(started)
    {
      value := Some(v);
    }
  }

  // ---------------------------------------------------------------------------
  // useCollection

  /** One call of a collection's creator: the id, the initial or new value, and the previous item. */
  datatype CreatorCall<T, V> = CreatorCall(id: string, value: Option<V>, prev: Option<T>)

  /** `useCollection(creator)`: items keyed by id in a Map, created on demand.
      `order` is the Map's insertion order, `items` its contents, and `calls`
      every call of the creator so far. `truthy` is JavaScript truthiness of an item. */
  class Collection<T, V> {
    const creator: (string, Option<V>, Option<T>) -> T
    const truthy: T -> bool
    var order: seq<string>
    var items: map<string, T>
    ghost var calls: seq<CreatorCall<T, V>>

    ghost predicate Valid()
      reads this
    {
      Distinct(order) && (forall id :: id in items <==> id in order)
    }

    constructor (creator: (string, Option<V>, Option<T>) -> T, truthy: T -> bool)
      ensures Valid()
      ensures this.creator == creator && this.truthy == truthy
      ensures order == [] && items == map[] && calls == []
    {
      this.creator := creator;
      this.truthy := truthy;
      order := [];
      items := map[];
      calls := [];
    }

    /** `get(id, initial)`: a stored (truthy) item is returned as is, without calling
        the creator; otherwise the creator is called once with no previous item and
        its result is stored under `id`. */
    method Get(id: string, initial: Option<V>) returns (item: T)
      requires Valid()
      modifies this
      ensures Valid()
      ensures old(id in items && truthy(items[id])) ==>
        item == old(items[id]) && order == old(order) && items == old(items) && calls == old(calls)
      ensures !old(id in items && truthy(items[id])) ==>
        && item == creator(id, initial, None)
        && items == old(items)[id := item]
        && order == Placed(old(order), id)
        && calls == old(calls) + [CreatorCall(id, initial, None)]
    {
      if id in items && truthy(items[id]) {
        item := items[id];
        return;
      }
      item := creator(id, initial, None);
      calls := calls + [CreatorCall(id, initial, None)];
      items := items[id := item];
      order := Placed(order, id);
    }

    /** `upget(id, v)`: always calls the creator with `v` and the previous item, if any,
        and stores its result under `id`; other keys keep their items and places. */
    method Upget(id: string, v: V) returns (item: T)
      requires Valid()
      modifies this
      ensures Valid()
      ensures var prev := if id in old(items) then Some(old(items)[id]) else None;
        && item == creator(id, Some(v), prev)
        && calls == old(calls) + [CreatorCall(id, Some(v), prev)]
      ensures items == old(items)[id := item]
      ensures order == Placed(old(order), id)
    {
      var prev := if id in items then Some(items[id]) else None;
      item := creator(id, Some(v), prev);
      calls := calls + [CreatorCall(id, Some(v), prev)];
      items := items[id := item];
      order := Placed(order, id);
    }

    /** `has(id)`: whether an item is stored under `id`. */
    function Has(id: string): (r: bool)
      reads this
      requires Valid()
      ensures r <==> id in order
    {
      id in items
    }

    /** `map(fn)`: `fn` applied to every entry in insertion order, with its 0-based index. */
    function Map<P>(fn: (T, string, nat) -> P): (r: seq<P>)
      reads this
      requires Valid()
      ensures |r| == |order|
      ensures forall i :: 0 <= i < |order| ==> r[i] == fn(items[order[i]], order[i], i)
    {
      var keys, m := order, items;
      seq(|keys|, i requires 0 <= i < |keys| && keys[i] in m => fn(m[keys[i]], keys[i], i))
    }
  }

  /** Storing under a key keeps every earlier entry at its index, so `map` visits the
      entries before it in the same order and with the same indices as before. */
  lemma PlacedKeepsIndices(order: seq<string>, id: string, i: nat)
    requires i < |order|
    ensures i < |Placed(order, id)| && Placed(order, id)[i] == order[i]
  {
    assert Placed(order, id)[..|order|][i] == order[i];
  }

  // ---------------------------------------------------------------------------
  // Ref

  /** `Ref<T>`: the current element; `created` records every call of `oncreate`. */
  class Ref<T> {
    var current: Option<T>
    ghost var created: seq<T>

    constructor ()
      ensures current == None && created == []
    {
      current := None;
      created := [];
    }

    /** Setting `current`: stores the element, and calls `oncreate` only for an element, not for null. */
    method SetCurrent(el: Option<T>)
      modifies this
      ensures current == el
      ensures created == old(created) + (if el.Some? then [el.value] else [])
    {
      current := el;
      if el.Some? {
        created := created + [el.value];
      }
    }
  }
}
