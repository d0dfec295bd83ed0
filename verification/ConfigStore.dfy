/** The key/value store as the configuration code uses it: a map from printed key names to
    values, reached through a key buffer.  `view` is the same map on unprinted keys. */
module ConfigStore {
  import opened Basics
  import opened KeyNames

  datatype Value = Ul(n: nat) | Blob(bytes: seq<nat>)

  /** A call that changes the store. */
  datatype Change = Put(key: DbKey, value: Value) | Remove(key: DbKey)

  function WithChange(view: map<DbKey, Value>, c: Change): map<DbKey, Value> {
    match c
    case Put(k, v) => view[k := v]
    case Remove(k) => view - {k}
  }

  /** The view after changes, the first of them made to an empty store. */
  function Changed(changes: seq<Change>): map<DbKey, Value> {
    if changes == [] then map[] else WithChange(Changed(changes[..|changes| - 1]), changes[|changes| - 1])
  }

  lemma ChangedOnceMore(changes: seq<Change>, c: Change)
    ensures Changed(changes + [c]) == WithChange(Changed(changes), c)
  {
    assert (changes + [c])[..|changes|] == changes;
  }

  lemma ChangedUpTo(changes: seq<Change>, k: nat)
    requires k < |changes|
    ensures Changed(changes[..k + 1]) == WithChange(Changed(changes[..k]), changes[k])
  {
    assert changes[..k + 1][..k] == changes[..k];
  }

  class Store {
    var data: map<string, Value>
    var keyBuf: string
    ghost var view: map<DbKey, Value>
    /** The changes made so far. */
    ghost var trace: seq<Change>

    ghost predicate Valid()
      reads this
    {
      && view == Changed(trace)
      && forall k {:trigger Name(k)} ::
           (k in view <==> Name(k) in data) && (k in view ==> data[Name(k)] == view[k])
    }

    constructor ()
      ensures Valid() && view == map[]
    {
      data, keyBuf, view, trace := map[], "", map[], [];
    }

    /** `db_cl_set_key_buf`. */
    method SetKeyBuf(k: DbKey)
      requires Valid()
      modifies this`keyBuf
      ensures Valid() && keyBuf == Name(k)
    {
      keyBuf := Name(k);
    }

    /** An insertion for which the server finds memory. */
    method Insert(k: DbKey, v: Value)
      requires Valid()
      modifies this
      ensures Valid() && view == old(view)[k := v] && trace == old(trace) + [Put(k, v)]
    {
      SetKeyBuf(k);
      data := data[keyBuf := v];
      ChangedOnceMore(trace, Put(k, v));
      view, trace := view[k := v], trace + [Put(k, v)];
      forall l | Name(l) == Name(k) ensures l == k {
        NameInjective(k, l);
      }
    }

    method Find(k: DbKey) returns (r: Option<Value>)
      requires Valid()
      modifies this`keyBuf
      ensures Valid() && r == if k in view then Some(view[k]) else None
    {
      SetKeyBuf(k);
      r := if keyBuf in data then Some(data[keyBuf]) else None;
    }

    method Exists(k: DbKey) returns (r: int)
      requires Valid()
      modifies this`keyBuf
      ensures Valid() && r == if k in view then -1 else 0
    {
      SetKeyBuf(k);
      r := if keyBuf in data then -1 else 0;
    }

    method Delete(k: DbKey) returns (r: int)
      requires Valid()
      modifies this
      ensures Valid() && view == old(view) - {k} && trace == old(trace) + [Remove(k)]
      ensures r == if k in old(view) then 0 else -1
    {
      SetKeyBuf(k);
      r := if keyBuf in data then 0 else -1;
      data := data - {keyBuf};
      ChangedOnceMore(trace, Remove(k));
      view, trace := view - {k}, trace + [Remove(k)];
      forall l | Name(l) == Name(k) ensures l == k {
        NameInjective(k, l);
      }
    }
  }
}
