/** The watch list of utils/watch_list.c: an allocator of slots that the parser hands its
    temporary objects to, and that frees whatever is left after a command. */
module WatchList {

  datatype Slot<+T> = Empty | Live(entry: T)

  class List<T> {
    const list: array<Slot<T>>
    /** The slot to use next; the size when none is known. */
    var free: nat

    ghost predicate Valid()
      reads this, list
    {
      free <= list.Length && (free < list.Length ==> list[free] == Empty)
    }

    /** Every slot is in use. */
    ghost predicate Full()
      reads list
    {
      forall i | 0 <= i < list.Length :: list[i] != Empty
    }

    /** `wl_init`. */
    constructor (size: nat)
      ensures Valid() && fresh(list) && list.Length == size && forall i | 0 <= i < size :: list[i] == Empty
    {
      list := new Slot<T>[size](i => Empty);
      free := 0;
    }

    /** `wl_add_entry`: nothing is handed out exactly when every slot is in use, and no slot in
        use is ever taken. */
    method AddEntry(entry: T) returns (slot: int)
      requires Valid()
      modifies this, list
      ensures Valid()
      ensures slot == -1 <==> old(Full())
      ensures slot == -1 ==> list[..] == old(list[..])
      ensures slot != -1 ==>
        0 <= slot < list.Length && old(list[slot]) == Empty && list[..] == old(list[..])[slot := Live(entry)]
    {
      if free >= list.Length {
        var i := 0;
        while i < list.Length
          invariant 0 <= i <= list.Length
          invariant Valid() && list[..] == old(list[..])
          invariant free == list.Length <==> forall k | 0 <= k < i :: list[k] != Empty
        {
          if list[i] == Empty {
            free := i;
          }
          i := i + 1;
        }
      }
      if free >= list.Length {
        return -1;
      }
      ghost var was := list[..];
      assert was[free] == Empty;
      list[free] := Live(entry);
      slot := free;
      free := free + 1;
      while free < list.Length && list[free] != Empty
        invariant free <= list.Length && list[..] == was[slot := Live(entry)]
        decreases list.Length - free
      {
        free := free + 1;
      }
    }

    /** `wl_free_entry` on a slot that was handed out. */
    method FreeEntry(slot: nat)
      requires Valid() && slot < list.Length
      modifies list
      ensures Valid() && list[..] == old(list[..])[slot := Empty]
    {
      list[slot] := Empty;
    }

    /** `wl_cleanup`. */
    method Cleanup()
      requires Valid()
      modifies this, list
      ensures Valid() && forall i | 0 <= i < list.Length :: list[i] == Empty
    {
      for i := 0 to list.Length
        invariant forall k | 0 <= k < i :: list[k] == Empty
      {
        if list[i] != Empty {
          list[i] := Empty;
        }
      }
      free := 0;
    }

    /** Any run of additions, releases and cleanups on a new list; `slots[k]` is what operation
        `k` returned, if it is an addition. */
    method Run(ops: seq<Op<T>>) returns (slots: seq<int>)
      requires Valid() && forall i | 0 <= i < list.Length :: list[i] == Empty
      requires forall k | 0 <= k < |ops| && ops[k].Free? :: ops[k].slot < list.Length
      modifies this, list
      ensures Valid() && |slots| == |ops| && Sound(ops, slots, list.Length)
      ensures forall i | 0 <= i < list.Length ::
              list[i] == if i in Held(ops, slots) then Live(Held(ops, slots)[i]) else Empty
    {
      slots := [];
      assert ops[..|ops|] == ops;
      for k := 0 to |ops|
        invariant Valid() && |slots| == k && Sound(ops[..k], slots, list.Length)
        invariant forall i | 0 <= i < list.Length ::
          list[i] == if i in Held(ops[..k], slots) then Live(Held(ops[..k], slots)[i]) else Empty
      {
        ghost var before := slots;
        var slot := -1;
        if ops[k].Add? {
          slot := AddEntry(ops[k].entry);
        } else if ops[k].Free? {
          FreeEntry(ops[k].slot);
        } else {
          Cleanup();
        }
        slots := slots + [slot];
        assert ops[..k + 1][..k] == ops[..k] && slots[..k] == before;
      }
    }
  }

  datatype Op<T> = Add(entry: T) | Free(slot: nat) | CleanAll

  /** What the slots hold after a run, given what the additions returned. */
  function Held<T>(ops: seq<Op<T>>, slots: seq<int>): map<int, T>
    requires |ops| == |slots|
  {
    if ops == [] then map[]
    else
      var m := |ops| - 1;
      var held := Held(ops[..m], slots[..m]);
      match ops[m]
      case Add(e) => if slots[m] == -1 then held else held[slots[m] := e]
      case Free(s) => held - {s}
      case CleanAll => map[]
  }

  /** Every addition returned a slot that was not in use, or nothing when all were. */
  ghost predicate Sound<T>(ops: seq<Op<T>>, slots: seq<int>, size: nat)
    requires |ops| == |slots|
  {
    ops == [] ||
    var m := |ops| - 1;
    && Sound(ops[..m], slots[..m], size)
    && (ops[m].Add? ==>
          var held := Held(ops[..m], slots[..m]);
          if slots[m] == -1 then forall i | 0 <= i < size :: i in held else 0 <= slots[m] < size && slots[m] !in held)
  }
}
