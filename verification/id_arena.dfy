/**
 The append-only arena the analyser stores its entities in (the `id_arena` crate's
 `Arena`): allocation appends a value and hands back its index as a handle. There is no
 removal; a handle, once handed out, indexes the same slot for the arena's lifetime.
 */
module IdArena {

  /** A handle: the index of a slot in one arena. */
  type Id = nat

  class Arena<T> {
    var items: seq<T>

    constructor ()
      ensures items == []
    {
      items := [];
    }

    /** Stores `value` in a new slot at the end; every earlier slot is left as it was. */
    method Alloc(value: T) returns (id: Id)
      modifies this
      ensures id == old(|items|)
      ensures items == old(items) + [value]
    {
      id := |items|;
      items := items + [value];
    }

    /** Like `Alloc`, for a value that records its own handle: `make` is given the
        handle the new slot is about to receive. */
    method AllocWithId(make: Id -> T) returns (id: Id)
      modifies this
      ensures id == old(|items|)
      ensures items == old(items) + [make(id)]
    {
      id := |items|;
      items := items + [make(id)];
    }
  }
}
