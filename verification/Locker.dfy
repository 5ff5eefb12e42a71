/** A one-slot channel used as a lock that anybody can release. */
module Lockers {

  class Locker {
    // whether the slot holds a token
    var full: bool

    constructor ()
      ensures !full
    {
      full := false;
    }

    /** Puts a token in the slot if it is free. */
    method Acquire() returns (ok: bool)
      modifies this
      ensures full && ok == !old(full)
    {
      if full {
        return false;
      }
      full := true;
      return true;
    }

    /** Waits for the slot until a deadline. `frees` says that somebody else's token is taken out during
        the wait, `expires` that the deadline is noticed before a token could be put in. */
    method TryAcquire(frees: bool, expires: bool) returns (ok: bool)
      modifies this
      ensures ok <==> (!old(full) || frees) && !expires
      ensures full <==> ok || (old(full) && !frees)
    {
      if frees {
        full := false;
      }
      if full || expires {
        return false;
      }
      full := true;
      return true;
    }

    /** Takes the token out; a no-op on a free slot. */
    method Release()
      modifies this
      ensures !full
    {
      full := false;
    }
  }
}
