/** Values that may be absent: Python's `None` next to a real value. */
module Common {

  /** `None` models a Python `None` (a JSON `null` once serialised). */
  datatype Option<+T> = None | Some(value: T) {

    /** The value, or `default` when absent (Python's `x if x is not None else default`). */
    function GetOr(default: T): T {
      match this
      case Some(v) => v
      case None => default
    }
  }

  /** The present values of `rs`, in order: what a loop that skips the absent ones collects. */
  function Somes<T>(rs: seq<Option<T>>): (vs: seq<T>)
    ensures |vs| <= |rs|
  {
    if rs == [] then []
    else Somes(rs[..|rs| - 1]) + (if rs[|rs| - 1].Some? then [rs[|rs| - 1].value] else [])
  }

  /** A value is collected exactly when it is present somewhere. */
  lemma {:induction false} SomesMembers<T>(rs: seq<Option<T>>, v: T)
    ensures v in Somes(rs) <==> Some(v) in rs
  {
    if rs != [] {
      var front := rs[..|rs| - 1];
      SomesMembers(front, v);
      assert rs == front + [rs[|rs| - 1]];
    }
  }

  /** Collecting is element by element: it distributes over concatenation. */
  lemma {:induction false} SomesAppend<T>(a: seq<Option<T>>, b: seq<Option<T>>)
    ensures Somes(a + b) == Somes(a) + Somes(b)
    decreases |b|
  {
    if b == [] {
      assert a + b == a;
    } else {
      assert (a + b)[..|a + b| - 1] == a + b[..|b| - 1];
      SomesAppend(a, b[..|b| - 1]);
    }
  }
}
