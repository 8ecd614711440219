/** g_list_shift (src/glib_extra.c): pop the first element of a list. The
    caller's list variable, updated through `GList **`, is an in/out
    parameter here. */
module GListExtra {
  import opened Wrappers

  /** The value and the remaining list g_list_shift produces. */
  function Shifted<T>(gl: seq<T>): (Option<T>, seq<T>) {
    if gl == [] then (None, gl) else (Some(gl[0]), gl[1..])
  }

  /** g_list_shift: NULL on an empty list, else the head's data; the list
      becomes its old tail. */
  method Shift<T>(gl: seq<T>) returns (d: Option<T>, gl': seq<T>)
    ensures gl == [] ==> d == None && gl' == []
    ensures gl != [] ==> d == Some(gl[0]) && gl' == gl[1..]
    ensures (d, gl') == Shifted(gl)
    ensures |gl'| == if gl == [] then 0 else |gl| - 1
  {
    if gl != [] {
      d := Some(gl[0]);
      gl' := gl[1..];
    } else {
      d := None;
      gl' := gl;
    }
  }

  /** The values returned by shifting until the list is empty. */
  function Drain<T>(gl: seq<T>): seq<T>
    decreases |gl|
  {
    var (d, rest) := Shifted(gl);
    if d.None? then [] else [d.value] + Drain(rest)
  }

  /** Repeated shifts return the elements in insertion order. */
  lemma {:induction false} DrainInOrder<T>(gl: seq<T>)
    ensures Drain(gl) == gl
    decreases |gl|
  {
    if gl != [] {
      DrainInOrder(gl[1..]);
    }
  }

  /** Shift after append: the list behaves as a FIFO queue. */
  lemma ShiftAfterAppend<T>(gl: seq<T>, x: T)
    ensures Shifted(gl + [x]) ==
      if gl == [] then (Some(x), []) else (Shifted(gl).0, Shifted(gl).1 + [x])
  {
    if gl != [] {
      assert (gl + [x])[1..] == gl[1..] + [x];
    } else {
      assert (gl + [x])[1..] == [];
    }
  }
}
