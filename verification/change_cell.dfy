/** The change-only-on-difference property pattern shared by the selection service and the pie
    options: a setter stores a value and raises one change event, unless the value is already
    the stored one. */
module ChangeCell {

  datatype Cell<T> = Cell(value: T)

  /** The setter: the new cell and whether exactly one change event was raised. */
  function Set<T(==)>(c: Cell<T>, v: T): (r: (Cell<T>, bool))
    ensures r.0.value == v
    ensures r.1 <==> v != c.value
    ensures !r.1 ==> r.0 == c
  {
    if c.value == v then (c, false) else (Cell(v), true)
  }

  /** How many of the successive values in `vs` differ from the one before, starting from `v`. */
  function Changes<T(==)>(v: T, vs: seq<T>): nat {
    if |vs| == 0 then 0 else (if vs[0] != v then 1 else 0) + Changes(vs[0], vs[1..])
  }

  /** Setting each value of `vs` in turn: the final cell and the number of events raised. */
  function SetAll<T(==)>(c: Cell<T>, vs: seq<T>): (r: (Cell<T>, nat))
    ensures r.1 <= |vs|
    decreases |vs|
  {
    if |vs| == 0 then (c, 0)
    else
      var (c1, raised) := Set(c, vs[0]);
      var (c2, n) := SetAll(c1, vs[1..]);
      (c2, n + (if raised then 1 else 0))
  }

  /** The getter returns the last value set, and one event is raised per actual change. */
  lemma {:induction false} SetAllSpec<T>(c: Cell<T>, vs: seq<T>)
    ensures |vs| > 0 ==> SetAll(c, vs).0.value == vs[|vs| - 1]
    ensures |vs| == 0 ==> SetAll(c, vs).0 == c
    ensures SetAll(c, vs).1 == Changes(c.value, vs)
    decreases |vs|
  {
    if |vs| > 0 {
      SetAllSpec(Set(c, vs[0]).0, vs[1..]);
    }
  }

  /** Setting the same value twice raises at most one event. */
  lemma {:induction false} SetIdempotent<T>(c: Cell<T>, v: T)
    ensures Set(Set(c, v).0, v) == (Set(c, v).0, false)
  {
  }
}
