/** `vec_##t`: a growable array that doubles its capacity when full. The
    C vector hands out a pointer to the new slot and the caller fills it;
    here `Add` takes the value the caller stores there. */
module Vector {

  datatype Vec<T> = Vec(capacity: nat, items: seq<T>) {

    function Len(): nat {
      |items|
    }

    /** 0 <= len <= capacity (the C field `allocated`), with room for at least one item. */
    predicate Valid() {
      1 <= capacity && |items| <= capacity
    }
  }

  /** `vec_##t##_new`. */
  function New<T>(): (v: Vec<T>)
    ensures v.Valid() && v.Len() == 0 && v.capacity == 1
  {
    Vec(1, [])
  }

  /** `vec_##t##_add`: the new item lands at index old-len, earlier items
      survive the reallocation, and capacity doubles exactly when full. */
  function Add<T>(v: Vec<T>, x: T): (r: Vec<T>)
    requires v.Valid()
    ensures r.Valid()
    ensures r.Len() == v.Len() + 1 && r.items[v.Len()] == x
    ensures r.items[..v.Len()] == v.items
    ensures v.Len() == v.capacity ==> r.capacity == 2 * v.capacity
    ensures v.Len() < v.capacity ==> r.capacity == v.capacity
  {
    var capacity := if |v.items| == v.capacity then 2 * v.capacity else v.capacity;
    Vec(capacity, v.items + [x])
  }

  predicate IsPow2(n: nat) {
    n == 1 || (n >= 2 && n % 2 == 0 && IsPow2(n / 2))
  }

  /** The capacity is the least power of two that holds the items. */
  predicate Tight<T>(v: Vec<T>) {
    && IsPow2(v.capacity)
    && v.Len() <= v.capacity
    && (v.capacity == 1 || v.capacity < 2 * v.Len())
  }

  /** Appends the items of `xs` one at a time. */
  function AddAll<T>(v: Vec<T>, xs: seq<T>): (r: Vec<T>)
    requires v.Valid()
    ensures r.Valid() && r.items == v.items + xs
    decreases |xs|
  {
    if |xs| == 0 then v
    else
      var w := Add(v, xs[0]);
      assert w.items == v.items + [xs[0]];
      assert v.items + xs == w.items + xs[1..];
      AddAll(w, xs[1..])
  }

  /** Doubling keeps the capacity tight: after any sequence of adds to a new
      vector the capacity is the least power of two >= max(1, len). */
  lemma {:induction false} AddAllTight<T>(v: Vec<T>, xs: seq<T>)
    requires v.Valid() && Tight(v)
    ensures Tight(AddAll(v, xs))
    decreases |xs|
  {
    if |xs| > 0 {
      var w := Add(v, xs[0]);
      assert IsPow2(2 * v.capacity);
      assert Tight(w);
      AddAllTight(w, xs[1..]);
    }
  }

  lemma NewTight<T>()
    ensures Tight(New<T>())
  {
  }
}
