/**
 * `geo::Vector<T, N>` of src/geo/vector.hpp over integers: a fixed-length array of components
 * with the `x`/`y`/`z`/`w` getters, the free `dot` product and `makeVector`.
 *
 * The component type is `int`; the length `N` is the length of the underlying array, fixed
 * when the vector is made.
 */
module Vectors {
  import opened Wrappers

  // ---------------------------------------------------------------------------------------
  // The dot product as a value.

  /** The sum of `u[i] * v[i]` over all `i`, added up from the front as the loop does. */
  function DotSpec(u: seq<int>, v: seq<int>): int
    requires |u| == |v|
  {
    if |u| == 0 then 0
    else DotSpec(u[..|u| - 1], v[..|v| - 1]) + u[|u| - 1] * v[|v| - 1]
  }

  /** Vectors of length zero have dot product zero: the `if constexpr (N > 0)` skips the loop. */
  lemma DotEmpty(u: seq<int>, v: seq<int>)
    requires |u| == |v| == 0
    ensures DotSpec(u, v) == 0
  {
  }

  /** Each component's product is added once: extending both vectors adds one term. */
  lemma DotSnoc(u: seq<int>, v: seq<int>, a: int, b: int)
    requires |u| == |v|
    ensures DotSpec(u + [a], v + [b]) == DotSpec(u, v) + a * b
  {
    assert (u + [a])[..|u|] == u;
    assert (v + [b])[..|v|] == v;
  }

  /** The dot product does not depend on the order of its arguments. */
  lemma {:induction false} DotSymmetric(u: seq<int>, v: seq<int>)
    requires |u| == |v|
    ensures DotSpec(u, v) == DotSpec(v, u)
  {
    if |u| > 0 {
      DotSymmetric(u[..|u| - 1], v[..|v| - 1]);
    }
  }

  /** A vector's dot product with itself is a sum of squares, so never negative. */
  lemma {:induction false} DotSelfNonNegative(u: seq<int>)
    ensures DotSpec(u, u) >= 0
  {
    if |u| > 0 {
      DotSelfNonNegative(u[..|u| - 1]);
      assert u[|u| - 1] * u[|u| - 1] >= 0;
    }
  }

  /** A vector's dot product with itself is zero exactly when every component is zero. */
  lemma {:induction false} DotSelfZeroIff(u: seq<int>)
    ensures DotSpec(u, u) == 0 <==> forall i | 0 <= i < |u| :: u[i] == 0
  {
    if |u| > 0 {
      var n := |u| - 1;
      DotSelfZeroIff(u[..n]);
      DotSelfNonNegative(u[..n]);
      assert u[n] * u[n] >= 0;
      if u[n] != 0 {
        assert u[n] * u[n] > 0;
      }
      if forall i | 0 <= i < n :: u[..n][i] == 0 {
        assert forall i | 0 <= i < n :: u[i] == 0;
      }
      if forall i | 0 <= i < |u| :: u[i] == 0 {
        assert forall i | 0 <= i < n :: u[..n][i] == 0;
      }
    }
  }

  /** The integer cases of `TEST(Vector, dot)` in src/geo/vector_test_unit.cpp. */
  lemma DotExamples()
    ensures DotSpec([4, -2], [-2, -3]) == -2
    ensures DotSpec([4, 2], [2, 3]) == 14
  {
    DotSnoc([4], [-2], -2, -3);
    DotSnoc([4], [2], 2, 3);
    DotSnoc([], [], 4, -2);
    DotSnoc([], [], 4, 2);
  }

  // ---------------------------------------------------------------------------------------
  // The vector object.

  /** `Vector<int, N>`: a `std::array` of `N` components that the getters expose by reference. */
  class Vector {
    const data: array<int>

    /** `N`, the `size()` of the array. */
    function Size(): nat
      reads this
    {
      data.Length
    }

    /** The components in index order. */
    function Elems(): (r: seq<int>)
      reads this, data
      ensures |r| == Size()
    {
      data[..]
    }

    /** The aggregate initialisation of `makeVector`: the components are the given values. */
    constructor(values: seq<int>)
      ensures Elems() == values && fresh(data)
    {
      data := new int[|values|](i requires 0 <= i < |values| => values[i]);
    }

    /** Reading through `x()`, allowed only when `N > 0`. */
    function X(): (r: int)
      requires Size() > 0
      reads this, data
      ensures r == Elems()[0]
    {
      data[0]
    }

    /** Reading through `y()`, allowed only when `N > 1`. */
    function Y(): (r: int)
      requires Size() > 1
      reads this, data
      ensures r == Elems()[1]
    {
      data[1]
    }

    /** Reading through `z()`, allowed only when `N > 2`. */
    function Z(): (r: int)
      requires Size() > 2
      reads this, data
      ensures r == Elems()[2]
    {
      data[2]
    }

    /** Reading through `w()`, allowed only when `N > 3`. */
    function W(): (r: int)
      requires Size() > 3
      reads this, data
      ensures r == Elems()[3]
    {
      data[3]
    }

    /** `v.x() = value`: writing through the reference changes component 0 and nothing else. */
    method SetX(value: int)
      requires Size() > 0
      modifies data
      ensures Elems() == old(Elems())[0 := value]
      ensures X() == value
    {
      data[0] := value;
    }

    /** `v.y() = value`: writing through the reference changes component 1 and nothing else. */
    method SetY(value: int)
      requires Size() > 1
      modifies data
      ensures Elems() == old(Elems())[1 := value]
      ensures Y() == value
    {
      data[1] := value;
    }

    /** `v.z() = value`: writing through the reference changes component 2 and nothing else. */
    method SetZ(value: int)
      requires Size() > 2
      modifies data
      ensures Elems() == old(Elems())[2 := value]
      ensures Z() == value
    {
      data[2] := value;
    }

    /** `v.w() = value`: writing through the reference changes component 3 and nothing else. */
    method SetW(value: int)
      requires Size() > 3
      modifies data
      ensures Elems() == old(Elems())[3 := value]
      ensures W() == value
    {
      data[3] := value;
    }

    /**
     * The const overload `x() const` as written: its body calls `x()` on a const object,
     * which resolves to itself, so it recurses without end. `fuel` bounds the number of
     * calls; no amount of it produces a value.
     */
    function ConstXAsWritten(fuel: nat): (r: Option<int>)
      reads this, data
    {
      if fuel == 0 then None else ConstXAsWritten(fuel - 1)
    }

    /**
     * The const getter as written never returns, however deep the call stack may grow: the
     * fuel stands for the unbounded recursion, and no amount of it reaches a value.
     */
    lemma {:induction false} ConstXNeverReturns(fuel: nat)
      ensures ConstXAsWritten(fuel) == None
    {
      if fuel > 0 {
        ConstXNeverReturns(fuel - 1);
      }
    }

    /** The const getter as evidently intended: the same component, read only. */
    function ConstX(): (r: int)
      requires Size() > 0
      reads this, data
      ensures r == X()
    {
      data[0]
    }
  }

  /**
   * `makeVector(t...)`: a new vector of as many components as arguments, in argument order.
   * With no arguments `std::common_type_t<>` names no type and the call does not compile.
   */
  method MakeVector(args: seq<int>) returns (v: Vector)
    requires |args| > 0
    ensures fresh(v) && fresh(v.data)
    ensures v.Size() == |args| && v.Elems() == args
  {
    v := new Vector(args);
  }

  /** `dot(a, b)`: the accumulating loop over the components of two vectors of one length. */
  method Dot(a: Vector, b: Vector) returns (sum: int)
    requires a.Size() == b.Size()
    ensures sum == DotSpec(a.Elems(), b.Elems())
  {
    sum := 0;
    for i := 0 to a.data.Length
      invariant sum == DotSpec(a.data[..i], b.data[..i])
    {
      DotSnoc(a.data[..i], b.data[..i], a.data[i], b.data[i]);
      assert a.data[..i + 1] == a.data[..i] + [a.data[i]];
      assert b.data[..i + 1] == b.data[..i] + [b.data[i]];
      sum := sum + a.data[i] * b.data[i];
    }
    assert a.data[..a.data.Length] == a.Elems();
    assert b.data[..b.data.Length] == b.Elems();
  }

  /** The integer cases of `TEST(Vector, dot)`, run through `makeVector` and `dot`. */
  method DotTestCases() returns (first: int, second: int)
    ensures first == -2 && second == 14
  {
    DotExamples();
    var a := MakeVector([4, -2]);
    var b := MakeVector([-2, -3]);
    first := Dot(a, b);
    var c := MakeVector([4, 2]);
    var d := MakeVector([2, 3]);
    second := Dot(c, d);
  }
}
