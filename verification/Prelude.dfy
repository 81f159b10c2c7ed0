/** Small datatypes shared by the modules of this project. */
module Prelude {

  datatype Option<+T> = None | Some(value: T)

  /** Values of a 32-bit word. */
  const W32: nat := 0x1_0000_0000

  function SetOf(s: seq<nat>): (r: set<nat>)
    ensures forall x :: x in r <==> x in s
  {
    if s == [] then {} else {s[0]} + SetOf(s[1..])
  }

  /** All identifiers below `n`, for counting down how many a worklist has not seen yet. */
  ghost function Below(n: nat): (s: set<nat>)
    ensures forall b: nat :: b in s <==> b < n
  {
    if n == 0 then {} else Below(n - 1) + {n - 1}
  }

  /** The identifiers below `n`, in increasing order, that belong to `s`: a set listed in layout order. */
  function LayoutOrder(n: nat, s: set<nat>): (r: seq<nat>)
  {
    if n == 0 then []
    else LayoutOrder(n - 1, s) + (if n - 1 in s then [n - 1] else [])
  }

  /** A layout listing holds exactly the members below `n`, strictly increasing. */
  lemma {:induction false} LayoutOrderIsSortedListing(n: nat, s: set<nat>)
    ensures forall x :: x in LayoutOrder(n, s) <==> x < n && x in s
    ensures forall i, j :: 0 <= i < j < |LayoutOrder(n, s)| ==> LayoutOrder(n, s)[i] < LayoutOrder(n, s)[j]
  {
    if n > 0 {
      LayoutOrderIsSortedListing(n - 1, s);
      var earlier := LayoutOrder(n - 1, s);
      forall i | 0 <= i < |earlier|
        ensures earlier[i] < n - 1
      {
        assert earlier[i] in earlier;
      }
    }
  }

  // ---- remainders of small sums ---------------------------------------------------------------------------------------------

  lemma MulMonotone(a: int, b: int, m: int)
    requires a <= b && m >= 0
    ensures a * m <= b * m
  {
  }

  lemma QuotientIsUnique(x: int, m: int, q: int)
    requires m > 0 && q * m <= x < q * m + m
    ensures x / m == q && x % m == x - q * m
  {
    var d := x / m;
    assert x == d * m + x % m;
    if d + 1 <= q {
      MulMonotone(d + 1, q, m);
    } else if q + 1 <= d {
      MulMonotone(q + 1, d, m);
    }
  }

  /** The remainder by repeated subtraction: what `%` computes for unsigned words. */
  function Rem(x: nat, m: nat): (r: nat)
    requires m > 0
    ensures r < m
  {
    if x < m then x else Rem(x - m, m)
  }

  lemma {:induction false} RemIsRemainder(x: nat, m: nat)
    requires m > 0
    ensures Rem(x, m) == x % m
  {
    if x < m {
      QuotientIsUnique(x, m, 0);
    } else {
      RemIsRemainder(x - m, m);
      var q := (x - m) / m;
      assert x - m == q * m + (x - m) % m;
      QuotientIsUnique(x, m, q + 1);
    }
  }

  lemma RemSmall(x: nat, m: nat)
    requires 0 < m && x < 2 * m
    ensures Rem(x, m) == if x < m then x else x - m
  {
    if m <= x { assert Rem(x - m, m) == x - m; }
  }
}
