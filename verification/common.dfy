/**
 * Small definitions shared by the puzzle models: an optional value (the model of a
 * Rust `Option`, and of a panic where a source function can fail on its input) and
 * the three-way ordering of `std::cmp::Ordering`.
 */
module Common {

  datatype Option<T> = None | Some(value: T)

  datatype Ordering = Less | Equal | Greater {
    function Reverse(): Ordering {
      match this
      case Less => Greater
      case Equal => Equal
      case Greater => Less
    }
  }

  /** `a.cmp(&b)` on integers. */
  function CompareInt(a: int, b: int): (o: Ordering)
    ensures o == Less <==> a < b
    ensures o == Equal <==> a == b
    ensures o == Greater <==> a > b
  {
    if a < b then Less else if a == b then Equal else Greater
  }

  /** The absolute value of an integer. */
  function Abs(v: int): nat {
    if v < 0 then -v else v
  }

  /** No element occurs twice. */
  predicate NoRepeats<T(==)>(s: seq<T>) {
    forall i, j :: 0 <= i < j < |s| ==> s[i] != s[j]
  }

  /** The elements of `s` in the opposite order. */
  function Reverse<T>(s: seq<T>): (r: seq<T>)
    ensures |r| == |s|
    ensures forall i :: 0 <= i < |s| ==> r[i] == s[|s| - 1 - i]
  {
    if |s| == 0 then [] else Reverse(s[1..]) + [s[0]]
  }

  lemma ReverseOfAppend<T>(a: seq<T>, b: seq<T>)
    ensures Reverse(a + b) == Reverse(b) + Reverse(a)
  {
    var r := Reverse(a + b);
    assert forall i :: 0 <= i < |r| ==> r[i] == (Reverse(b) + Reverse(a))[i];
  }

  /** Sum of a sequence of integers. */
  function Sum(s: seq<int>): int {
    if |s| == 0 then 0 else Sum(s[..|s| - 1]) + s[|s| - 1]
  }

  lemma {:induction false} SumAppend(a: seq<int>, b: seq<int>)
    ensures Sum(a + b) == Sum(a) + Sum(b)
    decreases |b|
  {
    if |b| > 0 {
      assert (a + b)[..|a + b| - 1] == a + b[..|b| - 1];
      SumAppend(a, b[..|b| - 1]);
    } else {
      assert a + b == a;
    }
  }

  /** The sum of a sequence is its first element plus the sum of the rest. */
  lemma SumCons(x: int, s: seq<int>)
    ensures Sum([x] + s) == x + Sum(s)
  {
    SumAppend([x], s);
    assert [x][..0] == [];
  }

  /** Euclidean remainder of a value that is at most one period out of range. */
  lemma ModOnce(v: int, n: nat)
    requires 0 < n
    ensures 0 <= v < n ==> v % n == v
    ensures n <= v < 2 * n ==> v % n == v - n
  {
  }

  /** A finite non-empty set of integers has a largest and a smallest element. */
  lemma {:induction false} ExtremaExist(s: set<int>)
    requires s != {}
    ensures exists m :: m in s && forall v :: v in s ==> v <= m
    ensures exists m :: m in s && forall v :: v in s ==> m <= v
  {
    if forall y :: y !in s {
      assert false;
    }
    var x :| x in s;
    var rest := s - {x};
    assert forall v :: v in s ==> v == x || v in rest;
    if rest != {} {
      ExtremaExist(rest);
      var hi :| hi in rest && forall v :: v in rest ==> v <= hi;
      var lo :| lo in rest && forall v :: v in rest ==> lo <= v;
      var top := if x > hi then x else hi;
      var bottom := if x < lo then x else lo;
      assert top in s && forall v :: v in s ==> v <= top;
      assert bottom in s && forall v :: v in s ==> bottom <= v;
    } else {
      assert forall v :: v in s ==> v == x;
    }
  }

  /** The largest element of a non-empty set (`max()` on a non-empty iterator). */
  function SetMax(s: set<int>): (m: int)
    requires s != {}
    ensures m in s && forall v :: v in s ==> v <= m
  {
    ExtremaExist(s);
    var m :| m in s && forall v :: v in s ==> v <= m;
    m
  }

  /** The smallest element of a non-empty set (`min()` on a non-empty iterator). */
  function SetMin(s: set<int>): (m: int)
    requires s != {}
    ensures m in s && forall v :: v in s ==> m <= v
  {
    ExtremaExist(s);
    var m :| m in s && forall v :: v in s ==> m <= v;
    m
  }

  /** A positive multiple of a positive number is at least that number. */
  lemma {:induction false} MulAtLeast(h: int, k: int)
    requires h > 0 && k >= 1
    ensures h * k >= h
    decreases k
  {
    if k > 1 {
      MulAtLeast(h, k - 1);
      assert h * k == h * (k - 1) + h;
    }
  }

  /** If v = h * q + r with 0 <= r < h, then r is v's remainder. */
  lemma ModUnique(v: int, h: int, q: int, r: int)
    requires h > 0 && v == h * q + r && 0 <= r < h
    ensures v % h == r
  {
    var q', r' := v / h, v % h;
    assert v == h * q' + r';
    if q' < q {
      assert h * q - h * q' == h * (q - q');
      MulAtLeast(h, q - q');
    } else if q' > q {
      assert h * q' - h * q == h * (q' - q);
      MulAtLeast(h, q' - q);
    }
  }
}
