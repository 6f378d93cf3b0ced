/**
 * Monkey math (day 21, first version): monkeys yell either a number or the result of an
 * operation on the numbers two other monkeys yell. The numbers are `usize`, so a
 * subtraction below zero, a sum or product beyond the 64-bit range and a division by
 * zero panic; the model returns None for each. The human's number is then found by
 * doubling and binary search on the ordering of the two numbers the root compares.
 */
module MonkeyMath {

  import opened Common

  /** The largest `usize` on a 64-bit target. */
  const UsizeMax: nat := 0xFFFF_FFFF_FFFF_FFFF

  datatype Op = Add | Subtract | Multiply | Divide

  datatype Monkey = Value(v: nat) | Expr(left: string, right: string, op: Op)

  /** `usize` addition: None (a panic) when the sum leaves the 64-bit range. */
  function AddUsize(a: nat, b: nat): (r: Option<nat>)
    ensures r.Some? <==> a + b <= UsizeMax
    ensures r.Some? ==> r.value == a + b
  {
    if a + b <= UsizeMax then Some(a + b) else None
  }

  /** `usize` subtraction: None (a panic) below zero. */
  function SubUsize(a: nat, b: nat): (r: Option<nat>)
    ensures r.Some? <==> a >= b
    ensures r.Some? ==> r.value + b == a
  {
    if a >= b then Some(a - b) else None
  }

  /** `usize` multiplication: None (a panic) when the product leaves the 64-bit range. */
  function MulUsize(a: nat, b: nat): (r: Option<nat>)
    ensures r.Some? <==> a * b <= UsizeMax
    ensures r.Some? ==> r.value == a * b
  {
    if a * b <= UsizeMax then Some(a * b) else None
  }

  /** `usize` division, truncating; None (a panic) for a zero divisor. */
  function DivUsize(a: nat, b: nat): (r: Option<nat>)
    ensures r.Some? <==> b != 0
    ensures r.Some? ==> r.value * b <= a < (r.value + 1) * b && r.value <= a
  {
    if b == 0 then None
    else
      DivisionBounds(a, b);
      Some(a / b)
  }

  /** One operation on two numbers that fit a `usize`; the result fits one too. */
  function Apply(op: Op, a: nat, b: nat): (r: Option<nat>)
    requires a <= UsizeMax && b <= UsizeMax
    ensures r.Some? ==> r.value <= UsizeMax
  {
    match op
    case Add => AddUsize(a, b)
    case Subtract => SubUsize(a, b)
    case Multiply => MulUsize(a, b)
    case Divide => DivUsize(a, b)
  }

  /** Division of naturals truncates: the quotient times the divisor is within one divisor of a. */
  lemma DivisionBounds(a: nat, b: nat)
    requires b > 0
    ensures (a / b) * b <= a < (a / b + 1) * b
    ensures a / b <= a
  {
    var q, r := a / b, a % b;
    assert a == q * b + r && 0 <= r < b;
    assert (q + 1) * b == q * b + b;
    if q > 0 {
      MulAtLeast(q, b);
    }
  }

  /**
   * A rank that strictly decreases from every expression to each child it names, which
   * rules out cycles; every stored number fits a `usize`.
   */
  predicate WellFounded(monkeys: map<string, Monkey>, rank: map<string, nat>) {
    forall name :: name in monkeys ==>
      && name in rank
      && (monkeys[name].Value? ==> monkeys[name].v <= UsizeMax)
      && (monkeys[name].Expr? ==>
            && (monkeys[name].left in monkeys ==>
                  monkeys[name].left in rank && rank[monkeys[name].left] < rank[name])
            && (monkeys[name].right in monkeys ==>
                  monkeys[name].right in rank && rank[monkeys[name].right] < rank[name]))
  }

  /**
   * `evaluate_monkey`: the number a monkey yells, or None when the evaluation panics
   * (a missing name or a failing operation below it).
   */
  function Evaluate(name: string, monkeys: map<string, Monkey>, rank: map<string, nat>): (r: Option<nat>)
    requires WellFounded(monkeys, rank)
    ensures name !in monkeys ==> r.None?
    ensures name in monkeys && monkeys[name].Value? ==> r == Some(monkeys[name].v)
    ensures r.Some? ==> r.value <= UsizeMax
    decreases if name in monkeys then rank[name] + 1 else 0
  {
    if name !in monkeys then None
    else match monkeys[name]
      case Value(v) => Some(v)
      case Expr(left, right, op) =>
        match (Evaluate(left, monkeys, rank), Evaluate(right, monkeys, rank))
        case (Some(l), Some(r)) => Apply(op, l, r)
        case _ => None
  }

  /** The rank is only a proof device: any two ranks give the same numbers. */
  lemma {:induction false} EvaluateIgnoresRank(name: string, monkeys: map<string, Monkey>, rank: map<string, nat>, rank': map<string, nat>)
    requires WellFounded(monkeys, rank) && WellFounded(monkeys, rank')
    ensures Evaluate(name, monkeys, rank) == Evaluate(name, monkeys, rank')
    decreases if name in monkeys then rank[name] + 1 else 0
  {
    if name in monkeys && monkeys[name].Expr? {
      EvaluateIgnoresRank(monkeys[name].left, monkeys, rank, rank');
      EvaluateIgnoresRank(monkeys[name].right, monkeys, rank, rank');
    }
  }

  /** The monkey `name` is `target` or reads it, directly or through other monkeys. */
  predicate DependsOn(name: string, target: string, monkeys: map<string, Monkey>, rank: map<string, nat>)
    requires WellFounded(monkeys, rank)
    decreases if name in monkeys then rank[name] + 1 else 0
  {
    name == target ||
    (name in monkeys && monkeys[name].Expr? &&
      (DependsOn(monkeys[name].left, target, monkeys, rank) || DependsOn(monkeys[name].right, target, monkeys, rank)))
  }

  /** The monkeys with the human's entry replaced by the number h. */
  function WithHuman(monkeys: map<string, Monkey>, h: nat): map<string, Monkey> {
    monkeys["humn" := Value(h)]
  }

  /** Replacing the human's number keeps the monkeys well founded. */
  lemma WithHumanWellFounded(monkeys: map<string, Monkey>, rank: map<string, nat>, h: nat)
    requires WellFounded(monkeys, rank) && "humn" in monkeys && h <= UsizeMax
    ensures WellFounded(WithHuman(monkeys, h), rank)
  {
  }

  /** Rebinding the human changes only the monkeys that depend on it. */
  lemma {:induction false} RebindingHumanIsLocal(name: string, monkeys: map<string, Monkey>, rank: map<string, nat>, h: nat)
    requires WellFounded(monkeys, rank) && "humn" in monkeys && h <= UsizeMax
    requires !DependsOn(name, "humn", monkeys, rank)
    ensures WellFounded(WithHuman(monkeys, h), rank)
    ensures Evaluate(name, WithHuman(monkeys, h), rank) == Evaluate(name, monkeys, rank)
    decreases if name in monkeys then rank[name] + 1 else 0
  {
    WithHumanWellFounded(monkeys, rank, h);
    if name in monkeys && monkeys[name].Expr? {
      RebindingHumanIsLocal(monkeys[name].left, monkeys, rank, h);
      RebindingHumanIsLocal(monkeys[name].right, monkeys, rank, h);
    }
  }

  /**
   * `comparison_result_with_initial_number`: set the human's number to h and compare
   * what the two monkeys yell; None when either evaluation panics.
   */
  function Compare(h: nat, left: string, right: string, monkeys: map<string, Monkey>, rank: map<string, nat>): (r: Option<Ordering>)
    requires WellFounded(monkeys, rank) && "humn" in monkeys
    ensures h <= UsizeMax && Evaluate(left, WithHuman(monkeys, h), rank).Some? && Evaluate(right, WithHuman(monkeys, h), rank).Some? ==>
      r == Some(CompareInt(Evaluate(left, WithHuman(monkeys, h), rank).value, Evaluate(right, WithHuman(monkeys, h), rank).value))
    ensures r.Some? ==> h <= UsizeMax
  {
    if h > UsizeMax then None
    else
      WithHumanWellFounded(monkeys, rank, h);
      var m := WithHuman(monkeys, h);
      match (Evaluate(left, m, rank), Evaluate(right, m, rank))
      case (Some(l), Some(r)) => Some(CompareInt(l, r))
      case _ => None
  }

  /** n is a power of two. */
  predicate PowerOfTwo(n: nat)
    decreases n
  {
    n == 1 || (n > 1 && n % 2 == 0 && PowerOfTwo(n / 2))
  }

  /** Between a power of two and its double there is no other power of two. */
  lemma {:induction false} NoPowerBetween(k: nat, h: nat)
    requires PowerOfTwo(k) && PowerOfTwo(h) && k < 2 * h
    ensures k <= h
    decreases h
  {
    if h > 1 && k > 1 {
      NoPowerBetween(k / 2, h / 2);
    }
  }

  /**
   * The comparison runs from `before` for humans below a, through Equal for humans in
   * [a, b), to `after` from b on, and is defined (nothing panics) for every human number
   * the search can probe, which is every number below 2b: the shape the search is built for.
   */
  ghost predicate Crossing(cmp: nat -> Option<Ordering>, a: nat, b: nat, before: Ordering, after: Ordering) {
    1 <= a < b && before != Equal && after != Equal && before != after &&
    forall x :: 1 <= x < 2 * b ==> cmp(x) == Some(if x < a then before else if x < b then Equal else after)
  }

  /**
   * The doubling phase: starting from 1, double until the ordering differs from the
   * ordering at 1. It stops at the first power of two where it differs, which lies
   * below 2t when the ordering differs from the one at 1 everywhere in [t, 2t).
   */
  method Double(cmp: nat -> Option<Ordering>, ghost t: nat) returns (humn: nat)
    requires t >= 1 && forall x :: t <= x < 2 * t ==> cmp(x) != cmp(1)
    ensures humn >= 2 && PowerOfTwo(humn) && cmp(humn) != cmp(1) && humn < 2 * t
    ensures forall k :: 1 <= k < humn && PowerOfTwo(k) ==> cmp(k) == cmp(1)
  {
    humn := 1;
    var initial := cmp(1);
    while cmp(humn) == initial
      invariant humn >= 1 && PowerOfTwo(humn) && humn < 2 * t
      invariant forall k :: 1 <= k < humn && PowerOfTwo(k) ==> cmp(k) == cmp(1)
      invariant humn == 1 ==> cmp(humn) == initial
      decreases 2 * t - humn
    {
      assert humn < t;
      forall k | 1 <= k < 2 * humn && PowerOfTwo(k) ensures cmp(k) == cmp(1) {
        NoPowerBetween(k, humn);
      }
      assert PowerOfTwo(2 * humn) by {
        assert (2 * humn) / 2 == humn;
      }
      humn := 2 * humn;
    }
  }

  /**
   * The search phase on [lo, hi]: probe the middle, return it if Equal, move right past
   * it if it orders as at 1, and left onto it otherwise. Every probe and every sum
   * lo + hi stays below 4b.
   */
  method Bisect(cmp: nat -> Option<Ordering>, lo: nat, hi: nat, ghost a: nat, ghost b: nat, ghost before: Ordering, ghost after: Ordering)
    returns (r: nat)
    requires Crossing(cmp, a, b, before, after) && hi < 2 * b
    requires 1 <= lo <= hi && (if lo < a then a else lo) <= (if hi < b - 1 then hi else b - 1)
    ensures lo <= r <= hi && cmp(r) == Some(Equal)
  {
    var initial := cmp(1);
    var l, h := lo, hi;
    while true
      invariant lo <= l <= h <= hi
      invariant (if l < a then a else l) <= (if h < b - 1 then h else b - 1)
      decreases h - l
    {
      assert l + h < 4 * b;
      var mid := (l + h) / 2;
      var c := cmp(mid);
      if c == Some(Equal) {
        return mid;
      } else if c == initial {
        assert mid < a;
        l := mid + 1;
      } else {
        assert mid >= b;
        h := mid;
      }
    }
  }

  /**
   * `binary_search_for_equality` for any comparison with the crossing shape: it returns
   * a human number at which the comparison is Equal.
   */
  method SearchForEquality(cmp: nat -> Option<Ordering>) returns (r: nat)
    requires exists a: nat, b: nat, before, after :: Crossing(cmp, a, b, before, after)
    ensures r >= 1 && cmp(r) == Some(Equal)
  {
    ghost var a: nat, b: nat, before, after :| Crossing(cmp, a, b, before, after);
    assert cmp(1) == Some(if 1 < a then before else Equal);
    forall x | b <= x < 2 * b ensures cmp(x) != cmp(1) {
      assert cmp(x) == Some(after);
    }
    var humn := Double(cmp, b);
    assert PowerOfTwo(humn / 2) && humn / 2 >= 1;
    assert cmp(humn / 2) == cmp(1);
    r := Bisect(cmp, humn / 2, humn, a, b, before, after);
  }

  /** The comparison the search probes: the root's two operands with the human set to h. */
  function RootComparison(left: string, right: string, monkeys: map<string, Monkey>, rank: map<string, nat>): (r: nat -> Option<Ordering>)
    requires WellFounded(monkeys, rank) && "humn" in monkeys
    ensures forall h :: r(h) == Compare(h, left, right, monkeys, rank)
  {
    (h: nat) => Compare(h, left, right, monkeys, rank)
  }

  /**
   * The search's precondition on the monkeys: the root comparison has the crossing shape,
   * with the crossing low enough (b at most 2^62) that the doubling and the midpoint sums
   * of the search fit a `usize`.
   */
  ghost predicate Searchable(left: string, right: string, monkeys: map<string, Monkey>, rank: map<string, nat>)
    requires WellFounded(monkeys, rank) && "humn" in monkeys
  {
    exists a: nat, b: nat, before, after ::
      Crossing(RootComparison(left, right, monkeys, rank), a, b, before, after) && 4 * b <= UsizeMax + 1
  }

  /**
   * `binary_search_for_equality` on the monkeys: the human number it returns makes the
   * root's two operands yell the same number.
   */
  method BinarySearchForEquality(left: string, right: string, monkeys: map<string, Monkey>, rank: map<string, nat>)
    returns (humn: nat)
    requires WellFounded(monkeys, rank) && "humn" in monkeys
    requires Searchable(left, right, monkeys, rank)
    ensures humn >= 1 && Compare(humn, left, right, monkeys, rank) == Some(Equal)
    ensures humn <= UsizeMax && WellFounded(WithHuman(monkeys, humn), rank)
    ensures Evaluate(left, WithHuman(monkeys, humn), rank).Some?
    ensures Evaluate(left, WithHuman(monkeys, humn), rank) == Evaluate(right, WithHuman(monkeys, humn), rank)
  {
    humn := SearchForEquality(RootComparison(left, right, monkeys, rank));
    WithHumanWellFounded(monkeys, rank, humn);
  }

  /** Two monkeys: the human and a monkey yelling 3. */
  const ExampleMonkeys: map<string, Monkey> := map["humn" := Value(1), "three" := Value(3)]
  const ExampleRank: map<string, nat> := map["humn" := 0, "three" := 0]

  /**
   * The search's precondition can be met: comparing the human with a monkey that yells 3
   * gives Less below 3, Equal at 3 and Greater above.
   */
  lemma SearchableExample()
    ensures WellFounded(ExampleMonkeys, ExampleRank) && "humn" in ExampleMonkeys
    ensures Crossing(RootComparison("humn", "three", ExampleMonkeys, ExampleRank), 3, 4, Less, Greater)
    ensures Searchable("humn", "three", ExampleMonkeys, ExampleRank)
  {
    var cmp := RootComparison("humn", "three", ExampleMonkeys, ExampleRank);
    forall x | 1 <= x < 8
      ensures cmp(x) == Some(if x < 3 then Less else if x < 4 then Equal else Greater)
    {
      WithHumanWellFounded(ExampleMonkeys, ExampleRank, x);
      var m := WithHuman(ExampleMonkeys, x);
      assert Evaluate("humn", m, ExampleRank) == Some(x);
      assert Evaluate("three", m, ExampleRank) == Some(3);
    }
    assert Crossing(cmp, 3, 4, Less, Greater) && 4 * 4 <= UsizeMax + 1;
  }
}
