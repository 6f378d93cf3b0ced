/**
 * Monkey in the middle (day 11): monkeys inspect the items they hold, change each item's
 * worry level, and throw it to one of two other monkeys depending on a divisibility test.
 * Worry levels are unbounded here, so `DivideBy(1)` is the exact simulation, and the
 * `ModBy` manager is proved to give the same inspection counts when its amount is a
 * common multiple of every test modulus.
 *
 * A monkey's operation and test never change, so the troop is modelled as its fixed
 * rules, one per monkey, beside the changing queues of items, one per monkey: the
 * source's vector of `Monkey` values is the two read side by side.
 */
module Monkeys {

  import opened Common

  datatype Operation = Add(amount: nat) | Multiply(amount: nat) | Square

  /**
   * `Operation::apply_to`: old + n, old * n or old * old. Only multiplying by zero can
   * lower a worry level; adding raises it by exactly the amount.
   */
  function ApplyOperation(op: Operation, item: nat): (r: nat)
    ensures op != Multiply(0) ==> r >= item
    ensures op.Add? ==> r - item == op.amount
  {
    match op
    case Add(n) => item + n
    case Multiply(n) =>
      if n > 0 && item > 0 then MulAtLeast(item, n); item * n else item * n
    case Square =>
      if item > 0 then MulAtLeast(item, item); item * item else item * item
  }

  datatype Test = Test(modulus: nat, trueTarget: nat, falseTarget: nat)

  /** `Test::get_target`; a zero modulus is a panic in the source. */
  function GetTarget(test: Test, item: nat): (r: nat)
    requires test.modulus > 0
    ensures r == test.trueTarget || r == test.falseTarget
    ensures test.trueTarget != test.falseTarget ==> (r == test.trueTarget <==> item % test.modulus == 0)
  {
    if item % test.modulus == 0 then test.trueTarget else test.falseTarget
  }

  datatype WorryManager = DivideBy(amount: nat) | ModBy(amount: nat)

  /** Both managers divide by their amount, so it must not be zero. */
  predicate WorryOk(wm: WorryManager) {
    wm.amount > 0
  }

  /** `WorryManager::apply_to`: floor division or remainder; neither raises the worry level. */
  function ApplyWorry(wm: WorryManager, item: nat): (r: nat)
    requires WorryOk(wm)
    ensures r <= item
    ensures wm.ModBy? ==> r < wm.amount
    ensures wm == DivideBy(1) ==> r == item
  {
    match wm
    case DivideBy(n) =>
      DivideAtMost(item, n);
      item / n
    case ModBy(n) =>
      if item < n then ModUnique(item, n, 0, item); item % n else item % n
  }

  lemma DivideAtMost(x: nat, n: nat)
    requires n > 0
    ensures x / n <= x
    ensures n == 1 ==> x / n == x
  {
    var q := x / n;
    assert x == n * q + x % n;
    if q >= 1 {
      MulAtLeast(q, n);
      assert n * q >= q;
    }
  }

  /** The fixed part of a `Monkey`: how it changes worry levels and where it throws. */
  datatype Rule = Rule(operation: Operation, test: Test)

  /** A source `Monkey`: its queue of items and its rule. */
  datatype Monkey = Monkey(items: seq<nat>, operation: Operation, test: Test)

  function Rules(ms: seq<Monkey>): (rules: seq<Rule>)
    ensures |rules| == |ms|
  {
    seq(|ms|, j requires 0 <= j < |ms| => Rule(ms[j].operation, ms[j].test))
  }

  function Queues(ms: seq<Monkey>): (queues: seq<seq<nat>>)
    ensures |queues| == |ms|
  {
    seq(|ms|, j requires 0 <= j < |ms| => ms[j].items)
  }

  /** Rules and queues side by side give back the monkeys. */
  lemma RulesAndQueuesDetermineMonkeys(ms: seq<Monkey>, ns: seq<Monkey>)
    ensures Rules(ms) == Rules(ns) && Queues(ms) == Queues(ns) <==> ms == ns
  {
    if Rules(ms) == Rules(ns) && Queues(ms) == Queues(ns) {
      forall j | 0 <= j < |ms| ensures ms[j] == ns[j] {
        assert Rules(ms)[j] == Rules(ns)[j] && Queues(ms)[j] == Queues(ns)[j];
      }
    }
  }

  /** A rule with a usable test whose two targets are other monkeys of a troop of n. */
  predicate Thrower(rule: Rule, n: nat, index: nat) {
    rule.test.modulus > 0 && rule.test.trueTarget < n && rule.test.falseTarget < n &&
    rule.test.trueTarget != index && rule.test.falseTarget != index
  }

  /**
   * Every monkey can take its turn: the source panics on a zero modulus or a target out
   * of range, and never finishes a turn in which a monkey throws to itself.
   */
  predicate Troop(rules: seq<Rule>) {
    forall i :: 0 <= i < |rules| ==> Thrower(rules[i], |rules|, i)
  }

  /** The worry level of an item after the monkey inspects it. */
  function Inspect(rule: Rule, wm: WorryManager, item: nat): nat
    requires WorryOk(wm)
  {
    ApplyWorry(wm, ApplyOperation(rule.operation, item))
  }

  /** `push_back` onto queue t. */
  function Push(queues: seq<seq<nat>>, t: nat, v: nat): seq<seq<nat>>
    requires t < |queues|
  {
    queues[t := queues[t] + [v]]
  }

  /** Inspects and throws the items in order, as a monkey with this rule would. */
  function ThrowAll(queues: seq<seq<nat>>, rule: Rule, wm: WorryManager, items: seq<nat>): (r: seq<seq<nat>>)
    requires WorryOk(wm) && Thrower(rule, |queues|, |queues|)
    ensures |r| == |queues|
    decreases |items|
  {
    if |items| == 0 then queues
    else
      var v := Inspect(rule, wm, items[0]);
      ThrowAll(Push(queues, GetTarget(rule.test, v), v), rule, wm, items[1..])
  }

  /** The inspected worry levels, in order, of the items that end up with monkey j. */
  function Thrown(rule: Rule, wm: WorryManager, items: seq<nat>, j: nat): seq<nat>
    requires WorryOk(wm) && rule.test.modulus > 0
    decreases |items|
  {
    if |items| == 0 then []
    else
      var v := Inspect(rule, wm, items[0]);
      (if GetTarget(rule.test, v) == j then [v] else []) + Thrown(rule, wm, items[1..], j)
  }

  /** `take_turn`: the acting monkey's queue is emptied and every item is thrown on. */
  function Turn(rules: seq<Rule>, queues: seq<seq<nat>>, index: nat, wm: WorryManager): (r: seq<seq<nat>>)
    requires Troop(rules) && |queues| == |rules| && index < |rules| && WorryOk(wm)
    ensures |r| == |queues|
  {
    assert Thrower(rules[index], |rules|, index);
    ThrowAll(queues[index := []], rules[index], wm, queues[index])
  }

  /** Every queue grows by exactly the items thrown to it, in the order thrown. */
  lemma {:induction false} ThrowAllContents(queues: seq<seq<nat>>, rule: Rule, wm: WorryManager, items: seq<nat>, j: nat)
    requires WorryOk(wm) && Thrower(rule, |queues|, |queues|) && j < |queues|
    ensures ThrowAll(queues, rule, wm, items)[j] == queues[j] + Thrown(rule, wm, items, j)
    decreases |items|
  {
    if |items| > 0 {
      var v := Inspect(rule, wm, items[0]);
      var t := GetTarget(rule.test, v);
      var pushed := Push(queues, t, v);
      ThrowAllContents(pushed, rule, wm, items[1..], j);
      if t == j {
        assert pushed[j] + Thrown(rule, wm, items[1..], j) == queues[j] + ([v] + Thrown(rule, wm, items[1..], j));
      }
    }
  }

  /** A monkey that never targets index throws nothing to it. */
  lemma {:induction false} ThrownNotToSelf(rule: Rule, wm: WorryManager, items: seq<nat>, n: nat, index: nat)
    requires WorryOk(wm) && Thrower(rule, n, index)
    ensures Thrown(rule, wm, items, index) == []
    decreases |items|
  {
    if |items| > 0 {
      ThrownNotToSelf(rule, wm, items[1..], n, index);
    }
  }

  /**
   * After a turn the acting monkey holds nothing, and each other monkey's queue is its
   * old queue followed by the items thrown to it, in the order they were thrown.
   */
  lemma TurnContents(rules: seq<Rule>, queues: seq<seq<nat>>, index: nat, wm: WorryManager)
    requires Troop(rules) && |queues| == |rules| && index < |rules| && WorryOk(wm)
    ensures Turn(rules, queues, index, wm)[index] == []
    ensures forall j :: 0 <= j < |queues| && j != index ==>
              Turn(rules, queues, index, wm)[j] == queues[j] + Thrown(rules[index], wm, queues[index], j)
  {
    var rule := rules[index];
    var emptied := queues[index := []];
    assert Thrower(rule, |rules|, index);
    ThrowAllContents(emptied, rule, wm, queues[index], index);
    ThrownNotToSelf(rule, wm, queues[index], |rules|, index);
    forall j | 0 <= j < |queues| && j != index
      ensures Turn(rules, queues, index, wm)[j] == queues[j] + Thrown(rule, wm, queues[index], j)
    {
      ThrowAllContents(emptied, rule, wm, queues[index], j);
    }
  }

  /** The number of items held by all the monkeys together. */
  function TotalItems(queues: seq<seq<nat>>): nat {
    if |queues| == 0 then 0 else TotalItems(queues[..|queues| - 1]) + |queues[|queues| - 1]|
  }

  lemma {:induction false} TotalUpdate(queues: seq<seq<nat>>, j: nat, q: seq<nat>)
    requires j < |queues|
    ensures TotalItems(queues[j := q]) + |queues[j]| == TotalItems(queues) + |q|
    decreases |queues|
  {
    var n := |queues|;
    if j < n - 1 {
      assert queues[j := q][..n - 1] == queues[..n - 1][j := q];
      TotalUpdate(queues[..n - 1], j, q);
    } else {
      assert queues[j := q][..n - 1] == queues[..n - 1];
    }
  }

  lemma {:induction false} ThrowAllAdds(queues: seq<seq<nat>>, rule: Rule, wm: WorryManager, items: seq<nat>)
    requires WorryOk(wm) && Thrower(rule, |queues|, |queues|)
    ensures TotalItems(ThrowAll(queues, rule, wm, items)) == TotalItems(queues) + |items|
    decreases |items|
  {
    if |items| > 0 {
      var v := Inspect(rule, wm, items[0]);
      var t := GetTarget(rule.test, v);
      TotalUpdate(queues, t, queues[t] + [v]);
      ThrowAllAdds(Push(queues, t, v), rule, wm, items[1..]);
    }
  }

  /** A turn neither loses nor creates items. */
  lemma TurnConserves(rules: seq<Rule>, queues: seq<seq<nat>>, index: nat, wm: WorryManager)
    requires Troop(rules) && |queues| == |rules| && index < |rules| && WorryOk(wm)
    ensures TotalItems(Turn(rules, queues, index, wm)) == TotalItems(queues)
  {
    TotalUpdate(queues, index, []);
    assert Thrower(rules[index], |rules|, index);
    ThrowAllAdds(queues[index := []], rules[index], wm, queues[index]);
  }

  /** `take_turn` as the source runs it: pop the front item, inspect it, push it to its target. */
  method TakeTurn(rules: seq<Rule>, queues: seq<seq<nat>>, index: nat, wm: WorryManager) returns (after: seq<seq<nat>>)
    requires Troop(rules) && |queues| == |rules| && index < |rules| && WorryOk(wm)
    ensures after == Turn(rules, queues, index, wm)
    ensures after[index] == []
    ensures TotalItems(after) == TotalItems(queues)
  {
    var rule := rules[index];
    assert Thrower(rule, |rules|, index);
    after := queues;
    while |after[index]| > 0
      invariant |after| == |queues|
      invariant ThrowAll(after[index := []], rule, wm, after[index]) == Turn(rules, queues, index, wm)
      decreases |after[index]|
    {
      var queue := after[index];
      var v := Inspect(rule, wm, queue[0]);
      var t := GetTarget(rule.test, v);
      var popped := after[index := queue[1..]];
      assert popped[index := []] == after[index := []];
      after := Push(popped, t, v);
      assert after[index := []] == Push(popped[index := []], t, v);
    }
    assert after[index := []] == after;
    TurnContents(rules, queues, index, wm);
    TurnConserves(rules, queues, index, wm);
  }

  /** The rest of a round from monkey k on: each monkey adds its queue length to its count, then takes its turn. */
  function RoundFrom(rules: seq<Rule>, queues: seq<seq<nat>>, counts: seq<nat>, k: nat, wm: WorryManager): (r: (seq<seq<nat>>, seq<nat>))
    requires Troop(rules) && |queues| == |rules| && |counts| == |rules| && k <= |rules| && WorryOk(wm)
    ensures |r.0| == |rules| && |r.1| == |rules|
    decreases |rules| - k
  {
    if k == |rules| then (queues, counts)
    else RoundFrom(rules, Turn(rules, queues, k, wm), counts[k := counts[k] + |queues[k]|], k + 1, wm)
  }

  /** The queues and the inspection counts after the given number of whole rounds. */
  function Simulate(rules: seq<Rule>, queues: seq<seq<nat>>, rounds: nat, wm: WorryManager): (r: (seq<seq<nat>>, seq<nat>))
    requires Troop(rules) && |queues| == |rules| && WorryOk(wm)
    ensures |r.0| == |rules| && |r.1| == |rules|
  {
    if rounds == 0 then (queues, seq(|rules|, _ => 0))
    else
      var p := Simulate(rules, queues, rounds - 1, wm);
      RoundFrom(rules, p.0, p.1, 0, wm)
  }

  /**
   * `inspection_counts` as the source runs it: rounds of turns in monkey order, each
   * monkey's count growing by its queue length before its turn.
   */
  method InspectionCounts(rules: seq<Rule>, queues: seq<seq<nat>>, rounds: nat, wm: WorryManager)
      returns (counts: seq<nat>, state: seq<seq<nat>>)
    requires Troop(rules) && |queues| == |rules| && WorryOk(wm)
    ensures (state, counts) == Simulate(rules, queues, rounds, wm)
    ensures |counts| == |rules| && TotalItems(state) == TotalItems(queues)
  {
    counts := seq(|rules|, _ => 0);
    state := queues;
    for r := 0 to rounds
      invariant (state, counts) == Simulate(rules, queues, r, wm)
      invariant TotalItems(state) == TotalItems(queues)
    {
      ghost var start := (state, counts);
      for index := 0 to |rules|
        invariant |state| == |rules| && |counts| == |rules|
        invariant RoundFrom(rules, state, counts, index, wm) == RoundFrom(rules, start.0, start.1, 0, wm)
        invariant TotalItems(state) == TotalItems(queues)
      {
        counts := counts[index := counts[index] + |state[index]|];
        state := TakeTurn(rules, state, index, wm);
      }
    }
  }

  /** Inspection counts never go down during a round. */
  lemma {:induction false} RoundFromCountsGrow(rules: seq<Rule>, queues: seq<seq<nat>>, counts: seq<nat>, k: nat, wm: WorryManager)
    requires Troop(rules) && |queues| == |rules| && |counts| == |rules| && k <= |rules| && WorryOk(wm)
    ensures forall i :: 0 <= i < |rules| ==> counts[i] <= RoundFrom(rules, queues, counts, k, wm).1[i]
    decreases |rules| - k
  {
    if k < |rules| {
      RoundFromCountsGrow(rules, Turn(rules, queues, k, wm), counts[k := counts[k] + |queues[k]|], k + 1, wm);
    }
  }

  /** A round conserves the items held by the troop. */
  lemma {:induction false} RoundFromConserves(rules: seq<Rule>, queues: seq<seq<nat>>, counts: seq<nat>, k: nat, wm: WorryManager)
    requires Troop(rules) && |queues| == |rules| && |counts| == |rules| && k <= |rules| && WorryOk(wm)
    ensures TotalItems(RoundFrom(rules, queues, counts, k, wm).0) == TotalItems(queues)
    decreases |rules| - k
  {
    if k < |rules| {
      TurnConserves(rules, queues, k, wm);
      RoundFromConserves(rules, Turn(rules, queues, k, wm), counts[k := counts[k] + |queues[k]|], k + 1, wm);
    }
  }

  /** `modulus`: the product of every monkey's test modulus. */
  function Modulus(rules: seq<Rule>): nat {
    if |rules| == 0 then 1 else Modulus(rules[..|rules| - 1]) * rules[|rules| - 1].test.modulus
  }

  /** M is a positive common multiple of every test modulus. */
  predicate CommonMultiple(rules: seq<Rule>, bigM: nat) {
    bigM > 0 && forall j :: 0 <= j < |rules| ==> rules[j].test.modulus > 0 && bigM % rules[j].test.modulus == 0
  }

  /** Every test modulus divides the product (when none of them is zero). */
  lemma {:induction false} ModulusIsCommonMultiple(rules: seq<Rule>)
    requires forall i :: 0 <= i < |rules| ==> rules[i].test.modulus > 0
    ensures CommonMultiple(rules, Modulus(rules))
    decreases |rules|
  {
    if |rules| > 0 {
      var n := |rules|;
      var prefix := rules[..n - 1];
      ModulusIsCommonMultiple(prefix);
      var p, last := Modulus(prefix), rules[n - 1].test.modulus;
      MulAtLeast(p, last);
      ModUnique(p * last, last, p, 0);
      forall i | 0 <= i < n - 1
        ensures (p * last) % rules[i].test.modulus == 0
      {
        var mi := prefix[i].test.modulus;
        var q := p / mi;
        assert p == mi * q;
        assert p * last == mi * (q * last);
        ModUnique(p * last, mi, q * last, 0);
      }
    }
  }

  /** x + h * q leaves the same remainder as x. */
  lemma ModShift(x: int, h: int, q: int)
    requires h > 0
    ensures (x + h * q) % h == x % h
  {
    var d, r := x / h, x % h;
    assert x + h * q == h * (d + q) + r;
    ModUnique(x + h * q, h, d + q, r);
  }

  /** Applying an operation commutes with taking the remainder. */
  lemma OperationModular(op: Operation, x: nat, h: nat)
    requires h > 0
    ensures ApplyOperation(op, x) % h == ApplyOperation(op, x % h) % h
  {
    match op
    case Add(n) => AddModular(x, n, h);
    case Multiply(n) => MultiplyModular(x, n, h);
    case Square => SquareModular(x, h);
  }

  lemma SquareModular(x: nat, h: nat)
    requires h > 0
    ensures (x * x) % h == (x % h * (x % h)) % h
  {
    var r := x % h;
    MultiplyModular(x, x, h);
    MultiplyModular(x, r, h);
    assert r * x == x * r;
  }

  lemma AddModular(x: nat, n: nat, h: nat)
    requires h > 0
    ensures (x + n) % h == (x % h + n) % h
  {
    var q, r := x / h, x % h;
    assert x + n == (r + n) + h * q;
    ModShift(r + n, h, q);
  }

  /** Multiplying commutes with taking the remainder of the left factor. */
  lemma MultiplyModular(x: nat, n: nat, h: nat)
    requires h > 0
    ensures (x * n) % h == (x % h * n) % h
  {
    var q, r := x / h, x % h;
    assert x * n == r * n + h * (q * n);
    ModShift(r * n, h, q * n);
  }

  /** The remainder by a multiple of h keeps the remainder by h. */
  lemma ModOfMultiple(x: nat, bigM: nat, h: nat)
    requires h > 0 && bigM > 0 && bigM % h == 0
    ensures (x % bigM) % h == x % h
  {
    var k := bigM / h;
    assert bigM == h * k;
    var q := x / bigM;
    assert x == x % bigM + bigM * q;
    assert bigM * q == h * (k * q);
    ModShift(x % bigM, h, k * q);
  }

  /** Two queues of the same length whose worry levels agree modulo M, position by position. */
  predicate Congruent(xs: seq<nat>, ys: seq<nat>, bigM: nat)
    requires bigM > 0
  {
    |xs| == |ys| && forall i :: 0 <= i < |xs| ==> xs[i] % bigM == ys[i] % bigM
  }

  /** Queue by queue, the worry levels agree modulo M. */
  predicate Equiv(a: seq<seq<nat>>, b: seq<seq<nat>>, bigM: nat)
    requires bigM > 0
  {
    |a| == |b| && forall j :: 0 <= j < |a| ==> Congruent(a[j], b[j], bigM)
  }

  /**
   * Inspecting with exact worry levels and with levels kept modulo M gives congruent
   * results and the same target.
   */
  lemma InspectCongruent(rule: Rule, bigM: nat, a: nat, b: nat)
    requires bigM > 0 && rule.test.modulus > 0 && bigM % rule.test.modulus == 0 && a % bigM == b % bigM
    ensures Inspect(rule, DivideBy(1), a) % bigM == Inspect(rule, ModBy(bigM), b) % bigM
    ensures GetTarget(rule.test, Inspect(rule, DivideBy(1), a)) == GetTarget(rule.test, Inspect(rule, ModBy(bigM), b))
  {
    var opA, opB := ApplyOperation(rule.operation, a), ApplyOperation(rule.operation, b);
    var exact, reduced := Inspect(rule, DivideBy(1), a), Inspect(rule, ModBy(bigM), b);
    assert exact == opA;
    assert reduced == opB % bigM;
    OperationModular(rule.operation, a, bigM);
    OperationModular(rule.operation, b, bigM);
    assert opA % bigM == opB % bigM;
    ModOfMultiple(opB, bigM, bigM);
    assert exact % bigM == reduced % bigM;
    ModOfMultiple(exact, bigM, rule.test.modulus);
    ModOfMultiple(reduced, bigM, rule.test.modulus);
  }

  lemma PushEquiv(a: seq<seq<nat>>, b: seq<seq<nat>>, bigM: nat, t: nat, x: nat, y: nat)
    requires bigM > 0 && Equiv(a, b, bigM) && t < |a| && x % bigM == y % bigM
    ensures Equiv(Push(a, t, x), Push(b, t, y), bigM)
  {
    assert Congruent(a[t], b[t], bigM);
  }

  lemma {:induction false} ThrowAllEquiv(a: seq<seq<nat>>, b: seq<seq<nat>>, bigM: nat, rule: Rule, xs: seq<nat>, ys: seq<nat>)
    requires bigM > 0 && Equiv(a, b, bigM) && Thrower(rule, |a|, |a|) && bigM % rule.test.modulus == 0
    requires Congruent(xs, ys, bigM)
    ensures Equiv(ThrowAll(a, rule, DivideBy(1), xs), ThrowAll(b, rule, ModBy(bigM), ys), bigM)
    decreases |xs|
  {
    if |xs| > 0 {
      var x, y := Inspect(rule, DivideBy(1), xs[0]), Inspect(rule, ModBy(bigM), ys[0]);
      InspectCongruent(rule, bigM, xs[0], ys[0]);
      var t := GetTarget(rule.test, x);
      PushEquiv(a, b, bigM, t, x, y);
      ThrowAllEquiv(Push(a, t, x), Push(b, t, y), bigM, rule, xs[1..], ys[1..]);
    }
  }

  lemma TurnEquiv(rules: seq<Rule>, a: seq<seq<nat>>, b: seq<seq<nat>>, bigM: nat, k: nat)
    requires Troop(rules) && CommonMultiple(rules, bigM) && |a| == |rules| && Equiv(a, b, bigM) && k < |rules|
    ensures Equiv(Turn(rules, a, k, DivideBy(1)), Turn(rules, b, k, ModBy(bigM)), bigM)
  {
    assert Thrower(rules[k], |rules|, k);
    assert Congruent(a[k], b[k], bigM);
    ThrowAllEquiv(a[k := []], b[k := []], bigM, rules[k], a[k], b[k]);
  }

  lemma {:induction false} RoundFromEquiv(rules: seq<Rule>, a: seq<seq<nat>>, b: seq<seq<nat>>, bigM: nat, counts: seq<nat>, k: nat)
    requires Troop(rules) && CommonMultiple(rules, bigM) && |a| == |rules| && Equiv(a, b, bigM)
    requires |counts| == |rules| && k <= |rules|
    ensures Equiv(RoundFrom(rules, a, counts, k, DivideBy(1)).0, RoundFrom(rules, b, counts, k, ModBy(bigM)).0, bigM)
    ensures RoundFrom(rules, a, counts, k, DivideBy(1)).1 == RoundFrom(rules, b, counts, k, ModBy(bigM)).1
    decreases |rules| - k
  {
    if k < |rules| {
      TurnEquiv(rules, a, b, bigM, k);
      assert |a[k]| == |b[k]| by { assert Congruent(a[k], b[k], bigM); }
      RoundFromEquiv(rules, Turn(rules, a, k, DivideBy(1)), Turn(rules, b, k, ModBy(bigM)), bigM,
                     counts[k := counts[k] + |a[k]|], k + 1);
    }
  }

  lemma {:induction false} SimulateEquiv(rules: seq<Rule>, queues: seq<seq<nat>>, bigM: nat, rounds: nat)
    requires Troop(rules) && |queues| == |rules| && CommonMultiple(rules, bigM)
    ensures Equiv(Simulate(rules, queues, rounds, DivideBy(1)).0, Simulate(rules, queues, rounds, ModBy(bigM)).0, bigM)
    ensures Simulate(rules, queues, rounds, DivideBy(1)).1 == Simulate(rules, queues, rounds, ModBy(bigM)).1
    decreases rounds
  {
    if rounds == 0 {
      assert forall j :: 0 <= j < |queues| ==> Congruent(queues[j], queues[j], bigM);
    } else {
      SimulateEquiv(rules, queues, bigM, rounds - 1);
      var pa, pb := Simulate(rules, queues, rounds - 1, DivideBy(1)), Simulate(rules, queues, rounds - 1, ModBy(bigM));
      RoundFromEquiv(rules, pa.0, pb.0, bigM, pa.1, 0);
    }
  }

  /**
   * Keeping worry levels modulo the product of all test moduli never changes where an
   * item goes, so the inspection counts are exactly those of the unreduced simulation.
   */
  lemma ReducedCountsAreExact(rules: seq<Rule>, queues: seq<seq<nat>>, rounds: nat)
    requires Troop(rules) && |queues| == |rules|
    ensures Modulus(rules) > 0
    ensures Simulate(rules, queues, rounds, ModBy(Modulus(rules))).1 == Simulate(rules, queues, rounds, DivideBy(1)).1
  {
    ModulusIsCommonMultiple(rules);
    SimulateEquiv(rules, queues, Modulus(rules), rounds);
  }
}
