/**
 * Supply stacks (day 5). A stack is a sequence of crates, bottom first, so the back of
 * the sequence is the top of the stack. Stacks are numbered from 1 in instructions.
 * Every panic of the source (a malformed drawing line, a stack index out of range,
 * popping an empty stack, an unsigned underflow) is a `None` result here.
 */
module Crates {

  import opened Common

  type Stack = seq<char>

  /** `[X]` gives the crate X; a blank slot gives nothing. */
  function ParseCrate(s: string): (r: Option<char>)
    requires |s| >= 1 && (s[0] == '[' ==> |s| >= 2)
    ensures r.Some? <==> s[0] == '['
    ensures r.Some? ==> r.value == s[1]
  {
    if s[0] == '[' then Some(s[1]) else None
  }

  /** The crate a drawing line shows in column `idx`, if any, as a sequence of length 0 or 1. */
  function CrateAt(line: string, idx: nat): (r: seq<char>)
    requires |line| % 4 == 3
    ensures |r| <= 1
    ensures |r| == 1 <==> idx <= |line| / 4 && line[4 * idx] == '['
    ensures |r| == 1 ==> r[0] == line[4 * idx + 1]
  {
    if idx <= |line| / 4 then
      match ParseCrate(line[4 * idx .. 4 * idx + 3])
      case Some(c) => [c]
      case None => []
    else []
  }

  /**
   * Reads one drawing line into the stacks: column `idx` onwards, opening a new stack
   * when the column has none yet and pushing any crate onto the bottom of its stack.
   */
  function AddLine(stacks: seq<Stack>, line: string, idx: nat): (r: seq<Stack>)
    requires |line| % 4 == 3 && idx <= |stacks|
    ensures |r| == (if |stacks| < |line| / 4 + 1 then |line| / 4 + 1 else |stacks|)
    ensures forall i :: 0 <= i < idx ==> r[i] == stacks[i]
    ensures forall i :: idx <= i < |r| ==> r[i] == CrateAt(line, i) + (if i < |stacks| then stacks[i] else [])
    decreases |line| / 4 + 1 - idx
  {
    if idx > |line| / 4 then stacks
    else
      var grown := if idx >= |stacks| then stacks + [[]] else stacks;
      var pushed := grown[idx := CrateAt(line, idx) + grown[idx]];
      AddLine(pushed, line, idx + 1)
  }

  /** Every drawing line is a whole number of `[X] ` slots without the final space. */
  predicate WellFormedDrawing(lines: seq<string>) {
    forall k :: 0 <= k < |lines| ==> |lines[k]| % 4 == 3
  }

  /**
   * The stacks a drawing describes, lines read top to bottom. A line whose length is not
   * 3 modulo 4 makes the last slot's slice run past its end, so the drawing is rejected.
   */
  function ParseCrates(lines: seq<string>): (r: Option<seq<Stack>>)
    ensures r.Some? <==> WellFormedDrawing(lines)
    ensures r.Some? ==> |r.value| == Width(lines)
  {
    if |lines| == 0 then Some([])
    else
      var last := lines[|lines| - 1];
      match ParseCrates(lines[..|lines| - 1])
      case None => None
      case Some(stacks) => if |last| % 4 == 3 then Some(AddLine(stacks, last, 0)) else None
  }

  /** The number of columns of a drawing: one more than the widest line's last slot index. */
  function Width(lines: seq<string>): nat {
    if |lines| == 0 then 0
    else
      var w := Width(lines[..|lines| - 1]);
      var here := |lines[|lines| - 1]| / 4 + 1;
      if w < here then here else w
  }

  /** The crates drawn in column `idx`, in reading order, top line first. */
  function Column(lines: seq<string>, idx: nat): seq<char>
    requires WellFormedDrawing(lines)
  {
    if |lines| == 0 then [] else Column(lines[..|lines| - 1], idx) + CrateAt(lines[|lines| - 1], idx)
  }

  /**
   * Each stack holds its column's crates in reverse reading order: the bottom line of
   * the drawing is the bottom of the stack and the first line read is the top.
   */
  lemma {:induction false} ParseCratesColumns(lines: seq<string>)
    requires WellFormedDrawing(lines)
    ensures forall i :: 0 <= i < |ParseCrates(lines).value| ==> ParseCrates(lines).value[i] == Reverse(Column(lines, i))
    ensures forall i :: Width(lines) <= i ==> Column(lines, i) == []
  {
    if |lines| > 0 {
      var prefix := lines[..|lines| - 1];
      var last := lines[|lines| - 1];
      ParseCratesColumns(prefix);
      forall i | 0 <= i < |ParseCrates(lines).value|
        ensures ParseCrates(lines).value[i] == Reverse(Column(lines, i))
      {
        ReverseOfAppend(Column(prefix, i), CrateAt(last, i));
        assert Reverse(CrateAt(last, i)) == CrateAt(last, i);
      }
    }
  }

  /** A crate in the first line read ends up on top of its stack. */
  lemma FirstLineOnTop(lines: seq<string>, idx: nat)
    requires WellFormedDrawing(lines) && |lines| > 0 && |CrateAt(lines[0], idx)| == 1
    ensures idx < |ParseCrates(lines).value|
    ensures var s := ParseCrates(lines).value[idx]; |s| > 0 && s[|s| - 1] == lines[0][4 * idx + 1]
  {
    ParseCratesColumns(lines);
    ColumnStartsWithFirstLine(lines, idx);
  }

  lemma {:induction false} ColumnStartsWithFirstLine(lines: seq<string>, idx: nat)
    requires WellFormedDrawing(lines) && |lines| > 0 && |CrateAt(lines[0], idx)| == 1
    ensures |Column(lines, idx)| > 0 && Column(lines, idx)[0] == lines[0][4 * idx + 1]
    ensures idx < Width(lines)
  {
    if |lines| > 1 {
      var prefix := lines[..|lines| - 1];
      assert prefix[0] == lines[0];
      ColumnStartsWithFirstLine(prefix, idx);
    }
  }

  /** The number of crates on all stacks. */
  function TotalCrates(stacks: seq<Stack>): nat {
    if |stacks| == 0 then 0 else TotalCrates(stacks[..|stacks| - 1]) + |stacks[|stacks| - 1]|
  }

  /** Replacing one stack changes the total by the difference in its height. */
  lemma {:induction false} TotalCratesUpdate(stacks: seq<Stack>, i: nat, s: Stack)
    requires i < |stacks|
    ensures TotalCrates(stacks[i := s]) + |stacks[i]| == TotalCrates(stacks) + |s|
    decreases |stacks|
  {
    var n := |stacks|;
    if i < n - 1 {
      assert stacks[i := s][..n - 1] == stacks[..n - 1][i := s];
      TotalCratesUpdate(stacks[..n - 1], i, s);
    } else {
      assert stacks[i := s][..n - 1] == stacks[..n - 1];
    }
  }

  /** Whether a 1-based stack number names a stack. */
  predicate ValidStack(stacks: seq<Stack>, number: nat) {
    1 <= number <= |stacks|
  }

  /** Pops the top crate of stack `from` and pushes it onto stack `to`. */
  function MoveOne(stacks: seq<Stack>, from: nat, to: nat): (r: Option<seq<Stack>>)
    ensures r.Some? <==> ValidStack(stacks, from) && |stacks[from - 1]| > 0 && ValidStack(stacks, to)
  {
    if !ValidStack(stacks, from) || |stacks[from - 1]| == 0 then None
    else
      var source := stacks[from - 1];
      var popped := stacks[from - 1 := source[..|source| - 1]];
      if !ValidStack(stacks, to) then None
      else Some(popped[to - 1 := popped[to - 1] + [source[|source| - 1]]])
  }

  /** Part 1: the crane moves `amount` crates one at a time. */
  function ApplyInstructionPart1(stacks: seq<Stack>, from: nat, to: nat, amount: nat): (r: Option<seq<Stack>>)
    ensures r.Some? ==> |r.value| == |stacks| && TotalCrates(r.value) == TotalCrates(stacks)
    decreases amount
  {
    if amount == 0 then Some(stacks)
    else match MoveOne(stacks, from, to)
      case None => None
      case Some(next) =>
        var source := stacks[from - 1];
        var popped := stacks[from - 1 := source[..|source| - 1]];
        TotalCratesUpdate(stacks, from - 1, source[..|source| - 1]);
        TotalCratesUpdate(popped, to - 1, popped[to - 1] + [source[|source| - 1]]);
        ApplyInstructionPart1(next, from, to, amount - 1)
  }

  /** Part 2: the crane lifts the top `amount` crates at once. */
  function ApplyInstructionPart2(stacks: seq<Stack>, from: nat, to: nat, amount: nat): (r: Option<seq<Stack>>)
    ensures r.Some? <==> ValidStack(stacks, from) && amount <= |stacks[from - 1]| && ValidStack(stacks, to)
    ensures r.Some? ==> |r.value| == |stacks| && TotalCrates(r.value) == TotalCrates(stacks)
    ensures r.Some? && from == to ==> r.value == stacks
  {
    if !ValidStack(stacks, from) || amount > |stacks[from - 1]| then None
    else
      var source := stacks[from - 1];
      var kept := stacks[from - 1 := source[..|source| - amount]];
      if !ValidStack(stacks, to) then None
      else
        TotalCratesUpdate(stacks, from - 1, source[..|source| - amount]);
        TotalCratesUpdate(kept, to - 1, kept[to - 1] + source[|source| - amount..]);
        assert from == to ==> source[..|source| - amount] + source[|source| - amount..] == source;
        Some(kept[to - 1 := kept[to - 1] + source[|source| - amount..]])
  }

  /** The top `amount` crates of stack `from`, bottom first. */
  function TopCrates(stacks: seq<Stack>, from: nat, amount: nat): (r: Stack)
    requires ValidStack(stacks, from) && amount <= |stacks[from - 1]|
    ensures |r| == amount
    ensures stacks[from - 1] == stacks[from - 1][..|stacks[from - 1]| - amount] + r
  {
    var source := stacks[from - 1];
    source[|source| - amount..]
  }

  /** The stacks after taking the top `amount` crates off `from` and putting `block` on `to`. */
  function Moved(stacks: seq<Stack>, from: nat, to: nat, amount: nat, block: Stack): seq<Stack>
    requires ValidStack(stacks, from) && ValidStack(stacks, to) && from != to && amount <= |stacks[from - 1]|
  {
    var source := stacks[from - 1];
    stacks[from - 1 := source[..|source| - amount]][to - 1 := stacks[to - 1] + block]
  }

  /** Moving one crate, then the rest of a block reversed, is moving the whole block reversed. */
  lemma MoveOneThenRest(stacks: seq<Stack>, from: nat, to: nat, amount: nat)
    requires ValidStack(stacks, from) && ValidStack(stacks, to) && from != to && 1 <= amount <= |stacks[from - 1]|
    ensures MoveOne(stacks, from, to).Some?
    ensures var next := MoveOne(stacks, from, to).value;
      amount - 1 <= |next[from - 1]| && |next| == |stacks|
      && Moved(next, from, to, amount - 1, Reverse(TopCrates(next, from, amount - 1)))
         == Moved(stacks, from, to, amount, Reverse(TopCrates(stacks, from, amount)))
  {
    var source := stacks[from - 1];
    var n := |source|;
    var c := source[n - 1];
    var popped := stacks[from - 1 := source[..n - 1]];
    var next := popped[to - 1 := stacks[to - 1] + [c]];
    assert MoveOne(stacks, from, to) == Some(next);
    var top' := TopCrates(next, from, amount - 1);
    var top := TopCrates(stacks, from, amount);
    assert next[from - 1] == source[..n - 1];
    assert top' == source[n - amount..n - 1];
    assert top == top' + [c];
    ReverseOfAppend(top', [c]);
    assert Reverse([c]) == [c];
    assert next[from - 1][..n - 1 - (amount - 1)] == source[..n - amount];
    assert next[to - 1] + Reverse(top') == stacks[to - 1] + Reverse(top);
    var kept := source[..n - amount];
    assert next[from - 1 := kept] == stacks[from - 1 := kept][to - 1 := next[to - 1]];
  }

  /**
   * Part 1 between different stacks: the top `amount` crates of `from` land on `to` in
   * reversed order, the source keeps the rest, and every other stack is untouched.
   */
  lemma {:induction false} Part1MovesReversedBlock(stacks: seq<Stack>, from: nat, to: nat, amount: nat)
    requires ValidStack(stacks, from) && ValidStack(stacks, to) && from != to && amount <= |stacks[from - 1]|
    ensures ApplyInstructionPart1(stacks, from, to, amount) == Some(Moved(stacks, from, to, amount, Reverse(TopCrates(stacks, from, amount))))
    decreases amount
  {
    var source := stacks[from - 1];
    var n := |source|;
    if amount == 0 {
      assert source[..n] == source;
      assert TopCrates(stacks, from, 0) == [];
      assert Reverse(TopCrates(stacks, from, 0)) == [];
      assert stacks[from - 1 := source[..n]] == stacks;
      assert stacks[to - 1] + [] == stacks[to - 1];
      assert stacks[to - 1 := stacks[to - 1]] == stacks;
    } else {
      MoveOneThenRest(stacks, from, to, amount);
      var next := MoveOne(stacks, from, to).value;
      Part1MovesReversedBlock(next, from, to, amount - 1);
    }
  }

  /** Part 2 between different stacks: the same block moves, keeping its order. */
  lemma Part2MovesBlock(stacks: seq<Stack>, from: nat, to: nat, amount: nat)
    requires ValidStack(stacks, from) && ValidStack(stacks, to) && from != to && amount <= |stacks[from - 1]|
    ensures ApplyInstructionPart2(stacks, from, to, amount) == Some(Moved(stacks, from, to, amount, TopCrates(stacks, from, amount)))
  {
  }

  /** Part 1 between different stacks fails exactly when the source holds too few crates. */
  lemma {:induction false} Part1TooMany(stacks: seq<Stack>, from: nat, to: nat, amount: nat)
    requires ValidStack(stacks, from) && ValidStack(stacks, to) && from != to
    ensures ApplyInstructionPart1(stacks, from, to, amount).None? <==> amount > |stacks[from - 1]|
    decreases amount
  {
    if amount > 0 && |stacks[from - 1]| > 0 {
      var next := MoveOne(stacks, from, to).value;
      Part1TooMany(next, from, to, amount - 1);
    } else if amount > 0 {
      assert MoveOne(stacks, from, to).None?;
    }
  }

  /** Part 1 onto the same stack puts each crate straight back, so a non-empty stack is unchanged. */
  lemma {:induction false} Part1SameStack(stacks: seq<Stack>, from: nat, amount: nat)
    requires ValidStack(stacks, from) && |stacks[from - 1]| > 0
    ensures ApplyInstructionPart1(stacks, from, from, amount) == Some(stacks)
    decreases amount
  {
    if amount > 0 {
      var source := stacks[from - 1];
      var popped := stacks[from - 1 := source[..|source| - 1]];
      assert popped[from - 1] + [source[|source| - 1]] == source;
      assert popped[from - 1 := source] == stacks;
      Part1SameStack(stacks, from, amount - 1);
    }
  }
}
