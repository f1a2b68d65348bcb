/** Repeating a step that may fail: the shape of `solve_iterative`'s loop, whose body either
    makes a move or raises. */
module Runs {
  import opened Common

  /** k steps from s, stopping at the first error. */
  function Run<S, E>(f: S -> Result<S, E>, s: S, k: nat): Result<S, E>
    decreases k
  {
    if k == 0 then Ok(s)
    else
      var r := f(s);
      if r.Err? then r else Run(f, r.value, k - 1)
  }

  /** A run of a steps followed by a run of b steps is a run of a + b steps. */
  lemma {:induction false} RunJoin<S, E>(f: S -> Result<S, E>, s: S, s1: S, t: S, a: nat, b: nat, n: nat)
    requires Run(f, s, a) == Ok(s1) && Run(f, s1, b) == Ok(t) && n == a + b
    ensures Run(f, s, n) == Ok(t)
    decreases a
  {
    if a > 0 {
      RunJoin(f, f(s).value, s1, t, a - 1, b, n - 1);
    }
  }

  /** A run of a steps, one more step and a run of b steps make a run of n = a + 1 + b steps. */
  lemma RunChain<S, E>(f: S -> Result<S, E>, s: S, s1: S, h: S, t: S, a: nat, b: nat, n: nat)
    requires Run(f, s, a) == Ok(s1) && f(s1) == Ok(h) && Run(f, h, b) == Ok(t) && n == a + 1 + b
    ensures Run(f, s, n) == Ok(t)
  {
    assert Run(f, s1, 1 + b) == Ok(t);
    RunJoin(f, s, s1, t, a, 1 + b, n);
  }

  /** After a run of a steps reaching s1, the run of a + 1 steps is one more step from s1. */
  lemma {:induction false} RunNext<S, E>(f: S -> Result<S, E>, s: S, s1: S, a: nat)
    requires Run(f, s, a) == Ok(s1)
    ensures Run(f, s, a + 1) == f(s1)
    decreases a
  {
    if a > 0 {
      RunNext(f, f(s).value, s1, a - 1);
    }
  }

  /** Whatever every successful step keeps, every successful run keeps. */
  lemma {:induction false} RunKeeps<S, E>(f: S -> Result<S, E>, inv: S -> bool, s: S, k: nat)
    requires inv(s) && Run(f, s, k).Ok?
    requires forall u :: inv(u) && f(u).Ok? ==> inv(f(u).value)
    ensures inv(Run(f, s, k).value)
    decreases k
  {
    if k > 0 {
      RunKeeps(f, inv, f(s).value, k - 1);
    }
  }
}

/** The iterative Towers of Hanoi solver (lab2/towers_of_hanoi.py): odd-numbered moves carry the
    smallest disk one peg on along a fixed cycle, even-numbered moves make the only other legal
    move, until the target peg holds every disk. */
module Hanoi {
  import opened Common
  import opened Runs
  import opened PegStacks

  /** The three pegs, as `smallest_disk_location` names them ("source", "aux", "target"),
      numbered so that a peg is also its place in `Towers.pegs`. */
  type Loc = i: nat | i < 3
  const Source: Loc := 0
  const Aux: Loc := 1
  const Target: Loc := 2

  /** The tower letter a move description prints for a peg. */
  function Name(l: Loc): string {
    if l == Source then "A" else if l == Aux then "B" else "C"
  }

  /** One recorded move: which disk went from which peg to which, and whether it was disk 1's
      move (whose description ends with a full stop). */
  datatype MoveRecord = MoveRecord(disk: int, from: Loc, to: Loc, smallest: bool)

  /** The source, aux and target pegs, each bottom first. */
  type Pegs = s: seq<seq<int>> | |s| == 3 witness [[], [], []]

  /** The whole puzzle: the pegs, where disk 1 sits, the move counter, the number of disks and
      the moves made so far. */
  datatype Towers = Towers(pegs: Pegs, smallest: Loc, moveNumber: int, numDisks: int,
                           moves: seq<MoveRecord>)

  function Get(t: Towers, l: Loc): seq<int> {
    t.pegs[l]
  }

  function Set(t: Towers, l: Loc, p: seq<int>): Towers {
    t.(pegs := t.pegs[l := p])
  }

  /** Disks k, k-1, ..., 1 from the bottom up: what `__init__` stacks on the source peg. */
  function Tower(k: nat): (p: seq<int>)
    ensures |p| == k
    ensures forall i :: 0 <= i < k ==> p[i] == k - i
  {
    if k == 0 then [] else [k] + Tower(k - 1)
  }

  /** The state `__init__` builds for n disks. */
  function Init(n: int): Towers {
    Towers([Tower(if n < 0 then 0 else n), [], []], Source, 1, n, [])
  }

  /** The peg disk 1 goes to next: source, target, aux for an odd number of disks; source, aux,
      target for an even number. */
  function Cycle(n: int, l: Loc): (m: Loc)
    ensures m != l
  {
    if n % 2 == 1 then (if l == Source then Target else if l == Target then Aux else Source)
    else (if l == Source then Aux else if l == Aux then Target else Source)
  }

  /** The two pegs that do not hold disk 1, in the order `_make_other_legal_move` names them. */
  function Others(l: Loc): (r: (Loc, Loc))
    ensures r.0 != l && r.1 != l && r.0 != r.1
  {
    if l == Source then (Aux, Target) else if l == Aux then (Source, Target) else (Source, Aux)
  }

  /** The description queued for a move; disk 1's moves end with a full stop, the others do not. */
  function Describe(m: MoveRecord): string {
    "Move disk " + IntToString(m.disk) + " from tower " + Name(m.from) + " to tower " + Name(m.to)
      + (if m.smallest then "." else "")
  }

  /** Pops the top disk of `from` and pushes it on `to`, recording the move; popping an
      empty peg raises Empty("stack is empty"). */
  function Move(t: Towers, from: Loc, to: Loc, smallest: bool): (r: Result<Towers, Empty>)
    requires from != to
    ensures r.Err? <==> Get(t, from) == []
    ensures r.Ok? ==>
      var p := Get(t, from);
      && Get(r.value, from) == p[..|p| - 1]
      && Get(r.value, to) == Get(t, to) + [p[|p| - 1]]
      && r.value.moves == t.moves + [MoveRecord(p[|p| - 1], from, to, smallest)]
      && Get(r.value, Third(from, to)) == Get(t, Third(from, to))
      && r.value.smallest == t.smallest && r.value.moveNumber == t.moveNumber
      && r.value.numDisks == t.numDisks
  {
    var p := Get(t, from);
    if p == [] then Err(Empty("stack is empty"))
    else
      var disk := p[|p| - 1];
      var u := Set(Set(t, from, p[..|p| - 1]), to, Get(t, to) + [disk]);
      Ok(u.(moves := u.moves + [MoveRecord(disk, from, to, smallest)]))
  }

  /** `_move_smallest_disk`: disk 1's peg moves one step along the cycle. */
  function MoveSmallest(t: Towers): Result<Towers, Empty> {
    var to := Cycle(t.numDisks, t.smallest);
    var r := Move(t, t.smallest, to, true);
    if r.Err? then r else Ok(r.value.(smallest := to))
  }

  /** `_make_other_legal_move`: between the two pegs without disk 1, the second one's top goes
      onto the first when the first is empty or the second's top is smaller; otherwise the first
      one's top goes onto the second. */
  function OtherMove(t: Towers): Result<Towers, Empty> {
    var (from, to) := OtherDirection(t);
    Move(t, from, to, false)
  }

  /** Which way the other move goes, as (from, to). */
  function OtherDirection(t: Towers): (r: (Loc, Loc))
    ensures r.0 != r.1 && r.0 != t.smallest && r.1 != t.smallest
  {
    var (p1, p2) := Others(t.smallest);
    var d1 := Get(t, p1);
    var d2 := Get(t, p2);
    if d1 == [] || (d2 != [] && d2[|d2| - 1] < d1[|d1| - 1]) then (p2, p1) else (p1, p2)
  }

  /** One turn of `solve_iterative`'s loop: the move its counter calls for, then the counter
      goes up by one. */
  function Step(t: Towers): (r: Result<Towers, Empty>)
    ensures r.Ok? ==> r.value.numDisks == t.numDisks && r.value.moveNumber == t.moveNumber + 1
    ensures r.Ok? ==> |r.value.moves| == |t.moves| + 1
  {
    var r := if t.moveNumber % 2 == 1 then MoveSmallest(t) else OtherMove(t);
    if r.Err? then r else Ok(r.value.(moveNumber := r.value.moveNumber + 1))
  }

  /** An odd-numbered turn is disk 1's move with the counter then raised. */
  lemma OddStep(t: Towers)
    requires t.moveNumber % 2 == 1
    ensures Step(t).Ok? <==> MoveSmallest(t).Ok?
    ensures Step(t).Ok? ==> Step(t).value == MoveSmallest(t).value.(moveNumber := t.moveNumber + 1)
  {
  }

  /** An even-numbered turn is the other move with the counter then raised. */
  lemma EvenStep(t: Towers)
    requires t.moveNumber % 2 != 1
    ensures Step(t).Ok? <==> OtherMove(t).Ok?
    ensures Step(t).Ok? ==> Step(t).value == OtherMove(t).value.(moveNumber := t.moveNumber + 1)
  {
  }

  /** k turns of the loop, stopping at the first error. */
  function Iter(t: Towers, k: nat): Result<Towers, Empty> {
    Run(Step, t, k)
  }

  function Pow2(k: nat): (p: nat)
    ensures p >= 1
  {
    if k == 0 then 1 else 2 * Pow2(k - 1)
  }

  /** The number of moves `solve_iterative` makes for n disks: 2^n - 1, and none for n <= 0. */
  function Total(n: int): nat {
    if n <= 0 then 0 else Pow2(n) - 1
  }

  // ---------------------------------------------------------------------------------------
  // The order of the disks: the rule for the other move never puts a larger disk on a smaller
  // one, and disk 1, the smallest disk, moves only onto larger disks.

  /** No disk of a peg sits on a smaller one. */
  predicate NoLargerOnSmaller(p: seq<int>) {
    forall i, j :: 0 <= i < j < |p| ==> p[i] >= p[j]
  }

  /** The disk on top of disk 1's peg is smaller than every other disk, on any peg. */
  predicate SmallestOnTop(t: Towers) {
    var p := Get(t, t.smallest);
    p == [] ||
    forall l, i :: 0 <= i < |Get(t, l)| && (l != t.smallest || i < |p| - 1) ==> p[|p| - 1] < Get(t, l)[i]
  }

  /** The invariant the solver keeps. */
  predicate Ordered(t: Towers) {
    (forall l :: NoLargerOnSmaller(Get(t, l))) && SmallestOnTop(t)
  }

  /** All the disks on the three pegs. */
  function Disks(t: Towers): multiset<int> {
    multiset(t.pegs[0]) + multiset(t.pegs[1]) + multiset(t.pegs[2])
  }

  /** The peg that is neither a nor b. */
  function Third(a: Loc, b: Loc): (c: Loc)
    requires a != b
    ensures c != a && c != b
  {
    3 - a - b
  }

  lemma DisksSplit(t: Towers, a: Loc, b: Loc)
    requires a != b
    ensures Disks(t) == multiset(Get(t, a)) + multiset(Get(t, b)) + multiset(Get(t, Third(a, b)))
  {
  }

  /** A move conserves the disks. */
  lemma DisksMove(t: Towers, from: Loc, to: Loc, smallest: bool)
    requires from != to && Move(t, from, to, smallest).Ok?
    ensures Disks(Move(t, from, to, smallest).value) == Disks(t)
  {
    var u := Move(t, from, to, smallest).value;
    var p := Get(t, from);
    var q := Get(t, to);
    var d := p[|p| - 1];
    assert Get(u, Third(from, to)) == Get(t, Third(from, to));
    assert multiset(Get(u, from)) + multiset([d]) == multiset(p) by {
      assert p == Get(u, from) + [d];
    }
    assert multiset(Get(u, to)) == multiset(q) + multiset([d]);
    DisksSplit(t, from, to);
    DisksSplit(u, from, to);
  }

  /** A move conserves the disks, and it keeps every peg in order when the disk moved is not
      larger than the one it lands on. */
  lemma MoveKeepsOrder(t: Towers, from: Loc, to: Loc, smallest: bool)
    requires from != to && Move(t, from, to, smallest).Ok?
    requires forall l :: NoLargerOnSmaller(Get(t, l))
    requires var p := Get(t, from); var q := Get(t, to); q == [] || p[|p| - 1] <= q[|q| - 1]
    ensures forall l :: NoLargerOnSmaller(Get(Move(t, from, to, smallest).value, l))
    ensures Disks(Move(t, from, to, smallest).value) == Disks(t)
  {
    DisksMove(t, from, to, smallest);
    var u := Move(t, from, to, smallest).value;
    var p := Get(t, from);
    var q := Get(t, to);
    forall l
      ensures NoLargerOnSmaller(Get(u, l))
    {
      if l == to {
        assert NoLargerOnSmaller(q);
        assert forall i :: 0 <= i < |q| ==> q[i] >= q[|q| - 1];
        assert Get(u, l) == q + [p[|p| - 1]];
      } else if l == from {
        assert NoLargerOnSmaller(p);
        assert Get(u, l) == p[..|p| - 1];
      } else {
        assert Get(u, l) == Get(t, l);
      }
    }
  }

  /** A move between the two pegs other than x keeps every disk off peg x above v. */
  lemma MoveKeepsAbove(t: Towers, from: Loc, to: Loc, smallest: bool, x: Loc, v: int)
    requires from != to && from != x && to != x && Move(t, from, to, smallest).Ok?
    requires forall l, i :: l != x && 0 <= i < |Get(t, l)| ==> v < Get(t, l)[i]
    ensures var u := Move(t, from, to, smallest).value;
      && Get(u, x) == Get(t, x)
      && forall l, i :: l != x && 0 <= i < |Get(u, l)| ==> v < Get(u, l)[i]
  {
    var u := Move(t, from, to, smallest).value;
    var p := Get(t, from);
    var q := Get(t, to);
    assert v < p[|p| - 1];
    forall l, i | l != x && 0 <= i < |Get(u, l)|
      ensures v < Get(u, l)[i]
    {
      if l == from {
        assert Get(u, l)[i] == p[i];
      } else if i < |q| {
        assert Get(u, l)[i] == q[i];
      }
    }
  }

  /** Moving disk 1 keeps the order: it lands on a larger disk or an empty peg, and stays the
      smallest disk on top. */
  lemma SmallestKeepsOrder(t: Towers)
    requires Ordered(t) && t.moveNumber % 2 == 1 && Step(t).Ok?
    ensures Ordered(Step(t).value) && Disks(Step(t).value) == Disks(t)
  {
    var x := t.smallest;
    var to := Cycle(t.numDisks, x);
    var p := Get(t, x);
    var q := Get(t, to);
    MoveKeepsOrder(t, x, to, true);
    var u := Step(t).value;
    assert u.pegs == Move(t, x, to, true).value.pegs && u.smallest == to;
    assert Get(u, x) == p[..|p| - 1] && Get(u, to) == q + [p[|p| - 1]];
    assert p != [];
    forall l, i | 0 <= i < |Get(u, l)| && (l != to || i < |q|)
      ensures p[|p| - 1] < Get(u, l)[i]
    {
      if l == x {
        assert Get(u, l)[i] == p[i] && i < |p| - 1;
        assert p[|p| - 1] < Get(t, x)[i];
      } else if l == to {
        assert Get(u, l)[i] == q[i];
        assert p[|p| - 1] < Get(t, to)[i];
      } else {
        assert Get(u, l) == Get(t, l);
        assert p[|p| - 1] < Get(t, l)[i];
      }
    }
    var pu := Get(u, u.smallest);
    assert pu[|pu| - 1] == p[|p| - 1];
    assert SmallestOnTop(u);
    var w := Move(t, x, to, true).value;
    forall l
      ensures NoLargerOnSmaller(Get(u, l))
    {
      assert Get(u, l) == Get(w, l);
    }
    assert Disks(u) == Disks(w);
  }

  /** The disk the other move carries is not larger than the one it lands on. */
  lemma OtherDirectionLegal(t: Towers)
    ensures var (from, to) := OtherDirection(t);
      var p := Get(t, from); var q := Get(t, to);
      p != [] ==> q == [] || p[|p| - 1] <= q[|q| - 1]
  {
  }

  /** The other move keeps the order: the smaller of the two tops goes onto the larger one or
      onto an empty peg, and disk 1's peg is not touched. */
  lemma OtherKeepsOrder(t: Towers)
    requires Ordered(t) && t.moveNumber % 2 != 1 && Step(t).Ok?
    ensures Ordered(Step(t).value) && Disks(Step(t).value) == Disks(t)
  {
    var (from, to) := OtherDirection(t);
    OtherDirectionLegal(t);
    var u := Step(t).value;
    assert u.pegs == Move(t, from, to, false).value.pegs && u.smallest == t.smallest;
    MoveKeepsOrdered(t, from, to, u);
  }

  /** A move between the two pegs without disk 1, of a disk not larger than the one it lands
      on, keeps the order. */
  lemma MoveKeepsOrdered(t: Towers, from: Loc, to: Loc, u: Towers)
    requires Ordered(t) && from != to && from != t.smallest && to != t.smallest
    requires Move(t, from, to, false).Ok?
    requires var p := Get(t, from); var q := Get(t, to); q == [] || p[|p| - 1] <= q[|q| - 1]
    requires u.pegs == Move(t, from, to, false).value.pegs && u.smallest == t.smallest
    ensures Ordered(u) && Disks(u) == Disks(t)
  {
    var x := t.smallest;
    var w := Move(t, from, to, false).value;
    var p := Get(t, x);
    assert x == Third(from, to);
    assert Get(u, x) == Get(w, x) == p;
    assert SmallestOnTop(u) by {
      if p != [] {
        MoveKeepsAbove(t, from, to, false, x, p[|p| - 1]);
        forall l, i | 0 <= i < |Get(u, l)| && (l != x || i < |p| - 1)
          ensures p[|p| - 1] < Get(u, l)[i]
        {
          assert Get(u, l) == Get(w, l);
          if l == x {
            assert p[|p| - 1] < Get(t, x)[i];
          }
        }
      }
    }
    assert forall l :: NoLargerOnSmaller(Get(u, l)) by {
      MoveKeepsOrder(t, from, to, false);
      forall l
        ensures NoLargerOnSmaller(Get(u, l))
      {
        assert Get(u, l) == Get(w, l);
      }
    }
    assert Disks(u) == Disks(t) by {
      MoveKeepsOrder(t, from, to, false);
      assert Disks(u) == Disks(w);
    }
  }

  /** Every turn keeps the pegs in order (no larger disk lands on a smaller one) and conserves
      the disks. */
  lemma StepKeepsOrder(t: Towers)
    requires Ordered(t) && Step(t).Ok?
    ensures Ordered(Step(t).value) && Disks(Step(t).value) == Disks(t)
  {
    if t.moveNumber % 2 == 1 {
      SmallestKeepsOrder(t);
    } else {
      OtherKeepsOrder(t);
    }
  }

  // ---------------------------------------------------------------------------------------
  // How many moves: 2^k - 1 turns carry a tower of k disks from one peg to another, the way
  // the recursive solution would.

  /** The peg a tower of k disks, topped by disk 1, goes to when it starts on x: one step along
      disk 1's cycle for odd k, two steps for even k. */
  function Dest(n: int, x: Loc, k: nat): (d: Loc)
    ensures d != x
  {
    if k % 2 == 1 then Cycle(n, x) else Cycle(n, Cycle(n, x))
  }

  /** What stays on peg l while a tower of the top k disks of x moves. */
  function Base(s: Towers, x: Loc, k: nat, l: Loc): seq<int>
    requires |Get(s, x)| >= k
  {
    var p := Get(s, x);
    if l == x then p[..|p| - k] else Get(s, l)
  }

  /** A peg whose top disk, if any, is larger than k. */
  predicate AboveAll(p: seq<int>, k: nat) {
    p == [] || p[|p| - 1] > k
  }

  /** Disks 1..k stand on x, disk 1 on top, every other top disk is larger than k, and the
      counter calls for a move of disk 1. */
  predicate TowerOn(s: Towers, x: Loc, k: nat) {
    && k >= 1
    && s.smallest == x
    && s.moveNumber % 2 == 1
    && |Get(s, x)| >= k
    && Get(s, x)[|Get(s, x)| - k..] == Tower(k)
    && forall l :: AboveAll(Base(s, x, k, l), k)
  }

  /** t is s after the tower of the top k disks of x has moved to Dest(x, k), in 2^k - 1
      moves, with nothing else changed. */
  predicate Moved(s: Towers, t: Towers, x: Loc, k: nat)
    requires |Get(s, x)| >= k
  {
    var d := Dest(s.numDisks, x, k);
    && t.smallest == d
    && t.moveNumber == s.moveNumber + Pow2(k) - 1
    && t.numDisks == s.numDisks
    && |t.moves| == |s.moves| + Pow2(k) - 1
    && forall l :: Get(t, l) == if l == d then Base(s, x, k, l) + Tower(k) else Base(s, x, k, l)
  }

  lemma CycleThrice(n: int, x: Loc)
    ensures Cycle(n, Cycle(n, Cycle(n, x))) == x
  {
  }

  /** The two halves of a tower of k disks: the top k-1 go to one peg and then on to the peg
      the whole tower goes to, which is the third peg. */
  lemma DestTwice(n: int, x: Loc, k: nat)
    requires k >= 2
    ensures Dest(n, Dest(n, x, k - 1), k - 1) == Dest(n, x, k)
    ensures Dest(n, x, k - 1) != Dest(n, x, k)
  {
    if (k - 1) % 2 == 0 {
      CycleThrice(n, Cycle(n, x));
    }
  }

  /** A function taking one turn of the loop. */
  type Turn = Towers -> Result<Towers, Empty>

  /** f takes the same turn as Step from every state. The facts below are stated for such an f
      so that a run's unfolding does not bring in the rules of a turn where they are not needed;
      Step itself is one. */
  ghost predicate IsStep(f: Turn) {
    forall u {:trigger Step(u)} :: f(u) == Step(u)
  }

  /** One turn from an odd counter moves disk 1 one step along its cycle. */
  lemma MacroOne(f: Turn, s: Towers, x: Loc, n: nat) returns (t: Towers)
    requires IsStep(f)
    requires TowerOn(s, x, 1) && n == Pow2(1) - 1
    ensures Run(f, s, n) == Ok(t) && Moved(s, t, x, 1)
  {
    var p := Get(s, x);
    var d := Cycle(s.numDisks, x);
    assert p[|p| - 1..] == [1];
    assert Pow2(0) == 1;
    assert Run(f, s, n) == f(s) == Step(s);
    t := Step(s).value;
    assert t.pegs == Move(s, x, d, true).value.pegs;
    assert Get(t, Third(x, d)) == Get(s, Third(x, d));
  }

  /** Before the first half: the top k-1 disks of the tower stand on x above disk k. */
  lemma FirstHalf(s: Towers, x: Loc, k: nat)
    requires TowerOn(s, x, k) && k >= 2
    ensures TowerOn(s, x, k - 1)
    ensures Base(s, x, k - 1, x) == Base(s, x, k, x) + [k]
  {
    var p := Get(s, x);
    assert p[|p| - k..] == [k] + Tower(k - 1);
    assert p[|p| - (k - 1)..] == p[|p| - k..][1..];
    assert p[..|p| - (k - 1)] == p[..|p| - k] + [p[|p| - k]];
    var j := k - 1;
    forall l
      ensures AboveAll(Base(s, x, j, l), j)
    {
      assert AboveAll(Base(s, x, k, l), k);
    }
  }

  /** The move between the two halves: disk 1 sits on y, disk k on top of x, and the third
      peg z is empty or topped by a disk larger than k, so the other move carries disk k from x
      to z. */
  lemma MiddleMove(s: Towers, x: Loc, y: Loc, z: Loc, k: nat)
    requires x != y && y != z && z != x
    requires s.smallest == y && s.moveNumber % 2 == 0
    requires Get(s, x) != [] && Get(s, x)[|Get(s, x)| - 1] == k && AboveAll(Get(s, z), k)
    ensures Step(s).Ok?
    ensures var t := Step(s).value;
      && Get(t, x) == Get(s, x)[..|Get(s, x)| - 1]
      && Get(t, z) == Get(s, z) + [k]
      && Get(t, y) == Get(s, y)
      && t.smallest == y && t.moveNumber == s.moveNumber + 1 && t.numDisks == s.numDisks
      && |t.moves| == |s.moves| + 1
  {
    assert OtherDirection(s) == (x, z);
    var t := Step(s).value;
    assert t.pegs == Move(s, x, z, false).value.pegs;
    assert y == Third(x, z);
  }

  /** Between the halves: the top k-1 disks stand on y = Dest(x, k-1), disk k has gone to
      z = Dest(x, k), and the counter calls for a move of disk 1. */
  predicate Halfway(s: Towers, h: Towers, x: Loc, k: nat)
    requires k >= 1 && |Get(s, x)| >= k
  {
    var y := Dest(s.numDisks, x, k - 1);
    var z := Dest(s.numDisks, x, k);
    && h.smallest == y && h.numDisks == s.numDisks
    && h.moveNumber == s.moveNumber + Pow2(k - 1)
    && |h.moves| == |s.moves| + Pow2(k - 1)
    && Get(h, x) == Base(s, x, k, x)
    && Get(h, z) == Get(s, z) + [k]
    && Get(h, y) == Get(s, y) + Tower(k - 1)
  }

  /** Halfway, the top k-1 disks form a tower the same argument applies to. */
  lemma SecondHalf(s: Towers, h: Towers, x: Loc, k: nat)
    requires TowerOn(s, x, k) && k >= 2 && Halfway(s, h, x, k)
    ensures TowerOn(h, Dest(s.numDisks, x, k - 1), k - 1)
  {
    var n := s.numDisks;
    var y := Dest(n, x, k - 1);
    var z := Dest(n, x, k);
    DestTwice(n, x, k);
    var j := k - 1;
    assert Pow2(k - 1) == 2 * Pow2(k - 2);
    var q := Get(h, y);
    assert q[|q| - j..] == Tower(j);
    assert Base(h, y, j, y) == Get(s, y);
    forall l
      ensures AboveAll(Base(h, y, j, l), j)
    {
      assert AboveAll(Base(s, x, k, l), k);
      if l == x {
        assert Base(h, y, j, l) == Base(s, x, k, x);
      } else if l == z {
        assert Base(h, y, j, l) == Get(s, z) + [k];
      } else {
        assert l == y;
        assert Base(s, x, k, l) == Get(s, y);
      }
    }
  }

  /** The second half finishes the move of the whole tower. */
  lemma Compose(s: Towers, h: Towers, t: Towers, x: Loc, k: nat)
    requires TowerOn(s, x, k) && k >= 2 && Halfway(s, h, x, k)
    requires Moved(h, t, Dest(s.numDisks, x, k - 1), k - 1)
    ensures Moved(s, t, x, k)
  {
    DestTwice(s.numDisks, x, k);
    assert Pow2(k) == Pow2(k - 1) + Pow2(k - 1);
    forall l
      ensures Get(t, l) == if l == Dest(s.numDisks, x, k) then Base(s, x, k, l) + Tower(k) else Base(s, x, k, l)
    {
      ComposePeg(s, h, t, x, k, l);
    }
  }

  /** Peg by peg: disk k and the k-1 disks above it end on Dest(x, k), the rest stay. */
  lemma ComposePeg(s: Towers, h: Towers, t: Towers, x: Loc, k: nat, l: Loc)
    requires TowerOn(s, x, k) && k >= 2 && Halfway(s, h, x, k)
    requires Moved(h, t, Dest(s.numDisks, x, k - 1), k - 1)
    ensures Get(t, l) == if l == Dest(s.numDisks, x, k) then Base(s, x, k, l) + Tower(k) else Base(s, x, k, l)
  {
    var n := s.numDisks;
    var y := Dest(n, x, k - 1);
    var z := Dest(n, x, k);
    DestTwice(n, x, k);
    var j := k - 1;
    assert Dest(h.numDisks, y, j) == z;
    if l == z {
      assert Get(t, z) == Base(h, y, j, z) + Tower(j);
      assert Base(h, y, j, z) == Get(s, z) + [k];
      assert Get(t, z) == Get(s, z) + ([k] + Tower(j));
    } else if l == y {
      assert Get(t, y) == Base(h, y, j, y) == Get(s, y);
    } else {
      assert l == x;
      assert Get(t, x) == Base(h, y, j, x);
    }
  }

  /** After the first half, disk k is alone on top of x's base, the top k-1 disks are on
      Dest(x, k-1), and the counter calls for the other move. */
  lemma AfterFirstHalf(s: Towers, s1: Towers, x: Loc, k: nat)
    requires TowerOn(s, x, k) && k >= 2 && Moved(s, s1, x, k - 1)
    ensures var y := Dest(s.numDisks, x, k - 1);
      var z := Dest(s.numDisks, x, k);
      && y != z
      && s1.smallest == y && s1.moveNumber % 2 == 0
      && Get(s1, x) == Base(s, x, k, x) + [k]
      && Get(s1, x) != [] && Get(s1, x)[|Get(s1, x)| - 1] == k
      && Get(s1, z) == Get(s, z) && AboveAll(Get(s1, z), k)
      && Get(s1, y) == Get(s, y) + Tower(k - 1)
  {
    var n := s.numDisks;
    var z := Dest(n, x, k);
    DestTwice(n, x, k);
    FirstHalf(s, x, k);
    assert Pow2(k - 1) == 2 * Pow2(k - 2);
    assert AboveAll(Base(s, x, k, z), k);
  }

  /** After the middle move the state is Halfway. */
  lemma AfterMiddle(s: Towers, s1: Towers, x: Loc, k: nat) returns (h: Towers)
    requires TowerOn(s, x, k) && k >= 2 && Moved(s, s1, x, k - 1)
    ensures Step(s1) == Ok(h) && Halfway(s, h, x, k)
  {
    var n := s.numDisks;
    var y := Dest(n, x, k - 1);
    var z := Dest(n, x, k);
    AfterFirstHalf(s, s1, x, k);
    MiddleMove(s1, x, y, z, k);
    h := Step(s1).value;
    assert Get(h, x) == (Base(s, x, k, x) + [k])[..|Base(s, x, k, x)|];
    assert Pow2(k) == 2 * Pow2(k - 1);
  }

  /** 2^k - 1 turns are two runs of 2^(k-1) - 1 turns with one turn between them. */
  lemma Pow2Halves(k: nat)
    requires k >= 1
    ensures Pow2(k) - 1 == (Pow2(k - 1) - 1) + 1 + (Pow2(k - 1) - 1)
  {
  }

  /** From a tower of k disks on x, n = 2^k - 1 turns carry it to Dest(x, k) without an
      error, leaving every other disk where it was. */
  lemma {:induction false} Macro(f: Turn, s: Towers, x: Loc, k: nat, n: nat) returns (t: Towers)
    requires IsStep(f)
    requires TowerOn(s, x, k) && n == Pow2(k) - 1
    ensures Run(f, s, n) == Ok(t) && Moved(s, t, x, k)
    decreases k, 2
  {
    if k == 1 {
      t := MacroOne(f, s, x, n);
    } else {
      var a := Pow2(k - 1) - 1;
      Pow2Halves(k);
      FirstHalf(s, x, k);
      var s1 := Macro(f, s, x, k - 1, a);
      t := MacroRest(f, s, s1, x, k, a, n);
    }
  }

  /** After the first half, the middle move and the second half finish the tower: n turns
      in all. */
  lemma {:induction false} MacroRest(f: Turn, s: Towers, s1: Towers, x: Loc, k: nat, a: nat, n: nat)
    returns (t: Towers)
    requires IsStep(f)
    requires TowerOn(s, x, k) && k >= 2 && a == Pow2(k - 1) - 1 && n == a + 1 + a
    requires Run(f, s, a) == Ok(s1) && Moved(s, s1, x, k - 1)
    ensures Run(f, s, n) == Ok(t) && Moved(s, t, x, k)
    decreases k, 1
  {
    var h := AfterMiddle(s, s1, x, k);
    t := SecondRun(f, s, s1, h, x, k, a, n);
  }

  /** From the halfway state, the second half carries the top k-1 disks onto disk k. */
  lemma {:induction false} SecondRun(f: Turn, s: Towers, s1: Towers, h: Towers, x: Loc, k: nat, a: nat, n: nat)
    returns (t: Towers)
    requires IsStep(f)
    requires TowerOn(s, x, k) && k >= 2 && a == Pow2(k - 1) - 1 && n == a + 1 + a
    requires Run(f, s, a) == Ok(s1) && Step(s1) == Ok(h) && Halfway(s, h, x, k)
    ensures Run(f, s, n) == Ok(t) && Moved(s, t, x, k)
    decreases k, 0
  {
    SecondHalf(s, h, x, k);
    t := Macro(f, h, Dest(s.numDisks, x, k - 1), k - 1, a);
    Compose(s, h, t, x, k);
    RunChain(f, s, s1, h, t, a, a, n);
  }

  /** While a tower of k disks moves off x, no peg holds more than it started with plus the
      tower, and every peg but x holds fewer: in particular the destination is not full before
      the last move. */
  predicate Within(s: Towers, u: Towers, x: Loc, k: nat)
    requires |Get(s, x)| >= k
  {
    forall l :: |Get(u, l)| + (if l == x then 0 else 1) <= |Base(s, x, k, l)| + k
  }

  /** Every state strictly before the end of the 2^k - 1 turns of Macro is reached without an
      error and is Within the bounds. */
  lemma {:induction false} MacroBound(f: Turn, s: Towers, x: Loc, k: nat, j: nat) returns (u: Towers)
    requires IsStep(f)
    requires TowerOn(s, x, k) && j < Pow2(k) - 1
    ensures Run(f, s, j) == Ok(u) && Within(s, u, x, k)
    decreases k, 2
  {
    if k == 1 {
      assert Pow2(k - 1) == 1;
      u := s;
    } else {
      var a := Pow2(k - 1) - 1;
      Pow2Halves(k);
      FirstHalf(s, x, k);
      if j < a {
        u := MacroBound(f, s, x, k - 1, j);
        WithinFirst(s, u, x, k);
      } else {
        u := BoundRest(f, s, x, k, j, a);
      }
    }
  }

  /** The bound in the first half follows from the bound for the top k-1 disks. */
  lemma WithinFirst(s: Towers, u: Towers, x: Loc, k: nat)
    requires TowerOn(s, x, k) && k >= 2 && Within(s, u, x, k - 1)
    requires Base(s, x, k - 1, x) == Base(s, x, k, x) + [k]
    ensures Within(s, u, x, k)
  {
    forall l
      ensures |Get(u, l)| + (if l == x then 0 else 1) <= |Base(s, x, k, l)| + k
    {
      assert |Get(u, l)| + (if l == x then 0 else 1) <= |Base(s, x, k - 1, l)| + k - 1;
    }
  }

  /** From the end of the first half on. */
  lemma {:induction false} BoundRest(f: Turn, s: Towers, x: Loc, k: nat, j: nat, a: nat) returns (u: Towers)
    requires IsStep(f)
    requires TowerOn(s, x, k) && k >= 2 && a == Pow2(k - 1) - 1 && a <= j < a + 1 + a
    requires TowerOn(s, x, k - 1)
    ensures Run(f, s, j) == Ok(u) && Within(s, u, x, k)
    decreases k, 1
  {
    var s1 := Macro(f, s, x, k - 1, a);
    if j == a {
      u := s1;
      WithinMiddle(s, s1, x, k);
    } else {
      var h := AfterMiddle(s, s1, x, k);
      u := BoundSecond(f, s, s1, h, x, k, j, a);
    }
  }

  /** Between the halves every peg is within bounds. */
  lemma WithinMiddle(s: Towers, s1: Towers, x: Loc, k: nat)
    requires TowerOn(s, x, k) && k >= 2 && Moved(s, s1, x, k - 1)
    ensures Within(s, s1, x, k)
  {
    AfterFirstHalf(s, s1, x, k);
    var y := Dest(s.numDisks, x, k - 1);
    forall l
      ensures |Get(s1, l)| + (if l == x then 0 else 1) <= |Base(s, x, k, l)| + k
    {
      if l != x && l != y {
        assert Get(s1, l) == Get(s, l);
      }
    }
  }

  /** In the second half, the bound for the top k-1 disks moving off y gives the bound for the
      whole tower. */
  lemma {:induction false} BoundSecond(f: Turn, s: Towers, s1: Towers, h: Towers, x: Loc, k: nat, j: nat, a: nat)
    returns (u: Towers)
    requires IsStep(f)
    requires TowerOn(s, x, k) && k >= 2 && a == Pow2(k - 1) - 1 && a < j < a + 1 + a
    requires Run(f, s, a) == Ok(s1) && Step(s1) == Ok(h) && Halfway(s, h, x, k)
    ensures Run(f, s, j) == Ok(u) && Within(s, u, x, k)
    decreases k, 0
  {
    SecondHalf(s, h, x, k);
    var y := Dest(s.numDisks, x, k - 1);
    u := MacroBound(f, h, y, k - 1, j - a - 1);
    RunChain(f, s, s1, h, u, a, j - a - 1, j);
    WithinSecond(s, h, u, x, k);
  }

  lemma WithinSecond(s: Towers, h: Towers, u: Towers, x: Loc, k: nat)
    requires TowerOn(s, x, k) && k >= 2 && Halfway(s, h, x, k)
    requires |Get(h, Dest(s.numDisks, x, k - 1))| >= k - 1
    requires Within(h, u, Dest(s.numDisks, x, k - 1), k - 1)
    ensures Within(s, u, x, k)
  {
    var n := s.numDisks;
    var y := Dest(n, x, k - 1);
    var z := Dest(n, x, k);
    DestTwice(n, x, k);
    forall l
      ensures |Get(u, l)| + (if l == x then 0 else 1) <= |Base(s, x, k, l)| + k
    {
      assert |Get(u, l)| + (if l == y then 0 else 1) <= |Base(h, y, k - 1, l)| + k - 1;
      if l != x && l != y {
        assert l == z;
      }
    }
  }

  // ---------------------------------------------------------------------------------------
  // The whole solver.

  /** The starting position is in order. */
  lemma InitOrdered(n: int)
    ensures Ordered(Init(n))
  {
    var t := Init(n);
    var p := Get(t, Source);
    if p != [] {
      forall l, i | 0 <= i < |Get(t, l)| && (l != t.smallest || i < |p| - 1)
        ensures p[|p| - 1] < Get(t, l)[i]
      {
        assert l == Source;
      }
    }
  }

  /** Every turn keeps the pegs in order and the disks the same, so every run does. */
  lemma IterKeepsOrder(t: Towers, k: nat)
    requires Ordered(t) && Iter(t, k).Ok?
    ensures Ordered(Iter(t, k).value) && Disks(Iter(t, k).value) == Disks(t)
  {
    var inv := (u: Towers) => Ordered(u) && Disks(u) == Disks(t);
    forall u | inv(u) && Step(u).Ok?
      ensures inv(Step(u).value)
    {
      StepKeepsOrder(u);
    }
    RunKeeps(Step, inv, t, k);
  }

  /** For n >= 1 disks the start is a tower of n disks on the source peg. */
  lemma InitTowerOn(n: int)
    requires n >= 1
    ensures TowerOn(Init(n), Source, n)
  {
    var s := Init(n);
    assert Get(s, Source)[|Get(s, Source)| - n..] == Get(s, Source);
    forall l
      ensures AboveAll(Base(s, Source, n, l), n)
    {
      assert Base(s, Source, n, l) == [];
    }
  }

  /** Whatever the parity of n, a tower of all n disks goes from the source to the target. */
  lemma DestSource(n: int)
    requires n >= 1
    ensures Dest(n, Source, n) == Target
  {
  }

  /** `solve_iterative` makes 2^n - 1 moves (none for n <= 0) without ever popping an empty peg,
      and then every disk is on the target, in order, and the other pegs are empty. */
  lemma Solves(n: int) returns (t: Towers)
    ensures Iter(Init(n), Total(n)) == Ok(t)
    ensures Get(t, Target) == Tower(if n < 0 then 0 else n)
    ensures Get(t, Source) == [] && Get(t, Aux) == []
    ensures |t.moves| == Total(n)
  {
    if n <= 0 {
      t := Init(n);
    } else {
      var s := Init(n);
      InitTowerOn(n);
      DestSource(n);
      t := Macro(Step, s, Source, n, Pow2(n) - 1);
      assert Get(t, Target) == Base(s, Source, n, Target) + Tower(n);
      assert Get(t, Source) == Base(s, Source, n, Source);
      assert Get(t, Aux) == Base(s, Source, n, Aux);
    }
  }

  /** Before the last of those moves the target holds fewer than n disks, so the loop, which
      runs while the target holds fewer than n, stops exactly after 2^n - 1 moves. */
  lemma NotEarly(n: int, j: nat)
    requires j < Total(n)
    ensures Iter(Init(n), j).Ok? && |Get(Iter(Init(n), j).value, Target)| < n
  {
    var s := Init(n);
    InitTowerOn(n);
    var u := MacroBound(Step, s, Source, n, j);
    assert |Get(u, Target)| + 1 <= |Base(s, Source, n, Target)| + n;
  }
  /** Before 2^n - 1 moves another turn succeeds. */
  lemma NextTurn(n: int, k: nat, s: Towers) returns (u: Towers)
    requires Iter(Init(n), k) == Ok(s) && k < Total(n)
    ensures Step(s) == Ok(u) && Iter(Init(n), k + 1) == Ok(u)
  {
    RunNext(Step, Init(n), s, k);
    if k + 1 < Total(n) {
      NotEarly(n, k + 1);
    } else {
      var t := Solves(n);
    }
    u := Step(s).value;
  }

  /** After k of at most 2^n - 1 moves the target peg holds all n disks exactly when k is
      2^n - 1: the loop condition of `solve_iterative` ends it right there. */
  lemma Finished(n: int, k: nat, s: Towers)
    requires Iter(Init(n), k) == Ok(s) && k <= Total(n)
    ensures |Get(s, Target)| >= n <==> k == Total(n)
  {
    if k < Total(n) {
      NotEarly(n, k);
    } else {
      var t := Solves(n);
    }
  }
}

/** The `TowersOfHanoi` class itself: three peg stacks, a queue of move descriptions, and the
    loop of `solve_iterative`, each proved to do what the functions of `Hanoi` describe. */
module HanoiGame {
  import opened Common
  import opened Runs
  import opened PegStacks
  import opened CircularQueue
  import opened Hanoi

  /** The descriptions of a list of moves, in order. */
  function Descriptions(ms: seq<MoveRecord>): (d: seq<string>)
    ensures |d| == |ms|
  {
    if ms == [] then [] else Descriptions(ms[..|ms| - 1]) + [Describe(ms[|ms| - 1])]
  }

  class TowersOfHanoi {
    const numDisks: int
    const source: Stack<int>
    const aux: Stack<int>
    const target: Stack<int>
    /** The queue of move descriptions. */
    const moves: Queue<string>
    var smallestDiskLocation: Loc
    var moveNumber: int
    /** The moves made, of which `moves` holds the descriptions. */
    ghost var log: seq<MoveRecord>

    ghost predicate Valid()
      reads this, source, aux, target, moves, moves.data
    {
      && source != aux && source != target && aux != target
      && moves.Valid() && moves.items == Descriptions(log)
    }

    /** The three stacks' items, source first. */
    ghost function Pegs(): Pegs
      reads source, aux, target
    {
      var p: seq<seq<int>> := [source.items, aux.items, target.items];
      assert |p| == 3;
      p
    }

    /** The game as a value of `Hanoi.Towers`. */
    ghost function State(): Towers
      reads this, source, aux, target
    {
      Towers(Pegs(), smallestDiskLocation, moveNumber, numDisks, log)
    }

    /** The stack of a peg. */
    function Peg(l: Loc): (p: Stack<int>)
      ensures l == Source ==> p == source
      ensures l == Aux ==> p == aux
      ensures l == Target ==> p == target
    {
      if l == Source then source else if l == Aux then aux else target
    }

    /** `__init__(n)`: disks n, n-1, ..., 1 pushed on the source peg, no moves yet, disk 1 on
        the source peg and the move counter at 1. */
    constructor(n: int)
      ensures Valid() && State() == Init(n)
      ensures fresh(source) && fresh(aux) && fresh(target) && fresh(moves) && fresh(moves.data)
    {
      var s := new Stack<int>();
      var i := n;
      while i > 0
        invariant i <= 0 ==> i == n || i == 0
        invariant |s.items| == (if n <= 0 then 0 else n - i) && (n > 0 ==> i >= 0)
        invariant forall j :: 0 <= j < |s.items| ==> s.items[j] == n - j
      {
        s.Push(i);
        i := i - 1;
      }
      assert s.items == Tower(if n < 0 then 0 else n);
      numDisks := n;
      source := s;
      aux := new Stack<int>();
      target := new Stack<int>();
      moves := new Queue<string>();
      smallestDiskLocation := Source;
      moveNumber := 1;
      log := [];
    }

    /** `disk = peg.pop(); dest.push(disk)`: the top disk of one stack goes on another, or
        Empty("stack is empty") is raised and nothing changes. */
    method Transfer(from: Loc, to: Loc) returns (r: Result<int, Empty>)
      requires source != aux && source != target && aux != target && from != to
      modifies source, aux, target
      ensures old(Pegs())[from] == [] ==> r == Err(Empty("stack is empty")) && Pegs() == old(Pegs())
      ensures old(Pegs())[from] != [] ==>
        var p := old(Pegs());
        && r == Ok(Top(p[from]))
        && Pegs() == p[from := Below(p[from])][to := p[to] + [Top(p[from])]]
    {
      r := Peg(from).Pop();
      if r.Ok? {
        Peg(to).Push(r.value);
      }
    }

    lemma PegItems(l: Loc)
      ensures Pegs()[l] == Peg(l).items
    {
    }

    /** Moves the top disk of one peg onto another and queues the move's description; an empty
        peg raises Empty("stack is empty") before anything changes. */
    method MoveDisk(from: Loc, to: Loc, smallest: bool) returns (e: Outcome<Empty>)
      requires Valid() && from != to
      modifies this, source, aux, target, moves, moves.data
      ensures Valid() && (moves.data == old(moves.data) || fresh(moves.data))
      ensures smallestDiskLocation == old(smallestDiskLocation) && moveNumber == old(moveNumber)
      ensures e.Pass? <==> Move(old(State()), from, to, smallest).Ok?
      ensures e.Pass? ==> State() == Move(old(State()), from, to, smallest).value
      ensures e.Fail? ==> e.error == Empty("stack is empty") && State() == old(State())
    {
      var r := Transfer(from, to);
      if r.Err? {
        return Fail(r.error);
      }
      var m := MoveRecord(r.value, from, to, smallest);
      moves.Enqueue(Describe(m));
      log := log + [m];
      assert log[..|log| - 1] == old(log);
      return Pass;
    }

    /** `_move_smallest_disk` (with its odd and even paths): disk 1's recorded peg moves on
        along the cycle for the parity of n, then disk 1 is moved there. */
    method MoveSmallestDisk() returns (e: Outcome<Empty>)
      requires Valid()
      modifies this, source, aux, target, moves, moves.data
      ensures Valid() && (moves.data == old(moves.data) || fresh(moves.data))
      ensures e.Pass? <==> MoveSmallest(old(State())).Ok?
      ensures e.Pass? ==> State() == MoveSmallest(old(State())).value
      ensures e.Fail? ==>
        e.error == Empty("stack is empty")
        && State() == old(State()).(smallest := Cycle(numDisks, old(smallestDiskLocation)))
    {
      var from := smallestDiskLocation;
      var to := Cycle(numDisks, from);
      smallestDiskLocation := to;
      e := MoveDisk(from, to, true);
    }

    /** `_make_other_legal_move`: between the two pegs without disk 1, the smaller top disk
        moves onto the other peg (onto an empty peg when one is empty). */
    method MakeOtherLegalMove() returns (e: Outcome<Empty>)
      requires Valid()
      modifies this, source, aux, target, moves, moves.data
      ensures Valid() && (moves.data == old(moves.data) || fresh(moves.data))
      ensures e.Pass? <==> OtherMove(old(State())).Ok?
      ensures e.Pass? ==> State() == OtherMove(old(State())).value
      ensures e.Fail? ==> e.error == Empty("stack is empty") && State() == old(State())
    {
      var (peg1, peg2) := Others(smallestDiskLocation);
      var disk1 := Peg(peg1).Peek();
      var disk2 := Peg(peg2).Peek();
      var from, to := peg1, peg2;
      if disk1.None? || (disk2.Some? && disk2.value < disk1.value) {
        from, to := peg2, peg1;
      }
      PegItems(peg1);
      PegItems(peg2);
      assert (from, to) == OtherDirection(State());
      e := MoveDisk(from, to, false);
    }

    /** One turn of `solve_iterative`'s loop, from a state whose turn succeeds: disk 1 moves on
        an odd-numbered move, the other legal move is made on an even-numbered one, and the
        counter goes up. */
    method Turn(ghost t: Towers)
      requires Valid() && State() == t && Step(t).Ok?
      modifies this, source, aux, target, moves, moves.data
      ensures Valid() && (moves.data == old(moves.data) || fresh(moves.data))
      ensures State() == Step(t).value
    {
      if moveNumber % 2 == 1 {
        OddTurn(t);
      } else {
        EvenTurn(t);
      }
    }

    /** An odd-numbered turn: disk 1 moves. */
    method OddTurn(ghost t: Towers)
      requires Valid() && State() == t && t.moveNumber % 2 == 1 && Step(t).Ok?
      modifies this, source, aux, target, moves, moves.data
      ensures Valid() && (moves.data == old(moves.data) || fresh(moves.data))
      ensures State() == Step(t).value
    {
      OddStep(t);
      var e := MoveSmallestDisk();
      NextMove();
    }

    /** An even-numbered turn: the other legal move is made. */
    method EvenTurn(ghost t: Towers)
      requires Valid() && State() == t && t.moveNumber % 2 != 1 && Step(t).Ok?
      modifies this, source, aux, target, moves, moves.data
      ensures Valid() && (moves.data == old(moves.data) || fresh(moves.data))
      ensures State() == Step(t).value
    {
      EvenStep(t);
      var e := MakeOtherLegalMove();
      NextMove();
    }

    /** `self.move_number += 1`. */
    method NextMove()
      requires Valid()
      modifies this
      ensures Valid() && State() == old(State()).(moveNumber := old(moveNumber) + 1)
    {
      moveNumber := moveNumber + 1;
    }

    /** `solve_iterative()` on a new game: moves until the target peg holds every disk, which
        happens after exactly 2^n - 1 moves (none for n <= 0) with no peg ever found empty; then
        the disks n, ..., 1 are on the target peg, the other pegs are empty and the queue it
        returns holds the description of every move in order. */
    method SolveIterative() returns (q: Queue<string>)
      requires Valid() && State() == Init(numDisks)
      modifies this, source, aux, target, moves, moves.data
      ensures Valid() && q == moves
      ensures Iter(Init(numDisks), Total(numDisks)) == Ok(State())
      ensures target.items == Tower(if numDisks < 0 then 0 else numDisks)
      ensures source.items == [] && aux.items == []
      ensures |moves.items| == Total(numDisks)
    {
      var n := numDisks;
      ghost var k: nat := 0;
      while target.Size() < n
        invariant Valid() && (moves.data == old(moves.data) || fresh(moves.data))
        invariant k <= Total(n) && Iter(Init(n), k) == Ok(State())
        decreases Total(n) - k
      {
        PegItems(Target);
        Finished(n, k, State());
        ghost var u := NextTurn(n, k, State());
        Turn(State());
        k := k + 1;
      }
      PegItems(Target);
      Finished(n, k, State());
      var t := Solves(n);
      return moves;
    }
  }
}
