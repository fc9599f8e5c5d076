/**
 * The 64-step mixing can be run backwards: for a fixed block it is a bijection on the registers.
 */
module Md5Mixing {
  import opened Md5Spec

  /** The `a` from which Turn made `n`. */
  function Unturn(n: Word, b: Word, f: Word, x: Word, s: nat, t: Word): Word
    requires s < 32
  {
    Sub(Sub(Sub(Ror(Sub(n, b), s), t), x), f)
  }

  function Unstep(r: Regs, X: seq<Word>, i: nat): Regs
    requires |X| == 16
  {
    Regs(Unturn(r.b, r.c, Aux(i, r.c, r.d, r.a), X[Select(i)], Shift(i), T(i)), r.c, r.d, r.a)
  }

  /** Undoes steps n-1 down to 0. */
  function Unmix(r: Regs, X: seq<Word>, n: nat): Regs
    requires |X| == 16
    decreases n
  {
    if n == 0 then r else Unmix(Unstep(r, X, n - 1), X, n - 1)
  }

  lemma RightOfLeft(x: Word, s: nat)
    requires s < 32
    ensures Ror(x.RotateLeft(s), s) == x
  {
  }

  lemma LeftOfRight(x: Word, s: nat)
    requires s < 32
    ensures Rol(x.RotateRight(s), s) == x
  {
  }

  lemma RotationInverse(x: Word, s: nat)
    requires s < 32
    ensures Ror(Rol(x, s), s) == x
  {
    hide Ror;
    RightOfLeft(x, s);
  }

  lemma InverseRotation(x: Word, s: nat)
    requires s < 32
    ensures Rol(Ror(x, s), s) == x
  {
    hide Rol;
    LeftOfRight(x, s);
  }

  lemma AddThenSub(x: Word, y: Word)
    ensures Sub(Add(x, y), x) == y && Sub(Add(x, y), y) == x
  {
  }

  lemma SubThenAdd(x: Word, y: Word)
    ensures Add(Sub(x, y), y) == x && Add(y, Sub(x, y)) == x
  {
  }

  lemma TurnInverse(a: Word, b: Word, f: Word, x: Word, s: nat, t: Word)
    requires s < 32
    ensures Unturn(Turn(a, b, f, x, s, t), b, f, x, s, t) == a
    ensures Turn(Unturn(a, b, f, x, s, t), b, f, x, s, t) == a
  {
    hide Rol, Ror, Add, Sub;
    var u := Add(Add(Add(a, f), x), t);
    RotationInverse(u, s);
    AddThenSub(b, Rol(u, s));
    AddThenSub(Add(Add(a, f), x), t);
    AddThenSub(Add(a, f), x);
    AddThenSub(a, f);
    var v := Ror(Sub(a, b), s);
    InverseRotation(Sub(a, b), s);
    SubThenAdd(a, b);
    SubThenAdd(v, t);
    SubThenAdd(Sub(v, t), x);
    SubThenAdd(Sub(Sub(v, t), x), f);
  }

  lemma StepInverse(r: Regs, X: seq<Word>, i: nat)
    requires |X| == 16
    ensures Unstep(Step(r, X, i), X, i) == r
    ensures Step(Unstep(r, X, i), X, i) == r
  {
    hide Turn, Unturn, Aux, Select, Shift, T;
    TurnInverse(r.a, r.b, Aux(i, r.b, r.c, r.d), X[Select(i)], Shift(i), T(i));
    TurnInverse(r.b, r.c, Aux(i, r.c, r.d, r.a), X[Select(i)], Shift(i), T(i));
  }

  /** Mix and Unmix are inverse to each other, at every step count and so at all 64. */
  lemma {:induction false} MixInverse(r: Regs, X: seq<Word>, n: nat)
    requires |X| == 16
    ensures Unmix(Mix(r, X, n), X, n) == r
    ensures Mix(Unmix(r, X, n), X, n) == r
    decreases n
  {
    hide Step, Unstep;
    if n > 0 {
      StepInverse(Mix(r, X, n - 1), X, n - 1);
      MixInverse(r, X, n - 1);
      MixInverse(Unstep(r, X, n - 1), X, n - 1);
      StepInverse(r, X, n - 1);
    }
  }

  /** Hence two register files mixed with the same block agree only if they were equal. */
  lemma {:induction false} MixInjective(r1: Regs, r2: Regs, X: seq<Word>)
    requires |X| == 16
    ensures Mix(r1, X, 64) == Mix(r2, X, 64) ==> r1 == r2
  {
    hide Step, Unstep;
    MixInverse(r1, X, 64);
    MixInverse(r2, X, 64);
  }
}
