/**
  The identifiers CManagers give themselves.  A peer found under the same identifier is taken for the same
  CManager, so those of different processes must differ as far as 31 bits let them.
 */
module ManagerId {

  /** The finalizer of splitmix64. */
  function Mix64(x: bv64): bv64 {
    Spread31(Times2(Spread27(Times1(Spread30(x)))))
  }

  function Spread30(x: bv64): bv64 {
    x ^ (x >> 30)
  }

  function Spread27(x: bv64): bv64 {
    x ^ (x >> 27)
  }

  function Spread31(x: bv64): bv64 {
    x ^ (x >> 31)
  }

  function Times1(x: bv64): bv64 {
    x * 0xbf58476d1ce4e5b9
  }

  function Times2(x: bv64): bv64 {
    x * 0x94d049bb133111eb
  }

  // ---------- Its inverse ----------

  function Gather30(y: bv64): bv64 {
    y ^ (y >> 30) ^ (y >> 60)
  }

  function Gather27(y: bv64): bv64 {
    y ^ (y >> 27) ^ (y >> 54)
  }

  function Gather31(y: bv64): bv64 {
    y ^ (y >> 31) ^ (y >> 62)
  }

  /** The multipliers are the inverses of those of Mix64 modulo 2^64. */
  function Over1(y: bv64): bv64 {
    y * 0x96de1b173f119089
  }

  function Over2(y: bv64): bv64 {
    y * 0x319642b2d24d8ec3
  }

  function Unmix64(y: bv64): bv64 {
    Gather30(Over1(Gather27(Over2(Gather31(y)))))
  }

  lemma Gather30Of(x: bv64)
    ensures Gather30(x ^ (x >> 30)) == x
  {
  }

  lemma Gather30Spread30(x: bv64)
    ensures Gather30(Spread30(x)) == x
  {
    hide Gather30;
    Gather30Of(x);
  }

  lemma Spread30Of(y: bv64)
    ensures Spread30(y ^ (y >> 30) ^ (y >> 60)) == y
  {
  }

  lemma Spread30Gather30(y: bv64)
    ensures Spread30(Gather30(y)) == y
  {
    hide Spread30;
    Spread30Of(y);
  }

  lemma Gather27Of(x: bv64)
    ensures Gather27(x ^ (x >> 27)) == x
  {
  }

  lemma Gather27Spread27(x: bv64)
    ensures Gather27(Spread27(x)) == x
  {
    hide Gather27;
    Gather27Of(x);
  }

  lemma Spread27Of(y: bv64)
    ensures Spread27(y ^ (y >> 27) ^ (y >> 54)) == y
  {
  }

  lemma Spread27Gather27(y: bv64)
    ensures Spread27(Gather27(y)) == y
  {
    hide Spread27;
    Spread27Of(y);
  }

  lemma Gather31Of(x: bv64)
    ensures Gather31(x ^ (x >> 31)) == x
  {
  }

  lemma Gather31Spread31(x: bv64)
    ensures Gather31(Spread31(x)) == x
  {
    hide Gather31;
    Gather31Of(x);
  }

  lemma Spread31Of(y: bv64)
    ensures Spread31(y ^ (y >> 31) ^ (y >> 62)) == y
  {
  }

  lemma Spread31Gather31(y: bv64)
    ensures Spread31(Gather31(y)) == y
  {
    hide Spread31;
    Spread31Of(y);
  }

  lemma Over1Of(x: bv64)
    ensures Over1(x * 0xbf58476d1ce4e5b9) == x
  {
  }

  lemma Over1Times1(x: bv64)
    ensures Over1(Times1(x)) == x
  {
    hide Over1;
    Over1Of(x);
  }

  lemma Times1Of(y: bv64)
    ensures Times1(y * 0x96de1b173f119089) == y
  {
  }

  lemma Times1Over1(y: bv64)
    ensures Times1(Over1(y)) == y
  {
    hide Times1;
    Times1Of(y);
  }

  lemma Over2Of(x: bv64)
    ensures Over2(x * 0x94d049bb133111eb) == x
  {
  }

  lemma Over2Times2(x: bv64)
    ensures Over2(Times2(x)) == x
  {
    hide Over2;
    Over2Of(x);
  }

  lemma Times2Of(y: bv64)
    ensures Times2(y * 0x319642b2d24d8ec3) == y
  {
  }

  lemma Times2Over2(y: bv64)
    ensures Times2(Over2(y)) == y
  {
    hide Times2;
    Times2Of(y);
  }

  /** Mix64 is a bijection on 64-bit words. */
  lemma MixIsBijective(x: bv64)
    ensures Unmix64(Mix64(x)) == x
    ensures Mix64(Unmix64(x)) == x
  {
    hide Spread30, Spread27, Spread31, Times1, Times2, Gather30, Gather27, Gather31, Over1, Over2;
    var a := Spread30(x);
    var b := Times1(a);
    var c := Spread27(b);
    var d := Times2(c);
    Gather31Spread31(d);
    Over2Times2(c);
    Gather27Spread27(b);
    Over1Times1(a);
    Gather30Spread30(x);
    var e := Gather31(x);
    var f := Over2(e);
    var g := Gather27(f);
    var h := Over1(g);
    Spread30Gather30(h);
    Times1Over1(g);
    Spread27Gather27(f);
    Times2Over2(e);
    Spread31Gather31(x);
  }

  /** The first output of splitmix64 for seed 0. */
  lemma FirstOutput()
    ensures Mix64(0x9e3779b97f4a7c15) == 0xe220a8397b1dcdaf
  {
  }

  // ---------- The identifier ----------

  /** What generate_CManager_ID mixes in after the process number, in that order. */
  datatype Inputs = Inputs(time: bv64, clock: bv64, manager: bv64, stack: bv64)

  function Fold(x: bv64, input: bv64): bv64 {
    Mix64(x) ^ input
  }

  function Unfold(y: bv64, input: bv64): bv64 {
    Unmix64(y ^ input)
  }

  function State(pid: bv64, inputs: Inputs): bv64 {
    Mix64(Fold(Fold(Fold(Fold(pid, inputs.time), inputs.clock), inputs.manager), inputs.stack))
  }

  lemma XorTwice(x: bv64, y: bv64)
    ensures x ^ y ^ y == x
  {
  }

  lemma FoldIsBijective(x: bv64, input: bv64)
    ensures Unfold(Fold(x, input), input) == x
    ensures Fold(Unfold(x, input), input) == x
  {
    hide Mix64, Unmix64;
    MixIsBijective(x);
    MixIsBijective(x ^ input);
    XorTwice(Mix64(x), input);
    XorTwice(x, input);
  }

  /** The process number with which the other inputs give a state. */
  function PidFor(state: bv64, inputs: Inputs): bv64 {
    Unfold(Unfold(Unfold(Unfold(Unmix64(state), inputs.stack), inputs.manager), inputs.clock), inputs.time)
  }

  /**
    With the other inputs fixed the 64-bit state is a bijection of the process number: distinct processes
    have distinct states, and every state arises.
   */
  lemma StateIsBijective(pid: bv64, state: bv64, inputs: Inputs)
    ensures PidFor(State(pid, inputs), inputs) == pid
    ensures State(PidFor(state, inputs), inputs) == state
  {
    hide Mix64, Unmix64, Fold, Unfold;
    var a := Fold(pid, inputs.time);
    var b := Fold(a, inputs.clock);
    var c := Fold(b, inputs.manager);
    FoldIsBijective(pid, inputs.time);
    FoldIsBijective(a, inputs.clock);
    FoldIsBijective(b, inputs.manager);
    FoldIsBijective(c, inputs.stack);
    MixIsBijective(Fold(c, inputs.stack));
    var d := Unmix64(state);
    var e := Unfold(d, inputs.stack);
    var f := Unfold(e, inputs.manager);
    var g := Unfold(f, inputs.clock);
    MixIsBijective(state);
    FoldIsBijective(d, inputs.stack);
    FoldIsBijective(e, inputs.manager);
    FoldIsBijective(f, inputs.clock);
    FoldIsBijective(g, inputs.time);
  }

  lemma PidsApart(pid: bv64, other: bv64, inputs: Inputs)
    requires pid != other
    ensures State(pid, inputs) != State(other, inputs)
  {
    hide State, PidFor;
    StateIsBijective(pid, 0, inputs);
    StateIsBijective(other, 0, inputs);
  }

  /** The low 31 bits. */
  function Low(state: bv64): bv31 {
    (state & 0x7fff_ffff) as bv31
  }

  /** Low 31 bits agree exactly if masking with 0x7fffffff says so. */
  lemma SameLowIff(a: bv64, b: bv64)
    ensures Low(a) == Low(b) <==> (a & 0x7fff_ffff) == (b & 0x7fff_ffff)
  {
  }

  /** The identifier, with 1 in place of the 0 that means an unknown CManager. */
  function Identifier(state: bv64): (id: int)
    ensures 1 <= id <= 0x7fff_ffff
  {
    if Low(state) == 0 then 1 else InRange(Low(state))
  }

  function InRange(low: bv31): (id: int)
    ensures 0 <= id <= 0x7fff_ffff
    ensures id == 0 <==> low == 0
    ensures id == 1 <==> low == 1
    ensures id as bv31 == low
  {
    low as int
  }

  lemma LowIs(a: bv64)
    ensures Low(a) == 0 <==> (a & 0x7fff_ffff) == 0
    ensures Low(a) == 1 <==> (a & 0x7fff_ffff) == 1
  {
  }

  /** Two states give one identifier exactly when their low 31 bits agree, or are 0 and 1. */
  lemma IdentifiersClashIff(a: bv64, b: bv64)
    ensures var x, y := a & 0x7fff_ffff, b & 0x7fff_ffff;
      Identifier(a) == Identifier(b) <==> x == y || (x == 0 && y == 1) || (x == 1 && y == 0)
  {
    LowIs(a);
    LowIs(b);
    SameLowIff(a, b);
    hide Low, InRange;
    SameInRange(Low(a), Low(b));
  }

  lemma SameInRange(a: bv31, b: bv31)
    ensures InRange(a) == InRange(b) ==> a == b
  {
    hide InRange;
  }
}
