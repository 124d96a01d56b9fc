/**
 * Sums of commitments. A commitment is taken ideally, as the pair of a value
 * and a blinding factor with component-wise addition.
 */
module Sums {
  import opened Arithmetic
  import opened Wrappers

  datatype Commitment = Commitment(value: int, blind: int)

  datatype Error = InvalidValue | KernelSumMismatch

  datatype Result<T> = Ok(value: T) | Err(error: Error)

  /** What a transaction, a block or a chain state commits to. */
  datatype Committed = Committed(inputs: seq<Commitment>, outputs: seq<Commitment>, kernels: seq<Commitment>)

  datatype BlockSums = BlockSums(utxoSum: Commitment, kernelSum: Commitment)

  const ZERO: Commitment := Commitment(0, 0)

  function Add(a: Commitment, b: Commitment): (c: Commitment) {
    Commitment(a.value + b.value, a.blind + b.blind)
  }

  function Sub(a: Commitment, b: Commitment): (c: Commitment) {
    Commitment(a.value - b.value, a.blind - b.blind)
  }

  lemma AddIs(a: Commitment, b: Commitment)
    ensures Add(a, b).value == a.value + b.value && Add(a, b).blind == a.blind + b.blind
  {}

  lemma SubIs(a: Commitment, b: Commitment)
    ensures Sub(a, b).value == a.value - b.value && Sub(a, b).blind == a.blind - b.blind
  {}

  function Sum(cs: seq<Commitment>): (c: Commitment) {
    if cs == [] then ZERO else Add(Sum(cs[..|cs| - 1]), cs[|cs| - 1])
  }

  lemma SumPush(cs: seq<Commitment>, c: Commitment)
    ensures Sum(cs + [c]) == Add(Sum(cs), c)
  {
    assert (cs + [c])[..|cs|] == cs;
  }

  lemma SumNone()
    ensures Sum([]) == ZERO
  {}

  lemma SumOne(c: Commitment)
    ensures Sum([c]) == c
  {
    SumPush([], c);
    assert [] + [c] == [c];
  }

  lemma {:induction false} SumConcat(a: seq<Commitment>, b: seq<Commitment>)
    ensures Sum(a + b) == Add(Sum(a), Sum(b))
  {
    if b == [] {
      assert a + b == a;
    } else {
      SumConcat(a, b[..|b| - 1]);
      SumPush(a + b[..|b| - 1], b[|b| - 1]);
      assert a + b[..|b| - 1] + [b[|b| - 1]] == a + b;
    }
  }

  /** The commitments other than the zero commitment. */
  function NonZero(cs: seq<Commitment>): (r: seq<Commitment>)
    ensures Sum(r) == Sum(cs) && ZERO !in r
  {
    if cs == [] then []
    else
      var rest := NonZero(cs[..|cs| - 1]);
      SumPush(rest, cs[|cs| - 1]);
      if cs[|cs| - 1] == ZERO then rest else rest + [cs[|cs| - 1]]
  }

  /** sum_commits */
  function SumCommits(positive: seq<Commitment>, negative: seq<Commitment>): (c: Commitment)
    ensures c == Sub(Sum(positive), Sum(negative))
  {
    Sub(Sum(NonZero(positive)), Sum(NonZero(negative)))
  }

  /** sum_commitments: the overage counts as an output when positive, as an input when negative. */
  method SumCommitments(c: Committed, overage: int) returns (r: Result<Commitment>)
    requires I64_MIN <= overage <= I64_MAX
    ensures r == if overage == I64_MIN then Err(InvalidValue)
                 else Ok(Add(Sub(Sum(c.outputs), Sum(c.inputs)), Commitment(overage, 0)))
  {
    var inputCommits, outputCommits := c.inputs, c.outputs;
    if overage != 0 {
      if overage == I64_MIN { return Err(InvalidValue); }
      var overCommit := Commitment(if overage < 0 then -overage else overage, 0);
      SumPush(inputCommits, overCommit);
      SumPush(outputCommits, overCommit);
      if overage < 0 {
        inputCommits := inputCommits + [overCommit];
      } else {
        outputCommits := outputCommits + [overCommit];
      }
    }
    r := Ok(SumCommits(outputCommits, inputCommits));
  }

  /** sum_kernel_excesses: without and with the kernel offset. */
  method SumKernelExcesses(c: Committed, offset: int) returns (kernelSum: Commitment, withOffset: Commitment)
    ensures kernelSum == Sum(c.kernels)
    ensures withOffset == Add(kernelSum, Commitment(0, offset))
  {
    hide Sum;
    SumNone();
    kernelSum := SumCommits(c.kernels, []);
    var commits := [kernelSum];
    SumOne(kernelSum);
    if offset != 0 {
      SumPush(commits, Commitment(0, offset));
      commits := commits + [Commitment(0, offset)];
    }
    withOffset := Sum(commits);
  }

  /** What the outputs hold beyond the inputs has to be the overage and the excess of the kernels. */
  ghost function Balance(net: Commitment, kernels: Commitment, overage: int, offset: int):
    (r: Result<(Commitment, Commitment)>)
  {
    if Add(net, Commitment(overage, 0)) == Add(kernels, Commitment(0, offset))
    then Ok((Add(net, Commitment(overage, 0)), kernels))
    else Err(KernelSumMismatch)
  }

  /** Values balance without the offset, blinding factors with it. */
  lemma BalanceIs(net: Commitment, kernels: Commitment, overage: int, offset: int)
    ensures Balance(net, kernels, overage, offset).Ok? <==>
              net.value + overage == kernels.value && net.blind == kernels.blind + offset
  {}

  ghost function Verified(c: Committed, overage: int, offset: int): (r: Result<(Commitment, Commitment)>) {
    Balance(Sub(Sum(c.outputs), Sum(c.inputs)), Sum(c.kernels), overage, offset)
  }

  /** verify_kernel_sums */
  method VerifyKernelSums(c: Committed, overage: int, offset: int) returns (r: Result<(Commitment, Commitment)>)
    requires I64_MIN <= overage <= I64_MAX
    ensures overage == I64_MIN ==> r == Err(InvalidValue)
    ensures overage > I64_MIN ==> r == Verified(c, overage, offset)
  {
    hide Sum;
    var utxoSum := SumCommitments(c, overage);
    if utxoSum.Err? { return Err(utxoSum.error); }
    var kernelSum, withOffset := SumKernelExcesses(c, offset);
    if utxoSum.value != withOffset {
      return Err(KernelSumMismatch);
    }
    r := Ok((utxoSum.value, kernelSum));
  }

  /** The earlier sums stand for one more output and one more kernel. */
  function WithSums(sums: BlockSums, c: Committed): (r: Committed) {
    Committed(c.inputs, [sums.utxoSum] + c.outputs, [sums.kernelSum] + c.kernels)
  }

  lemma WithSumsIs(sums: BlockSums, c: Committed)
    ensures Sum(WithSums(sums, c).outputs) == Add(sums.utxoSum, Sum(c.outputs))
    ensures Sum(WithSums(sums, c).kernels) == Add(sums.kernelSum, Sum(c.kernels))
    ensures WithSums(sums, c).inputs == c.inputs
  {
    hide Sum;
    SumConcat([sums.utxoSum], c.outputs);
    SumConcat([sums.kernelSum], c.kernels);
    SumOne(sums.utxoSum);
    SumOne(sums.kernelSum);
  }

  /** The sums of a whole chain state whose overage is total. */
  ghost function FullSums(utxo: Commitment, kernels: Commitment, total: nat): (s: BlockSums) {
    BlockSums(Sub(utxo, Commitment(total, 0)), kernels)
  }

  /**
   * Checking a block against the sums of the state before it gives what checking
   * the whole state after it gives, verdict and sums alike.
   */
  lemma IncrementalIsFull(block: Committed, utxo: Commitment, kernels: Commitment, total: nat, reward: nat, offset: int)
    ensures var utxo' := Add(utxo, Sub(Sum(block.outputs), Sum(block.inputs)));
            var kernels' := Add(kernels, Sum(block.kernels));
            var full := Balance(utxo', kernels', 0 - (total + reward), offset);
            && Verified(WithSums(FullSums(utxo, kernels, total), block), 0 - reward, offset) == full
            && (full.Ok? ==> BlockSums(full.value.0, full.value.1) == FullSums(utxo', kernels', total + reward))
  {
    WithSumsIs(FullSums(utxo, kernels, total), block);
    hide Sum;
  }

  lemma ZeroSums(c: Commitment)
    ensures Add(ZERO, c) == c && Sub(ZERO, ZERO) == ZERO && Add(ZERO, ZERO) == ZERO
  {}

  lemma ZeroFull()
    ensures FullSums(ZERO, ZERO, 0) == BlockSums(ZERO, ZERO)
  {}

  lemma BalancedValue(net: Commitment, kernels: Commitment, overage: int, offset: int)
    ensures Balance(net, kernels, overage, offset).Ok? ==>
              Balance(net, kernels, overage, offset).value.0.value == Balance(net, kernels, overage, offset).value.1.value
  {}

  ghost predicate ValueZero(cs: seq<Commitment>) {
    forall i :: 0 <= i < |cs| ==> cs[i].value == 0
  }

  lemma {:induction false} ValueZeroSum(cs: seq<Commitment>)
    requires ValueZero(cs)
    ensures Sum(cs).value == 0
  {
    if cs != [] { ValueZeroSum(cs[..|cs| - 1]); }
  }

  /** Kernels without value leave exactly the overage to the outputs. */
  lemma NoInflation(utxo: Commitment, kernels: seq<Commitment>, total: nat, offset: int)
    requires ValueZero(kernels) && Balance(utxo, Sum(kernels), 0 - total, offset).Ok?
    ensures utxo.value == total
  {
    ValueZeroSum(kernels);
    hide Sum;
  }

  // Sums over sets

  ghost function SumSet<T>(f: T -> Commitment, s: set<T>): (c: Commitment)
    decreases s
  {
    if s == {} then ZERO else var x :| x in s; Add(SumSet(f, s - {x}), f(x))
  }

  lemma {:induction false} SumSetRemove<T>(f: T -> Commitment, s: set<T>, x: T)
    requires x in s
    ensures SumSet(f, s) == Add(SumSet(f, s - {x}), f(x))
    decreases s
  {
    var y :| y in s && SumSet(f, s) == Add(SumSet(f, s - {y}), f(y));
    hide SumSet;
    if y != x {
      var rest := s - {y} - {x};
      assert rest == s - {x} - {y};
      SumSetRemove(f, s - {y}, x);
      SumSetRemove(f, s - {x}, y);
      assert SumSet(f, s) == Add(Add(SumSet(f, rest), f(x)), f(y));
      assert SumSet(f, s - {x}) == Add(SumSet(f, rest), f(y));
    }
  }

  lemma SumSetAdd<T>(f: T -> Commitment, s: set<T>, x: T)
    requires x !in s
    ensures SumSet(f, s + {x}) == Add(SumSet(f, s), f(x))
  {
    SumSetRemove(f, s + {x}, x);
    assert s + {x} - {x} == s;
  }

  function Image<T>(f: T -> Commitment, xs: seq<T>): (cs: seq<Commitment>)
    ensures |cs| == |xs| && forall i :: 0 <= i < |xs| ==> cs[i] == f(xs[i])
  {
    seq(|xs|, i requires 0 <= i < |xs| => f(xs[i]))
  }

  ghost function ElementsOf<T>(xs: seq<T>): (s: set<T>) {
    set x | x in xs
  }

  lemma ImagePush<T>(f: T -> Commitment, xs: seq<T>, x: T)
    ensures Sum(Image(f, xs + [x])) == Add(Sum(Image(f, xs)), f(x))
  {
    SumPush(Image(f, xs), f(x));
    assert Image(f, xs + [x]) == Image(f, xs) + [f(x)];
  }

  /** New elements add their sum. */
  lemma {:induction false} SumSetUnion<T>(f: T -> Commitment, s: set<T>, xs: seq<T>)
    requires Distinct(xs) && s !! ElementsOf(xs)
    ensures SumSet(f, s + ElementsOf(xs)) == Add(SumSet(f, s), Sum(Image(f, xs)))
  {
    if xs == [] {
      assert s + ElementsOf(xs) == s;
    } else {
      var n := |xs| - 1;
      assert xs == xs[..n] + [xs[n]];
      SumSetUnion(f, s, xs[..n]);
      ImagePush(f, xs[..n], xs[n]);
      SumSetAdd(f, s + ElementsOf(xs[..n]), xs[n]);
      assert s + ElementsOf(xs[..n]) + {xs[n]} == s + ElementsOf(xs);
    }
  }

  /** Elements that are taken away take their sum with them. */
  lemma {:induction false} SumSetMinus<T>(f: T -> Commitment, s: set<T>, xs: seq<T>)
    requires Distinct(xs) && ElementsOf(xs) <= s
    ensures SumSet(f, s - ElementsOf(xs)) == Sub(SumSet(f, s), Sum(Image(f, xs)))
  {
    SumSetUnion(f, s - ElementsOf(xs), xs);
    assert s - ElementsOf(xs) + ElementsOf(xs) == s;
  }

  /** Every listing of a set has the sum of the set. */
  lemma SumSetListing<T>(f: T -> Commitment, xs: seq<T>)
    requires Distinct(xs)
    ensures SumSet(f, ElementsOf(xs)) == Sum(Image(f, xs))
  {
    SumSetUnion(f, {}, xs);
    assert {} + ElementsOf(xs) == ElementsOf(xs);
  }

  /** From nothing, one output of value v balances what the schedule owes when it owes v. */
  lemma BalancedReward(zero: Commitment, out: Commitment, owed: int)
    requires zero.value == 0 && zero.blind == 0 && out.value == owed && out.blind == 0
    ensures Balance(Add(zero, Sub(out, zero)), Add(zero, zero), 0 - owed, 0).Ok?
  {
    hide *;
    SubIs(out, zero);
    AddIs(zero, Sub(out, zero));
    AddIs(zero, zero);
    BalanceIs(Add(zero, Sub(out, zero)), Add(zero, zero), 0 - owed, 0);
  }
}
