/** What `evaluateExpression` (Calculator/Calculator.cpp, lines 496-576)
    computes, as functions over the parsed operands and operators: one pass
    folds every `^`, a second every `*` and `/`, each left to right, and a
    left fold of the remaining `+` and `-` produces the value. */
module Evaluation {
  import opened Types
  import opened Arithmetic

  /** The two folding passes: powers first, then products and quotients. */
  datatype Tier = Power | Product

  predicate InTier(c: char, t: Tier)
  {
    match t
    case Power => c == '^'
    case Product => c == '*' || c == '/'
  }

  predicate NoneInTier(ops: seq<char>, t: Tier)
  {
    forall k :: 0 <= k < |ops| ==> !InTier(ops[k], t)
  }

  /** The operators a pass leaves in place, in their original order. */
  function Survivors(t: Tier, ops: seq<char>): (r: seq<char>)
    ensures |r| <= |ops|
    ensures NoneInTier(r, t)
  {
    if ops == [] then []
    else if InTier(ops[0], t) then Survivors(t, ops[1..])
    else [ops[0]] + Survivors(t, ops[1..])
  }

  /** One pass over an expression whose leftmost operand so far is `acc`,
      followed by the operands `nums` and the operators `ops`: an operator of
      the pass merges `acc` with the next operand and the pass looks at the
      same place again; any other operator leaves `acc` behind and the pass
      moves on. Operands beyond the last operator are carried along. */
  function Collapse(t: Tier, acc: Result<real>, nums: seq<Result<real>>, ops: seq<char>, be: Backend): (r: Flat)
    requires |ops| <= |nums|
    ensures |r.nums| == |r.ops| + 1 + |nums| - |ops|
    ensures r.ops == Survivors(t, ops)
    decreases |ops|
  {
    if ops == [] then Flat([acc] + nums, [])
    else if InTier(ops[0], t) then Collapse(t, Combine(acc, nums[0], ops[0], be), nums[1..], ops[1..], be)
    else
      var r := Collapse(t, nums[0], nums[1..], ops[1..], be);
      Flat([acc] + r.nums, [ops[0]] + r.ops)
  }

  /** One pass over a whole expression. */
  function Reduce(t: Tier, f: Flat, be: Backend): (r: Flat)
    requires |f.ops| < |f.nums|
    ensures |r.nums| - |r.ops| == |f.nums| - |f.ops|
    ensures r.ops == Survivors(t, f.ops)
  {
    Collapse(t, f.nums[0], f.nums[1..], f.ops, be)
  }

  /** One fold at operator `i`: the result of the step replaces operand `i`,
      the operands after operand `i + 1` and the operators after operator `i`
      move down one place, and both counts drop by one. */
  function Folded(f: Flat, i: nat, be: Backend): (r: Flat)
    requires i < |f.ops| < |f.nums|
    ensures |r.nums| == |f.nums| - 1 && |r.ops| == |f.ops| - 1
    ensures forall k :: 0 <= k < i ==> r.nums[k] == f.nums[k] && r.ops[k] == f.ops[k]
    ensures r.nums[i] == Combine(f.nums[i], f.nums[i + 1], f.ops[i], be)
    ensures forall k :: i < k < |r.nums| ==> r.nums[k] == f.nums[k + 1]
    ensures forall k :: i <= k < |r.ops| ==> r.ops[k] == f.ops[k + 1]
  {
    Flat(f.nums[..i] + [Combine(f.nums[i], f.nums[i + 1], f.ops[i], be)] + f.nums[i + 2..],
         f.ops[..i] + f.ops[i + 1..])
  }

  /** A pass that has reached operator `i`: everything before it is final,
      the rest still to be folded. */
  function ReduceFrom(t: Tier, f: Flat, i: nat, be: Backend): Flat
    requires i <= |f.ops| < |f.nums|
  {
    var r := Collapse(t, f.nums[i], f.nums[i + 1..], f.ops[i..], be);
    Flat(f.nums[..i] + r.nums, f.ops[..i] + r.ops)
  }

  /** A pass starts at operator 0 ... */
  lemma ReduceFromStart(t: Tier, f: Flat, be: Backend)
    requires |f.ops| < |f.nums|
    ensures ReduceFrom(t, f, 0, be) == Reduce(t, f, be)
  {
    assert f.ops[0..] == f.ops;
  }

  /** ... folding an operator of the pass leaves the outcome unchanged and
      the pass looks at the same place again ... */
  lemma ReduceFromFold(t: Tier, f: Flat, i: nat, be: Backend)
    requires i < |f.ops| < |f.nums| && InTier(f.ops[i], t)
    ensures ReduceFrom(t, Folded(f, i, be), i, be) == ReduceFrom(t, f, i, be)
  {
    var g := Folded(f, i, be);
    assert g.nums[i + 1..] == f.nums[i + 1..][1..];
    assert g.ops[i..] == f.ops[i..][1..];
  }

  /** ... passing over any other operator moves one place on ... */
  lemma ReduceFromSkip(t: Tier, f: Flat, i: nat, be: Backend)
    requires i < |f.ops| < |f.nums| && !InTier(f.ops[i], t)
    ensures ReduceFrom(t, f, i + 1, be) == ReduceFrom(t, f, i, be)
  {
    var n, o := f.nums, f.ops;
    assert n[i + 1..][0] == n[i + 1] && n[i + 1..][1..] == n[i + 2..];
    assert o[i..][0] == o[i] && o[i..][1..] == o[i + 1..];
    CollapseSkip(t, n[i], n[i + 1..], o[i..], be);
    var r' := Collapse(t, n[i + 1], n[i + 2..], o[i + 1..], be);
    PrefixCons(n, i, r'.nums);
    PrefixCons(o, i, r'.ops);
  }

  /** A pass keeps an operator outside its tier and goes on after it. */
  lemma CollapseSkip(t: Tier, acc: Result<real>, nums: seq<Result<real>>, ops: seq<char>, be: Backend)
    requires 0 < |ops| <= |nums| && !InTier(ops[0], t)
    ensures var r := Collapse(t, nums[0], nums[1..], ops[1..], be);
      Collapse(t, acc, nums, ops, be) == Flat([acc] + r.nums, [ops[0]] + r.ops)
  {
  }

  lemma PrefixCons<T>(a: seq<T>, i: nat, b: seq<T>)
    requires i < |a|
    ensures a[..i] + ([a[i]] + b) == a[..i + 1] + b
  {
    assert a[..i + 1] == a[..i] + [a[i]];
  }

  /** ... and past the last operator nothing is left to fold. */
  lemma ReduceFromEnd(t: Tier, f: Flat, be: Backend)
    requires |f.ops| < |f.nums|
    ensures ReduceFrom(t, f, |f.ops|, be) == f
  {
    var i := |f.ops|;
    assert f.nums[..i] + ([f.nums[i]] + f.nums[i + 1..]) == f.nums;
  }

  /** The last pass applies only `+` and `-`; any other operator is passed over. */
  function SumStep(acc: Result<real>, n: Result<real>, op: char, be: Backend): (r: Result<real>)
    ensures op != '+' && op != '-' ==> r == acc
    ensures acc.Err? ==> r == acc
    ensures acc.Ok? && n.Ok? && op == '+' ==> r == Ok(acc.value + n.value)
    ensures acc.Ok? && n.Ok? && op == '-' ==> r == Ok(acc.value - n.value)
  {
    if op == '+' || op == '-' then Combine(acc, n, op, be) else acc
  }

  /** The last pass as a left fold: `acc` is the running result, `ops[k]`
      applies `nums[k]`. */
  function AddSub(acc: Result<real>, nums: seq<Result<real>>, ops: seq<char>, be: Backend): (r: Result<real>)
    requires |ops| <= |nums|
    decreases |ops|
    ensures acc.Err? ==> r == acc
  {
    if ops == [] then acc else AddSub(SumStep(acc, nums[0], ops[0], be), nums[1..], ops[1..], be)
  }

  /** Both folding passes. */
  function Tiers(f: Flat, be: Backend): (g: Flat)
    requires |f.ops| < |f.nums|
    ensures |g.nums| - |g.ops| == |f.nums| - |f.ops|
  {
    Reduce(Product, Reduce(Power, f, be), be)
  }

  /** The value of an expression; with no operator it is the first operand. */
  function EvalSpec(f: Flat, be: Backend): (r: Result<real>)
    requires |f.ops| < |f.nums|
    ensures f.ops == [] ==> r == f.nums[0]
  {
    var g := Tiers(f, be);
    AddSub(g.nums[0], g.nums[1..], g.ops, be)
  }

  /** A pass changes nothing when none of its operators is present. */
  lemma {:induction false} CollapseIdentity(t: Tier, acc: Result<real>, nums: seq<Result<real>>, ops: seq<char>, be: Backend)
    requires |ops| <= |nums| && NoneInTier(ops, t)
    ensures Collapse(t, acc, nums, ops, be) == Flat([acc] + nums, ops)
    decreases |ops|
  {
    if ops != [] {
      assert !InTier(ops[0], t);
      var r := Collapse(t, nums[0], nums[1..], ops[1..], be);
      assert Collapse(t, acc, nums, ops, be) == Flat([acc] + r.nums, [ops[0]] + r.ops);
      CollapseIdentity(t, nums[0], nums[1..], ops[1..], be);
      assert r.nums == nums && r.ops == ops[1..] by {
        assert [nums[0]] + nums[1..] == nums;
      }
      assert [ops[0]] + ops[1..] == ops;
    }
  }

  /** The same for a whole expression. */
  lemma ReduceIdentity(t: Tier, f: Flat, be: Backend)
    requires |f.ops| < |f.nums| && NoneInTier(f.ops, t)
    ensures Reduce(t, f, be) == f
  {
    CollapseIdentity(t, f.nums[0], f.nums[1..], f.ops, be);
    assert [f.nums[0]] + f.nums[1..] == f.nums;
  }

  /** Running a pass twice is running it once. */
  lemma ReduceIdempotent(t: Tier, f: Flat, be: Backend)
    requires |f.ops| < |f.nums|
    ensures Reduce(t, Reduce(t, f, be), be) == Reduce(t, f, be)
  {
    ReduceIdentity(t, Reduce(t, f, be), be);
  }

  /** A pass keeps only operators that were there. */
  lemma {:induction false} SurvivorsFrom(t: Tier, ops: seq<char>, c: char)
    requires c in Survivors(t, ops)
    ensures c in ops
  {
    if ops != [] {
      if c != ops[0] {
        var rest := Survivors(t, ops[1..]);
        assert c in rest by {
          if !InTier(ops[0], t) {
            assert Survivors(t, ops) == [ops[0]] + rest;
          }
        }
        SurvivorsFrom(t, ops[1..], c);
      }
    }
  }

  /** The remaining operators after both passes are the additions and
      subtractions of the expression, in order. */
  lemma TiersLeaveSums(f: Flat, be: Backend)
    requires |f.ops| < |f.nums|
    requires forall k :: 0 <= k < |f.ops| ==> IsBinaryOperator(f.ops[k])
    ensures var g := Tiers(f, be);
      forall k :: 0 <= k < |g.ops| ==> g.ops[k] == '+' || g.ops[k] == '-'
  {
    var g1 := Reduce(Power, f, be);
    var g := Reduce(Product, g1, be);
    forall k | 0 <= k < |g.ops| ensures g.ops[k] == '+' || g.ops[k] == '-' {
      SurvivorsFrom(Product, g1.ops, g.ops[k]);
      SurvivorsFrom(Power, f.ops, g.ops[k]);
    }
  }

  /** A plain left fold of the binary step. */
  function Chain(acc: Result<real>, nums: seq<Result<real>>, ops: seq<char>, be: Backend): Result<real>
    requires |ops| <= |nums|
    decreases |ops|
  {
    if ops == [] then acc else Chain(Combine(acc, nums[0], ops[0], be), nums[1..], ops[1..], be)
  }

  /** Looking at the same place again after a fold makes a run of operators
      of one pass associate to the left: `a^b^c` is `(a^b)^c`, `a/b*c` is
      `(a/b)*c`. */
  lemma {:induction false} ChainFoldsLeft(t: Tier, acc: Result<real>, nums: seq<Result<real>>, ops: seq<char>, be: Backend)
    requires |ops| <= |nums|
    requires forall k :: 0 <= k < |ops| ==> InTier(ops[k], t)
    ensures Collapse(t, acc, nums, ops, be) == Flat([Chain(acc, nums, ops, be)] + nums[|ops|..], [])
    decreases |ops|
  {
    if ops != [] {
      assert InTier(ops[0], t);
      ChainFoldsLeft(t, Combine(acc, nums[0], ops[0], be), nums[1..], ops[1..], be);
      assert nums[1..][|ops| - 1..] == nums[|ops|..];
    }
  }

  /** A run of `k` operators of one pass folds to the left wherever it
      stands: the pass goes on from the run's left fold, as at `8/4/2+1` or
      `a^b^c*d`. */
  lemma {:induction false} RunFoldsLeft(t: Tier, acc: Result<real>, nums: seq<Result<real>>, ops: seq<char>, k: nat, be: Backend)
    requires k <= |ops| <= |nums|
    requires forall j :: 0 <= j < k ==> InTier(ops[j], t)
    ensures Collapse(t, acc, nums, ops, be) == Collapse(t, Chain(acc, nums[..k], ops[..k], be), nums[k..], ops[k..], be)
    decreases k
  {
    if k > 0 {
      assert InTier(ops[0], t);
      RunFoldsLeft(t, Combine(acc, nums[0], ops[0], be), nums[1..], ops[1..], k - 1, be);
      assert nums[..k][1..] == nums[1..][..k - 1];
      assert ops[..k][1..] == ops[1..][..k - 1];
      assert nums[1..][k - 1..] == nums[k..];
      assert ops[1..][k - 1..] == ops[k..];
    }
  }

  /** The powers case spelled out for three operands. */
  lemma PowersAssociateLeft(a: Result<real>, b: Result<real>, c: Result<real>, be: Backend)
    ensures Reduce(Power, Flat([a, b, c], ['^', '^']), be)
      == Flat([Combine(Combine(a, b, '^', be), c, '^', be)], [])
  {
    ChainFoldsLeft(Power, a, [b, c], ['^', '^'], be);
  }

  function Sign(op: char): real
  {
    if op == '-' then -1.0 else 1.0
  }

  predicate AllOk(nums: seq<Result<real>>)
  {
    forall k :: 0 <= k < |nums| ==> nums[k].Ok?
  }

  predicate AllSums(ops: seq<char>)
  {
    forall k :: 0 <= k < |ops| ==> ops[k] == '+' || ops[k] == '-'
  }

  /** The sum of the operands after the first, each with the sign of the
      operator before it. */
  function SignedSum(nums: seq<Result<real>>, ops: seq<char>): real
    requires |ops| <= |nums| && AllOk(nums)
    decreases |ops|
  {
    if ops == [] then 0.0 else Sign(ops[0]) * nums[0].value + SignedSum(nums[1..], ops[1..])
  }

  /** Without errors, the last pass adds up the signed operands. */
  lemma {:induction false} AddSubIsSignedSum(a: real, nums: seq<Result<real>>, ops: seq<char>, be: Backend)
    requires |ops| <= |nums| && AllOk(nums) && AllSums(ops)
    ensures AddSub(Ok(a), nums, ops, be) == Ok(a + SignedSum(nums, ops))
    decreases |ops|
  {
    if ops != [] {
      var n := nums[0].value;
      assert SumStep(Ok(a), nums[0], ops[0], be) == Ok(a + Sign(ops[0]) * n);
      AddSubIsSignedSum(a + Sign(ops[0]) * n, nums[1..], ops[1..], be);
    }
  }

  predicate HasError(nums: seq<Result<real>>)
  {
    exists k :: 0 <= k < |nums| && nums[k].Err?
  }

  /** A failed operand never disappears in a folding pass. */
  lemma {:induction false} CollapseKeepsError(t: Tier, acc: Result<real>, nums: seq<Result<real>>, ops: seq<char>, be: Backend)
    requires |ops| == |nums| && HasError([acc] + nums)
    ensures HasError(Collapse(t, acc, nums, ops, be).nums)
    decreases |ops|
  {
    var k :| 0 <= k < |[acc] + nums| && ([acc] + nums)[k].Err?;
    if ops == [] {
    } else if InTier(ops[0], t) {
      var c := Combine(acc, nums[0], ops[0], be);
      if k <= 1 {
        assert c.Err?;
        assert ([c] + nums[1..])[0].Err?;
      } else {
        assert ([c] + nums[1..])[k - 1] == nums[k - 1];
      }
      CollapseKeepsError(t, c, nums[1..], ops[1..], be);
    } else {
      var r := Collapse(t, nums[0], nums[1..], ops[1..], be);
      if k == 0 {
        assert ([acc] + r.nums)[0].Err?;
      } else {
        assert ([nums[0]] + nums[1..])[k - 1] == nums[k - 1];
        CollapseKeepsError(t, nums[0], nums[1..], ops[1..], be);
        var m :| 0 <= m < |r.nums| && r.nums[m].Err?;
        assert ([acc] + r.nums)[m + 1].Err?;
      }
    }
  }

  /** A failed operand makes the last pass fail. */
  lemma {:induction false} AddSubKeepsError(acc: Result<real>, nums: seq<Result<real>>, ops: seq<char>, be: Backend)
    requires |ops| == |nums| && AllSums(ops) && HasError([acc] + nums)
    ensures AddSub(acc, nums, ops, be).Err?
    decreases |ops|
  {
    var k :| 0 <= k < |[acc] + nums| && ([acc] + nums)[k].Err?;
    if ops != [] {
      var c := SumStep(acc, nums[0], ops[0], be);
      if k <= 1 {
        assert c.Err?;
        assert ([c] + nums[1..])[0].Err?;
      } else {
        assert ([c] + nums[1..])[k - 1] == nums[k - 1];
      }
      AddSubKeepsError(c, nums[1..], ops[1..], be);
    }
  }

  /** When operands and operators interleave, an operand that failed (a
      domain error of `ln` or `tan`) makes the whole expression fail. */
  lemma EvalKeepsError(f: Flat, be: Backend)
    requires |f.nums| == |f.ops| + 1
    requires forall k :: 0 <= k < |f.ops| ==> IsBinaryOperator(f.ops[k])
    requires HasError(f.nums)
    ensures EvalSpec(f, be).Err?
  {
    assert [f.nums[0]] + f.nums[1..] == f.nums;
    CollapseKeepsError(Power, f.nums[0], f.nums[1..], f.ops, be);
    var g1 := Reduce(Power, f, be);
    assert [g1.nums[0]] + g1.nums[1..] == g1.nums;
    CollapseKeepsError(Product, g1.nums[0], g1.nums[1..], g1.ops, be);
    var g := Tiers(f, be);
    assert [g.nums[0]] + g.nums[1..] == g.nums;
    TiersLeaveSums(f, be);
    AddSubKeepsError(g.nums[0], g.nums[1..], g.ops, be);
  }

  /** A folding pass brings in no error beyond those of the binary step. */
  lemma {:induction false} CollapseDomainErrors(t: Tier, acc: Result<real>, nums: seq<Result<real>>, ops: seq<char>, be: Backend)
    requires |ops| <= |nums| && DomainErrorsOnly([acc] + nums)
    ensures DomainErrorsOnly(Collapse(t, acc, nums, ops, be).nums)
    decreases |ops|
  {
    if ops != [] {
      assert DomainErrorsOnly([nums[0]] + nums[1..]) by {
        assert [nums[0]] + nums[1..] == ([acc] + nums)[1..];
      }
      if InTier(ops[0], t) {
        var c := Combine(acc, nums[0], ops[0], be);
        assert ([acc] + nums)[0] == acc && ([acc] + nums)[1] == nums[0];
        assert DomainErrorsOnly([c] + nums[1..]) by {
          assert ([c] + nums[1..])[0] == c;
          forall k | 0 < k < |[c] + nums[1..]| ensures ([c] + nums[1..])[k] == ([acc] + nums)[k + 1] { }
        }
        CollapseDomainErrors(t, c, nums[1..], ops[1..], be);
      } else {
        CollapseDomainErrors(t, nums[0], nums[1..], ops[1..], be);
        var r := Collapse(t, nums[0], nums[1..], ops[1..], be);
        assert DomainErrorsOnly([acc] + r.nums) by {
          assert ([acc] + nums)[0] == acc && ([acc] + r.nums)[0] == acc;
          forall k | 0 < k < |[acc] + r.nums| ensures ([acc] + r.nums)[k] == r.nums[k - 1] { }
        }
      }
    }
  }

  /** The last pass brings in no error beyond those of the binary step. */
  lemma {:induction false} AddSubDomainErrors(acc: Result<real>, nums: seq<Result<real>>, ops: seq<char>, be: Backend)
    requires |ops| <= |nums| && DomainErrorsOnly([acc] + nums)
    ensures var r := AddSub(acc, nums, ops, be); r.Err? ==> IsDomainError(r.error)
    decreases |ops|
  {
    assert ([acc] + nums)[0] == acc;
    if ops != [] {
      var c := SumStep(acc, nums[0], ops[0], be);
      assert ([acc] + nums)[1] == nums[0];
      assert DomainErrorsOnly([c] + nums[1..]) by {
        forall k | 0 < k < |[c] + nums[1..]| ensures ([c] + nums[1..])[k] == ([acc] + nums)[k + 1] { }
      }
      AddSubDomainErrors(c, nums[1..], ops[1..], be);
    }
  }

  /** Evaluating reports only errors of single operations. */
  lemma EvalDomainErrors(f: Flat, be: Backend)
    requires |f.ops| < |f.nums| && DomainErrorsOnly(f.nums)
    ensures var r := EvalSpec(f, be); r.Err? ==> IsDomainError(r.error)
  {
    assert [f.nums[0]] + f.nums[1..] == f.nums;
    CollapseDomainErrors(Power, f.nums[0], f.nums[1..], f.ops, be);
    var g1 := Reduce(Power, f, be);
    assert [g1.nums[0]] + g1.nums[1..] == g1.nums;
    CollapseDomainErrors(Product, g1.nums[0], g1.nums[1..], g1.ops, be);
    var g := Tiers(f, be);
    assert [g.nums[0]] + g.nums[1..] == g.nums;
    AddSubDomainErrors(g.nums[0], g.nums[1..], g.ops, be);
  }

  /** How tightly an operator binds: powers, then products and quotients,
      then sums and differences. */
  function Rank(op: char): nat
  {
    if op == '^' then 2 else if op == '*' || op == '/' then 1 else 0
  }

  /** A pass over two operators. */
  lemma CollapseTwo(t: Tier, a: Result<real>, b: Result<real>, c: Result<real>, o1: char, o2: char, be: Backend)
    ensures Collapse(t, a, [b, c], [o1, o2], be)
         == if InTier(o1, t) && InTier(o2, t) then Flat([Combine(Combine(a, b, o1, be), c, o2, be)], [])
            else if InTier(o1, t) then Flat([Combine(a, b, o1, be), c], [o2])
            else if InTier(o2, t) then Flat([a, Combine(b, c, o2, be)], [o1])
            else Flat([a, b, c], [o1, o2])
  {
    assert [b, c][1..] == [c] && [o1, o2][1..] == [o2];
    if InTier(o1, t) {
      CollapseOne(t, Combine(a, b, o1, be), c, o2, be);
    } else {
      CollapseOne(t, b, c, o2, be);
      if InTier(o2, t) {
        assert [a] + [Combine(b, c, o2, be)] == [a, Combine(b, c, o2, be)];
      } else {
        assert [a] + [b, c] == [a, b, c] && [o1] + [o2] == [o1, o2];
      }
    }
  }

  /** A pass over one operator. */
  lemma CollapseOne(t: Tier, a: Result<real>, b: Result<real>, o: char, be: Backend)
    ensures Collapse(t, a, [b], [o], be)
         == if InTier(o, t) then Flat([Combine(a, b, o, be)], []) else Flat([a, b], [o])
  {
    assert [b][1..] == [] && [o][1..] == [];
    assert [a] + [b] == [a, b] && [o] + [] == [o];
  }

  /** The last pass over at most two operators. */
  lemma AddSubTwo(a: Result<real>, b: Result<real>, c: Result<real>, o1: char, o2: char, be: Backend)
    ensures AddSub(a, [b], [o1], be) == SumStep(a, b, o1, be)
    ensures AddSub(a, [b, c], [o1, o2], be) == SumStep(SumStep(a, b, o1, be), c, o2, be)
  {
    assert [c][1..] == [] && [o2][1..] == [] && [b][1..] == [] && [o1][1..] == [];
    assert AddSub(SumStep(a, b, o1, be), [c], [o2], be) == SumStep(SumStep(a, b, o1, be), c, o2, be);
    assert [b, c][1..] == [c] && [o1, o2][1..] == [o2];
  }

  /** Two operands and one binary operator: the binary step. */
  lemma EvalTwo(a: Result<real>, b: Result<real>, o: char, be: Backend)
    requires IsBinaryOperator(o)
    ensures EvalSpec(Flat([a, b], [o]), be) == Combine(a, b, o, be)
  {
    var f := Flat([a, b], [o]);
    assert f.nums[1..] == [b];
    CollapseOne(Power, a, b, o, be);
    var g1 := Reduce(Power, f, be);
    if o != '^' {
      CollapseOne(Product, a, b, o, be);
      var g := Reduce(Product, g1, be);
      if o == '+' || o == '-' {
        assert g.nums[1..] == [b];
        AddSubTwo(a, b, b, o, o, be);
      }
    }
  }

  /** Precedence and grouping on three operands: the second operator is
      applied first exactly when it binds more tightly than the first;
      operators that bind equally group to the left. */
  lemma PrecedenceThree(a: Result<real>, b: Result<real>, c: Result<real>, o1: char, o2: char, be: Backend)
    requires IsBinaryOperator(o1) && IsBinaryOperator(o2)
    ensures EvalSpec(Flat([a, b, c], [o1, o2]), be)
         == if Rank(o2) > Rank(o1) then Combine(a, Combine(b, c, o2, be), o1, be)
            else Combine(Combine(a, b, o1, be), c, o2, be)
  {
    var f := Flat([a, b, c], [o1, o2]);
    assert f.nums[1..] == [b, c];
    CollapseTwo(Power, a, b, c, o1, o2, be);
    var g1 := Reduce(Power, f, be);
    if o1 == '^' && o2 == '^' {
      assert g1 == Flat([Combine(Combine(a, b, o1, be), c, o2, be)], []);
    } else if o1 == '^' {
      var x := Combine(a, b, o1, be);
      assert g1 == Flat([x, c], [o2]);
      assert g1.nums[1..] == [c];
      CollapseOne(Product, x, c, o2, be);
      AddSubTwo(x, c, c, o2, o2, be);
    } else if o2 == '^' {
      var y := Combine(b, c, o2, be);
      assert g1 == Flat([a, y], [o1]);
      assert g1.nums[1..] == [y];
      CollapseOne(Product, a, y, o1, be);
      AddSubTwo(a, y, y, o1, o1, be);
    } else {
      assert g1 == f;
      CollapseTwo(Product, a, b, c, o1, o2, be);
      var g := Reduce(Product, g1, be);
      if InTier(o1, Product) && InTier(o2, Product) {
      } else if InTier(o1, Product) {
        assert g.nums[1..] == [c];
        AddSubTwo(Combine(a, b, o1, be), c, c, o2, o2, be);
      } else if InTier(o2, Product) {
        assert g.nums[1..] == [Combine(b, c, o2, be)];
        AddSubTwo(a, Combine(b, c, o2, be), c, o1, o1, be);
      } else {
        assert g.nums[1..] == [b, c];
        AddSubTwo(a, b, c, o1, o2, be);
      }
    }
  }
}
