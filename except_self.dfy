/** The two-pass, division-free except-self product over an int array, and
    the worked examples that accompany it. */
module ProductOfArrayExceptSelf {
  import opened Products
  import opened JavaInt

  /** Returns a new array whose slot i holds the product of every element of
      input except input[i]. A right-to-left pass leaves the product of the
      elements after each slot in that slot; a left-to-right pass then
      multiplies in a running product of the elements before it. The input
      must not be empty: the first pass writes slot input.Length - 1. */
  method ProductExceptSelf(input: array<int>) returns (result: array<int>)
    requires input.Length > 0
    ensures fresh(result)
    ensures result.Length == input.Length
    ensures result[..] == ExceptSelf(input[..])
    ensures input[..] == old(input[..])
  {
    var n := input.Length;
    ghost var s := input[..];
    result := new int[n];

    // Suffix pass: result[k] becomes the product of the elements after k.
    result[n - 1] := 1;
    var i := n - 2;
    while i >= 0
      invariant -1 <= i <= n - 2
      invariant forall k :: i < k < n ==> result[k] == Product(s[k + 1..])
      decreases i + 1
    {
      SuffixStep(s, i);
      result[i] := result[i + 1] * input[i + 1];
      i := i - 1;
    }

    ghost var want := ExceptSelf(s);
    // Prefix pass: left is the product of the elements before i; the slots
    // before i hold their final value, the others still their suffix product.
    var left := 1;
    i := 0;
    while i < n
      invariant 0 <= i <= n
      invariant left == Product(s[..i])
      invariant forall k :: 0 <= k < i ==> result[k] == want[k]
      invariant forall k :: i <= k < n ==> result[k] == Product(s[k + 1..])
    {
      PrefixStep(s, i);
      result[i] := result[i] * left;
      left := left * input[i];
      i := i + 1;
    }
    assert result[..] == want;
  }

  /** The same two passes in Java int arithmetic: every multiplication
      wraps modulo 2^32. Each slot of the result is the exact except-self
      product of the input, wrapped to int range. */
  method ProductExceptSelfWrapping(input: array<int>) returns (result: array<int>)
    requires input.Length > 0
    requires forall k :: 0 <= k < input.Length ==> IsInt(input[k])
    ensures fresh(result)
    ensures result.Length == input.Length
    ensures forall k :: 0 <= k < result.Length ==> result[k] == Wrap(ExceptSelf(input[..])[k])
    ensures input[..] == old(input[..])
  {
    var n := input.Length;
    ghost var s := input[..];
    result := new int[n];

    result[n - 1] := 1;
    assert s[n..] == [];
    WrapUnique(1, 1, Wrap(1));
    var i := n - 2;
    while i >= 0
      invariant -1 <= i <= n - 2
      invariant forall k :: i < k < n ==> result[k] == Wrap(Product(s[k + 1..]))
      decreases i + 1
    {
      SuffixStep(s, i);
      WrapMulInt(Product(s[i + 2..]), s[i + 1]);
      result[i] := Wrap(result[i + 1] * input[i + 1]);
      i := i - 1;
    }

    ghost var want := ExceptSelf(s);
    var left := 1;
    i := 0;
    while i < n
      invariant 0 <= i <= n
      invariant left == Wrap(Product(s[..i]))
      invariant forall k :: 0 <= k < i ==> result[k] == Wrap(want[k])
      invariant forall k :: i <= k < n ==> result[k] == Wrap(Product(s[k + 1..]))
    {
      WrappedSlot(s, i);
      PrefixStep(s, i);
      WrapMulInt(Product(s[..i]), s[i]);
      result[i] := Wrap(result[i] * left);
      assert result[i] == Wrap(want[i]);
      left := Wrap(left * input[i]);
      i := i + 1;
    }
  }

  /** A single element: nothing else to multiply, so the answer is [1]. */
  lemma ExceptSelfSingle(x: int)
    ensures ExceptSelf([x]) == [1]
  {
    ExceptSelfAt([x], 0);
    assert [x][..0] == [] && [x][1..] == [];
  }

  /** The example of the documentation: [1,2,3,4] yields [24,12,8,6]. */
  lemma ExampleOneToFour()
    ensures ExceptSelf([1, 2, 3, 4]) == [24, 12, 8, 6]
  {
    var s := [1, 2, 3, 4];
    ExceptSelfAt(s, 0);
    ExceptSelfAt(s, 1);
    ExceptSelfAt(s, 2);
    ExceptSelfAt(s, 3);
  }

  /** Two zeros: every slot is zero. */
  lemma ExampleZeros()
    ensures ExceptSelf([0, 0]) == [0, 0]
  {
    ExceptSelfTwoZeros([0, 0], 0, 1);
  }

  /** Signs are kept: [-1,2,-3] yields [-6,3,-2]. */
  lemma ExampleSigns()
    ensures ExceptSelf([-1, 2, -3]) == [-6, 3, -2]
  {
    var s := [-1, 2, -3];
    ExceptSelfAt(s, 0);
    ExceptSelfAt(s, 1);
    ExceptSelfAt(s, 2);
  }
}
