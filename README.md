# Product of array except self, verified

A Dafny model of `productExceptSelfON` from the `algorithm` module of the
repository: given an int array `input` of length n, it returns a new array
whose slot i holds the product of every element of `input` except `input[i]`,
without any division and in two linear passes. The first pass runs right to
left and leaves in each slot the product of the elements after it. The second
pass runs left to right, carries the product of the elements before the
current slot in the scalar `left`, and multiplies it into the slot.

Layout:

- `products.dfy`, module `Products`: the specification. `Product` is the
  product of a sequence. `ProductSkipping` is a brute-force reference: the
  product of every element but the one at a given index. `ExceptSelf` applies
  it at every index. The lemmas prove the prefix-times-suffix decomposition
  the algorithm relies on, and the zero-handling facts.
- `except_self.dfy`, module `ProductOfArrayExceptSelf`: the method
  `ProductExceptSelf` over `array<int>`. It has the source's two loops,
  rendered as `while` loops, with their invariants, and is proved equal to
  `ExceptSelf` of the input. Its twin `ProductExceptSelfWrapping` runs the
  same two passes with every multiplication wrapped to 32 bits, as Java's
  `int` does. Each of its slots is proved to be the exact except-self
  product wrapped to `int` range. The module also holds the one-element case
  and worked examples.
- `java_int.dfy`, module `JavaInt`: Java's 32-bit `int` as arithmetic modulo
  2^32, and the congruence facts the wrapping method needs.

Integers in `Products` and in `ProductExceptSelf` are unbounded. The source's
documentation asks for n > 1. The code itself handles n = 1 and returns
`[1]`. For n = 0 it fails when it writes `result[input.length - 1]`. The model
follows the code: the method requires a non-empty array, and
`ExceptSelfSingle` states the n = 1 answer.

## Model

| member | source | states |
|---|---|---|
| `ProductOfArrayExceptSelf.ProductExceptSelf` | algorithm/src/main/java/com/learning/java/algorithm/arrays/ProductOfArrayExceptSelf.java:24-39 | For any non-empty input, returns a freshly allocated array of the same length whose contents are `ExceptSelf` of the input: each slot is the product of all other elements. The input is left unchanged. The first loop's invariant says each visited slot holds its suffix product. The second loop's invariant says `left` is the prefix product, slots before i are final, and slots from i on still hold their suffix product. |
| `ProductOfArrayExceptSelf.ProductExceptSelfWrapping` | algorithm/src/main/java/com/learning/java/algorithm/arrays/ProductOfArrayExceptSelf.java:24-39 | The same two passes in Java `int` arithmetic, on a non-empty input of `int` values. Returns a fresh array of the same length in which slot k is `Wrap(ExceptSelf(input)[k])`: the exact except-self product reduced to `int` range modulo 2^32. The input is left unchanged. The loop invariants are the wrapped suffix and prefix products. |
| `Products.SuffixStep` | algorithm/src/main/java/com/learning/java/algorithm/arrays/ProductOfArrayExceptSelf.java:29 | The suffix product after i is `input[i + 1]` times the suffix product after i + 1: the update of line 29. |
| `Products.PrefixStep` | algorithm/src/main/java/com/learning/java/algorithm/arrays/ProductOfArrayExceptSelf.java:34-35 | The stored suffix product times the running prefix product is the final slot value (line 34), and the running product extended by `input[i]` is the next prefix product (line 35). |
| `Products.ExceptSelf` | algorithm/src/main/java/com/learning/java/algorithm/arrays/ProductOfArrayExceptSelf.java:6-7 | The except-self product has one slot per input element (the output is index-aligned with the input). |
| `Products.ProductAppend` | algorithm/src/main/java/com/learning/java/algorithm/arrays/ProductOfArrayExceptSelf.java:27-36 | The product of a concatenation is the product of the products of its parts. Splitting into prefix and suffix products rests on this. |
| `Products.ProductSnoc` | algorithm/src/main/java/com/learning/java/algorithm/arrays/ProductOfArrayExceptSelf.java:35 | Extending a prefix by one element multiplies its product by that element (the update of `left`). |
| `Products.ProductSkippingNone` | algorithm/src/main/java/com/learning/java/algorithm/arrays/ProductOfArrayExceptSelf.java:6-7 | Skipping an index outside the sequence gives the plain product. |
| `Products.ProductSkippingSplit` | algorithm/src/main/java/com/learning/java/algorithm/arrays/ProductOfArrayExceptSelf.java:27-36 | The product of all elements but the one at i equals the product of the elements before i times the product of those after i. This is what the two passes compute. |
| `Products.ExceptSelfAt` | algorithm/src/main/java/com/learning/java/algorithm/arrays/ProductOfArrayExceptSelf.java:34 | Slot i of `ExceptSelf` is prefix product times suffix product: the value the second pass stores. |
| `Products.ProductAround` | algorithm/src/main/java/com/learning/java/algorithm/arrays/ProductOfArrayExceptSelf.java:6-7 | The product of a sequence with one element singled out is the product of the rest times that element. |
| `Products.ExceptSelfTimesSelf` | algorithm/src/main/java/com/learning/java/algorithm/arrays/ProductOfArrayExceptSelf.java:6-9 | Multiplying slot i back by `input[i]` gives the product of the whole input. |
| `Products.ProductZero` | algorithm/src/main/java/com/learning/java/algorithm/arrays/ProductOfArrayExceptSelf.java:29 | A product is zero if and only if one of its factors is zero. |
| `Products.ExceptSelfZero` | algorithm/src/main/java/com/learning/java/algorithm/arrays/ProductOfArrayExceptSelf.java:6-7 | Slot i is zero if and only if some element other than `input[i]` is zero. Zeros need no special case. |
| `Products.ExceptSelfTwoZeros` | algorithm/src/main/java/com/learning/java/algorithm/arrays/ProductOfArrayExceptSelf.java:6-7 | With two or more zero elements, every slot is zero. |
| `Products.ExceptSelfOneZero` | algorithm/src/main/java/com/learning/java/algorithm/arrays/ProductOfArrayExceptSelf.java:6-7 | With exactly one zero element, every other slot is zero and the zero's own slot is non-zero. |
| `ProductOfArrayExceptSelf.ExceptSelfSingle` | algorithm/src/main/java/com/learning/java/algorithm/arrays/ProductOfArrayExceptSelf.java:27 | A one-element input yields `[1]`, the empty product stored by the first write. |
| `ProductOfArrayExceptSelf.ExampleOneToFour` | algorithm/src/main/java/com/learning/java/algorithm/arrays/ProductOfArrayExceptSelf.java:11 | `[1,2,3,4]` yields `[24,12,8,6]`. This is the documented example and the input used by `main` (lines 17-19). |
| `ProductOfArrayExceptSelf.ExampleZeros` | algorithm/src/main/java/com/learning/java/algorithm/arrays/ProductOfArrayExceptSelf.java:6-7 | `[0,0]` yields `[0,0]`. |
| `ProductOfArrayExceptSelf.ExampleSigns` | algorithm/src/main/java/com/learning/java/algorithm/arrays/ProductOfArrayExceptSelf.java:6-7 | `[-1,2,-3]` yields `[-6,3,-2]`: signs are preserved. |
| `JavaInt.Wrap` | algorithm/src/main/java/com/learning/java/algorithm/arrays/ProductOfArrayExceptSelf.java:29 | The int value of an overflowing product lies in int range and is congruent to the exact value modulo 2^32. |
| `JavaInt.WrapUnique` | algorithm/src/main/java/com/learning/java/algorithm/arrays/ProductOfArrayExceptSelf.java:29 | At most one int-range value is congruent to a given integer modulo 2^32. |
| `JavaInt.CongruentTrans` | algorithm/src/main/java/com/learning/java/algorithm/arrays/ProductOfArrayExceptSelf.java:29 | Congruence modulo 2^32 is transitive. |
| `JavaInt.MulCongruent` | algorithm/src/main/java/com/learning/java/algorithm/arrays/ProductOfArrayExceptSelf.java:29 | Factors congruent modulo 2^32 give congruent products. |
| `JavaInt.WrapMul` | algorithm/src/main/java/com/learning/java/algorithm/arrays/ProductOfArrayExceptSelf.java:34-35 | Multiplying two wrapped ints and wrapping gives the wrapped exact product. |
| `JavaInt.WrapMulInt` | algorithm/src/main/java/com/learning/java/algorithm/arrays/ProductOfArrayExceptSelf.java:29-35 | Multiplying a wrapped running product by an `int` element and wrapping gives the wrapped exact product: the step of both loops. |
| `JavaInt.IntProduct` | algorithm/src/main/java/com/learning/java/algorithm/arrays/ProductOfArrayExceptSelf.java:28-30 | The suffix product as the suffix pass forms it, one wrapping multiplication per element from the right, always lies in `int` range. |
| `JavaInt.IntProductWraps` | algorithm/src/main/java/com/learning/java/algorithm/arrays/ProductOfArrayExceptSelf.java:28-30 | For int elements, a product computed with a wrap after every multiplication equals the wrapped exact product. |
| `JavaInt.WrappedSlot` | algorithm/src/main/java/com/learning/java/algorithm/arrays/ProductOfArrayExceptSelf.java:34 | Multiplying a wrapped suffix product by a wrapped prefix product, with wrapping, gives the exact except-self product modulo 2^32. |
| `JavaInt.WrappedZeroWithoutZeroFactor` | algorithm/src/main/java/com/learning/java/algorithm/arrays/ProductOfArrayExceptSelf.java:29 | For `[0, 65536, 65536]` the exact slot 0 is 2^32, and it wraps to 0. So in `int` arithmetic a slot can be 0 although no other element is 0. |

## Left out

- ProductExceptSelf: does not model 32-bit wrap-around; its multiplications are over unbounded integers. `ProductExceptSelfWrapping` is the same algorithm in `int` arithmetic. It is proved to return, slot by slot, the wrapped value of what `ProductExceptSelf` returns.
- ProductZero, ExceptSelfZero, ExceptSelfOneZero: hold over unbounded integers only. In Java `int` arithmetic, a product of non-zero factors can wrap to 0. On `[0, 65536, 65536]`, line 29 stores 65536 * 65536 = 0 in slot 0, so the Java result is `[0, 0, 0]`, although `ExceptSelfOneZero` says slot 0 is non-zero. `WrappedZeroWithoutZeroFactor` proves this case.
- ProductExceptSelf, ProductExceptSelfWrapping: require a non-empty input. For an empty array the source raises an index-out-of-bounds exception at its first write, and that exception path is not modelled.
- A null input array, for which the source raises a null-pointer exception when it reads `input.length`, cannot be expressed: a Dafny `array<int>` is never null.
- `main` (lines 15-22): it measures elapsed time with the system clock and prints to the console. This is I/O and is not modelled.
- No separate purity or determinism property is stated: a Dafny method without a `modifies` clause cannot change the input or any other state.
- The database integration tests and the reactive HTTP controller elsewhere in the repository are framework code with no algorithm. They are not part of this model.
