/** The mathematical side of "product of array except self": the product of a
    sequence of integers, the product of every element but one, and the facts
    about them that the two-pass algorithm relies on. Integers are unbounded
    here; the 32-bit view is in module JavaInt. */
module Products {

  /** Product of all elements of s; the empty product is 1. */
  function Product(s: seq<int>): int
    decreases |s|
  {
    if s == [] then 1 else s[0] * Product(s[1..])
  }

  /** Reference definition by brute force: the product of every s[j] with
      j != skip, one element at a time. An index outside s skips nothing. */
  function ProductSkipping(s: seq<int>, skip: int): int
    decreases |s|
  {
    if s == [] then 1
    else (if skip == 0 then 1 else s[0]) * ProductSkipping(s[1..], skip - 1)
  }

  /** The except-self product of s: position i holds the product of all
      elements of s except s[i]. */
  function ExceptSelf(s: seq<int>): (r: seq<int>)
    ensures |r| == |s|
  {
    seq(|s|, i requires 0 <= i < |s| => ProductSkipping(s, i))
  }

  /** Multiplication distributes over concatenation. */
  lemma {:induction false} ProductAppend(s: seq<int>, t: seq<int>)
    ensures Product(s + t) == Product(s) * Product(t)
  {
    if s == [] {
      assert s + t == t;
    } else {
      assert (s + t)[1..] == s[1..] + t;
      ProductAppend(s[1..], t);
    }
  }

  /** Peeling the last element off: the step the suffix and prefix passes take. */
  lemma ProductSnoc(s: seq<int>, x: int)
    ensures Product(s + [x]) == Product(s) * x
  {
    ProductAppend(s, [x]);
    assert [x][1..] == [];
  }

  /** Skipping an index outside s is the plain product. */
  lemma {:induction false} ProductSkippingNone(s: seq<int>, skip: int)
    requires skip < 0 || skip >= |s|
    ensures ProductSkipping(s, skip) == Product(s)
  {
    if s != [] {
      ProductSkippingNone(s[1..], skip - 1);
    }
  }

  /** The product of everything except s[i] splits into the product of the
      prefix before i and the suffix after i: the decomposition the two
      passes compute. */
  lemma {:induction false} ProductSkippingSplit(s: seq<int>, i: int)
    requires 0 <= i < |s|
    ensures ProductSkipping(s, i) == Product(s[..i]) * Product(s[i + 1..])
  {
    if i == 0 {
      assert s[1..] == s[i + 1..];
      assert s[..i] == [];
      ProductSkippingNone(s[1..], -1);
    } else {
      ProductSkippingSplit(s[1..], i - 1);
      assert s[1..][..i - 1] == s[1..i];
      assert s[1..][i..] == s[i + 1..];
      assert s[..i][1..] == s[1..i];
      var b, c := Product(s[1..i]), Product(s[i + 1..]);
      assert ProductSkipping(s, i) == s[0] * (b * c);
      assert Product(s[..i]) == s[0] * b;
      MulAssoc(s[0], b, c);
    }
  }

  /** ExceptSelf, position by position, as prefix product times suffix product. */
  lemma ExceptSelfAt(s: seq<int>, i: int)
    requires 0 <= i < |s|
    ensures ExceptSelf(s)[i] == Product(s[..i]) * Product(s[i + 1..])
  {
    ProductSkippingSplit(s, i);
  }

  /** One step of the suffix pass: the product of the elements after i is
      input[i + 1] times the product of the elements after i + 1. */
  lemma SuffixStep(s: seq<int>, i: int)
    requires 0 <= i < |s| - 1
    ensures Product(s[i + 2..]) * s[i + 1] == Product(s[i + 1..])
  {
    assert s[i + 1..] == [s[i + 1]] + s[i + 2..];
  }

  /** One step of the prefix pass: the suffix product times the running
      prefix product is the final value of slot i, and the running product
      extended by s[i] is the product of the elements up to and with i. */
  lemma PrefixStep(s: seq<int>, i: int)
    requires 0 <= i < |s|
    ensures Product(s[i + 1..]) * Product(s[..i]) == ExceptSelf(s)[i]
    ensures Product(s[..i]) * s[i] == Product(s[..i + 1])
  {
    ExceptSelfAt(s, i);
    MulComm(Product(s[..i]), Product(s[i + 1..]));
    assert s[..i + 1] == s[..i] + [s[i]];
    ProductSnoc(s[..i], s[i]);
  }

  /** Associativity, stated apart so that it is used on opaque values. */
  lemma MulAssoc(a: int, b: int, c: int)
    ensures a * (b * c) == (a * b) * c
  {
  }

  /** Commutativity, stated apart so that it is used on two opaque values. */
  lemma MulComm(a: int, b: int)
    ensures a * b == b * a
  {
  }

  /** The product of a sequence with one element singled out. */
  lemma ProductAround(pre: seq<int>, x: int, suf: seq<int>)
    ensures Product(pre + [x] + suf) == (Product(pre) * Product(suf)) * x
  {
    ProductAppend(pre + [x], suf);
    ProductSnoc(pre, x);
    MulSwap(Product(pre), x, Product(suf));
  }

  /** Reordering three factors; the arithmetic step of ProductAround. */
  lemma MulSwap(a: int, b: int, c: int)
    ensures (a * b) * c == (a * c) * b
  {
  }

  /** ProductAround at index i of s. */
  lemma ProductAroundAt(s: seq<int>, i: int)
    requires 0 <= i < |s|
    ensures Product(s) == (Product(s[..i]) * Product(s[i + 1..])) * s[i]
  {
    assert s == s[..i] + [s[i]] + s[i + 1..];
    ProductAround(s[..i], s[i], s[i + 1..]);
  }

  /** Putting the skipped element back gives the product of the whole
      sequence (the identity a division-based variant would rely on). */
  lemma ExceptSelfTimesSelf(s: seq<int>, i: int)
    requires 0 <= i < |s|
    ensures ExceptSelf(s)[i] * s[i] == Product(s)
  {
    var p, q := Product(s[..i]), Product(s[i + 1..]);
    ProductAroundAt(s, i);
    ExceptSelfAt(s, i);
    assert Product(s) == (p * q) * s[i];
  }

  /** A product is zero exactly when one of its factors is zero. */
  lemma {:induction false} ProductZero(s: seq<int>)
    ensures Product(s) == 0 <==> exists k :: 0 <= k < |s| && s[k] == 0
  {
    if s != [] {
      ProductZero(s[1..]);
      if exists k :: 0 <= k < |s[1..]| && s[1..][k] == 0 {
        var k :| 0 <= k < |s[1..]| && s[1..][k] == 0;
        assert s[k + 1] == 0;
      }
      if exists k :: 0 <= k < |s| && s[k] == 0 {
        var k :| 0 <= k < |s| && s[k] == 0;
        if k > 0 {
          assert s[1..][k - 1] == 0;
        }
      }
    }
  }

  /** Zero handling, no special case needed: an except-self product is zero
      exactly when some element other than the skipped one is zero. */
  lemma ExceptSelfZero(s: seq<int>, i: int)
    requires 0 <= i < |s|
    ensures ExceptSelf(s)[i] == 0 <==> exists k :: 0 <= k < |s| && k != i && s[k] == 0
  {
    ExceptSelfAt(s, i);
    var pre, suf := s[..i], s[i + 1..];
    ProductZero(pre);
    ProductZero(suf);
    if exists k :: 0 <= k < |s| && k != i && s[k] == 0 {
      var k :| 0 <= k < |s| && k != i && s[k] == 0;
      if k < i {
        assert pre[k] == 0;
      } else {
        assert suf[k - i - 1] == 0;
      }
    }
    if exists k :: 0 <= k < |pre| && pre[k] == 0 {
      var k :| 0 <= k < |pre| && pre[k] == 0;
      assert s[k] == 0;
    }
    if exists k :: 0 <= k < |suf| && suf[k] == 0 {
      var k :| 0 <= k < |suf| && suf[k] == 0;
      assert s[i + 1 + k] == 0;
    }
  }

  /** With two or more zero elements, every position of the result is zero. */
  lemma ExceptSelfTwoZeros(s: seq<int>, z1: int, z2: int)
    requires 0 <= z1 < z2 < |s| && s[z1] == 0 && s[z2] == 0
    ensures forall i :: 0 <= i < |s| ==> ExceptSelf(s)[i] == 0
  {
    forall i | 0 <= i < |s|
      ensures ExceptSelf(s)[i] == 0
    {
      ExceptSelfZero(s, i);
      if i == z1 {
        assert z2 != i && s[z2] == 0;
      } else {
        assert z1 != i && s[z1] == 0;
      }
    }
  }

  /** With exactly one zero element, at z, every other position is zero and
      position z holds the non-zero product of the remaining elements. */
  lemma ExceptSelfOneZero(s: seq<int>, z: int)
    requires 0 <= z < |s| && s[z] == 0
    requires forall k :: 0 <= k < |s| && k != z ==> s[k] != 0
    ensures forall i :: 0 <= i < |s| && i != z ==> ExceptSelf(s)[i] == 0
    ensures ExceptSelf(s)[z] != 0
  {
    forall i | 0 <= i < |s| && i != z
      ensures ExceptSelf(s)[i] == 0
    {
      ExceptSelfZero(s, i);
    }
    ExceptSelfZero(s, z);
  }
}
