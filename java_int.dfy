/** Java's 32-bit two's-complement int, as arithmetic modulo 2^32. Module
    Products states the algorithm over unbounded integers; the lemmas here
    show that wrapping after every multiplication, as the JVM does, yields
    the wrapped value of the unbounded result. */
module JavaInt {
  import opened Products

  const Modulus: int := 0x1_0000_0000
  const MinInt: int := -0x8000_0000
  const MaxInt: int := 0x7FFF_FFFF

  predicate IsInt(x: int) {
    MinInt <= x <= MaxInt
  }

  /** The Java int that x denotes after overflow: the unique value in int
      range congruent to x modulo 2^32. */
  function Wrap(x: int): (r: int)
    ensures IsInt(r)
    ensures (x - r) % Modulus == 0
  {
    var m := (x - MinInt) % Modulus;
    assert x - (m + MinInt) == Modulus * ((x - MinInt) / Modulus);
    m + MinInt
  }

  /** Two ints in range that agree modulo 2^32 are equal. */
  lemma WrapUnique(x: int, r1: int, r2: int)
    requires IsInt(r1) && IsInt(r2)
    requires (x - r1) % Modulus == 0 && (x - r2) % Modulus == 0
    ensures r1 == r2
  {
    var q1, q2 := (x - r1) / Modulus, (x - r2) / Modulus;
    assert r2 - r1 == Modulus * (q1 - q2);
  }

  /** Congruence modulo 2^32 is transitive. */
  lemma CongruentTrans(x: int, y: int, z: int)
    requires (x - y) % Modulus == 0 && (y - z) % Modulus == 0
    ensures (x - z) % Modulus == 0
  {
    var q1, q2 := (x - y) / Modulus, (y - z) / Modulus;
    assert x - z == Modulus * (q1 + q2);
  }

  /** Congruent factors give congruent products. */
  lemma MulCongruent(a: int, b: int, ra: int, rb: int)
    requires (a - ra) % Modulus == 0 && (b - rb) % Modulus == 0
    ensures (a * b - ra * rb) % Modulus == 0
  {
    var qa, qb := (a - ra) / Modulus, (b - rb) / Modulus;
    assert a == ra + Modulus * qa;
    assert b == rb + Modulus * qb;
    assert a * b - ra * rb == Modulus * (ra * qb + qa * rb + Modulus * qa * qb);
  }

  /** Wrapping is invisible to a later wrap of a product: Java's int
      multiplication agrees with wrapping the exact product. */
  lemma WrapMul(a: int, b: int)
    ensures Wrap(Wrap(a) * Wrap(b)) == Wrap(a * b)
  {
    var ra, rb := Wrap(a), Wrap(b);
    MulCongruent(a, b, ra, rb);
    var r := Wrap(ra * rb);
    CongruentTrans(a * b, ra * rb, r);
    WrapUnique(a * b, r, Wrap(a * b));
  }

  /** An int multiplication of a wrapped running product by an int factor:
      the step of both passes. */
  lemma WrapMulInt(a: int, b: int)
    requires IsInt(b)
    ensures Wrap(Wrap(a) * b) == Wrap(a * b)
  {
    WrapMul(a, b);
    WrapUnique(b, b, Wrap(b));
  }

  /** The product as the JVM computes it in the suffix pass, one wrapping
      multiplication per element, from the right. */
  function IntProduct(s: seq<int>): (r: int)
    ensures IsInt(r)
    decreases |s|
  {
    if s == [] then 1 else Wrap(s[0] * IntProduct(s[1..]))
  }

  /** For int elements, that wrapped product is the wrapped exact product. */
  lemma {:induction false} IntProductWraps(s: seq<int>)
    requires forall k :: 0 <= k < |s| ==> IsInt(s[k])
    ensures IntProduct(s) == Wrap(Product(s))
  {
    if s != [] {
      IntProductWraps(s[1..]);
      var p := Product(s[1..]);
      MulComm(s[0], p);
      MulComm(s[0], Wrap(p));
      WrapMulInt(p, s[0]);
    }
  }

  /** The last multiplication of the prefix pass, in int arithmetic, on a
      suffix product and a prefix product that have each wrapped: the slot
      still ends up as the exact except-self product modulo 2^32. */
  lemma WrappedSlot(s: seq<int>, i: int)
    requires 0 <= i < |s|
    ensures Wrap(Wrap(Product(s[i + 1..])) * Wrap(Product(s[..i]))) == Wrap(ExceptSelf(s)[i])
  {
    PrefixStep(s, i);
    WrapMul(Product(s[i + 1..]), Product(s[..i]));
  }

  /** Under wrap-around a slot can be 0 although no other element is 0: for
      [0, 65536, 65536] the exact slot 0 is 2^32, which wraps to 0. So the
      zero lemmas of module Products hold for unbounded integers only. */
  lemma WrappedZeroWithoutZeroFactor()
    ensures ExceptSelf([0, 65536, 65536])[0] == Modulus
    ensures Wrap(ExceptSelf([0, 65536, 65536])[0]) == 0
  {
    var s := [0, 65536, 65536];
    ExceptSelfAt(s, 0);
    assert s[1..][1..][1..] == [];
    WrapUnique(Modulus, 0, Wrap(Modulus));
  }
}
