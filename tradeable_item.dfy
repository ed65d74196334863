/** The TradeableItem value object: an item that may be traded, named by its
    symbol, with Java's value-object contract (equals, hashCode, toString). */
module TradeableItems {
  import opened Wrappers

  datatype TradeableItem = TradeableItem(symbol: string)

  function GetSymbol(item: TradeableItem): (s: string)
    ensures TradeableItem(s) == item
  {
    item.symbol
  }

  // ---------------------------------------------------------------------
  // equals: Java references, nulls and runtime classes

  /** A reference to a Java object: its identity, its runtime class and, when
      that class is TradeableItem or a subclass, the item's field. */
  datatype Ref = Ref(address: nat, runtimeClass: string, item: TradeableItem)

  datatype JavaObject = Null | Object(ref: Ref)

  /** Two references to the same address are the same object. */
  predicate SameHeap(x: Ref, y: Ref)
  {
    x.address == y.address ==> x == y
  }

  /** `self.equals(o)`: the same reference is equal; null or an object of
      another runtime class is not; otherwise the symbols decide. */
  function Equals(self: Ref, o: JavaObject): (r: bool)
    ensures o == Object(self) ==> r
    ensures o.Null? ==> !r
    ensures r && o.Object? && o.ref.address != self.address ==> o.ref.runtimeClass == self.runtimeClass
  {
    if o.Object? && o.ref.address == self.address then true
    else if o.Null? || self.runtimeClass != o.ref.runtimeClass then false
    else self.item.symbol == o.ref.item.symbol
  }

  lemma EqualsReflexive(x: Ref)
    ensures Equals(x, Object(x))
  {
  }

  lemma NeverEqualsNull(x: Ref)
    ensures !Equals(x, Null)
  {
  }

  /** On a consistent heap, equality is exactly "same runtime class and same
      symbol". */
  lemma EqualsIffSameClassAndSymbol(x: Ref, y: Ref)
    requires SameHeap(x, y)
    ensures Equals(x, Object(y)) <==> x.runtimeClass == y.runtimeClass && x.item == y.item
  {
  }

  lemma EqualsSymmetric(x: Ref, y: Ref)
    requires SameHeap(x, y)
    ensures Equals(x, Object(y)) == Equals(y, Object(x))
  {
  }

  lemma EqualsTransitive(x: Ref, y: Ref, z: Ref)
    requires SameHeap(x, y) && SameHeap(y, z) && SameHeap(x, z)
    requires Equals(x, Object(y)) && Equals(y, Object(z))
    ensures Equals(x, Object(z))
  {
  }

  // ---------------------------------------------------------------------
  // hashCode: the symbol's String hash, in 32-bit two's complement

  const TwoTo32: int := 0x1_0000_0000
  const TwoTo31: int := 0x8000_0000

  /** The 32-bit two's-complement value congruent to `x`. */
  function Wrap32(x: int): (r: int)
    ensures -TwoTo31 <= r < TwoTo31
    ensures (r - x) % TwoTo32 == 0
  {
    var m := x % TwoTo32;
    if m >= TwoTo31 then m - TwoTo32 else m
  }

  /** Java's String hash: h = 31 * h + c over the characters, wrapping at
      32 bits after every step. */
  function StringHash(s: string): (h: int)
    ensures -TwoTo31 <= h < TwoTo31
  {
    if s == [] then 0 else Wrap32(31 * StringHash(s[..|s| - 1]) + s[|s| - 1] as int)
  }

  /** The unbounded polynomial s[0]*31^(n-1) + ... + s[n-1]. */
  function Polynomial(s: string): int
  {
    if s == [] then 0 else 31 * Polynomial(s[..|s| - 1]) + s[|s| - 1] as int
  }

  function HashCode(item: TradeableItem): (h: int)
    ensures -TwoTo31 <= h < TwoTo31
  {
    StringHash(item.symbol)
  }

  /** Multiplying and shifting keep two numbers congruent modulo 2^32. */
  lemma CongruentStep(a: int, b: int, c: int)
    requires (a - b) % TwoTo32 == 0
    ensures ((31 * a + c) - (31 * b + c)) % TwoTo32 == 0
  {
    var k := (a - b) / TwoTo32;
    assert a - b == TwoTo32 * k;
    assert (31 * a + c) - (31 * b + c) == TwoTo32 * (31 * k);
  }

  /** The wrapped hash is the polynomial hash reduced modulo 2^32. */
  lemma {:induction false} StringHashIsPolynomial(s: string)
    ensures (StringHash(s) - Polynomial(s)) % TwoTo32 == 0
  {
    if s != [] {
      var init := s[..|s| - 1];
      var c := s[|s| - 1] as int;
      StringHashIsPolynomial(init);
      CongruentStep(StringHash(init), Polynomial(init), c);
      var x := 31 * StringHash(init) + c;
      var p := 31 * Polynomial(init) + c;
      assert (StringHash(s) - x) % TwoTo32 == 0;
      assert (x - p) % TwoTo32 == 0;
      SumCongruent(StringHash(s) - x, x - p);
    }
  }

  lemma SumCongruent(u: int, v: int)
    requires u % TwoTo32 == 0 && v % TwoTo32 == 0
    ensures (u + v) % TwoTo32 == 0
  {
    assert u == TwoTo32 * (u / TwoTo32);
    assert v == TwoTo32 * (v / TwoTo32);
    assert u + v == TwoTo32 * (u / TwoTo32 + v / TwoTo32);
  }

  /** Equal items have equal hash codes, as the equals/hashCode contract
      requires. */
  lemma EqualsImpliesSameHash(x: Ref, y: Ref)
    requires SameHeap(x, y)
    requires Equals(x, Object(y))
    ensures HashCode(x.item) == HashCode(y.item)
  {
  }

  // ---------------------------------------------------------------------
  // toString

  const Prefix: string := "TradeableItem{symbol='"
  const Suffix: string := "'}"

  function ToString(item: TradeableItem): (r: string)
    ensures |r| == |Prefix| + |item.symbol| + |Suffix|
    ensures r[..|Prefix|] == Prefix && r[|r| - |Suffix|..] == Suffix
  {
    Prefix + item.symbol + Suffix
  }

  /** Reads the symbol back out of a rendering. */
  function ParseToString(s: string): (r: Option<string>)
    ensures r.Some? ==> |r.value| + |Prefix| + |Suffix| == |s|
  {
    if |s| >= |Prefix| + |Suffix| && s[..|Prefix|] == Prefix && s[|s| - |Suffix|..] == Suffix
    then Some(s[|Prefix|..|s| - |Suffix|])
    else None
  }

  lemma ToStringRoundTrip(item: TradeableItem)
    ensures ParseToString(ToString(item)) == Some(item.symbol)
  {
  }

  /** Every string the parser accepts is a rendering of the item it reads. */
  lemma ParseToStringSound(s: string)
    requires ParseToString(s).Some?
    ensures ToString(TradeableItem(ParseToString(s).value)) == s
  {
  }

  /** Different items render differently. */
  lemma ToStringInjective(x: TradeableItem, y: TradeableItem)
    requires ToString(x) == ToString(y)
    ensures x == y
  {
    ToStringRoundTrip(x);
    ToStringRoundTrip(y);
  }
}
