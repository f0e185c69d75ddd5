/**
 Event ids: a 64-bit FNV-1a hash of the aggregate id (section 2 of draft-eastlake-fnv) is the
 sequence part, the second of the event the time part.
*/
module EventIds {
  import opened Wrappers
  import Decimal
  import EventKeys

  const TWO_64 := 0x1_0000_0000_0000_0000
  const OFFSET_BASIS: U64 := 0xcbf2_9ce4_8422_2325
  const PRIME := 0x0000_0100_0000_01b3
  const PRIME_INVERSE := 0xce96_5057_aff6_957b

  type U64 = n: int | 0 <= n < 0x1_0000_0000_0000_0000
  type Byte = n: int | 0 <= n < 256
  type Bytes = seq<Byte>

  /** Bitwise exclusive or. */
  function Xor(a: nat, b: nat): nat
    decreases a + b
  {
    if a == 0 && b == 0 then 0 else 2 * Xor(a / 2, b / 2) + (a % 2 + b % 2) % 2
  }

  function WrappingMul(a: U64, b: int): U64 {
    (a * b) % TWO_64
  }

  function Xor64(a: U64, b: Byte): (x: U64) {
    PowersOfTwo();
    XorBelow(a, b, 64);
    Xor(a, b)
  }

  /** One byte: exclusive or, then times the 64-bit FNV prime, modulo 2^64. */
  function Absorb(hash: U64, byte: Byte): U64 {
    WrappingMul(Xor64(hash, byte), PRIME)
  }

  /** The hash of `id` started from any state. */
  function HashFrom(state: U64, id: Bytes): U64
    decreases |id|
  {
    if id == [] then state else HashFrom(Absorb(state, id[0]), id[1..])
  }

  function SeqSeed(aggregateId: Bytes): U64 {
    HashFrom(OFFSET_BASIS, aggregateId)
  }

  method SeqForAggregate(aggregateId: Bytes) returns (hash: U64)
    ensures hash == SeqSeed(aggregateId)
  {
    hash := OFFSET_BASIS;
    for i := 0 to |aggregateId|
      invariant HashFrom(hash, aggregateId[i..]) == SeqSeed(aggregateId)
    {
      assert aggregateId[i..][1..] == aggregateId[i + 1..];
      hash := Xor64(hash, aggregateId[i]);
      hash := WrappingMul(hash, PRIME);
    }
    assert aggregateId[|aggregateId|..] == [];
  }

  // ----- exclusive or

  function Pow2(n: nat): (p: nat)
    ensures p > 0
  {
    if n == 0 then 1 else 2 * Pow2(n - 1)
  }

  lemma PowersOfTwo()
    ensures Pow2(64) == TWO_64 && Pow2(8) == 256
  {
    assert Pow2(8) == 256 && Pow2(16) == 0x1_0000 && Pow2(24) == 0x100_0000 && Pow2(32) == 0x1_0000_0000;
    assert Pow2(40) == 0x100_0000_0000 && Pow2(48) == 0x1_0000_0000_0000 && Pow2(56) == 0x100_0000_0000_0000;
  }

  lemma {:induction false} XorBelow(a: nat, b: nat, n: nat)
    requires a < Pow2(n) && b < Pow2(n)
    ensures Xor(a, b) < Pow2(n)
    decreases n
  {
    if n > 0 {
      XorBelow(a / 2, b / 2, n - 1);
    }
  }

  lemma HalvesAndBit(q: nat, bit: nat)
    requires bit < 2
    ensures (2 * q + bit) / 2 == q && (2 * q + bit) % 2 == bit
  {
  }

  lemma BitTwice(a: nat, b: nat)
    ensures ((a % 2 + b % 2) % 2 + b % 2) % 2 == a % 2
  {
  }

  lemma {:induction false} XorTwice(a: nat, b: nat)
    ensures Xor(Xor(a, b), b) == a
    decreases a + b
  {
    if a != 0 || b != 0 {
      XorTwice(a / 2, b / 2);
      var q, bit := Xor(a / 2, b / 2), (a % 2 + b % 2) % 2;
      HalvesAndBit(q, bit);
      BitTwice(a, b);
      assert Xor(2 * q + bit, b) == 2 * Xor(q, b / 2) + (bit + b % 2) % 2;
    }
  }

  lemma {:induction false} XorCommutes(a: nat, b: nat)
    ensures Xor(a, b) == Xor(b, a)
    decreases a + b
  {
    if a != 0 || b != 0 {
      XorCommutes(a / 2, b / 2);
    }
  }

  lemma {:induction false} XorZero(a: nat)
    ensures Xor(a, 0) == a
  {
    if a != 0 {
      XorZero(a / 2);
    }
  }

  lemma HalfOfSum(q: nat, p: nat, r: nat)
    ensures (q * (2 * p) + r) / 2 == q * p + r / 2 && (q * (2 * p) + r) % 2 == r % 2
  {
    assert q * (2 * p) == 2 * (q * p);
  }

  lemma {:induction false} XorKeepsHighBits(q: nat, r: nat, b: nat, n: nat)
    requires r < Pow2(n) && b < Pow2(n)
    ensures Xor(q * Pow2(n) + r, b) == q * Pow2(n) + Xor(r, b)
    decreases n
  {
    if n == 0 {
      XorZero(q);
    } else {
      HalfOfSum(q, Pow2(n - 1), r);
      XorKeepsHighBits(q, r / 2, b / 2, n - 1);
      assert q * Pow2(n) == 2 * (q * Pow2(n - 1));
    }
  }

  function Bit(a: nat, i: nat): nat {
    (a / Pow2(i)) % 2
  }

  lemma HalfBit(a: nat, i: nat)
    requires i > 0
    ensures Bit(a, i) == Bit(a / 2, i - 1)
  {
    var p := Pow2(i - 1);
    assert a / (2 * p) == a / 2 / p by {
      EventKeys.QuotientUnique(a, 2 * p, a / 2 / p, 2 * (a / 2 % p) + a % 2);
    }
  }

  /** Bit by bit: set where exactly one of the two is. */
  lemma {:induction false} XorBits(a: nat, b: nat, i: nat)
    ensures Bit(Xor(a, b), i) == 1 <==> Bit(a, i) != Bit(b, i)
    decreases i
  {
    var q, bit := Xor(a / 2, b / 2), (a % 2 + b % 2) % 2;
    assert Xor(a, b) == 2 * q + bit;
    HalvesAndBit(q, bit);
    if i > 0 {
      HalfBit(a, i);
      HalfBit(b, i);
      HalfBit(Xor(a, b), i);
      XorBits(a / 2, b / 2, i - 1);
    }
  }

  /**
   The seed of one byte, for every byte: the byte against the low end of the 64-bit offset basis,
   then times the prime.
  */
  lemma SeedOfOneByte(b: Byte)
    ensures SeqSeed([b]) == (0xcbf2_9ce4_8422_2300 + Xor(0x25, b)) * 0x100_0000_01b3 % 0x1_0000_0000_0000_0000
    ensures SeqSeed([]) == 0xcbf2_9ce4_8422_2325
  {
    PowersOfTwo();
    XorKeepsHighBits(0xcb_f29c_e484_2223, 0x25, b, 8);
    assert HashFrom(OFFSET_BASIS, [b]) == Absorb(OFFSET_BASIS, b);
  }

  // ----- every step can be undone

  /** The other way: times the inverse of the prime modulo 2^64, then exclusive or. */
  function Emit(hash: U64, byte: Byte): U64 {
    Xor64(WrappingMul(hash, PRIME_INVERSE), byte)
  }

  lemma TimesPrimeInverse(x: U64)
    ensures WrappingMul(WrappingMul(x, PRIME), PRIME_INVERSE) == x
    ensures WrappingMul(WrappingMul(x, PRIME_INVERSE), PRIME) == x
  {
    var j, k := (x * PRIME) / TWO_64, (x * PRIME_INVERSE) / TWO_64;
    assert PRIME * PRIME_INVERSE == TWO_64 * OVERFLOW + 1;
    EventKeys.QuotientUnique(WrappingMul(x, PRIME) * PRIME_INVERSE, TWO_64, x * OVERFLOW - j * PRIME_INVERSE, x);
    EventKeys.QuotientUnique(WrappingMul(x, PRIME_INVERSE) * PRIME, TWO_64, x * OVERFLOW - k * PRIME, x);
  }

  const OVERFLOW := 887285111055

  /** The prime is odd, so multiplying by it modulo 2^64 has an inverse: no state is lost. */
  lemma AbsorbIsABijection(hash: U64, byte: Byte)
    ensures Emit(Absorb(hash, byte), byte) == hash
    ensures Absorb(Emit(hash, byte), byte) == hash
  {
    TimesPrimeInverse(Xor64(hash, byte));
    TimesPrimeInverse(hash);
    XorTwice(hash, byte);
    XorTwice(WrappingMul(hash, PRIME_INVERSE), byte);
  }

  lemma AbsorbSeparatesBytes(hash: U64, a: Byte, b: Byte)
    requires a != b
    ensures Absorb(hash, a) != Absorb(hash, b)
  {
    TimesPrimeInverse(Xor64(hash, a));
    TimesPrimeInverse(Xor64(hash, b));
    XorCommutes(hash, a);
    XorCommutes(hash, b);
    XorTwice(a, hash);
    XorTwice(b, hash);
  }

  lemma {:induction false} HashOfConcatenation(state: U64, p: Bytes, s: Bytes)
    ensures HashFrom(state, p + s) == HashFrom(HashFrom(state, p), s)
    decreases |p|
  {
    if p == [] {
      assert p + s == s;
    } else {
      assert (p + s)[1..] == p[1..] + s;
      HashOfConcatenation(Absorb(state, p[0]), p[1..], s);
    }
  }

  lemma {:induction false} SameBytesKeepStatesApart(u: U64, v: U64, s: Bytes)
    ensures HashFrom(u, s) == HashFrom(v, s) <==> u == v
    decreases |s|
  {
    if s != [] {
      AbsorbIsABijection(u, s[0]);
      AbsorbIsABijection(v, s[0]);
      SameBytesKeepStatesApart(Absorb(u, s[0]), Absorb(v, s[0]), s[1..]);
    }
  }

  /** A common ending neither makes nor breaks a collision, and a common beginning cancels too. */
  lemma CommonEndingCancels(p: Bytes, q: Bytes, s: Bytes)
    ensures SeqSeed(p + s) == SeqSeed(q + s) <==> SeqSeed(p) == SeqSeed(q)
  {
    HashOfConcatenation(OFFSET_BASIS, p, s);
    HashOfConcatenation(OFFSET_BASIS, q, s);
    SameBytesKeepStatesApart(SeqSeed(p), SeqSeed(q), s);
  }

  /** Two aggregate ids that differ in one byte only never share a seed. */
  lemma OneByteApart(p: Bytes, a: Byte, b: Byte, s: Bytes)
    ensures SeqSeed(p + [a] + s) == SeqSeed(p + [b] + s) <==> a == b
  {
    CommonEndingCancels(p + [a], p + [b], s);
    HashOfConcatenation(OFFSET_BASIS, p, [a]);
    HashOfConcatenation(OFFSET_BASIS, p, [b]);
    assert HashFrom(SeqSeed(p), [a]) == Absorb(SeqSeed(p), a) && HashFrom(SeqSeed(p), [b]) == Absorb(SeqSeed(p), b);
    if a != b {
      AbsorbSeparatesBytes(SeqSeed(p), a, b);
    }
  }

  /** The same for ids given whole: equal length, and a single position where they differ. */
  lemma DifferAtOnePosition(x: Bytes, y: Bytes, i: nat)
    requires |x| == |y| && i < |x| && x[i] != y[i]
    requires forall j :: 0 <= j < |x| && j != i ==> x[j] == y[j]
    ensures SeqSeed(x) != SeqSeed(y)
  {
    assert x == x[..i] + [x[i]] + x[i + 1..];
    assert y == x[..i] + [y[i]] + x[i + 1..];
    OneByteApart(x[..i], x[i], y[i], x[i + 1..]);
  }

  // ----- the id itself

  function FormatId(createdAt: int, seq_: nat): string {
    "evt_" + Decimal.Display(createdAt) + "_" + Decimal.Display(seq_)
  }

  /** The id is read back: behind the prefix the second, then the number, in decimal. */
  lemma FormatIdIsReadBack(t: int, n: nat) returns (second: string, number: string)
    requires Decimal.IsI64(t)
    ensures FormatId(t, n) == "evt_" + second + "_" + number && '_' !in second && '_' !in number
    ensures Decimal.ParseI64(second) == Some(t) && Decimal.AllDigits(number) && Decimal.Value(number) == n
  {
    second, number := Decimal.Display(t), Decimal.Display(n);
    Decimal.DisplayIsPadded(t);
    Decimal.PaddedCharacters(t, 0);
    Decimal.ParsePadded(t, 0);
    Decimal.ValueDigits(n);
  }

  /** An event id names its second and its seed. */
  lemma FormatIdInjective(t: int, m: nat, u: int, n: nat)
    requires Decimal.IsI64(t) && Decimal.IsI64(u)
    ensures FormatId(t, m) == FormatId(u, n) <==> t == u && m == n
  {
    if FormatId(t, m) == FormatId(u, n) {
      var a, b := Decimal.Display(t), Decimal.Display(u);
      var x, y := Decimal.Display(m), Decimal.Display(n);
      Decimal.DisplayIsPadded(t);
      Decimal.DisplayIsPadded(u);
      Decimal.PaddedCharacters(t, 0);
      Decimal.PaddedCharacters(u, 0);
      SplitAtUnderscore(a, b, x, y);
      Decimal.PaddedInjective(t, u, 0);
      Decimal.ValueDigits(m);
      Decimal.ValueDigits(n);
    }
  }

  lemma SplitAtUnderscore(a: string, b: string, x: string, y: string)
    requires '_' !in a && '_' !in b
    requires "evt_" + a + "_" + x == "evt_" + b + "_" + y
    ensures a == b && x == y
  {
    var s, t := a + "_" + x, b + "_" + y;
    assert "evt_" + a + "_" + x == "evt_" + s && "evt_" + b + "_" + y == "evt_" + t;
    EventKeys.DropPrefix("evt_", s, t);
    assert s[|a|] == '_' && t[|b|] == '_';
    assert |a| == |b|;
    assert a == s[..|a|] && b == t[..|b|];
    assert x == s[|a| + 1..] && y == t[|b| + 1..];
  }

  /** The id an appended event gets: its second and the seed of its aggregate, nothing more. */
  function EventIdFor(aggregateId: Bytes, occurredAt: int): string {
    FormatId(occurredAt, SeqSeed(aggregateId))
  }

  /** Two events share an id exactly when they share the second and the aggregate seed. */
  lemma EventIdsCollideIff(a: Bytes, t: int, b: Bytes, u: int)
    requires Decimal.IsI64(t) && Decimal.IsI64(u)
    ensures EventIdFor(a, t) == EventIdFor(b, u) <==> t == u && SeqSeed(a) == SeqSeed(b)
  {
    FormatIdInjective(t, SeqSeed(a), u, SeqSeed(b));
  }
}
