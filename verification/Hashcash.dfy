/**
 Proof of work: a nonce whose hash, together with the record, starts with enough zero
 bits. The hash is any function into 32 bytes; the code looks at the bits byte by byte.
 */
module Hashcash {
  import opened Options
  import opened Arith

  type Bytes = seq<bv8>
  type Hash = h: Bytes | |h| == 32 witness seq(32, _ => 0)

  const MIN_DIFFICULTY: nat := 16

  /** Difficulties are one byte. */
  type Difficulty = d: nat | d < 256

  datatype PowStamp = PowStamp(nonce: nat, difficulty: Difficulty)

  /** The bytes read as one big-endian number. */
  function Value(h: Bytes): (v: nat) {
    if h == [] then 0 else h[0] as nat * Pow2(8 * (|h| - 1)) + Value(h[1..])
  }

  /** What a difficulty asks of a hash, as a number. */
  predicate Meets(h: Bytes, difficulty: nat)
    requires difficulty <= 8 * |h|
  {
    Value(h) < Pow2(8 * |h| - difficulty)
  }

  /** The bit test of the code: `full` zero bytes, then `rest` zero bits. */
  method HasLeadingZeros(h: Bytes, full: nat, rest: nat) returns (ok: bool)
    requires rest < 8 && (if rest > 0 then full < |h| else full <= |h|)
    ensures ok <==> Meets(h, 8 * full + rest)
  {
    for i := 0 to full
      invariant forall k :: 0 <= k < i ==> h[k] == 0
    {
      if h[i] != 0 {
        NonZeroByte(h, i, full, rest);
        return false;
      }
    }
    if rest > 0 {
      var mask: bv8 := 0xFF << (8 - rest);
      PartialByte(h, full, rest);
      return h[full] & mask == 0;
    }
    ZeroBytes(h, full);
    ValueBound(h[full..]);
    return true;
  }

  // ----- bytes and bits ---------------------------------------------------------------------

  lemma {:induction false} ValueBound(h: Bytes)
    ensures Value(h) < Pow2(8 * |h|)
  {
    if h != [] {
      ValueBound(h[1..]);
      var unit := Pow2(8 * (|h| - 1));
      Pow2Sum(8, 8 * (|h| - 1));
      Pow2Of8();
      assert h[0] as nat <= 255;
      assert h[0] as nat * unit <= 255 * unit;
    }
  }

  lemma Pow2Of8()
    ensures Pow2(8) == 256
  {
    assert Pow2(4) == 16;
  }

  /** Leading zero bytes do not count. */
  lemma {:induction false} ZeroBytes(h: Bytes, n: nat)
    requires n <= |h| && forall k :: 0 <= k < n ==> h[k] == 0
    ensures Value(h) == Value(h[n..])
  {
    if n == 0 {
      assert h[0..] == h;
    } else {
      ZeroBytes(h[1..], n - 1);
      assert h[1..][n - 1..] == h[n..];
      assert h[0] as nat == 0;
    }
  }

  /** A number with this leading byte is at least so much. */
  lemma NonZeroByte(h: Bytes, i: nat, full: nat, rest: nat)
    requires i < full && 8 * full + rest <= 8 * |h|
    requires (forall k :: 0 <= k < i ==> h[k] == 0) && h[i] != 0
    ensures !Meets(h, 8 * full + rest)
  {
    hide Value, Pow2;
    ZeroBytes(h, i);
    AtLeastUnit(h[i..]);
    Pow2Grows(8 * |h| - (8 * full + rest), 8 * (|h[i..]| - 1));
  }

  lemma AtLeastUnit(h: Bytes)
    requires h != [] && h[0] != 0
    ensures Value(h) >= Pow2(8 * (|h| - 1))
  {
    NotZero(h[0]);
    var unit := Pow2(8 * (|h| - 1));
    assert h[0] as nat * unit >= 1 * unit;
  }

  lemma NotZero(b: bv8)
    requires b != 0
    ensures b as nat >= 1
  {
  }

  /** The mask keeps the top `rest` bits. */
  lemma MaskIsBound(b: bv8, rest: nat)
    requires 1 <= rest <= 7
    ensures b & (0xFF << (8 - rest)) == 0 <==> b as nat < Pow2(8 - rest)
  {
    if rest == 1 {
      assert b & 0x80 == 0 <==> b < 0x80;
      assert Pow2(7) == 128;
    } else if rest == 2 {
      assert b & 0xC0 == 0 <==> b < 0x40;
      assert Pow2(6) == 64;
    } else if rest == 3 {
      assert b & 0xE0 == 0 <==> b < 0x20;
      assert Pow2(5) == 32;
    } else if rest == 4 {
      assert b & 0xF0 == 0 <==> b < 0x10;
      assert Pow2(4) == 16;
    } else if rest == 5 {
      assert b & 0xF8 == 0 <==> b < 0x08;
      assert Pow2(3) == 8;
    } else if rest == 6 {
      assert b & 0xFC == 0 <==> b < 0x04;
      assert Pow2(2) == 4;
    } else {
      assert b & 0xFE == 0 <==> b < 0x02;
      assert Pow2(1) == 2;
    }
  }

  lemma PartialByte(h: Bytes, full: nat, rest: nat)
    requires full < |h| && 1 <= rest <= 7 && forall k :: 0 <= k < full ==> h[k] == 0
    ensures h[full] & (0xFF << (8 - rest)) == 0 <==> Meets(h, 8 * full + rest)
  {
    hide Pow2, Value;
    ZeroBytes(h, full);
    MaskIsBound(h[full], rest);
    FirstByte(h[full..], 8 - rest);
    assert 8 * |h| - (8 * full + rest) == (8 - rest) + 8 * (|h[full..]| - 1);
  }

  /** Below a bound that many bits above the other bytes exactly when the first byte is. */
  lemma FirstByte(h: Bytes, bits: nat)
    requires h != []
    ensures Value(h) < Pow2(bits + 8 * (|h| - 1)) <==> h[0] as nat < Pow2(bits)
  {
    hide Pow2;
    var low := 8 * (|h| - 1);
    ValueBound(h[1..]);
    Pow2Sum(bits, low);
    LeadingByteDecides(h[0] as nat, Value(h[1..]), Pow2(low), Pow2(bits));
  }

  lemma LeadingByteDecides(b: nat, low: nat, unit: nat, limit: nat)
    requires low < unit
    ensures b * unit + low < limit * unit <==> b < limit
  {
    if b < limit {
      assert (b + 1) * unit <= limit * unit;
    } else {
      assert b * unit >= limit * unit;
    }
  }

  // ----- mining and verifying ------------------------------------------------------------------

  /** Try nonces in order; `hash(n)` is the hash of nonce `n` and the record. */
  method Mine(hash: nat -> Hash, difficulty: Difficulty, maxAttempts: nat) returns (stamp: Option<PowStamp>)
    ensures stamp.None? <==> forall n :: 0 <= n < maxAttempts ==> !Meets(hash(n), difficulty)
    ensures stamp.Some? ==>
      && stamp.value.difficulty == difficulty && stamp.value.nonce < maxAttempts
      && Meets(hash(stamp.value.nonce), difficulty)
      && forall n :: 0 <= n < stamp.value.nonce ==> !Meets(hash(n), difficulty)
  {
    hide Meets;
    var full, rest := difficulty / 8, difficulty % 8;
    for nonce := 0 to maxAttempts
      invariant forall n :: 0 <= n < nonce ==> !Meets(hash(n), difficulty)
    {
      var ok := HasLeadingZeros(hash(nonce), full, rest);
      if ok {
        return Some(PowStamp(nonce, difficulty));
      }
    }
    return None;
  }

  predicate Verified(hash: nat -> Hash, stamp: PowStamp) {
    stamp.difficulty >= MIN_DIFFICULTY && Meets(hash(stamp.nonce), stamp.difficulty)
  }

  method Verify(hash: nat -> Hash, stamp: PowStamp) returns (ok: bool)
    ensures ok <==> Verified(hash, stamp)
    ensures ok <==> stamp.difficulty >= 16 && Value(hash(stamp.nonce)) < Pow2(256 - stamp.difficulty)
  {
    if stamp.difficulty < MIN_DIFFICULTY {
      return false;
    }
    ok := HasLeadingZeros(hash(stamp.nonce), stamp.difficulty / 8, stamp.difficulty % 8);
  }

  /** A stamp that is good at one difficulty is good at every lower one that is allowed. */
  lemma LowerIsEasier(hash: nat -> Hash, stamp: PowStamp, lower: Difficulty)
    requires Verified(hash, stamp) && MIN_DIFFICULTY <= lower <= stamp.difficulty
    ensures Verified(hash, stamp.(difficulty := lower))
  {
    Pow2Grows(256 - stamp.difficulty, 256 - lower);
  }
}
