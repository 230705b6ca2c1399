/** 64-bit varints, seven bits a byte, low bits first. */
module Varints {
  import opened Base

  function Pow2(n: nat): (p: nat)
    ensures p > 0
  {
    if n == 0 then 1 else 2 * Pow2(n - 1)
  }

  /** `d << shift`. */
  function Shifted(d: nat, shift: nat): nat {
    d * Pow2(shift)
  }

  const WORD: nat := 0x1_0000_0000_0000_0000

  /** The value and the position after it; `None` off the end of the buffer or past 64 bits. */
  function Varint(buf: seq<Byte>, pos: nat, v: nat, shift: nat): (r: Option<(nat, nat)>)
    ensures r.Some? ==> pos < r.value.1 <= |buf|
    decreases |buf| - pos
  {
    if pos >= |buf| then None
    else
      var next := (v + Shifted(buf[pos] % 128, shift)) % WORD;
      if buf[pos] < 128 then Some((next, pos + 1))
      else if shift + 7 >= 64 then None
      else Varint(buf, pos + 1, next, shift + 7)
  }

  function ReadVarint(buf: seq<Byte>, pos: nat): (r: Option<(nat, nat)>)
    ensures r.Some? ==> pos < r.value.1 <= |buf|
  {
    Varint(buf, pos, 0, 0)
  }

  function Encode(n: nat): (b: seq<Byte>)
    ensures |b| > 0
  {
    if n < 128 then [n] else [128 + n % 128] + Encode(n / 128)
  }

  lemma {:induction false} Pow2Sum(a: nat, b: nat)
    ensures Pow2(a + b) == Pow2(a) * Pow2(b)
  {
    if a > 0 {
      Pow2Sum(a - 1, b);
    }
  }

  lemma Pow2Seven(shift: nat)
    ensures Pow2(shift + 7) == 128 * Pow2(shift)
  {
    assert Pow2(shift + 7) == 2 * Pow2(shift + 6) == 4 * Pow2(shift + 5) == 8 * Pow2(shift + 4);
    assert Pow2(shift + 4) == 2 * Pow2(shift + 3) == 4 * Pow2(shift + 2) == 8 * Pow2(shift + 1);
  }

  lemma WordBits()
    ensures Pow2(64) == WORD
  {
    assert Pow2(8) == 256;
    Pow2Sum(8, 8);
    Pow2Sum(16, 16);
    Pow2Sum(32, 32);
  }

  lemma WideIsWord(k: nat)
    requires k >= 64
    ensures Pow2(k) >= WORD
  {
    WordBits();
    Pow2Sum(64, k - 64);
    Grow(WORD, Pow2(k - 64));
  }

  lemma TooWide(shift: nat, n: nat)
    requires n >= 128 && Shifted(n, shift) < WORD
    ensures shift + 7 < 64
  {
    Pow2Seven(shift);
    assert 128 * Pow2(shift) <= n * Pow2(shift);
    if shift + 7 >= 64 {
      WideIsWord(shift + 7);
    }
  }

  lemma Grow(a: nat, b: nat)
    requires b > 0
    ensures a * b >= a
  {
  }

  lemma SplitSeven(n: nat, shift: nat)
    ensures Shifted(n % 128, shift) + Shifted(n / 128, shift + 7) == Shifted(n, shift)
  {
    Pow2Seven(shift);
    var p := Pow2(shift);
    assert n == n % 128 + 128 * (n / 128);
    assert n * p == (n % 128) * p + (n / 128) * (128 * p);
  }

  lemma LowSeven(n: nat)
    ensures (128 + n % 128) % 128 == n % 128
  {
  }

  lemma {:induction false} RoundTripAt(buf: seq<Byte>, pos: nat, n: nat, v: nat, shift: nat)
    requires pos + |Encode(n)| <= |buf| && buf[pos..pos + |Encode(n)|] == Encode(n)
    requires v + Shifted(n, shift) < WORD
    ensures Varint(buf, pos, v, shift) == Some((v + Shifted(n, shift), pos + |Encode(n)|))
    decreases n
  {
    hide Pow2, Shifted;
    assert buf[pos] == Encode(n)[0];
    if n >= 128 {
      TooWide(shift, n);
      SplitSeven(n, shift);
      LowSeven(n);
      assert Encode(n)[1..] == Encode(n / 128);
      assert buf[pos + 1..pos + |Encode(n)|] == Encode(n)[1..];
      RoundTripAt(buf, pos + 1, n / 128, v + Shifted(n % 128, shift), shift + 7);
    }
  }

  /** Reading back an encoded 64-bit number. */
  lemma RoundTrip(buf: seq<Byte>, pos: nat, n: nat)
    requires n < WORD && pos + |Encode(n)| <= |buf| && buf[pos..pos + |Encode(n)|] == Encode(n)
    ensures ReadVarint(buf, pos) == Some((n, pos + |Encode(n)|))
  {
    assert Pow2(0) == 1;
    RoundTripAt(buf, pos, n, 0, 0);
  }
}
