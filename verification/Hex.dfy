/** Hexadecimal digits and the conversion of a hex string of at most 64
    digits into an EVM word. */
module Hex {

  import opened Int
  import opened MiscTypes

  predicate IsHex(c: char)
  {
    ('0' <= c <= '9') || ('a' <= c <= 'f') || ('A' <= c <= 'F')
  }

  predicate AllHex(s: string)
  {
    forall k :: 0 <= k < |s| ==> IsHex(s[k])
  }

  function HexVal(c: char): (r: nat)
    requires IsHex(c)
    ensures r < 16
  {
    if '0' <= c <= '9' then c as nat - '0' as nat
    else if 'a' <= c <= 'f' then c as nat - 'a' as nat + 10
    else c as nat - 'A' as nat + 10
  }

  function Pow16(n: nat): (r: nat)
    ensures r >= 1
  {
    if n == 0 then 1 else 16 * Pow16(n - 1)
  }

  /** The value of a hex string, most significant digit first. */
  function HexToNat(s: string): (r: nat)
    requires AllHex(s)
    ensures r < Pow16(|s|)
  {
    if |s| == 0 then 0
    else
      var h := HexToNat(s[..|s| - 1]);
      var d := HexVal(s[|s| - 1]);
      assert 16 * h + d < 16 * Pow16(|s| - 1) by {
        assert h + 1 <= Pow16(|s| - 1);
        assert 16 * (h + 1) <= 16 * Pow16(|s| - 1);
      }
      16 * h + d
  }

  lemma {:induction false} Pow16Add(a: nat, b: nat)
    ensures Pow16(a + b) == Pow16(a) * Pow16(b)
  {
    if b > 0 {
      Pow16Add(a, b - 1);
      assert Pow16(a + b) == 16 * Pow16(a + b - 1);
    }
  }

  /** Sixty-four hex digits are exactly 256 bits. */
  lemma Pow16Of64()
    ensures Pow16(64) == TWO_256
  {
    assert Pow16(1) == 16;
    assert Pow16(2) == 0x100;
    Pow16Add(2, 2);
    assert Pow16(4) == 0x1_0000;
    Pow16Add(4, 4);
    assert Pow16(8) == 0x1_0000_0000;
    Pow16Add(8, 8);
    assert Pow16(16) == 0x1_0000_0000_0000_0000;
    Pow16Add(16, 16);
    assert Pow16(32) == 0x1_0000_0000_0000_0000_0000_0000_0000_0000;
    Pow16Add(32, 32);
  }

  lemma Pow16Monotonic(a: nat, b: nat)
    requires a <= b
    ensures Pow16(a) <= Pow16(b)
  {
    Pow16Add(a, b - a);
  }

  /** Leading zero digits do not change the value. */
  lemma {:induction false} LeadingZerosIgnored(z: string, s: string)
    requires forall k :: 0 <= k < |z| ==> z[k] == '0'
    requires AllHex(s)
    ensures AllHex(z + s)
    ensures HexToNat(z + s) == HexToNat(s)
  {
    if |s| == 0 {
      assert z + s == z;
      AllZerosIsZero(z);
    } else {
      var t := z + s;
      assert t[..|t| - 1] == z + s[..|s| - 1];
      assert t[|t| - 1] == s[|s| - 1];
      LeadingZerosIgnored(z, s[..|s| - 1]);
    }
  }

  lemma {:induction false} AllZerosIsZero(z: string)
    requires forall k :: 0 <= k < |z| ==> z[k] == '0'
    ensures AllHex(z) && HexToNat(z) == 0
  {
    if |z| > 0 {
      AllZerosIsZero(z[..|z| - 1]);
    }
  }

  /** Converts at most 64 hex digits into a word; fails on a non-hex digit. */
  function HexToU256(s: string): (r: Option<nat>)
    requires |s| <= 64
    ensures r.Some? <==> AllHex(s)
    ensures r.Some? ==> r.v == HexToNat(s) && r.v < TWO_256
  {
    if AllHex(s) then
      Pow16Monotonic(|s|, 64);
      Pow16Of64();
      Some(HexToNat(s))
    else None
  }
}
