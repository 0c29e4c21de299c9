/** Octets and the byte-wise XOR the relay applies to them. */
module Bytes {
  type byte = bv8

  function CharByte(c: char): byte {
    (c as int % 0x100) as byte
  }

  lemma ByteOfNumber(v: nat)
    requires v < 0x100
    ensures (v as byte) as nat == v
  {
    assert v % 0x100 == v;
    var b := v as byte;
  }

  lemma SameNumberSameByte(a: byte, b: byte)
    requires a as nat == b as nat
    ensures a == b
  {
  }

  lemma CharCode(c: char, b: byte)
    requires c as int == b as int
    ensures CharByte(c) == b
  {
    var n: nat := c as int;
    ByteOfNumber(n);
    assert n % 0x100 == n;
    SameNumberSameByte(n as byte, b);
  }

  /** The bytes of an ASCII text. */
  function Text(s: string): (r: seq<byte>)
    ensures |r| == |s|
  {
    seq(|s|, i requires 0 <= i < |s| => CharByte(s[i]))
  }

  lemma TextAt(s: string, i: nat)
    requires i < |s|
    ensures Text(s)[i] == CharByte(s[i])
  {
  }

  function XorAll(s: seq<byte>, key: byte): (r: seq<byte>)
    ensures |r| == |s|
  {
    seq(|s|, i requires 0 <= i < |s| => s[i] ^ key)
  }

  lemma XorCancels(b: byte, key: byte)
    ensures (b ^ key) ^ key == b
  {
  }

  lemma XorAllTwice(s: seq<byte>, key: byte)
    ensures XorAll(XorAll(s, key), key) == s
  {
    forall i | 0 <= i < |s|
      ensures XorAll(XorAll(s, key), key)[i] == s[i]
    {
      XorCancels(s[i], key);
    }
  }

  lemma XorAllAppend(a: seq<byte>, b: seq<byte>, key: byte)
    ensures XorAll(a + b, key) == XorAll(a, key) + XorAll(b, key)
  {
    var whole, parts := XorAll(a + b, key), XorAll(a, key) + XorAll(b, key);
    forall i | 0 <= i < |whole|
      ensures whole[i] == parts[i]
    {
      assert (a + b)[i] == if i < |a| then a[i] else b[i - |a|];
    }
  }
}
