/** Bytes as numbers and as bit vectors. */
module ByteForms {
  import Words = Bytes

  function Bits8(bytes: seq<Words.byte>): (b: seq<bv8>)
    ensures |b| == |bytes|
  {
    seq(|bytes|, i requires 0 <= i < |bytes| => bytes[i] as int as bv8)
  }

  function Octets(b: seq<bv8>): (bytes: seq<Words.byte>)
    ensures |bytes| == |b|
  {
    seq(|b|, i requires 0 <= i < |b| => b[i] as int as Words.byte)
  }

  lemma SameBits(b: bv8)
    ensures b as int as bv8 == b
  {
  }

  lemma Successor(b: bv8)
    requires b != 255
    ensures (b + 1) as int == b as int + 1
  {
  }

  lemma {:induction false} SameOctet(n: nat)
    requires n < 256
    ensures n as bv8 as int == n
  {
    if n > 0 {
      SameOctet(n - 1);
      Successor((n - 1) as bv8);
      SameBits((n - 1) as bv8 + 1);
    }
  }

  lemma OctetsOfBits(bytes: seq<Words.byte>, b: seq<bv8>)
    ensures Octets(Bits8(bytes)) == bytes && Bits8(Octets(b)) == b
  {
    forall i | 0 <= i < |bytes|
      ensures Octets(Bits8(bytes))[i] == bytes[i]
    {
      SameOctet(bytes[i] as int);
    }
    forall i | 0 <= i < |b|
      ensures Bits8(Octets(b))[i] == b[i]
    {
      SameBits(b[i]);
    }
  }
}
