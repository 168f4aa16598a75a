/** DSSE's pre-authentication encoding, the only part of
    crates/function/src/cosign.rs modelled: what the envelope's signatures
    sign. The payload type is its UTF-8 bytes. */
module Pae {
  import opened Decimal
  import opened Wire

  /** The bytes of an ASCII text. */
  function Ascii(s: string): (b: seq<Byte>)
    requires forall i :: 0 <= i < |s| ==> s[i] < 128 as char
    ensures |b| == |s| && forall i :: 0 <= i < |s| ==> b[i] == s[i] as int
  {
    seq(|s|, i requires 0 <= i < |s| => s[i] as int)
  }

  function DecBytes(n: nat): seq<Byte> {
    DecRoundTrip(n);
    Ascii(Dec(n))
  }

  const SPACE: Byte := 0x20

  /** A length in decimal, a space, the bytes it counts, and what follows. */
  function Lengthed(x: seq<Byte>, rest: seq<Byte>): seq<Byte> {
    DecBytes(|x|) + ([SPACE] + (x + rest))
  }

  function Encode(payloadType: seq<Byte>, payload: seq<Byte>): seq<Byte> {
    Ascii("DSSEv1 ") + Lengthed(payloadType, [SPACE] + Lengthed(payload, []))
  }

  lemma HeaderIs()
    ensures Ascii("DSSEv1 ") == [0x44, 0x53, 0x53, 0x45, 0x76, 0x31, 0x20]
  {}

  lemma DecBytesAre(n: nat)
    ensures |DecBytes(n)| == |Dec(n)| && forall i :: 0 <= i < |Dec(n)| ==> DecBytes(n)[i] == Dec(n)[i] as int
  {
    hide Dec, Value;
    DecRoundTrip(n);
  }

  lemma LengthedIs(x: seq<Byte>, rest: seq<Byte>)
    ensures Lengthed(x, rest) == DecBytes(|x|) + [0x20] + x + rest
  {
    hide DecBytes;
    var d := DecBytes(|x|);
    assert d + ([0x20] + (x + rest)) == d + [0x20] + x + rest;
  }

  lemma Joined(h: seq<Byte>, t: seq<Byte>, p: seq<Byte>, m: seq<Byte>, n: seq<Byte>)
    ensures h + (m + [0x20] + t + ([0x20] + (n + [0x20] + p + []))) == h + m + [0x20] + t + [0x20] + n + [0x20] + p
  {}

  /** The layout that DSSE's protocol document gives under "PAE": `DSSEv1` and,
      for the type and then the payload, its length in decimal and its bytes,
      one space between each two and nothing behind. */
  lemma EncodeIs(payloadType: seq<Byte>, payload: seq<Byte>)
    ensures Encode(payloadType, payload)
            == [0x44, 0x53, 0x53, 0x45, 0x76, 0x31, 0x20]
               + DecBytes(|payloadType|) + [0x20] + payloadType + [0x20] + DecBytes(|payload|) + [0x20] + payload
    ensures forall n: nat :: |DecBytes(n)| == |Dec(n)| && forall i :: 0 <= i < |Dec(n)| ==> DecBytes(n)[i] == Dec(n)[i] as int
  {
    hide Dec, Lengthed, DecBytes, Ascii;
    forall n: nat { DecBytesAre(n); }
    HeaderIs();
    LengthedIs(payload, []);
    LengthedIs(payloadType, [SPACE] + Lengthed(payload, []));
    Joined(Ascii("DSSEv1 "), payloadType, payload, DecBytes(|payloadType|), DecBytes(|payload|));
  }

  ghost predicate FirstSpace(s: seq<Byte>, n: nat) {
    n < |s| && s[n] == SPACE && forall i :: 0 <= i < n ==> s[i] != SPACE
  }

  lemma DigitsThenSpace(m: nat, x: seq<Byte>)
    ensures FirstSpace(DecBytes(m) + ([SPACE] + x), |DecBytes(m)|)
  {
    hide Dec, Value;
    DecRoundTrip(m);
  }

  /** A printed length ends at the first space, whatever follows: so both the
      number and what is behind it can be read back. */
  lemma LengthIsDelimited(m: nat, n: nat, x: seq<Byte>, y: seq<Byte>)
    requires DecBytes(m) + ([SPACE] + x) == DecBytes(n) + ([SPACE] + y)
    ensures m == n && x == y
  {
    hide Dec, Value, Ascii, DecBytes;
    var s := DecBytes(m) + ([SPACE] + x);
    DigitsThenSpace(m, x);
    DigitsThenSpace(n, y);
    var k := |DecBytes(m)|;
    assert k == |DecBytes(n)|;
    assert DecBytes(m) == s[..k] == DecBytes(n);
    assert x == s[k + 1..] == y;
    DecBytesInjective(m, n);
  }

  lemma DecBytesInjective(m: nat, n: nat)
    requires DecBytes(m) == DecBytes(n)
    ensures m == n
  {
    hide Dec, Value;
    DecRoundTrip(m);
    DecRoundTrip(n);
    forall i | 0 <= i < |Dec(m)| ensures Dec(m)[i] == Dec(n)[i] {
      assert DecBytes(m)[i] == DecBytes(n)[i];
    }
    assert Dec(m) == Dec(n);
  }

  lemma LengthedInjective(t: seq<Byte>, x: seq<Byte>, u: seq<Byte>, y: seq<Byte>)
    requires Lengthed(t, x) == Lengthed(u, y)
    ensures t == u && x == y
  {
    hide Dec, Value, Ascii, DecBytes;
    LengthIsDelimited(|t|, |u|, t + x, u + y);
    assert t == (t + x)[..|t|] == u;
    Behind(t, x, y, t + x);
  }

  /** The encoding is injective: a signature over one (type, payload) is over no
      other, for all bytes - spaces, digits and empty parts included. */
  lemma EncodeInjective(t: seq<Byte>, p: seq<Byte>, u: seq<Byte>, q: seq<Byte>)
    requires Encode(t, p) == Encode(u, q)
    ensures t == u && p == q
  {
    hide Ascii, Lengthed;
    var x, y := [SPACE] + Lengthed(p, []), [SPACE] + Lengthed(q, []);
    Behind(Ascii("DSSEv1 "), Lengthed(t, x), Lengthed(u, y), Encode(t, p));
    LengthedInjective(t, x, u, y);
    Behind([SPACE], Lengthed(p, []), Lengthed(q, []), x);
    LengthedInjective(p, [], q, []);
  }

  lemma Behind(head: seq<Byte>, x: seq<Byte>, y: seq<Byte>, s: seq<Byte>)
    requires s == head + x == head + y
    ensures x == y
  {
    assert x == s[|head|..] == y;
  }
}
