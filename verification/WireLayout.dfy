/**
Where everything stands in the byte strings of the TLS and DTLS record layers: what an AEAD is given as
nonce and additional data (section 6.2.3.3 of RFC 5246), and the headers of DTLS records and handshake
fragments (sections 4.1 and 4.2.2 of RFC 6347). Each layout is told byte by byte, without the functions
that put the strings together.
*/
module WireLayout {
  import opened Bits
  import opened Bytes
  import opened AeadContext
  import opened DtlsFragment
  import opened DtlsRecord
  import BigEndian

  /** A number and one more byte behind it. */
  function Join(high: nat, low: nat): nat { 256 * high + low }

  /** Two bytes are a 16-bit number, the high byte first. */
  predicate IsU16(b: Octets, v: nat)
  {
    |b| == 2 && Join(b[0], b[1]) == v % U16
  }

  lemma TwoBytesLayout(v: nat)
    ensures IsU16(TwoBytes(v), v)
  {
    var q, r := v / U16, v % U16;
    assert v == U16 * q + r && v / 256 == 256 * q + r / 256;
    assert (v / 256) % 256 == r / 256 && v % 256 == r % 256;
  }

  // ---- additional data and nonce ----

  /** The additional data: sequence number, type, and version and length unless they are left out. */
  predicate IsAdditionalData(c: Context, kind: Byte, version: nat, seqnum: Octets, len: nat, ad: Octets)
  {
    if c.omitAd then ad == []
    else
      && |ad| == 9 + (if c.omitVersionInAd then 0 else 2) + (if c.omitLengthInAd then 0 else 2)
      && ad[..8] == seqnum && ad[8] == kind
      && (!c.omitVersionInAd ==> IsU16(ad[9..11], version))
      && (!c.omitLengthInAd ==> IsU16(ad[|ad| - 2..], len))
  }

  lemma AdditionalDataLayout(c: Context, kind: Byte, version: nat, seqnum: Octets, len: nat)
    requires |seqnum| == 8
    ensures IsAdditionalData(c, kind, version, seqnum, len, AdditionalData(c, kind, version, seqnum, len))
  {
    hide TwoBytes, IsU16;
    TwoBytesLayout(version);
    TwoBytesLayout(len);
    var ad := AdditionalData(c, kind, version, seqnum, len);
    if !c.omitAd {
      assert ad[..8] == seqnum;
      if !c.omitVersionInAd { assert ad[9..11] == TwoBytes(version); }
      if !c.omitLengthInAd { assert ad[|ad| - 2..] == TwoBytes(len); }
    }
  }

  /** It leaves nothing open. */
  lemma AdditionalDataUnique(c: Context, kind: Byte, version: nat, seqnum: Octets, len: nat, ad: Octets, ad': Octets)
    requires IsAdditionalData(c, kind, version, seqnum, len, ad)
    requires IsAdditionalData(c, kind, version, seqnum, len, ad')
    ensures ad == ad'
  {
    if !c.omitAd {
      forall i | 0 <= i < |ad| ensures ad[i] == ad'[i] {
        if i < 8 {
          assert ad[i] == ad[..8][i] && ad'[i] == ad'[..8][i];
        } else if i > 8 {
          if i >= |ad| - 2 && !c.omitLengthInAd { SameU16(ad[|ad| - 2..], ad'[|ad| - 2..], len); }
          if i < 11 && !c.omitVersionInAd { SameU16(ad[9..11], ad'[9..11], version); }
        }
      }
    }
  }

  lemma SameU16(a: Octets, b: Octets, v: nat)
    requires IsU16(a, v) && IsU16(b, v)
    ensures a == b && a[0] == b[0] && a[1] == b[1]
  {
  }

  /** Bit for bit the exclusive or of two bytes. */
  ghost predicate IsXor(x: Byte, a: Byte, b: Byte)
  {
    forall i: nat :: Bit(x, i) <==> Bit(a, i) != Bit(b, i)
  }

  /**
  The nonce: the fixed part and behind it the variable one; or the fixed part alone with the variable one
  XORed into its end.
  */
  ghost predicate IsNonce(c: Context, variable: Octets, nonce: Octets)
    requires c.aead.Some?
  {
    && |nonce| == c.aead.value.nonceLen
    && if !c.xorFixedNonce
       then nonce == c.fixedNonce + variable
       else
         var at := |nonce| - |variable|;
         && |c.fixedNonce| == |nonce| && at >= 0
         && nonce[..at] == c.fixedNonce[..at]
         && forall i :: 0 <= i < |variable| ==> IsXor(nonce[at + i], c.fixedNonce[at + i], variable[i])
  }

  lemma {:induction false} XorBytesAt(a: Octets, b: Octets, i: nat)
    requires |a| == |b| && i < |a|
    ensures XorBytes(a, b)[i] == XorByte(a[i], b[i])
  {
    var n := |a| - 1;
    if i < n { XorBytesAt(a[..n], b[..n], i); }
  }

  lemma XorLayout(a: Byte, b: Byte)
    ensures IsXor(XorByte(a, b), a, b) && (a == 0 ==> XorByte(a, b) == b)
  {
    forall i: nat ensures Bit(XorByte(a, b), i) <==> Bit(a, i) != Bit(b, i) {
      XorBits(a, b, i);
    }
  }

  lemma XorSwap(x: Byte, a: Byte, b: Byte)
    requires IsXor(x, a, b)
    ensures IsXor(x, b, a)
  {
  }

  lemma NonceLayout(c: Context, variable: Octets)
    requires WellFormed(c) && c.aead.Some? && |variable| == c.variableNonceLen
    ensures IsNonce(c, variable, Nonce(c, variable))
  {
    hide XorByte, XorBytes, IsXor;
    if c.xorFixedNonce {
      var nonce, at := Nonce(c, variable), |c.fixedNonce| - 8;
      var padded := Zeros(at) + variable;
      forall i | 0 <= i < |nonce|
        ensures if i < at then nonce[i] == c.fixedNonce[i] else IsXor(nonce[i], c.fixedNonce[i], variable[i - at])
      {
        XorBytesAt(padded, c.fixedNonce, i);
        XorLayout(padded[i], c.fixedNonce[i]);
        XorSwap(nonce[i], padded[i], c.fixedNonce[i]);
      }
      assert nonce[..at] == c.fixedNonce[..at];
    }
  }

  lemma NonceUnique(c: Context, variable: Octets, n: Octets, n': Octets)
    requires c.aead.Some? && IsNonce(c, variable, n) && IsNonce(c, variable, n')
    ensures n == n'
  {
    if c.xorFixedNonce {
      var at := |n| - |variable|;
      forall i | 0 <= i < |n| ensures n[i] == n'[i] {
        if i < at {
          assert n[i] == n[..at][i] && n'[i] == n'[..at][i];
        } else {
          assert IsXor(n[at + (i - at)], c.fixedNonce[i], variable[i - at]);
          assert IsXor(n'[at + (i - at)], c.fixedNonce[i], variable[i - at]);
          BitsDetermine(n[i], n'[i]);
        }
      }
    }
  }

  /** What sealing hands to the AEAD, and what it puts in front: the part of the nonce a reader cannot know. */
  lemma SealHands(c: Context, kind: Byte, version: nat, seqnum: Octets, random: Octets, text: Octets,
                  nonce: Octets, ad: Octets)
    requires WellFormed(c) && c.aead.Some? && |seqnum| == 8 && |random| == c.variableNonceLen
    requires IsNonce(c, if c.randomVariableNonce then random else seqnum, nonce)
    requires IsAdditionalData(c, kind, version, seqnum, |text|, ad)
    ensures SealBytes(c, kind, version, seqnum, random, text, []) ==
            (if !c.variableNonceIncludedInRecord then [] else if c.randomVariableNonce then random else seqnum) +
            c.aead.value.seal(nonce, ad, text)
  {
    hide Nonce, AdditionalData, IsNonce, IsAdditionalData;
    var variable := if c.randomVariableNonce then random else seqnum;
    NonceLayout(c, variable);
    NonceUnique(c, variable, nonce, Nonce(c, variable));
    AdditionalDataLayout(c, kind, version, seqnum, |text|);
    AdditionalDataUnique(c, kind, version, seqnum, |text|, ad, AdditionalData(c, kind, version, seqnum, |text|));
    assert text + [] == text;
  }

  /** What opening hands to the AEAD: nonce, additional data with the length of the text, and the ciphertext. */
  lemma OpenHands(c: Context, kind: Byte, version: nat, seqnum: Octets, front: Octets, sealed: Octets,
                  nonce: Octets, ad: Octets)
    requires WellFormed(c) && c.aead.Some? && |seqnum| == 8
    requires |front| == ExplicitNonceLen(c) && (c.omitLengthInAd || |front + sealed| >= MaxOverhead(c))
    requires IsNonce(c, if c.variableNonceIncludedInRecord then front else seqnum, nonce)
    requires IsAdditionalData(c, kind, version, seqnum,
                              if c.omitLengthInAd then 0 else |front + sealed| - MaxOverhead(c), ad)
    ensures OpenBytes(c, kind, version, seqnum, front + sealed) == c.aead.value.open(nonce, ad, sealed)
  {
    hide Nonce, AdditionalData, IsNonce, IsAdditionalData;
    var input := front + sealed;
    var len := if c.omitLengthInAd then 0 else |input| - MaxOverhead(c);
    var variable := if c.variableNonceIncludedInRecord then front else seqnum;
    assert input[..|front|] == front && input[|front|..] == sealed;
    NonceLayout(c, variable);
    NonceUnique(c, variable, nonce, Nonce(c, variable));
    AdditionalDataLayout(c, kind, version, seqnum, len);
    AdditionalDataUnique(c, kind, version, seqnum, len, ad, AdditionalData(c, kind, version, seqnum, len));
  }

  // ---- the cipher suites ----

  /** The fixed nonce with the sequence number XORed into its last eight bytes. */
  ghost predicate IsXored(nonce: Octets, iv: Octets, seqnum: Octets)
  {
    && |iv| == |nonce| >= 8 == |seqnum| && nonce[..|nonce| - 8] == iv[..|nonce| - 8]
    && forall i :: 0 <= i < 8 ==> IsXor(nonce[|nonce| - 8 + i], iv[|nonce| - 8 + i], seqnum[i])
  }

  /**
  What a record of each suite is sealed as: AES-GCM by section 3 of RFC 5288, ChaCha20-Poly1305 by section 2
  of RFC 7905, CBC by section 6.2.3.2 of RFC 5246, and nothing but the nonce from TLS 1.3 on. `v` and `len` are
  version and length in two bytes, `xored` is the nonce where one is XORed.
  */
  lemma SuiteSeals(aead: Aead, enc: Encryption, version: nat, isDtls: bool, macLen: nat, iv: Octets,
                   kind: Byte, recordVersion: nat, seqnum: Octets, random: Octets, text: Octets,
                   v: Octets, len: Octets, xored: Octets)
    requires ProtocolVersion(version).Some?
    requires SuiteSizes(enc, ProtocolVersion(version).value, macLen, |iv|, aead.nonceLen)
    requires |seqnum| == 8 && |random| == if enc.Cbc? then aead.nonceLen else 8
    requires IsU16(v, recordVersion) && IsU16(len, |text|) && (|iv| == 12 ==> IsXored(xored, iv, seqnum))
    ensures var protocol, c := ProtocolVersion(version).value, Create(aead, enc, version, isDtls, macLen, iv);
            && c.Some? && WellFormed(c.value) && |random| == c.value.variableNonceLen
            && SealBytes(c.value, kind, recordVersion, seqnum, random, text, []) ==
               if enc.Cbc? then
                 random + aead.seal(random, seqnum + [kind] + (if protocol == SSL3_VERSION then [] else v), text)
               else if protocol == TLS1_3_VERSION then aead.seal(xored, [], text)
               else if enc.AesGcm? then seqnum + aead.seal(iv + seqnum, seqnum + [kind] + v + len, text)
               else aead.seal(xored, seqnum + [kind] + v + len, text)
  {
    hide IsXor, SealBytes, Join;
    CreateWellFormed(aead, enc, version, isDtls, macLen, iv);
    var protocol, c := ProtocolVersion(version).value, Create(aead, enc, version, isDtls, macLen, iv).value;
    var head := seqnum + [kind];
    if enc.Cbc? {
      var ad := head + if protocol == SSL3_VERSION then [] else v;
      assert ad[..8] == seqnum && (protocol != SSL3_VERSION ==> ad[9..11] == v);
      assert [] + random == random;
      SealHands(c, kind, recordVersion, seqnum, random, text, random, ad);
    } else {
      var ad := if protocol == TLS1_3_VERSION then [] else head + v + len;
      if protocol != TLS1_3_VERSION { assert ad[..8] == seqnum && ad[9..11] == v && ad[11..] == len; }
      var nonce := if enc.AesGcm? && protocol < TLS1_3_VERSION then iv + seqnum else xored;
      SealHands(c, kind, recordVersion, seqnum, random, text, nonce, ad);
    }
  }

  /** The version records claim: that of the connection, but never TLS 1.3, and the oldest before it is known. */
  lemma VersionOnWire(c: Context)
    ensures c.version == 0 && !c.isDtls ==> RecordVersion(c) == 0x0301
    ensures c.version == 0 && c.isDtls ==> RecordVersion(c) == 0xfeff
    ensures c.version in {0x0300, 0x0301, 0x0302, 0x0303, 0xfeff, 0xfefd} ==> RecordVersion(c) == c.version
    ensures c.version == 0x0304 ==> RecordVersion(c) == 0x0303
  {
  }

  /** The versions a DTLS reader takes: any DTLS before there are keys, and then only that of the connection. */
  lemma VersionTaken(c: Context, version: nat)
    ensures c.aead.None? ==> (VersionOk(c, version) <==> 0xfe00 <= version < 0xff00)
    ensures c.aead.Some? && c.version in {0xfeff, 0xfefd} ==> (VersionOk(c, version) <==> version == c.version)
  {
  }

  // ---- headers ----

  /** Big-endian numbers of the widths the headers use. */
  lemma NumberOf(b: Octets)
    requires |b| in {1, 2, 3}
    ensures |b| == 1 ==> BigEndian.Value(b) == b[0]
    ensures |b| == 2 ==> BigEndian.Value(b) == Join(b[0], b[1])
    ensures |b| == 3 ==> BigEndian.Value(b) == Join(Join(b[0], b[1]), b[2])
  {
    var one, two := b[..1], if |b| > 1 then b[..2] else b;
    assert one[..0] == [] && BigEndian.Value(one) == b[0];
    if |b| > 1 {
      assert two[..1] == one && BigEndian.Value(two) == Join(b[0], b[1]);
      assert b[..|b|] == b;
    } else {
      assert b == one;
    }
  }

  /** A three-byte number, the high byte first. */
  predicate IsU24(b: Octets, v: nat)
  {
    |b| == 3 && Join(Join(b[0], b[1]), b[2]) == v
  }

  /** The header of a DTLS record: type, version, epoch and sequence number, length; and behind it the body. */
  lemma RecordLayout(kind: Byte, version: nat, epoch: nat, n: nat, body: Octets)
    requires version < U16 && epoch < EPOCHS && n < SEQUENCES && |body| < U16
    ensures var r := RecordBytes(kind, version, Number(epoch, n), body);
            && |r| == 13 + |body| && r[0] == kind && IsU16(r[1..3], version) && IsU16(r[3..5], epoch)
            && BigEndian.Value(r[5..11]) == n && IsU16(r[11..13], |body|) && r[13..] == body
  {
    hide TwoBytes, IsU16, BigEndian.Encode, BigEndian.Value;
    var number := Number(epoch, n);
    var r := RecordBytes(kind, version, number, body);
    TwoBytesLayout(version);
    TwoBytesLayout(epoch);
    TwoBytesLayout(|body|);
    SixBytes();
    BigEndian.ValueEncode(n, 6);
    assert r[1..3] == TwoBytes(version) && r[3..11] == number && r[11..13] == TwoBytes(|body|) && r[13..] == body;
    assert r[3..5] == number[..2] == TwoBytes(epoch) && r[5..11] == number[2..] == BigEndian.Encode(n, 6);
  }

  /** The header of a handshake fragment: type, length, message number, fragment offset and length. */
  lemma FragmentLayout(h: Header)
    requires GoodHeader(h)
    ensures var s := HeaderBytes(h);
            && |s| == 12 && s[0] == h.kind && IsU24(s[1..4], h.msgLen) && IsU16(s[4..6], h.seqnum)
            && IsU24(s[6..9], h.fragOff) && IsU24(s[9..12], h.fragLen)
  {
    hide BigEndian.Encode, BigEndian.Value;
    var s := HeaderBytes(h);
    var a, b, c, d := BigEndian.Encode(h.msgLen, 3), BigEndian.Encode(h.seqnum, 2),
                      BigEndian.Encode(h.fragOff, 3), BigEndian.Encode(h.fragLen, 3);
    assert s[1..4] == a && s[4..6] == b && s[6..9] == c && s[9..12] == d;
    FieldWidths();
    BigEndian.ValueEncode(h.msgLen, 3);
    BigEndian.ValueEncode(h.seqnum, 2);
    BigEndian.ValueEncode(h.fragOff, 3);
    BigEndian.ValueEncode(h.fragLen, 3);
    NumberOf(a);
    NumberOf(b);
    NumberOf(c);
    NumberOf(d);
  }
}
