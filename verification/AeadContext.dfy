/**
`SSLAEADContext`: how a record's nonce and additional data are assembled around an AEAD, by the
combination of flags that `Create` chooses for the cipher suite.

The AEAD itself is a parameter: two functions and the lengths it reports. `Correct` is the law of
an AEAD; nothing else is assumed of it. Stateful CBC modes with an implicit IV (TLS 1.0) are not
functions of nonce, additional data and text and are not covered by `Correct`.
*/
module AeadContext {
  import opened Bytes
  import Bits

  datatype Aead = Aead(
    nonceLen: nat, maxOverhead: nat,
    tagLen: nat -> Option<nat>,
    seal: (Octets, Octets, Octets) -> Octets,
    open: (Octets, Octets, Octets) -> Option<Octets>)

  /** Opening undoes sealing under the same nonce and additional data; lengths are as reported. */
  ghost predicate Correct(a: Aead)
  {
    forall nonce: Octets, ad: Octets, p: Octets ::
      a.tagLen(|p|).Some? ==>
        && |a.seal(nonce, ad, p)| == |p| + a.tagLen(|p|).value
        && a.tagLen(|p|).value <= a.maxOverhead
        && a.open(nonce, ad, a.seal(nonce, ad, p)) == Some(p)
  }

  /** The ciphertext is always longer than the text by the same amount. */
  ghost predicate FixedOverhead(a: Aead)
  {
    forall n: nat :: a.tagLen(n).Some? ==> a.tagLen(n).value == a.maxOverhead
  }

  /** The fields of the class; `aead` is absent for the NULL cipher. */
  datatype Context = Context(
    aead: Option<Aead>, version: nat, isDtls: bool,
    fixedNonce: Octets, variableNonceLen: nat,
    variableNonceIncludedInRecord: bool, randomVariableNonce: bool,
    omitLengthInAd: bool, omitVersionInAd: bool, omitAd: bool, xorFixedNonce: bool)

  // Wire and protocol versions.
  const SSL3_VERSION: nat := 0x0300
  const TLS1_VERSION: nat := 0x0301
  const TLS1_1_VERSION: nat := 0x0302
  const TLS1_2_VERSION: nat := 0x0303
  const TLS1_3_VERSION: nat := 0x0304
  const DTLS1_VERSION: nat := 0xfeff
  const DTLS1_2_VERSION: nat := 0xfefd

  /** `ssl_protocol_version_from_wire`, without the TLS 1.3 draft versions. */
  function ProtocolVersion(wire: nat): Option<nat>
  {
    if SSL3_VERSION <= wire <= TLS1_3_VERSION then Some(wire)
    else if wire == DTLS1_VERSION then Some(TLS1_1_VERSION)
    else if wire == DTLS1_2_VERSION then Some(TLS1_2_VERSION)
    else None
  }

  function RecordVersion(c: Context): nat
  {
    if c.version == 0 then (if c.isDtls then DTLS1_VERSION else TLS1_VERSION)
    else match ProtocolVersion(c.version)
      case Some(v) => if v <= TLS1_2_VERSION then c.version else TLS1_2_VERSION
      case None => c.version
  }

  /** What a cipher suite encrypts with. */
  datatype Encryption = AesGcm | ChaCha20Poly1305 | Cbc

  /** The key material sizes `ssl_cipher_get_evp_aead` reports, and the AEAD's nonce length. */
  predicate SuiteSizes(enc: Encryption, protocol: nat, macLen: nat, ivLen: nat, nonceLen: nat)
  {
    match enc
    case AesGcm => macLen == 0 && nonceLen == 12 && ivLen == if protocol >= TLS1_3_VERSION then 12 else 4
    case ChaCha20Poly1305 => macLen == 0 && nonceLen == 12 && ivLen == 12
    case Cbc => macLen > 0 && protocol < TLS1_3_VERSION
  }

  function NullCipher(isDtls: bool): Context
  {
    Context(None, 0, isDtls, [], 0, false, false, false, false, false, false)
  }

  /** The flags `SSLAEADContext::Create` sets. */
  function Create(aead: Aead, enc: Encryption, version: nat, isDtls: bool, macKeyLen: nat,
                  fixedIv: Octets): Option<Context>
  {
    match ProtocolVersion(version)
    case None => None
    case Some(protocol) =>
      if macKeyLen == 0 then
        var tls13 := protocol >= TLS1_3_VERSION;
        var chacha := enc.ChaCha20Poly1305?;
        if !chacha && |fixedIv| > aead.nonceLen then None
        else Some(Context(
          Some(aead), version, isDtls, fixedIv,
          if tls13 || chacha then 8 else aead.nonceLen - |fixedIv|,
          enc.AesGcm? && !tls13, false, false, false, tls13, tls13 || chacha))
      else
        Some(Context(
          Some(aead), version, isDtls, [], aead.nonceLen,
          true, true, true, protocol == SSL3_VERSION, false, false))
  }

  /** The combinations of flags the class works with. */
  predicate WellFormed(c: Context)
  {
    c.version < U16 &&
    if c.aead.None? then !c.variableNonceIncludedInRecord
    else
      && (c.xorFixedNonce ==> c.variableNonceLen == 8 <= |c.fixedNonce| == c.aead.value.nonceLen &&
                              !c.variableNonceIncludedInRecord)
      && (!c.xorFixedNonce ==> |c.fixedNonce| + c.variableNonceLen == c.aead.value.nonceLen)
      && (if c.randomVariableNonce then c.variableNonceIncludedInRecord else c.variableNonceLen == 8)
  }

  /** Keys under which opening undoes sealing: a length in the additional data needs a fixed overhead. */
  ghost predicate Sound(c: Context)
  {
    && WellFormed(c)
    && (c.aead.Some? ==> Correct(c.aead.value) && (c.omitLengthInAd || FixedOverhead(c.aead.value)))
  }

  /** `Create` only makes well-formed contexts, and omits the length exactly when the nonce is random. */
  lemma CreateWellFormed(aead: Aead, enc: Encryption, version: nat, isDtls: bool, macLen: nat, fixedIv: Octets)
    requires ProtocolVersion(version).Some?
    requires SuiteSizes(enc, ProtocolVersion(version).value, macLen, |fixedIv|, aead.nonceLen)
    ensures var c := Create(aead, enc, version, isDtls, macLen, fixedIv);
            c.Some? && WellFormed(c.value) &&
            (c.value.omitLengthInAd <==> c.value.randomVariableNonce) &&
            (c.value.randomVariableNonce <==> enc.Cbc?)
  {
  }

  // ---- lengths ----

  function ExplicitNonceLen(c: Context): nat
  {
    if c.variableNonceIncludedInRecord then c.variableNonceLen else 0
  }

  /** What `SuffixLen` yields for `inLen` bytes of text and `extra` more. */
  function SuffixLen(c: Context, inLen: nat, extra: nat): Option<nat>
  {
    if c.aead.None? then Some(extra)
    else match c.aead.value.tagLen(inLen + extra)
      case Some(n) => Some(extra + n)
      case None => None
  }

  function MaxOverhead(c: Context): (n: nat)
    ensures n >= ExplicitNonceLen(c)
  {
    ExplicitNonceLen(c) + if c.aead.None? then 0 else c.aead.value.maxOverhead
  }

  // ---- nonce and additional data ----

  function XorBytes(a: Octets, b: Octets): (r: Octets)
    requires |a| == |b|
    ensures |r| == |a|
  {
    if a == [] then []
    else XorBytes(a[..|a| - 1], b[..|b| - 1]) + [XorByte(a[|a| - 1], b[|b| - 1])]
  }

  function XorByte(a: Byte, b: Byte): Byte
  {
    assert Bits.Pow2(8) == 256;
    Bits.XorBound(a, b, 8);
    Bits.Xor(a, b)
  }

  /** The nonce made of the fixed part and `variable`. */
  function Nonce(c: Context, variable: Octets): (n: Octets)
    requires WellFormed(c) && c.aead.Some? && |variable| == c.variableNonceLen
    ensures |n| == c.aead.value.nonceLen
  {
    if c.xorFixedNonce then XorBytes(Zeros(|c.fixedNonce| - 8) + variable, c.fixedNonce)
    else c.fixedNonce + variable
  }

  /** `GetAdditionalData`; lengths and versions go in as 16 bits. */
  function AdditionalData(c: Context, kind: Byte, recordVersion: nat, seqnum: Octets, plaintextLen: nat): Octets
  {
    if c.omitAd then []
    else seqnum + [kind] + (if c.omitVersionInAd then [] else TwoBytes(recordVersion)) +
         (if c.omitLengthInAd then [] else TwoBytes(plaintextLen))
  }

  function TwoBytes(v: nat): (b: Octets)
    ensures |b| == 2
  {
    [(v / 256) % 256, v % 256]
  }

  // ---- sealing and opening ----

  /** What `SealScatter` puts in its three output buffers, put together; `random` is what RAND_bytes yields. */
  function SealBytes(c: Context, kind: Byte, recordVersion: nat, seqnum: Octets, random: Octets,
                     text: Octets, extra: Octets): Octets
    requires WellFormed(c) && |seqnum| == 8 && |random| == c.variableNonceLen
  {
    if c.aead.None? then text + extra
    else
      var variable := if c.randomVariableNonce then random else seqnum;
      (if c.variableNonceIncludedInRecord then variable else []) +
      c.aead.value.seal(Nonce(c, variable), AdditionalData(c, kind, recordVersion, seqnum, |text|), text + extra)
  }

  /** `Open`. */
  function OpenBytes(c: Context, kind: Byte, recordVersion: nat, seqnum: Octets, input: Octets): Option<Octets>
    requires WellFormed(c) && |seqnum| == 8
  {
    if c.aead.None? then Some(input)
    else if !c.omitLengthInAd && |input| < MaxOverhead(c) then None
    else if c.variableNonceIncludedInRecord && |input| < c.variableNonceLen then None
    else
      var plaintextLen := if c.omitLengthInAd then 0 else |input| - MaxOverhead(c);
      var ad := AdditionalData(c, kind, recordVersion, seqnum, plaintextLen);
      var n := ExplicitNonceLen(c);
      var variable := if c.variableNonceIncludedInRecord then input[..n] else seqnum;
      c.aead.value.open(Nonce(c, variable), ad, input[n..])
  }

  /**
  Open rebuilds the nonce and the additional data that Seal used, so it undoes it. A length in the
  additional data can only be rebuilt if the overhead is fixed.
  */
  lemma OpenUndoesSeal(c: Context, kind: Byte, recordVersion: nat, seqnum: Octets, random: Octets, text: Octets)
    requires WellFormed(c) && |seqnum| == 8 && |random| == c.variableNonceLen
    requires c.aead.Some? ==> Correct(c.aead.value) && c.aead.value.tagLen(|text|).Some?
    requires c.aead.Some? && !c.omitLengthInAd ==> FixedOverhead(c.aead.value)
    ensures var sealed := SealBytes(c, kind, recordVersion, seqnum, random, text, []);
            OpenBytes(c, kind, recordVersion, seqnum, sealed) == Some(text)
  {
    assert text + [] == text;
    if c.aead.Some? {
      var a := c.aead.value;
      var variable := if c.randomVariableNonce then random else seqnum;
      var prefix := if c.variableNonceIncludedInRecord then variable else [];
      var nonce, ad := Nonce(c, variable), AdditionalData(c, kind, recordVersion, seqnum, |text|);
      var sealed := a.seal(nonce, ad, text);
      assert |sealed| == |text| + a.tagLen(|text|).value && a.open(nonce, ad, sealed) == Some(text);
      var input := prefix + sealed;
      assert input[..|prefix|] == prefix && input[|prefix|..] == sealed;
    }
  }

  /** The receiver sees at most the overhead the sender reserved. */
  lemma SealedLength(c: Context, kind: Byte, recordVersion: nat, seqnum: Octets, random: Octets, text: Octets)
    requires WellFormed(c) && |seqnum| == 8 && |random| == c.variableNonceLen
    requires c.aead.Some? ==> Correct(c.aead.value) && c.aead.value.tagLen(|text|).Some?
    ensures |SealBytes(c, kind, recordVersion, seqnum, random, text, [])| ==
            ExplicitNonceLen(c) + |text| + SuffixLen(c, |text|, 0).value <= |text| + MaxOverhead(c)
  {
    assert text + [] == text;
    if c.aead.Some? {
      var variable := if c.randomVariableNonce then random else seqnum;
      var nonce, ad := Nonce(c, variable), AdditionalData(c, kind, recordVersion, seqnum, |text|);
      assert |c.aead.value.seal(nonce, ad, text)| == |text| + c.aead.value.tagLen(|text|).value;
    }
  }

  lemma {:induction false} XorBytesInjective(a: Octets, b: Octets, k: Octets)
    requires |a| == |b| == |k| && XorBytes(a, k) == XorBytes(b, k)
    ensures a == b
  {
    if a != [] {
      var n := |a| - 1;
      var x, y := XorBytes(a[..n], k[..n]), XorBytes(b[..n], k[..n]);
      assert XorBytes(a, k)[..n] == x && XorBytes(b, k)[..n] == y;
      assert XorBytes(a, k)[n] == XorByte(a[n], k[n]) && XorBytes(b, k)[n] == XorByte(b[n], k[n]);
      XorBytesInjective(a[..n], b[..n], k[..n]);
      Bits.XorTwice(a[n], k[n]);
      Bits.XorTwice(b[n], k[n]);
      assert a == a[..n] + [a[n]] && b == b[..n] + [b[n]];
    }
  }

  /** Distinct variable parts give distinct nonces; without random nonces that is the sequence number. */
  lemma DistinctNonces(c: Context, s: Octets, t: Octets)
    requires WellFormed(c) && c.aead.Some? && |s| == |t| == c.variableNonceLen && s != t
    ensures Nonce(c, s) != Nonce(c, t)
  {
    if c.xorFixedNonce {
      var pad := Zeros(|c.fixedNonce| - 8);
      assert (pad + s)[|pad|..] == s && (pad + t)[|pad|..] == t;
      if Nonce(c, s) == Nonce(c, t) {
        XorBytesInjective(pad + s, pad + t, c.fixedNonce);
      }
    } else {
      assert (c.fixedNonce + s)[|c.fixedNonce|..] == s && (c.fixedNonce + t)[|c.fixedNonce|..] == t;
    }
  }

  // ---- the methods ----

  /** `OPENSSL_memcpy(dest + at, src, |src|)`. */
  method Copy(dest: array<Byte>, at: nat, src: Octets)
    requires at + |src| <= dest.Length
    modifies dest
    ensures dest[..at] == old(dest[..at]) && dest[at..at + |src|] == src
    ensures dest[at + |src|..] == old(dest[at + |src|..])
  {
    for i := 0 to |src|
      invariant dest[..at] == old(dest[..at]) && dest[at..at + i] == src[..i]
      invariant dest[at + |src|..] == old(dest[at + |src|..])
    {
      dest[at + i] := src[i];
      assert dest[at..at + i + 1] == src[..i] + [src[i]];
    }
  }

  /** The part `Open` and `SealScatter` share: fixed or zero prefix, variable part, XOR loop. */
  method AssembleNonce(c: Context, variable: Octets) returns (bytes: Octets)
    requires WellFormed(c) && c.aead.Some? && |variable| == c.variableNonceLen
    ensures bytes == Nonce(c, variable)
  {
    var nonce := new Byte[c.aead.value.nonceLen];
    var prefix := if c.xorFixedNonce then Zeros(|c.fixedNonce| - c.variableNonceLen) else c.fixedNonce;
    Copy(nonce, 0, prefix);
    Copy(nonce, |prefix|, variable);
    assert nonce[..] == nonce[..|prefix|] + nonce[|prefix|..|prefix| + |variable|];
    bytes := nonce[..];
    if c.xorFixedNonce {
      bytes := XorLoop(bytes, c.fixedNonce);
    }
  }

  /** One assignment to the nonce, on what it holds. */
  method Put(dest: array<Byte>, i: nat, x: Byte)
    requires i < dest.Length
    modifies dest
    ensures dest[..] == old(dest[..])[i := x]
  {
    dest[i] := x;
  }

  /** The loop that XORs the fixed nonce in. */
  method XorLoop(input: Octets, key: Octets) returns (r: Octets)
    requires |input| == |key|
    ensures r == XorBytes(input, key)
  {
    hide XorByte, XorBytes;
    var nonce := new Byte[|input|];
    Copy(nonce, 0, input);
    assert nonce[..] == input;
    XorBytesNone(input, key);
    for i := 0 to |key|
      invariant nonce[..] == XorBytes(input[..i], key[..i]) + input[i..]
    {
      assert nonce[i] == nonce[..][i];
      XorBytesStep(input, key, i, nonce[..]);
      Put(nonce, i, XorByte(nonce[i], key[i]));
    }
    XorBytesAll(input, key);
    r := nonce[..];
  }

  lemma XorBytesNone(a: Octets, b: Octets)
    ensures XorBytes(a[..0], b[..0]) + a[0..] == a
  {
  }

  lemma XorBytesAll(a: Octets, b: Octets)
    requires |a| == |b|
    ensures XorBytes(a[..|b|], b[..|b|]) + a[|b|..] == XorBytes(a, b)
  {
    hide XorBytes;
    assert a[..|b|] == a && b[..|b|] == b;
  }

  /** The place behind the bytes done is overwritten. */
  lemma XorBytesStep(a: Octets, b: Octets, i: nat, now: Octets)
    requires |a| == |b| && i < |a| && now == XorBytes(a[..i], b[..i]) + a[i..]
    ensures now[i] == a[i]
    ensures now[i := XorByte(a[i], b[i])] == XorBytes(a[..i + 1], b[..i + 1]) + a[i + 1..]
  {
    hide XorByte;
    assert a[..i + 1][..i] == a[..i] && b[..i + 1][..i] == b[..i];
  }

  /** `SSLAEADContext::Open`. */
  method Open(c: Context, kind: Byte, recordVersion: nat, seqnum: Octets, input: Octets) returns (out: Option<Octets>)
    requires WellFormed(c) && |seqnum| == 8
    ensures out == OpenBytes(c, kind, recordVersion, seqnum, input)
  {
    if c.aead.None? {
      return Some(input);
    }
    var plaintextLen := 0;
    if !c.omitLengthInAd {
      if |input| < MaxOverhead(c) {
        return None;
      }
      plaintextLen := |input| - MaxOverhead(c);
    }
    var ad := AdditionalData(c, kind, recordVersion, seqnum, plaintextLen);
    var rest, nonce := input, [];
    if c.variableNonceIncludedInRecord {
      if |rest| < c.variableNonceLen {
        return None;
      }
      nonce := AssembleNonce(c, rest[..c.variableNonceLen]);
      rest := rest[c.variableNonceLen..];
    } else {
      nonce := AssembleNonce(c, seqnum);
      assert input[0..] == input;
    }
    return c.aead.value.open(nonce, ad, rest);
  }

  /** `SSLAEADContext::Seal`: fails if the tag length is undefined or the result does not fit. */
  method Seal(c: Context, kind: Byte, recordVersion: nat, seqnum: Octets, random: Octets, text: Octets, maxOut: nat)
    returns (out: Option<Octets>)
    requires WellFormed(c) && |seqnum| == 8 && |random| == c.variableNonceLen
    requires c.aead.Some? ==> Correct(c.aead.value)
    ensures out.Some? <==> SuffixLen(c, |text|, 0).Some? &&
                           ExplicitNonceLen(c) + |text| + SuffixLen(c, |text|, 0).value <= maxOut
    ensures out.Some? ==> out.value == SealBytes(c, kind, recordVersion, seqnum, random, text, [])
    ensures out.Some? ==> |out.value| <= maxOut
  {
    var prefixLen := ExplicitNonceLen(c);
    var suffixLen := SuffixLen(c, |text|, 0);
    if suffixLen.None? || |text| + prefixLen + suffixLen.value > maxOut {
      return None;
    }
    assert text + [] == text;
    if c.aead.None? {
      return Some(text);
    }
    SealedLength(c, kind, recordVersion, seqnum, random, text);
    var ad := AdditionalData(c, kind, recordVersion, seqnum, |text|);
    var variable := if c.randomVariableNonce then random else seqnum;
    var nonce := AssembleNonce(c, variable);
    var prefix := if c.variableNonceIncludedInRecord then variable else [];
    return Some(prefix + c.aead.value.seal(nonce, ad, text));
  }
}
