/**
 * The key reader of Oxygen_Security_Rsa_PhpRsaVerifier: a cursor over the
 * DER bytes of a SubjectPublicKeyInfo (section 4.1.2.7 of RFC 5280, with
 * the RSA key of section 2.3.1 of RFC 3279), consumed by `strShift` and
 * `extractNextKeySegmentLength`, and the sequence of reads in
 * `getKeyModulusAndExponent`. Lengths follow section 8.1.3 of ITU-T X.690,
 * except that a long-form length keeps only its low four bytes.
 */
module RsaKey {

  import opened Wrappers
  import opened Bits
  import opened Bytes
  import opened OxygenException
  import Limbs
  import Base256
  import BigInteger

  /**
   * What the verifier can raise: an Oxygen_Exception code, or the plain
   * Exception of line 77. `ZeroModulus` stands for a `modPow` that never
   * returns: with a zero modulus and an exponent of 3 or more, the Barrett
   * set-up normalises the divisor forever.
   */
  datatype Failure = Raised(code: ErrorCode) | ShouldNotGetHere | ZeroModulus

  function Error(c: RsaCode): Failure
  {
    Raised(Rsa(c))
  }

  /** 2^32, the range of `unpack('N', …)`. */
  const Pow32: nat := 0x1_0000_0000

  /** The DER contents of the rsaEncryption object identifier, 1.2.840.113549.1.1.1. */
  const RsaEncryptionOid: seq<int> := [0x2a, 0x86, 0x48, 0x86, 0xf7, 0x0d, 0x01, 0x01, 0x01]

  // ---------------------------------------------------------------------
  // strShift and extractNextKeySegmentLength, as functions of the bytes
  // ---------------------------------------------------------------------

  /**
   * `strShift($s, $k)`: the first k bytes and the bytes after them; a
   * length of 0 or one beyond the end raises RSA_KEY_INVALID_LENGTH.
   */
  function Shift(s: seq<int>, k: nat): (r: Result<(seq<int>, seq<int>), Failure>)
    ensures r.Success? <==> 0 < k <= |s|
    ensures r.Success? ==> |r.value.0| == k && r.value.0 + r.value.1 == s
    ensures r.Failure? ==> r.error == Error(InvalidLength)
    ensures r.Success? && IsBytes(s) ==> IsBytes(r.value.0) && IsBytes(r.value.1)
  {
    if |s| < k || k == 0 then Failure(Error(InvalidLength))
    else
      assert s[..k] + s[k..] == s;
      Success((s[..k], s[k..]))
  }

  /**
   * `unpack('N', substr(str_pad($temp, 4, chr(0), STR_PAD_LEFT), -4))`:
   * the last four bytes of the zero-padded string, read big-endian.
   */
  function Low32(temp: seq<int>): (r: nat)
    requires IsBytes(temp)
    ensures r == BE(temp) % Pow32
  {
    var padded := Base256.PadLeftZeros(temp, 4);
    var last := padded[|padded| - 4..];
    LastFourBytes(padded, last);
    BE(last)
  }

  lemma LastFourBytes(padded: seq<int>, last: seq<int>)
    requires IsBytes(padded) && |padded| >= 4 && last == padded[|padded| - 4..]
    ensures BE(last) == BE(padded) % Pow32
  {
    var front := padded[..|padded| - 4];
    assert front + last == padded;
    BEConcat(front, last);
    BEBound(last);
    BEBound(front);
    Pow2ThirtyTwo();
    DivModUnique(BE(padded), Pow32, BE(front), BE(last));
  }

  /**
   * `extractNextKeySegmentLength`: one length byte; when its bit 7 is set,
   * its low seven bits count the bytes of a long-form length that follow.
   * Returns the length and the bytes after it.
   */
  function SegmentLength(s: seq<int>): (r: Result<(nat, seq<int>), Failure>)
    requires IsBytes(s)
    ensures r.Success? ==> IsBytes(r.value.1) && |r.value.1| < |s| && r.value.1 == s[|s| - |r.value.1|..]
  {
    var first :- Shift(s, 1);
    var length := first.0[0];
    // `$length & 0x80` and `$length & 0x7F` on a byte (LengthByte).
    if length >= 128 then
      var count := length - 128;
      var temp :- Shift(first.1, count);
      assert first.1 == s[1..];
      assert temp.1 == s[1 + count..];
      Success((Low32(temp.0), temp.1))
    else
      assert first.1 == s[1..];
      Success((length, first.1))
  }

  /** The byte tests of `extractNextKeySegmentLength`, as arithmetic on a byte. */
  lemma LengthByte(b: nat)
    requires b < 256
    ensures And(b, 0x80) != 0 <==> b >= 128
    ensures And(b, 0x7F) == b % 128
  {
    assert Pow2(7) == 128 && Pow2(8) == 256 by {
      assert Pow2(4) == 16;
      Pow2Add(4, 3);
      Pow2Add(4, 4);
    }
    AndTopBit(b, 7);
    AndLowMask(b, 7);
  }

  /**
   * The two forms of a length: a byte below 128 is the length itself; a
   * byte 128 + c is followed by c length bytes, of which the value modulo
   * 2^32 is the length, and c = 0 (the indefinite form) raises
   * RSA_KEY_INVALID_LENGTH, as does running out of bytes.
   */
  lemma SegmentLengthForms(s: seq<int>)
    requires IsBytes(s)
    ensures |s| == 0 ==> SegmentLength(s) == Failure(Error(InvalidLength))
    ensures |s| > 0 && s[0] < 128 ==> SegmentLength(s) == Success((s[0], s[1..]))
    ensures |s| > 0 && s[0] >= 128 ==>
      var c := s[0] - 128;
      SegmentLength(s) ==
        if 0 < c < |s| then Success((BE(s[1..1 + c]) % Pow32, s[1 + c..]))
        else Failure(Error(InvalidLength))
  {
    if |s| > 0 {
      assert s[..1] == [s[0]];
      assert Shift(s, 1) == Success(([s[0]], s[1..]));
      if s[0] >= 128 {
        var c := s[0] - 128;
        if 0 < c < |s| {
          assert s[1..][..c] == s[1..1 + c] && s[1..][c..] == s[1 + c..];
          assert Shift(s[1..], c) == Success((s[1..1 + c], s[1 + c..]));
          assert SegmentLength(s) == Success((Low32(s[1..1 + c]), s[1 + c..]));
        } else {
          assert Shift(s[1..], c).Failure?;
        }
      }
    }
  }

  // ---------------------------------------------------------------------
  // getKeyModulusAndExponent, stage by stage
  // ---------------------------------------------------------------------

  /** The outer SEQUENCE: tag 0x30, and a length equal to the bytes that remain. */
  function OuterSequence(key: seq<int>): (r: Result<seq<int>, Failure>)
    requires IsBytes(key)
    ensures r.Success? ==> IsBytes(r.value)
  {
    var tag :- Shift(key, 1);
    if tag.0[0] != 48 then Failure(Error(MissingAsn1Sequence))
    else
      var length :- SegmentLength(tag.1);
      if length.0 != |length.1| then Failure(Error(InvalidLength))
      else Success(length.1)
  }

  /**
   * The AlgorithmIdentifier: tag 0x30 and a length that delimits the
   * header; inside it, tag 6 and the rsaEncryption identifier. The rest of
   * the header (the parameters) is not read.
   */
  function AlgorithmIdentifier(s: seq<int>): (r: Result<seq<int>, Failure>)
    requires IsBytes(s)
    ensures r.Success? ==> IsBytes(r.value)
  {
    var tag :- Shift(s, 1);
    if tag.0[0] != 48 then Failure(Error(MissingAsn1Sequence))
    else
      var length :- SegmentLength(tag.1);
      var header :- Shift(length.1, length.0);
      // The header is not empty, so the shift of its tag byte cannot fail.
      if header.0[0] != 6 then Failure(Error(MissingAsn1Object))
      else
        var oidLength :- SegmentLength(header.0[1..]);
        var oid :- Shift(oidLength.1, oidLength.0);
        if oid.0 != RsaEncryptionOid then Failure(Error(UnsupportedEncryption))
        else Success(header.1)
  }

  /**
   * The BIT STRING header: the tag, then the length (read and ignored),
   * and only then the check that the tag is 3; then the unused-bits byte.
   */
  function BitStringHeader(s: seq<int>): (r: Result<seq<int>, Failure>)
    requires IsBytes(s)
    ensures r.Success? ==> IsBytes(r.value)
  {
    var tag :- Shift(s, 1);
    var length :- SegmentLength(tag.1);
    if tag.0[0] != 3 then Failure(Error(MissingAsn1Bitstring))
    else
      var unused :- Shift(length.1, 1);
      Success(unused.1)
  }

  /**
   * The RSAPublicKey SEQUENCE: tag 0x30, a length equal to the bytes that
   * remain, and the INTEGER tag 2 of the modulus.
   */
  function PublicKeySequence(s: seq<int>): (r: Result<seq<int>, Failure>)
    requires IsBytes(s)
    ensures r.Success? ==> IsBytes(r.value)
  {
    var tag :- Shift(s, 1);
    if tag.0[0] != 48 then Failure(Error(MissingAsn1Sequence))
    else
      var length :- SegmentLength(tag.1);
      if length.0 != |length.1| then Failure(Error(InvalidLength))
      else
        var intTag :- Shift(length.1, 1);
        if intTag.0[0] != 2 then Failure(Error(MissingAsn1Integer))
        else Success(intTag.1)
  }

  /**
   * The modulus bytes (a one-byte modulus of at most 2 raises the plain
   * Exception), one byte skipped without a check (the exponent's tag), and
   * the exponent bytes. Anything after the exponent is not read.
   */
  function ModulusAndExponent(s: seq<int>): (r: Result<(seq<int>, seq<int>), Failure>)
    requires IsBytes(s)
    ensures r.Success? ==> IsBytes(r.value.0) && IsBytes(r.value.1)
    ensures r.Success? ==> |r.value.0| > 0 && |r.value.1| > 0 && !(|r.value.0| == 1 && r.value.0[0] <= 2)
  {
    var modLength :- SegmentLength(s);
    var modulus :- Shift(modLength.1, modLength.0);
    if |modulus.0| == 1 && modulus.0[0] <= 2 then Failure(ShouldNotGetHere)
    else
      var skipped :- Shift(modulus.1, 1);
      var expLength :- SegmentLength(skipped.1);
      var exponent :- Shift(expLength.1, expLength.0);
      Success((modulus.0, exponent.0))
  }

  /**
   * The raw modulus and exponent bytes that `getKeyModulusAndExponent`
   * reads from a binary key, or the first error it raises.
   */
  function ParseKey(key: seq<int>): (r: Result<(seq<int>, seq<int>), Failure>)
    requires IsBytes(key)
    ensures r.Success? ==> IsBytes(r.value.0) && IsBytes(r.value.1)
    ensures r.Success? ==> |r.value.0| > 0 && |r.value.1| > 0 && !(|r.value.0| == 1 && r.value.0[0] <= 2)
  {
    var a :- OuterSequence(key);
    var b :- AlgorithmIdentifier(a);
    var c :- BitStringHeader(b);
    var d :- PublicKeySequence(c);
    ModulusAndExponent(d)
  }

  // ---------------------------------------------------------------------
  // The DER encoding the reader accepts
  // ---------------------------------------------------------------------

  /** The DER length octets: short form below 128, otherwise the minimal long form. */
  function EncodeLength(n: nat): (r: seq<int>)
    requires n < Pow32
    ensures IsBytes(r) && 0 < |r| <= 5
  {
    FourLengthBytes(n);
    if n < 128 then [n] else [128 + |BytesOf(n)|] + BytesOf(n)
  }

  /** A value below 256^k has at most k shortest bytes. */
  lemma BytesOfLength(n: nat, k: nat)
    requires n < Pow2(8 * k)
    ensures |BytesOf(n)| <= k
  {
    var b := BytesOf(n);
    if |b| > k {
      BELeading(b);
      Pow2Mono(8 * k, 8 * (|b| - 1));
    }
  }

  lemma FourLengthBytes(n: nat)
    requires n < Pow32
    ensures |BytesOf(n)| <= 4
  {
    Pow2ThirtyTwo();
    BytesOfLength(n, 4);
  }

  /** Reading an encoded length gives back the length and the bytes after it. */
  lemma SegmentLengthOfEncoded(n: nat, rest: seq<int>)
    requires n < Pow32 && IsBytes(rest)
    ensures SegmentLength(EncodeLength(n) + rest) == Success((n, rest))
  {
    var s := EncodeLength(n) + rest;
    SegmentLengthForms(s);
    if n < 128 {
      assert s[1..] == rest;
    } else {
      var b := BytesOf(n);
      FourLengthBytes(n);
      assert s[1..1 + |b|] == b;
      assert s[1 + |b|..] == rest;
      DivModUnique(n, Pow32, 0, n);
    }
  }

  /** A tag, the length of the body, and the body. */
  function Tlv(tag: int, body: seq<int>): (r: seq<int>)
    requires 0 <= tag < 256 && IsBytes(body) && |body| < Pow32
    ensures IsBytes(r) && r == [tag] + EncodeLength(|body|) + body
  {
    [tag] + EncodeLength(|body|) + body
  }

  lemma Pow2ThirtyTwo()
    ensures Pow2(32) == Pow32
  {
    Pow2Constants();
    Pow2Add(31, 1);
  }

  /** The AlgorithmIdentifier for rsaEncryption with NULL parameters. */
  function AlgorithmIdentifierDer(): (r: seq<int>)
    ensures IsBytes(r) && r == [48, 13, 6, 9] + RsaEncryptionOid + [5, 0]
  {
    Pow2ThirtyTwo();
    var r := Tlv(48, Tlv(6, RsaEncryptionOid) + [5, 0]);
    assert EncodeLength(9) == [9] && EncodeLength(13) == [13];
    r
  }

  /** The size bound under which every length of the encoding fits the reader. */
  predicate Encodable(modulus: seq<int>, exponent: seq<int>)
  {
    IsBytes(modulus) && IsBytes(exponent) && |modulus| + |exponent| < 0x1000_0000
  }

  /** RSAPublicKey: the SEQUENCE of the modulus and exponent INTEGERs. */
  function PublicKeyDer(modulus: seq<int>, exponent: seq<int>): (r: seq<int>)
    requires Encodable(modulus, exponent)
    ensures IsBytes(r) && |r| < |modulus| + |exponent| + 32
  {
    Tlv(48, Tlv(2, modulus) + Tlv(2, exponent))
  }

  /** SubjectPublicKeyInfo: the algorithm, then the key inside a BIT STRING with no unused bits. */
  function SubjectPublicKeyInfo(modulus: seq<int>, exponent: seq<int>): (r: seq<int>)
    requires Encodable(modulus, exponent)
    ensures IsBytes(r)
  {
    Tlv(48, AlgorithmIdentifierDer() + Tlv(3, [0] + PublicKeyDer(modulus, exponent)))
  }

  /** The tag byte of a TLV, and the bytes after it. */
  lemma TlvParts(tag: int, body: seq<int>)
    requires 0 <= tag < 256 && IsBytes(body) && |body| < Pow32
    ensures Tlv(tag, body)[0] == tag
    ensures Tlv(tag, body)[1..] == EncodeLength(|body|) + body
  {
    var s := Tlv(tag, body);
    assert s == [tag] + (EncodeLength(|body|) + body);
  }

  lemma OuterSequenceOfTlv(body: seq<int>)
    requires IsBytes(body) && |body| < Pow32
    ensures OuterSequence(Tlv(48, body)) == Success(body)
  {
    var s := Tlv(48, body);
    TlvParts(48, body);
    assert s[..1] == [48];
    SegmentLengthOfEncoded(|body|, body);
  }

  /** The object identifier inside the AlgorithmIdentifier header reads back. */
  lemma RsaEncryptionOidOfDer()
    ensures SegmentLength([9] + RsaEncryptionOid + [5, 0]) == Success((9, RsaEncryptionOid + [5, 0]))
  {
    var s := [9] + RsaEncryptionOid + [5, 0];
    SegmentLengthForms(s);
    assert s[1..] == RsaEncryptionOid + [5, 0];
  }

  lemma AlgorithmIdentifierOfDer(rest: seq<int>)
    requires IsBytes(rest)
    ensures AlgorithmIdentifier(AlgorithmIdentifierDer() + rest) == Success(rest)
  {
    var s := AlgorithmIdentifierDer() + rest;
    var header := [6, 9] + RsaEncryptionOid + [5, 0];
    assert s[..1] == [48];
    assert s[1..] == [13] + (header + rest);
    SegmentLengthForms(s[1..]);
    assert SegmentLength(s[1..]) == Success((13, header + rest));
    assert (header + rest)[..13] == header;
    assert (header + rest)[13..] == rest;
    assert header[1..] == [9] + RsaEncryptionOid + [5, 0];
    RsaEncryptionOidOfDer();
    assert (RsaEncryptionOid + [5, 0])[..9] == RsaEncryptionOid;
  }

  lemma BitStringHeaderOfTlv(key: seq<int>)
    requires IsBytes(key) && |key| + 1 < Pow32
    ensures BitStringHeader(Tlv(3, [0] + key)) == Success(key)
  {
    var s := Tlv(3, [0] + key);
    TlvParts(3, [0] + key);
    assert s[..1] == [3];
    SegmentLengthOfEncoded(|key| + 1, [0] + key);
    assert ([0] + key)[..1] == [0] && ([0] + key)[1..] == key;
  }

  /** A SEQUENCE whose body starts with the INTEGER tag. */
  lemma PublicKeySequenceOfTlv(body: seq<int>)
    requires IsBytes(body) && 0 < |body| < Pow32 && body[0] == 2
    ensures PublicKeySequence(Tlv(48, body)) == Success(body[1..])
  {
    var s := Tlv(48, body);
    TlvParts(48, body);
    assert s[..1] == [48];
    SegmentLengthOfEncoded(|body|, body);
    assert body[..1] == [2];
  }

  lemma PublicKeySequenceOfDer(modulus: seq<int>, exponent: seq<int>)
    requires Encodable(modulus, exponent)
    ensures PublicKeySequence(PublicKeyDer(modulus, exponent))
      == Success(EncodeLength(|modulus|) + modulus + Tlv(2, exponent))
  {
    var first := Tlv(2, modulus);
    var body := first + Tlv(2, exponent);
    TlvParts(2, modulus);
    assert body[0] == 2;
    assert body[1..] == first[1..] + Tlv(2, exponent);
    PublicKeySequenceOfTlv(body);
  }

  /** An INTEGER body, then any tag byte and a length-prefixed exponent. */
  lemma ModulusAndExponentOfDer(modulus: seq<int>, exponent: seq<int>)
    requires Encodable(modulus, exponent) && |modulus| > 0 && |exponent| > 0
    requires !(|modulus| == 1 && modulus[0] <= 2)
    ensures ModulusAndExponent(EncodeLength(|modulus|) + modulus + Tlv(2, exponent))
      == Success((modulus, exponent))
  {
    var tail := Tlv(2, exponent);
    var s := EncodeLength(|modulus|) + modulus + tail;
    assert s == EncodeLength(|modulus|) + (modulus + tail);
    SegmentLengthOfEncoded(|modulus|, modulus + tail);
    assert (modulus + tail)[..|modulus|] == modulus;
    assert (modulus + tail)[|modulus|..] == tail;
    TlvParts(2, exponent);
    SegmentLengthOfEncoded(|exponent|, exponent);
    assert exponent[..|exponent|] == exponent;
  }

  /**
   * The reader gives back the modulus and exponent of any key in the
   * encoding it was written for, whatever their byte strings.
   */
  lemma ParseKeyOfEncoded(modulus: seq<int>, exponent: seq<int>)
    requires Encodable(modulus, exponent) && |modulus| > 0 && |exponent| > 0
    requires !(|modulus| == 1 && modulus[0] <= 2)
    ensures ParseKey(SubjectPublicKeyInfo(modulus, exponent)) == Success((modulus, exponent))
  {
    var key := PublicKeyDer(modulus, exponent);
    var bits := [0] + key;
    var body := AlgorithmIdentifierDer() + Tlv(3, bits);
    OuterSequenceOfTlv(body);
    AlgorithmIdentifierOfDer(Tlv(3, bits));
    BitStringHeaderOfTlv(key);
    PublicKeySequenceOfDer(modulus, exponent);
    ModulusAndExponentOfDer(modulus, exponent);
    ParseKeyChain(SubjectPublicKeyInfo(modulus, exponent), body, Tlv(3, bits), key,
                  EncodeLength(|modulus|) + modulus + Tlv(2, exponent));
  }

  /** `getPublicKeyModulusAndExponent` when each reader in turn gives the next one its input. */
  lemma ParseKeyChain(key: seq<int>, a: seq<int>, b: seq<int>, c: seq<int>, d: seq<int>)
    requires IsBytes(key)
    requires OuterSequence(key) == Success(a) && AlgorithmIdentifier(a) == Success(b)
    requires BitStringHeader(b) == Success(c) && PublicKeySequence(c) == Success(d)
    ensures ParseKey(key) == ModulusAndExponent(d)
  {
  }

  // ---------------------------------------------------------------------
  // The cursor
  // ---------------------------------------------------------------------

  /** The key string that `strShift` and `extractNextKeySegmentLength` consume by reference. */
  class KeyCursor {
    var data: seq<int>

    constructor (s: seq<int>)
      ensures data == s
    {
      data := s;
    }

    /** `strShift($this->data, $length)`. */
    method StrShift(length: nat) returns (r: Result<seq<int>, Failure>)
      modifies this
      ensures Shift(old(data), length).Success? ==>
        r == Success(Shift(old(data), length).value.0) && data == Shift(old(data), length).value.1
      ensures Shift(old(data), length).Failure? ==>
        r == Failure(Shift(old(data), length).error) && data == old(data)
    {
      if |data| < length || length == 0 {
        return Failure(Error(InvalidLength));
      }
      r := Success(data[..length]);
      data := data[length..];
    }

    /** `extractNextKeySegmentLength($this->data)`. */
    method NextSegmentLength() returns (r: Result<nat, Failure>)
      requires IsBytes(data)
      modifies this
      ensures SegmentLength(old(data)).Success? ==>
        r == Success(SegmentLength(old(data)).value.0) && data == SegmentLength(old(data)).value.1
      ensures SegmentLength(old(data)).Failure? ==> r == Failure(SegmentLength(old(data)).error)
    {
      var first :- StrShift(1);
      var length: nat := first[0];
      // `$length & 0x80` and `$length & 0x7F` on a byte (LengthByte).
      if length >= 128 {
        length := length - 128;
        var temp :- StrShift(length);
        length := Low32(temp);
      }
      return Success(length);
    }
  }

  /** Whether a stage succeeded, and the error it raised if not. */
  function Status<T>(r: Result<T, Failure>): (o: Result<(), Failure>)
    ensures o.Success? <==> r.Success?
    ensures o.Failure? ==> o.error == r.error
  {
    if r.Success? then Success(()) else Failure(r.error)
  }

  /** `new Oxygen_Math_BigInteger($bytes, 256)`: the limbs its constructor builds. */
  function Constructed(bytes: seq<int>): (b: BigInteger.BigInt)
    requires IsBytes(bytes)
    ensures Limbs.Digits(b.value) && Limbs.Val(b.value) == BE(bytes) && !b.negative
  {
    if |bytes| > 0 && BE(bytes) == 0 then
      assert Limbs.Val([0]) == 0;
      BigInteger.BigInt([0], false)
    else BigInteger.BigInt(Limbs.ToLimbs(BE(bytes)), false)
  }

  /** The first reads of `getKeyModulusAndExponent`: the outer SEQUENCE. */
  method ReadOuterSequence(key: KeyCursor) returns (o: Result<(), Failure>)
    requires IsBytes(key.data)
    modifies key
    ensures o == Status(OuterSequence(old(key.data)))
    ensures o.Success? ==> key.data == OuterSequence(old(key.data)).value
  {
    var tag :- key.StrShift(1);
    if tag[0] != 48 {
      return Failure(Error(MissingAsn1Sequence));
    }
    var length :- key.NextSegmentLength();
    if length != |key.data| {
      return Failure(Error(InvalidLength));
    }
    return Success(());
  }

  /** The AlgorithmIdentifier, whose header bytes are read through a second cursor. */
  method ReadAlgorithmIdentifier(key: KeyCursor) returns (o: Result<(), Failure>)
    requires IsBytes(key.data)
    modifies key
    ensures o == Status(AlgorithmIdentifier(old(key.data)))
    ensures o.Success? ==> key.data == AlgorithmIdentifier(old(key.data)).value
  {
    var tag :- key.StrShift(1);
    if tag[0] != 48 {
      return Failure(Error(MissingAsn1Sequence));
    }
    var length :- key.NextSegmentLength();
    var headerBytes :- key.StrShift(length);
    var header := new KeyCursor(headerBytes);
    var oidTag := header.StrShift(1);
    tag := oidTag.value;
    if tag[0] != 6 {
      return Failure(Error(MissingAsn1Object));
    }
    var oidLength :- header.NextSegmentLength();
    var oid :- header.StrShift(oidLength);
    if oid != RsaEncryptionOid {
      return Failure(Error(UnsupportedEncryption));
    }
    return Success(());
  }

  /** The BIT STRING header and its unused-bits byte. */
  method ReadBitStringHeader(key: KeyCursor) returns (o: Result<(), Failure>)
    requires IsBytes(key.data)
    modifies key
    ensures o == Status(BitStringHeader(old(key.data)))
    ensures o.Success? ==> key.data == BitStringHeader(old(key.data)).value
  {
    var tag :- key.StrShift(1);
    var _ :- key.NextSegmentLength();
    if tag[0] != 3 {
      return Failure(Error(MissingAsn1Bitstring));
    }
    var _ :- key.StrShift(1);
    return Success(());
  }

  /** The RSAPublicKey SEQUENCE and the modulus INTEGER tag. */
  method ReadPublicKeySequence(key: KeyCursor) returns (o: Result<(), Failure>)
    requires IsBytes(key.data)
    modifies key
    ensures o == Status(PublicKeySequence(old(key.data)))
    ensures o.Success? ==> key.data == PublicKeySequence(old(key.data)).value
  {
    var tag :- key.StrShift(1);
    if tag[0] != 48 {
      return Failure(Error(MissingAsn1Sequence));
    }
    var length :- key.NextSegmentLength();
    if length != |key.data| {
      return Failure(Error(InvalidLength));
    }
    tag :- key.StrShift(1);
    if tag[0] != 2 {
      return Failure(Error(MissingAsn1Integer));
    }
    return Success(());
  }

  /** The modulus bytes, the skipped tag byte and the exponent bytes. */
  method ReadModulusAndExponent(key: KeyCursor) returns (r: Result<(seq<int>, seq<int>), Failure>)
    requires IsBytes(key.data)
    modifies key
    ensures r == ModulusAndExponent(old(key.data))
  {
    var length :- key.NextSegmentLength();
    var rawModulus :- key.StrShift(length);
    if |rawModulus| == 1 && rawModulus[0] <= 2 {
      return Failure(ShouldNotGetHere);
    }
    var _ :- key.StrShift(1);
    var exponentLength :- key.NextSegmentLength();
    var rawExponent :- key.StrShift(exponentLength);
    return Success((rawModulus, rawExponent));
  }

  /**
   * `getKeyModulusAndExponent`: the reads of ParseKey on one cursor, then
   * the modulus and exponent built from their bytes.
   */
  method GetKeyModulusAndExponent(binary: seq<int>) returns (r: Result<(BigInteger.BigInt, BigInteger.BigInt), Failure>)
    requires IsBytes(binary)
    ensures ParseKey(binary).Failure? ==> r == Failure(ParseKey(binary).error)
    ensures ParseKey(binary).Success? ==>
      r == Success((Constructed(ParseKey(binary).value.0), Constructed(ParseKey(binary).value.1)))
  {
    var key := new KeyCursor(binary);
    var _ :- ReadOuterSequence(key);
    var _ :- ReadAlgorithmIdentifier(key);
    var _ :- ReadBitStringHeader(key);
    var _ :- ReadPublicKeySequence(key);
    var raw :- ReadModulusAndExponent(key);
    var modulusLimbs := Base256.FromBytesAsWritten(raw.0);
    var exponentLimbs := Base256.FromBytesAsWritten(raw.1);
    return Success((BigInteger.BigInt(modulusLimbs, false), BigInteger.BigInt(exponentLimbs, false)));
  }
}
