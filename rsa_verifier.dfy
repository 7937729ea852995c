/**
 * Oxygen_Security_Rsa_PhpRsaVerifier: RSASSA-PKCS1-v1_5 signature
 * verification with SHA-1 (section 8.2.2 of RFC 8017) on the pure-PHP
 * BigInteger. The key text is reduced to base64 (`extractKey`), decoded
 * and read by RsaKey; the signature goes through RSAVP1 (section 5.2.2)
 * and is compared with the EMSA-PKCS1-v1_5 encoding (section 9.2) of the
 * digest. `base64_decode` and `sha1` are parameters of the model.
 */
module RsaVerifier {

  import opened Wrappers
  import opened Bits
  import opened Bytes
  import opened OxygenException
  import opened RsaKey
  import Limbs
  import Base256
  import BigInteger
  import BigModPow
  import ModExp
  import HashEquals

  // ---------------------------------------------------------------------
  // extractKey
  // ---------------------------------------------------------------------

  /**
   * `preg_replace('{^-.*$}m', '', $key)`: the text of every line that
   * starts with '-' is removed; the line breaks stay. `lineStart` says
   * that the next character begins a line, `dropping` that the current
   * line is being removed.
   */
  function DashFilter(s: string, lineStart: bool, dropping: bool): (r: string)
    ensures |r| <= |s|
  {
    if |s| == 0 then ""
    else if s[0] == '\n' then "\n" + DashFilter(s[1..], true, false)
    else if dropping || (lineStart && s[0] == '-') then DashFilter(s[1..], false, true)
    else [s[0]] + DashFilter(s[1..], false, false)
  }

  function RemoveDashLines(s: string): (r: string)
  {
    DashFilter(s, true, false)
  }

  predicate IsBlank(c: char)
  {
    c == '\r' || c == '\n' || c == ' '
  }

  /** `str_replace(array("\r", "\n", ' '), '', $key)`. */
  function Strip(s: string): (r: string)
    ensures forall i :: 0 <= i < |r| ==> !IsBlank(r[i])
    ensures (forall i :: 0 <= i < |s| ==> !IsBlank(s[i])) ==> r == s
  {
    if |s| == 0 then ""
    else if IsBlank(s[0]) then Strip(s[1..])
    else [s[0]] + Strip(s[1..])
  }

  /** A character of `[a-zA-Z\d/+]`. */
  predicate Base64Char(c: char)
  {
    ('a' <= c <= 'z') || ('A' <= c <= 'Z') || ('0' <= c <= '9') || c == '/' || c == '+'
  }

  /** The number of '=' at the end of s. */
  function PadCount(s: string): (p: nat)
    ensures p <= |s|
    ensures forall i :: |s| - p <= i < |s| ==> s[i] == '='
    ensures p < |s| ==> s[|s| - p - 1] != '='
  {
    if |s| > 0 && s[|s| - 1] == '=' then 1 + PadCount(s[..|s| - 1]) else 0
  }

  /**
   * `preg_match('{^[a-zA-Z\d/+]+={0,2}$}', $key)`: at least one base64
   * character, then at most two '='. Characters of the class are never
   * '=', so the padding is the whole run of '=' at the end.
   */
  predicate Base64Text(s: string)
  {
    var p := PadCount(s);
    p <= 2 && |s| - p > 0 && forall i :: 0 <= i < |s| - p ==> Base64Char(s[i])
  }

  /** Every decoded string is a byte string. */
  ghost predicate Decoder(decode: string -> seq<int>)
  {
    forall s :: IsBytes(decode(s))
  }

  /** `sha1($m, true)`: twenty bytes (FIPS 180-4). */
  ghost predicate Sha1(sha1: seq<int> -> seq<int>)
  {
    forall m :: IsBytes(sha1(m)) && |sha1(m)| == 20
  }

  /**
   * `extractKey`: the armour lines and blanks removed, the base64 shape
   * checked (RSA_KEY_INVALID_FORMAT otherwise), then decoded.
   */
  function ExtractKey(key: string, decode: string -> seq<int>): (r: Result<seq<int>, Failure>)
    requires Decoder(decode)
    ensures r.Success? ==> IsBytes(r.value)
    ensures r.Failure? ==> r.error == Error(InvalidFormat)
  {
    var text := Strip(RemoveDashLines(key));
    if !Base64Text(text) then Failure(Error(InvalidFormat)) else Success(decode(text))
  }

  /** A text made of lines, each ended by a line break. */
  function Lines(lines: seq<string>): (r: string)
  {
    if |lines| == 0 then "" else lines[0] + "\n" + Lines(lines[1..])
  }

  function Concat(lines: seq<string>): (r: string)
  {
    if |lines| == 0 then "" else lines[0] + Concat(lines[1..])
  }

  predicate NoBreak(s: string)
  {
    forall i :: 0 <= i < |s| ==> s[i] != '\n'
  }

  /** A body line: base64 characters and '=' only. */
  predicate BodyLine(s: string)
  {
    forall i :: 0 <= i < |s| ==> Base64Char(s[i]) || s[i] == '='
  }

  /** An armour line: starts with '-', no line break. */
  predicate ArmourLine(s: string)
  {
    |s| > 0 && s[0] == '-' && NoBreak(s)
  }

  lemma {:induction false} DropRest(l: string, rest: string)
    requires NoBreak(l)
    ensures DashFilter(l + rest, false, true) == DashFilter(rest, false, true)
  {
    if |l| > 0 {
      assert (l + rest)[0] == l[0] != '\n';
      assert (l + rest)[1..] == l[1..] + rest;
      DropRest(l[1..], rest);
    } else {
      assert l + rest == rest;
    }
  }

  lemma {:induction false} KeepRest(l: string, rest: string)
    requires NoBreak(l)
    ensures DashFilter(l + rest, false, false) == l + DashFilter(rest, false, false)
  {
    if |l| > 0 {
      assert (l + rest)[0] == l[0] != '\n';
      assert (l + rest)[1..] == l[1..] + rest;
      KeepRest(l[1..], rest);
      assert [l[0]] + (l[1..] + DashFilter(rest, false, false)) == l + DashFilter(rest, false, false);
    } else {
      assert l + rest == rest;
    }
  }

  /** A line break ends whatever line was being read. */
  lemma BreakResets(y: string, lineStart: bool, dropping: bool)
    ensures DashFilter("\n" + y, lineStart, dropping) == "\n" + DashFilter(y, true, false)
  {
    assert ("\n" + y)[1..] == y;
  }

  /** An armour line disappears, and its line break stays. */
  lemma ArmourLineDropped(l: string, rest: string)
    requires ArmourLine(l)
    ensures DashFilter(l + rest, true, false) == DashFilter(rest, false, true)
  {
    assert (l + rest)[0] == '-';
    assert (l + rest)[1..] == l[1..] + rest;
    DropRest(l[1..], rest);
  }

  /** A body line followed by a line break passes through unchanged. */
  lemma BodyLineKept(l: string, y: string)
    requires BodyLine(l)
    ensures DashFilter(l + ("\n" + y), true, false) == l + "\n" + DashFilter(y, true, false)
  {
    if |l| == 0 {
      assert l + ("\n" + y) == "\n" + y;
      BreakResets(y, true, false);
    } else {
      var x := l + ("\n" + y);
      assert x[0] == l[0] && l[0] != '-' && l[0] != '\n';
      assert x[1..] == l[1..] + ("\n" + y);
      KeepRest(l[1..], "\n" + y);
      BreakResets(y, false, false);
      assert [l[0]] + (l[1..] + ("\n" + DashFilter(y, true, false))) == l + "\n" + DashFilter(y, true, false);
    }
  }

  /** Body lines pass through unchanged, whatever follows them. */
  lemma {:induction false} BodyLinesKept(lines: seq<string>, tail: string)
    requires forall j :: 0 <= j < |lines| ==> BodyLine(lines[j])
    ensures DashFilter(Lines(lines) + tail, true, false) == Lines(lines) + DashFilter(tail, true, false)
  {
    if |lines| > 0 {
      var l, rest := lines[0], Lines(lines[1..]);
      assert Lines(lines) + tail == l + ("\n" + (rest + tail));
      BodyLineKept(l, rest + tail);
      BodyLinesKept(lines[1..], tail);
    } else {
      assert Lines(lines) + tail == tail;
    }
  }

  lemma {:induction false} StripConcat(a: string, b: string)
    ensures Strip(a + b) == Strip(a) + Strip(b)
  {
    if |a| > 0 {
      assert (a + b)[0] == a[0];
      assert (a + b)[1..] == a[1..] + b;
      StripConcat(a[1..], b);
    } else {
      assert a + b == b;
    }
  }

  lemma {:induction false} StripLines(lines: seq<string>)
    requires forall j :: 0 <= j < |lines| ==> BodyLine(lines[j])
    ensures Strip(Lines(lines)) == Concat(lines)
  {
    if |lines| > 0 {
      var l, rest := lines[0], Lines(lines[1..]);
      assert Lines(lines) == l + ("\n" + rest);
      StripConcat(l, "\n" + rest);
      StripConcat("\n", rest);
      assert Strip("\n") == "";
      assert Strip(l) == l;
      StripLines(lines[1..]);
    }
  }

  lemma Regroup(a: string, b: string, c: string, d: string)
    ensures a + b + c + d == a + (b + (c + d))
  {
  }

  /** The armour lines go, the body lines and their breaks stay. */
  lemma ArmourRemoved(header: string, lines: seq<string>, footer: string)
    requires ArmourLine(header) && ArmourLine(footer)
    requires forall j :: 0 <= j < |lines| ==> BodyLine(lines[j])
    ensures RemoveDashLines(header + "\n" + Lines(lines) + footer) == "\n" + Lines(lines)
  {
    BodyLinesKept(lines, footer);
    ArmourAround(header, Lines(lines), footer);
  }

  /** Armour lines around a body that the filter leaves alone. */
  lemma ArmourAround(header: string, body: string, footer: string)
    requires ArmourLine(header) && ArmourLine(footer)
    requires DashFilter(body + footer, true, false) == body + DashFilter(footer, true, false)
    ensures RemoveDashLines(header + "\n" + body + footer) == "\n" + body
  {
    Regroup(header, "\n", body, footer);
    HeaderDropped(header, body + footer);
    ArmourLineAlone(footer);
  }

  /** The header line goes; its line break stays and starts the next line. */
  lemma HeaderDropped(header: string, x: string)
    requires ArmourLine(header)
    ensures RemoveDashLines(header + ("\n" + x)) == "\n" + DashFilter(x, true, false)
  {
    ArmourLineDropped(header, "\n" + x);
    BreakResets(x, false, true);
  }

  lemma ArmourLineAlone(l: string)
    requires ArmourLine(l)
    ensures DashFilter(l, true, false) == ""
  {
    assert l + "" == l;
    ArmourLineDropped(l, "");
  }

  /**
   * A PEM-armoured key: the BEGIN line, the base64 lines, and the END line
   * give the decoding of the base64 lines joined together, when those
   * have the base64 shape, and RSA_KEY_INVALID_FORMAT otherwise.
   */
  lemma ArmouredKey(header: string, lines: seq<string>, footer: string, decode: string -> seq<int>)
    requires ArmourLine(header) && ArmourLine(footer) && Decoder(decode)
    requires forall j :: 0 <= j < |lines| ==> BodyLine(lines[j])
    ensures ExtractKey(header + "\n" + Lines(lines) + footer, decode)
      == if Base64Text(Concat(lines)) then Success(decode(Concat(lines)))
         else Failure(Error(InvalidFormat))
  {
    ArmourRemoved(header, lines, footer);
    StripConcat("\n", Lines(lines));
    assert Strip("\n") == "";
    StripLines(lines);
  }

  // ---------------------------------------------------------------------
  // emsaPkcs1v15Encode
  // ---------------------------------------------------------------------

  /** The DER DigestInfo prefix for SHA-1 (section 9.2 of RFC 8017, note 1). */
  const DigestInfoPrefix: seq<int> :=
    [0x30, 0x21, 0x30, 0x09, 0x06, 0x05, 0x2b, 0x0e, 0x03, 0x02, 0x1a, 0x05, 0x00, 0x04, 0x14]

  /** `str_repeat(chr($b), $k)`. */
  function Repeat(b: int, k: nat): (r: seq<int>)
    ensures |r| == k && forall i :: 0 <= i < k ==> r[i] == b
  {
    seq(k, _ => b)
  }

  /**
   * The encoded message of section 9.2 of RFC 8017, stated by position:
   * 0x00 0x01, at least eight 0xFF, 0x00, the DigestInfo prefix, the digest.
   */
  predicate IsEmsaEncoding(em: seq<int>, h: seq<int>, k: nat)
  {
    k >= 46 && |em| == k && |h| == 20
    && em[0] == 0 && em[1] == 1
    && (forall i :: 2 <= i < k - 36 ==> em[i] == 0xFF)
    && em[k - 36] == 0
    && em[k - 35..k - 20] == DigestInfoPrefix
    && em[k - 20..] == h
  }

  /** The encoding is determined by the digest and the length. */
  lemma EmsaUnique(a: seq<int>, b: seq<int>, h: seq<int>, k: nat)
    requires IsEmsaEncoding(a, h, k) && IsEmsaEncoding(b, h, k)
    ensures a == b
  {
    forall i | 0 <= i < k
      ensures a[i] == b[i]
    {
      if k - 35 <= i < k - 20 {
        assert a[i] == a[k - 35..k - 20][i - (k - 35)];
        assert b[i] == b[k - 35..k - 20][i - (k - 35)];
      } else if k - 20 <= i {
        assert a[i] == a[k - 20..][i - (k - 20)];
        assert b[i] == b[k - 20..][i - (k - 20)];
      }
    }
  }

  /** Two digests with one encoding are the same digest. */
  lemma EmsaInjective(em: seq<int>, h1: seq<int>, h2: seq<int>, k: nat)
    requires IsEmsaEncoding(em, h1, k) && IsEmsaEncoding(em, h2, k)
    ensures h1 == h2
  {
  }

  /**
   * `emsaPkcs1v15Encode`, with the SHA-1 digest h given: T is the prefix
   * and the digest (35 bytes); emLen < 46 raises
   * RSA_KEY_ENCODED_SIZE_INVALID.
   */
  function EmsaPkcs1v15Encode(h: seq<int>, emLength: nat): (r: Result<seq<int>, Failure>)
    requires IsBytes(h) && |h| == 20
    ensures r.Success? <==> emLength >= 46
    ensures r.Failure? ==> r.error == Error(EncodedSizeInvalid)
    ensures r.Success? ==> IsBytes(r.value) && IsEmsaEncoding(r.value, h, emLength)
  {
    var t := DigestInfoPrefix + h;
    if emLength < |t| + 11 then Failure(Error(EncodedSizeInvalid))
    else
      var ps := Repeat(255, emLength - |t| - 3);
      var em := [0, 1] + ps + [0] + t;
      assert em[emLength - 35..emLength - 20] == DigestInfoPrefix;
      assert em[emLength - 20..] == h;
      Success(em)
  }

  // ---------------------------------------------------------------------
  // rsavp1 and rsaMatch on integers
  // ---------------------------------------------------------------------

  /**
   * `rsavp1` on the values: s above n raises
   * RSA_KEY_SIGNATURE_REPRESENTATIVE_OUT_OF_RANGE, s = n is let through;
   * then `modPow`, which answers 1 to the exponent 0 before it looks at n.
   * The power is that of the corrected `modPow` (Barrett reduction with
   * `>=`): for s = n and e >= 3 it is 0, where the Barrett reduction as
   * written leaves n (`RepresentativeAtModulus` shows neither matches).
   * A zero modulus only lets s = 0 through: `divide` by zero answers a zero
   * remainder, so e = 1 and e = 2 give 0, and for a larger e the
   * reduction's set-up never returns, which `ZeroModulus` stands for.
   */
  function Rsavp1Spec(s: nat, e: nat, n: nat): (r: Result<nat, Failure>)
  {
    if s > n then Failure(Error(SignatureRepresentativeOutOfRange))
    else if e == 0 then Success(1)
    else if n == 0 then (if e <= 2 then Success(0) else Failure(ZeroModulus))
    else Success(ModExp.Exp(s, e) % n)
  }

  /** The range check lets the representative s = n through, and its power is 0. */
  lemma Rsavp1AcceptsModulus(n: nat, e: nat)
    requires n > 0 && e > 0
    ensures Rsavp1Spec(n, e, n) == Success(0)
  {
    ExpOfSelf(n, e);
  }

  lemma ExpOfSelf(n: nat, e: nat)
    requires n > 0 && e > 0
    ensures ModExp.Exp(n, e) % n == 0
  {
    DivModUnique(ModExp.Exp(n, e), n, ModExp.Exp(n, e - 1), 0);
  }

  /** RSAVP1 of section 5.2.2 of RFC 8017: the representative must lie in [0, n − 1]. */
  function Rsavp1Corrected(s: nat, e: nat, n: nat): (r: Result<nat, Failure>)
    ensures r.Success? <==> s < n
    ensures r.Failure? ==> r.error == Error(SignatureRepresentativeOutOfRange)
    ensures r.Success? ==> r.value < n && r.value == ModExp.Exp(s, e) % n
  {
    if s >= n then Failure(Error(SignatureRepresentativeOutOfRange))
    else Success(ModExp.Exp(s, e) % n)
  }

  /** I2OSP(x, k): x in exactly k big-endian bytes. */
  function I2Osp(x: nat, k: nat): (r: seq<int>)
    ensures IsBytes(r) && BE(r) == x
  {
    Base256.PadLeftZeros(BytesOf(x), k)
  }

  /**
   * `rsaMatch` on the values: the signature must have as many bytes as
   * `$modulus->toBytes()`, RSAVP1, the power padded to that length, and
   * `hashEquals` with the encoding of the digest.
   */
  function RsaMatchSpec(n: nat, e: nat, h: seq<int>, signature: seq<int>, native: bool): (r: Result<bool, Failure>)
    requires IsBytes(h) && |h| == 20 && IsBytes(signature)
  {
    var k := |BytesOf(n)|;
    if k != |signature| then Failure(Error(SignatureSizeInvalid))
    else
      var m :- Rsavp1Spec(BE(signature), e, n);
      if |BytesOf(m)| > k then Failure(Error(ModulusSizeInvalid))
      else
        var em2 :- EmsaPkcs1v15Encode(h, k);
        Success(HashEquals.HashEquals(Base256.PadLeftZeros(BytesOf(m), k), em2, native))
  }

  /**
   * RSASSA-PKCS1-v1_5-VERIFY of section 8.2.2 of RFC 8017 for the key
   * (n, e): k is the byte length of n; S must be k bytes; its value s must
   * lie in [0, n − 1]; EM = I2OSP(s^e mod n, k) must be the encoding of
   * the digest, which needs k ≥ tLen + 11 = 46.
   */
  predicate Rsassa(n: nat, e: nat, h: seq<int>, signature: seq<int>)
    requires IsBytes(signature)
  {
    var k := |BytesOf(n)|;
    |signature| == k && BE(signature) < n
    && IsEmsaEncoding(I2Osp(ModExp.Exp(BE(signature), e) % n, k), h, k)
  }

  /** A smaller value never has more bytes. */
  lemma BytesOfMono(m: nat, n: nat)
    requires m <= n
    ensures |BytesOf(m)| <= |BytesOf(n)|
  {
    var a, b := BytesOf(m), BytesOf(n);
    if |a| > |b| {
      BELeading(a);
      BEBound(b);
      Pow2Mono(8 * |b|, 8 * (|a| - 1));
    }
  }

  /** A value of at most 1 in k ≥ 46 bytes is no encoded message. */
  lemma SmallIsNoEncoding(x: nat, h: seq<int>, k: nat)
    requires x <= 1 && k >= 46
    ensures !IsEmsaEncoding(I2Osp(x, k), h, k)
  {
    LeadingOneBig(I2Osp(x, k));
  }

  /** Three or more bytes that start 0x00 0x01 stand for at least 256^(|em| - 2), so for more than 1. */
  lemma LeadingOneBig(em: seq<int>)
    requires IsBytes(em) && |em| >= 3
    ensures em[0] == 0 && em[1] == 1 ==> BE(em) >= 2
  {
    if em[0] == 0 && em[1] == 1 {
      var tail := em[1..];
      assert em == [0] + tail;
      BEConcat([0], tail);
      assert BE([0]) == 0;
      BELeading(tail);
      Pow2Mono(8, 8 * (|tail| - 1));
      Pow2Eight();
    }
  }

  /**
   * The representative s = n, let through by the range check, never
   * matches: its power is 0 (or 1 for e = 0), and the n that the Barrett
   * reduction as written leaves for e >= 3 does not match either.
   */
  lemma RepresentativeAtModulus(n: nat, e: nat, h: seq<int>, signature: seq<int>, native: bool)
    requires IsBytes(h) && |h| == 20 && IsBytes(signature)
    requires |signature| == |BytesOf(n)| && BE(signature) == n
    ensures RsaMatchSpec(n, e, h, signature, native) != Success(true)
  {
    var k := |BytesOf(n)|;
    if n == 0 || k < 46 {
      return;
    }
    var m: nat := if e == 0 then 1 else 0;
    if e > 0 {
      Rsavp1AcceptsModulus(n, e);
    }
    assert Rsavp1Spec(n, e, n) == Success(m);
    if |BytesOf(m)| <= k {
      var em2 := EmsaPkcs1v15Encode(h, k).value;
      var em := Base256.PadLeftZeros(BytesOf(m), k);
      assert RsaMatchSpec(n, e, h, signature, native) == Success(HashEquals.HashEquals(em, em2, native));
      assert em == I2Osp(m, k);
      SmallIsNoEncoding(m, h, k);
      assert em != em2;
    }
  }

  /** The power n itself, which the Barrett reduction as written leaves for s = n, is no encoded message either. */
  lemma ModulusIsNoEncoding(n: nat, h: seq<int>)
    requires n > 0
    ensures !IsEmsaEncoding(I2Osp(n, |BytesOf(n)|), h, |BytesOf(n)|)
  {
    var bytes := BytesOf(n);
    assert I2Osp(n, |bytes|) == bytes;
    assert bytes[0] != 0;
  }

  /** Below the modulus, `rsaMatch` and the reference agree step by step. */
  lemma RepresentativeBelowModulus(n: nat, e: nat, h: seq<int>, signature: seq<int>, native: bool)
    requires IsBytes(h) && |h| == 20 && IsBytes(signature)
    requires |signature| == |BytesOf(n)| && BE(signature) < n
    ensures RsaMatchSpec(n, e, h, signature, native) == Success(true) <==> Rsassa(n, e, h, signature)
  {
    var k := |BytesOf(n)|;
    var s := BE(signature);
    var m := ModExp.Exp(s, e) % n;
    // what `modPow` answers: 1 for the exponent 0
    var answer: nat := if e == 0 then 1 else m;
    assert Rsavp1Spec(s, e, n) == Success(answer);
    BytesOfMono(answer, n);
    if k < 46 {
      assert EmsaPkcs1v15Encode(h, k).Failure?;
      assert RsaMatchSpec(n, e, h, signature, native).Failure?;
      return;
    }
    assert answer == m by {
      if e == 0 {
        BEBound(BytesOf(n));
        DivModUnique(1, n, 0, 1);
      }
    }
    var em2 := EmsaPkcs1v15Encode(h, k).value;
    var em := I2Osp(m, k);
    assert RsaMatchSpec(n, e, h, signature, native) == Success(HashEquals.HashEquals(em, em2, native));
    if IsEmsaEncoding(em, h, k) {
      EmsaUnique(em, em2, h, k);
    }
  }

  /**
   * `rsaMatch` is true exactly when RSASSA-PKCS1-v1_5 verification
   * accepts, although its range check lets s = n through: such an s
   * never matches.
   */
  lemma RsaMatchIsRsassa(n: nat, e: nat, h: seq<int>, signature: seq<int>, native: bool)
    requires IsBytes(h) && |h| == 20 && IsBytes(signature)
    ensures RsaMatchSpec(n, e, h, signature, native) == Success(true) <==> Rsassa(n, e, h, signature)
  {
    if |signature| == |BytesOf(n)| {
      if BE(signature) == n {
        RepresentativeAtModulus(n, e, h, signature, native);
      } else if BE(signature) < n {
        RepresentativeBelowModulus(n, e, h, signature, native);
      }
    }
  }

  /**
   * The range check of section 5.2.2 in place of the one as written gives
   * the same answer: the power of the representative n is 0 (or 1 for
   * the exponent 0), whose encoding starts 0x00 0x00.
   */
  lemma CorrectedRangeAgrees(n: nat, e: nat, h: seq<int>, signature: seq<int>, native: bool)
    requires IsBytes(h) && |h| == 20 && IsBytes(signature)
    requires |signature| == |BytesOf(n)| && Rsavp1Corrected(BE(signature), e, n).Success?
    ensures RsaMatchSpec(n, e, h, signature, native) == Success(true) <==>
      IsEmsaEncoding(I2Osp(Rsavp1Corrected(BE(signature), e, n).value, |signature|), h, |signature|)
  {
    RsaMatchIsRsassa(n, e, h, signature, native);
  }

  // ---------------------------------------------------------------------
  // The methods on BigInteger values
  // ---------------------------------------------------------------------

  /** The magnitude of a value built from bytes. */
  function Magnitude(b: BigInteger.BigInt): (v: nat)
    requires Limbs.Digits(b.value)
    ensures v == Limbs.Val(b.value)
  {
    Limbs.ValBound(b.value);
    Limbs.Val(b.value)
  }

  /** `rsavp1`: the two `compare` calls, then `modPow`. */
  method Rsavp1(signature: BigInteger.BigInt, exponent: BigInteger.BigInt, modulus: BigInteger.BigInt)
    returns (r: Result<BigInteger.BigInt, Failure>)
    requires BigInteger.Valid(signature) && BigInteger.Valid(exponent) && BigInteger.Valid(modulus)
    requires !signature.negative && !exponent.negative && !modulus.negative
    ensures r.Failure? <==> Rsavp1Spec(Magnitude(signature), Magnitude(exponent), Magnitude(modulus)).Failure?
    ensures r.Failure? ==> r.error == Rsavp1Spec(Magnitude(signature), Magnitude(exponent), Magnitude(modulus)).error
    ensures r.Success? ==>
      (BigInteger.Valid(r.value) && !r.value.negative
       && Magnitude(r.value) == Rsavp1Spec(Magnitude(signature), Magnitude(exponent), Magnitude(modulus)).value)
  {
    ghost var spec := Rsavp1Spec(Magnitude(signature), Magnitude(exponent), Magnitude(modulus));
    BigInteger.NegativeFlag(signature);
    BigInteger.NegativeFlag(exponent);
    BigInteger.NegativeFlag(modulus);
    Limbs.ValZeroIffEmpty(modulus.value);
    Limbs.ValZeroIffEmpty(exponent.value);
    var below := BigInteger.Compare(signature, BigInteger.Zero);
    var above := BigInteger.Compare(signature, modulus);
    if below < 0 || above > 0 {
      return Failure(Error(SignatureRepresentativeOutOfRange));
    }
    if |exponent.value| == 0 {
      // `modPow` returns 1 for an empty exponent before it uses n.
      assert Limbs.Val([1]) == 1;
      return Success(BigInteger.One);
    }
    if |modulus.value| == 0 {
      // the signature is 0 here; `divide(0, 0)` leaves the remainder 0
      if Magnitude(exponent) <= 2 {
        return Success(BigInteger.Zero);
      }
      return Failure(ZeroModulus);
    }
    var power := BigModPow.ModPow(signature, exponent, modulus);
    BigInteger.NegativeFlag(power.value);
    assert spec == Success(ModExp.Exp(Magnitude(signature), Magnitude(exponent)) % Magnitude(modulus));
    return Success(power.value);
  }

  /**
   * `rsaMatch`: the modulus and exponent come from `new
   * Oxygen_Math_BigInteger($bytes, 256)`; their limbs are trimmed before
   * use, which changes neither `toBytes` nor `compare` (the limbs [0] give
   * '' and rank with no limbs against any other value).
   */
  method RsaMatch(modulus: BigInteger.BigInt, exponent: BigInteger.BigInt, h: seq<int>, rawSignature: seq<int>, native: bool)
    returns (r: Result<bool, Failure>)
    requires Limbs.Digits(modulus.value) && !modulus.negative
    requires Limbs.Digits(exponent.value) && !exponent.negative
    requires IsBytes(h) && |h| == 20 && IsBytes(rawSignature)
    ensures r == RsaMatchSpec(Magnitude(modulus), Magnitude(exponent), h, rawSignature, native)
  {
    var n := Limbs.Trim(modulus.value);
    var modulusBytes := Base256.ToBytes(n);
    var modulusLength := |modulusBytes|;
    if modulusLength != |rawSignature| {
      return Failure(Error(SignatureSizeInvalid));
    }
    var s := Base256.FromBytes(rawSignature);
    var e := Limbs.Trim(exponent.value);
    Limbs.ValZeroIffEmpty(n);
    Limbs.ValZeroIffEmpty(s);
    Limbs.ValZeroIffEmpty(e);
    var m2 :- Rsavp1(BigInteger.BigInt(s, false), BigInteger.BigInt(e, false), BigInteger.BigInt(n, false));
    var m2Bytes := Base256.ToBytes(m2.value);
    if |m2Bytes| > modulusLength {
      return Failure(Error(ModulusSizeInvalid));
    }
    var em := Base256.PadLeftZeros(m2Bytes, modulusLength);
    var em2 :- EmsaPkcs1v15Encode(h, modulusLength);
    return Success(HashEquals.HashEquals(em, em2, native));
  }

  // ---------------------------------------------------------------------
  // verify
  // ---------------------------------------------------------------------

  /** What `verify` computes before it turns every exception into false. */
  function VerifyResult(publicKey: string, data: seq<int>, signature: string,
                        decode: string -> seq<int>, sha1: seq<int> -> seq<int>, native: bool): (r: Result<bool, Failure>)
    requires Decoder(decode) && Sha1(sha1)
  {
    var key :- ExtractKey(publicKey, decode);
    var raw :- ParseKey(key);
    RsaMatchSpec(BE(raw.0), BE(raw.1), sha1(data), decode(signature), native)
  }

  /** `verify`: true when rsaMatch answers true; false for false and for every exception. */
  method Verify(publicKey: string, data: seq<int>, signature: string,
                decode: string -> seq<int>, sha1: seq<int> -> seq<int>, native: bool) returns (ok: bool)
    requires Decoder(decode) && Sha1(sha1)
    ensures ok <==> VerifyResult(publicKey, data, signature, decode, sha1, native) == Success(true)
  {
    var key := ExtractKey(publicKey, decode);
    if key.Failure? {
      return false;
    }
    var pair := GetKeyModulusAndExponent(key.value);
    if pair.Failure? {
      return false;
    }
    var matched := RsaMatch(pair.value.0, pair.value.1, sha1(data), decode(signature), native);
    return matched == Success(true);
  }

  /**
   * `verify` accepts exactly the signatures that RSASSA-PKCS1-v1_5
   * verification with SHA-1 accepts under the key that the key text
   * holds; a key text that does not parse gives false.
   */
  lemma VerifyIsRsassa(publicKey: string, data: seq<int>, signature: string,
                       decode: string -> seq<int>, sha1: seq<int> -> seq<int>, native: bool)
    requires Decoder(decode) && Sha1(sha1)
    ensures VerifyResult(publicKey, data, signature, decode, sha1, native) == Success(true) <==>
      (ExtractKey(publicKey, decode).Success?
       && ParseKey(ExtractKey(publicKey, decode).value).Success?
       && Rsassa(BE(ParseKey(ExtractKey(publicKey, decode).value).value.0),
                 BE(ParseKey(ExtractKey(publicKey, decode).value).value.1), sha1(data), decode(signature)))
  {
    var key := ExtractKey(publicKey, decode);
    if key.Success? && ParseKey(key.value).Success? {
      var raw := ParseKey(key.value).value;
      RsaMatchIsRsassa(BE(raw.0), BE(raw.1), sha1(data), decode(signature), native);
    }
  }
}
