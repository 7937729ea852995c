/**
 * Oxygen_Archive_Tar: reading the 512-byte header blocks of a tar archive
 * (the checksum, the octal fields, the directory-traversal test and long
 * names) and walking the archive's entries. A PHP binary string is a
 * `string` whose characters are bytes; `ord` is `c as int`.
 *
 * The compressor (plain or gzip) is not part of this model: the archive is
 * its decompressed content, which `readBlock` returns 512 bytes at a time.
 * What `doExtract` does to the file system (creating directories, opening
 * and writing files, `touch`, `chmod`, the existence and permission tests)
 * is left out; an extracted entry records what would be written where.
 */
module Tar {

  import opened Wrappers
  import opened OxygenException
  import Util

  const BlockSize := 512

  const TypeFile := "0"
  const TypeLongFileName := "L"
  const TypeDir := "5"
  const TypeSymlink := "2"

  // None of the ARCHIVE_TAR_* constants is defined on Oxygen_Exception, so
  // each `throw` raises PHP's undefined-constant Error instead.
  const InvalidBlockSize := MissingConstant("ARCHIVE_TAR_INVALID_BLOCK_SIZE")
  const ChecksumNotValid := MissingConstant("ARCHIVE_TAR_CHECKSUM_NOT_VALID")
  const DirectoryTraversal := MissingConstant("ARCHIVE_TAR_FILE_NAME_CONTAINS_DIRECTORY_TRAVERSAL")
  const FileSizeMismatch := MissingConstant("ARCHIVE_TAR_FILE_SIZE_MISMATCH")

  function Min(a: int, b: int): int
  {
    if a <= b then a else b
  }

  // ---------------------------------------------------------------------
  // Checksum
  // ---------------------------------------------------------------------

  /** The sum of the byte values of a string. */
  function Sum(s: string): nat
  {
    if |s| == 0 then 0 else Sum(s[..|s| - 1]) + s[|s| - 1] as int
  }

  /**
   * The checksum of a header block: every byte counted, except that the
   * eight bytes of the checksum field count as spaces.
   */
  function HeaderChecksum(block: string): nat
    requires |block| == BlockSize
  {
    Sum(block[..148]) + 32 * 8 + Sum(block[156..])
  }

  lemma {:induction false} SumAppend(a: string, b: string)
    ensures Sum(a + b) == Sum(a) + Sum(b)
  {
    if |b| == 0 {
      assert a + b == a;
    } else {
      assert (a + b)[..|a + b| - 1] == a + b[..|b| - 1];
      SumAppend(a, b[..|b| - 1]);
    }
  }

  /** `count` copies of one character. */
  function Repeat(c: char, count: nat): (r: string)
    ensures |r| == count && forall i :: 0 <= i < count ==> r[i] == c
  {
    if count == 0 then "" else Repeat(c, count - 1) + [c]
  }

  lemma {:induction false} SumRepeat(c: char, count: nat)
    ensures Sum(Repeat(c, count)) == count * (c as int)
  {
    if count > 0 {
      assert Repeat(c, count)[..count - 1] == Repeat(c, count - 1);
      SumRepeat(c, count - 1);
    }
  }

  /**
   * The checksum is the sum of the block with its checksum field replaced
   * by eight spaces, as the ustar header format defines it; so it does not
   * depend on what the checksum field holds.
   */
  lemma ChecksumAsSpaces(block: string)
    requires |block| == BlockSize
    ensures HeaderChecksum(block) == Sum(block[..148] + Repeat(' ', 8) + block[156..])
  {
    SumAppend(block[..148] + Repeat(' ', 8), block[156..]);
    SumAppend(block[..148], Repeat(' ', 8));
    SumRepeat(' ', 8);
  }

  /**
   * The two loops of `readHeader` that add up the bytes before and after
   * the checksum field.
   */
  method ComputeChecksum(block: string) returns (checksum: int)
    requires |block| == BlockSize
    ensures checksum == HeaderChecksum(block)
  {
    checksum := 0;
    var i := 0;
    while i < 148
      invariant 0 <= i <= 148
      invariant checksum == Sum(block[..i])
    {
      assert block[..i + 1][..i] == block[..i];
      checksum := checksum + block[i] as int;
      i := i + 1;
    }
    checksum := checksum + 32 * 8;
    i := 156;
    while i < 512
      invariant 156 <= i <= 512
      invariant checksum == Sum(block[..148]) + 32 * 8 + Sum(block[156..i])
    {
      assert block[156..i + 1][..i - 156] == block[156..i];
      checksum := checksum + block[i] as int;
      i := i + 1;
    }
    assert block[156..512] == block[156..];
  }

  // ---------------------------------------------------------------------
  // trim and octdec
  // ---------------------------------------------------------------------

  /** The characters `trim` removes by default: space, tab, line feed, carriage return, NUL and vertical tab. */
  predicate Trimmed(c: char)
  {
    c == ' ' || c == '\t' || c == '\n' || c == '\r' || c == '\0' || c as int == 11
  }

  function TrimLeft(s: string): (r: string)
    ensures |r| <= |s| && r == s[|s| - |r|..]
    ensures forall i :: 0 <= i < |s| - |r| ==> Trimmed(s[i])
    ensures r == "" || !Trimmed(r[0])
  {
    if |s| > 0 && Trimmed(s[0]) then TrimLeft(s[1..]) else s
  }

  function TrimRight(s: string): (r: string)
    ensures |r| <= |s| && r == s[..|r|]
    ensures forall i :: |r| <= i < |s| ==> Trimmed(s[i])
    ensures r == "" || !Trimmed(r[|r| - 1])
  {
    if |s| > 0 && Trimmed(s[|s| - 1]) then TrimRight(s[..|s| - 1]) else s
  }

  /** Where the trimmed string starts. */
  function TrimStart(s: string): (k: nat)
    ensures k <= |s|
  {
    |s| - |TrimLeft(s)|
  }

  /**
   * `trim`: the string without its leading and trailing white space and
   * NULs; what is kept is a piece of the string, and only trimmed
   * characters are dropped.
   */
  function Trim(s: string): (r: string)
    ensures r == "" || (!Trimmed(r[0]) && !Trimmed(r[|r| - 1]))
    ensures TrimStart(s) + |r| <= |s| && r == s[TrimStart(s)..TrimStart(s) + |r|]
    ensures forall i :: 0 <= i < TrimStart(s) ==> Trimmed(s[i])
    ensures forall i :: TrimStart(s) + |r| <= i < |s| ==> Trimmed(s[i])
  {
    var left := TrimLeft(s);
    var r := TrimRight(left);
    assert TrimStart(s) == |s| - |left|;
    TrimPieces(s, left, r);
    TrimEnds(left, r);
    r
  }

  /** The right trim of a left-trimmed string has something kept at both ends, or nothing. */
  lemma TrimEnds(left: string, r: string)
    requires left == "" || !Trimmed(left[0])
    requires |r| <= |left| && r == left[..|r|]
    requires r == "" || !Trimmed(r[|r| - 1])
    ensures r == "" || (!Trimmed(r[0]) && !Trimmed(r[|r| - 1]))
  {
    if r != "" {
      assert r[0] == left[0];
    }
  }

  /** The right trim of the left trim is a piece of the string, with only trimmed characters after it. */
  lemma TrimPieces(s: string, left: string, r: string)
    requires |left| <= |s| && left == s[|s| - |left|..]
    requires |r| <= |left| && r == left[..|r|]
    requires forall i :: |r| <= i < |left| ==> Trimmed(left[i])
    ensures |s| - |left| + |r| <= |s| && r == s[|s| - |left|..|s| - |left| + |r|]
    ensures forall i :: |s| - |left| + |r| <= i < |s| ==> Trimmed(s[i])
  {
    var k := |s| - |left|;
    assert left == s[k..];
    assert r == left[..|r|];
    forall i | k + |r| <= i < |s|
      ensures Trimmed(s[i])
    {
      assert s[i] == left[i - k];
    }
  }

  /** A string with nothing to trim at either end is its own trim. */
  lemma TrimKeeps(s: string)
    requires s == "" || (!Trimmed(s[0]) && !Trimmed(s[|s| - 1]))
    ensures Trim(s) == s
  {
  }

  /** `trim` is idempotent. */
  lemma TrimIdempotent(s: string)
    ensures Trim(Trim(s)) == Trim(s)
  {
    TrimKeeps(Trim(s));
  }

  predicate OctalDigit(c: char)
  {
    '0' <= c <= '7'
  }

  /** `octdec`: the octal digits of the string, read as a number; any other character is ignored. */
  function OctDec(s: string): nat
  {
    if |s| == 0 then 0
    else if OctalDigit(s[|s| - 1]) then OctDec(s[..|s| - 1]) * 8 + (s[|s| - 1] as int - '0' as int)
    else OctDec(s[..|s| - 1])
  }

  /** `decoct`: the octal digits of n, without leading zeros. */
  function Octal(n: nat): (r: string)
    ensures |r| > 0 && forall i :: 0 <= i < |r| ==> OctalDigit(r[i])
  {
    if n < 8 then [('0' as int + n) as char] else Octal(n / 8) + [('0' as int + n % 8) as char]
  }

  /** `octdec(decoct(n)) == n`. */
  lemma {:induction false} OctDecOctal(n: nat)
    ensures OctDec(Octal(n)) == n
  {
    if n >= 8 {
      var r := Octal(n);
      assert r[..|r| - 1] == Octal(n / 8);
      OctDecOctal(n / 8);
    } else {
      assert Octal(n)[..0] == "";
    }
  }

  /** Leading zeros are read as nothing. */
  lemma {:induction false} OctDecLeadingZeros(k: nat, s: string)
    ensures OctDec(Repeat('0', k) + s) == OctDec(s)
    decreases |s|
  {
    var z := Repeat('0', k);
    if |s| > 0 {
      assert (z + s)[..|z + s| - 1] == z + s[..|s| - 1];
      assert (z + s)[|z + s| - 1] == s[|s| - 1];
      OctDecLeadingZeros(k, s[..|s| - 1]);
    } else {
      assert z + s == z;
      ZerosRead(k);
    }
  }

  lemma {:induction false} ZerosRead(k: nat)
    ensures OctDec(Repeat('0', k)) == 0
  {
    if k > 0 {
      assert Repeat('0', k)[..k - 1] == Repeat('0', k - 1);
      ZerosRead(k - 1);
    }
  }

  /** A field written as zero-padded octal digits reads back as its number. */
  lemma PaddedOctal(k: nat, n: nat)
    ensures OctDec(Repeat('0', k) + Octal(n)) == n
  {
    OctDecLeadingZeros(k, Octal(n));
    OctDecOctal(n);
  }

  /** A string whose first and last kept characters are known trims to exactly that piece. */
  lemma TrimOf(s: string, k: nat, n: nat)
    requires 0 < n && k + n <= |s|
    requires forall i :: 0 <= i < k ==> Trimmed(s[i])
    requires forall i :: k + n <= i < |s| ==> Trimmed(s[i])
    requires !Trimmed(s[k]) && !Trimmed(s[k + n - 1])
    ensures Trim(s) == s[k..k + n]
  {
    var r, start := Trim(s), TrimStart(s);
    if r != "" {
      assert s[start] == r[0];
      assert start == k;
      assert s[start + |r| - 1] == r[|r| - 1];
      assert start + |r| == k + n;
    }
  }

  /** A string of trimmed characters only trims to nothing. */
  lemma TrimAway(s: string)
    requires forall i :: 0 <= i < |s| ==> Trimmed(s[i])
    ensures Trim(s) == ""
  {
  }

  // ---------------------------------------------------------------------
  // readHeader and rejectDirectoryTraversal
  // ---------------------------------------------------------------------

  /** The fields of a header that `doExtract` uses, decoded. */
  datatype Header = Header(filename: string, mode: nat, uid: nat, gid: nat, size: nat, mtime: nat,
                           typeflag: string, link: string)

  /** The checksum the header stores: its octal field, trimmed. */
  function StoredChecksum(block: string): nat
    requires |block| == BlockSize
  {
    OctDec(Trim(block[148..156]))
  }

  /**
   * The fields as `unpack` cuts them and `readHeader` decodes them: names
   * trimmed, numbers read as octal, and the size of a directory 0.
   */
  function Decode(block: string): (h: Header)
    requires |block| == BlockSize
    ensures h.typeflag == block[156..157]
    ensures h.typeflag == TypeDir ==> h.size == 0
    ensures h.typeflag != TypeDir ==> h.size == OctDec(Trim(block[124..136]))
  {
    var typeflag := block[156..157];
    Header(Trim(block[..100]),
           OctDec(Trim(block[100..108])),
           OctDec(Trim(block[108..116])),
           OctDec(Trim(block[116..124])),
           if typeflag == TypeDir then 0 else OctDec(Trim(block[124..136])),
           OctDec(Trim(block[136..148])),
           typeflag,
           Trim(block[157..257]))
  }

  predicate StartsWith(s: string, prefix: string)
  {
    |prefix| <= |s| && s[..|prefix|] == prefix
  }

  /** `strpos($s, $t) !== false`. */
  predicate Contains(s: string, t: string)
  {
    StartsWith(s, t) || (|s| > 0 && Contains(s[1..], t))
  }

  /** A name with a "/../" anywhere or a "../" at the front climbs out of the destination. */
  predicate Traverses(name: string)
  {
    Contains(name, "/../") || StartsWith(name, "../")
  }

  /** `rejectDirectoryTraversal`: the name is refused exactly when it climbs out. */
  function RejectDirectoryTraversal(name: string): (r: Result<string, Fault>)
    ensures r.Success? <==> !Traverses(name)
    ensures r.Success? ==> r.value == name
    ensures r.Failure? ==> r.error == DirectoryTraversal
  {
    if Traverses(name) then Failure(DirectoryTraversal) else Success(name)
  }

  /**
   * `readHeader` as written: an empty block is the end (no name); a block
   * of any other length than 512 is refused; the stored checksum must
   * match, except that a computed 256 with a stored 0 (an all-zero block)
   * is the end; the raw name field is tested for traversal BEFORE it is
   * trimmed.
   */
  function ReadHeaderAsWritten(block: string): (r: Result<Option<Header>, Fault>)
  {
    if |block| == 0 then Success(None)
    else if |block| != BlockSize then Failure(InvalidBlockSize)
    else if StoredChecksum(block) != HeaderChecksum(block) then
      if HeaderChecksum(block) == 256 && StoredChecksum(block) == 0 then Success(None)
      else Failure(ChecksumNotValid)
    else if Traverses(block[..100]) then Failure(DirectoryTraversal)
    else Success(Some(Decode(block)))
  }

  /**
   * `readHeader`, with the traversal test on the trimmed name, the name
   * that is then used: a header is returned only for a 512-byte block whose
   * checksum matches, and its name never climbs out of the destination.
   */
  function ReadHeader(block: string): (r: Result<Option<Header>, Fault>)
    ensures |block| == 0 ==> r == Success(None)
    ensures |block| != 0 && |block| != BlockSize ==> r == Failure(InvalidBlockSize)
    ensures |block| == BlockSize ==>
              (r == Failure(ChecksumNotValid) <==>
                 StoredChecksum(block) != HeaderChecksum(block) && !(HeaderChecksum(block) == 256 && StoredChecksum(block) == 0))
    ensures |block| == BlockSize && r == Success(None) ==> HeaderChecksum(block) == 256 && StoredChecksum(block) == 0
    ensures r.Success? && r.value.Some? ==>
              |block| == BlockSize && StoredChecksum(block) == HeaderChecksum(block)
              && r.value.value == Decode(block) && !Traverses(r.value.value.filename)
    ensures r.Failure? && r.error == DirectoryTraversal ==> |block| == BlockSize && Traverses(Trim(block[..100]))
  {
    if |block| == 0 then Success(None)
    else if |block| != BlockSize then Failure(InvalidBlockSize)
    else if StoredChecksum(block) != HeaderChecksum(block) then
      if HeaderChecksum(block) == 256 && StoredChecksum(block) == 0 then Success(None)
      else Failure(ChecksumNotValid)
    else
      var name :- RejectDirectoryTraversal(Trim(block[..100]));
      Success(Some(Decode(block)))
  }

  lemma {:induction false} SumNuls(s: string)
    requires forall i :: 0 <= i < |s| ==> s[i] == '\0'
    ensures Sum(s) == 0
  {
    if |s| > 0 {
      SumNuls(s[..|s| - 1]);
    }
  }

  /** The all-zero block that closes an archive reads as the end. */
  lemma EndBlock()
    ensures ReadHeader(Repeat('\0', BlockSize)) == Success(None)
  {
    var b := Repeat('\0', BlockSize);
    SumNuls(b[..148]);
    SumNuls(b[156..]);
    TrimAway(b[148..156]);
  }

  /**
   * A header whose name field holds " ../evil": the raw field has no
   * "../" at its front, so `readHeader` as written lets it through, and
   * `trim` then turns the name into "../evil", which climbs out of the
   * destination. Checked after trimming, the same block is refused.
   */
  lemma SpacedTraversalPasses()
    ensures |EvilBlock()| == BlockSize
    ensures ReadHeaderAsWritten(EvilBlock()) == Success(Some(Decode(EvilBlock())))
    ensures Decode(EvilBlock()).filename == "../evil" && Traverses("../evil")
    ensures ReadHeader(EvilBlock()) == Failure(DirectoryTraversal)
  {
    EvilAccepted();
    EvilClimbs();
    EvilRefused();
  }

  lemma EvilAccepted()
    ensures |EvilBlock()| == BlockSize
    ensures ReadHeaderAsWritten(EvilBlock()) == Success(Some(Decode(EvilBlock())))
  {
    EvilWellFormed();
    EvilRawName();
    AsWrittenAccepts(EvilBlock());
  }

  lemma EvilClimbs()
    ensures |EvilBlock()| == BlockSize
    ensures Decode(EvilBlock()).filename == "../evil" && Traverses("../evil")
  {
    EvilName();
    ParentClimbs();
  }

  lemma EvilRefused()
    ensures |EvilBlock()| == BlockSize
    ensures ReadHeader(EvilBlock()) == Failure(DirectoryTraversal)
  {
    EvilWellFormed();
    EvilName();
    ParentClimbs();
    CorrectedRefuses(EvilBlock());
  }

  lemma ParentClimbs()
    ensures Traverses("../evil")
  {
    var s := "../evil";
    assert s[..3] == "../";
    assert StartsWith(s, "../");
  }

  lemma EvilWellFormed()
    ensures |EvilBlock()| == BlockSize && StoredChecksum(EvilBlock()) == HeaderChecksum(EvilBlock())
  {
    EvilHeaderSum();
    EvilStored();
  }

  lemma EvilName()
    ensures |EvilBlock()| == BlockSize && Trim(EvilBlock()[..100]) == "../evil"
  {
    EvilBlockParts();
    EvilTrimmedName();
  }

  /** A well-formed block whose raw name does not climb out is accepted as written. */
  lemma AsWrittenAccepts(b: string)
    requires |b| == BlockSize && StoredChecksum(b) == HeaderChecksum(b) && !Traverses(b[..100])
    ensures ReadHeaderAsWritten(b) == Success(Some(Decode(b)))
  {
  }

  /** A well-formed block whose trimmed name climbs out is refused. */
  lemma CorrectedRefuses(b: string)
    requires |b| == BlockSize && StoredChecksum(b) == HeaderChecksum(b) && Traverses(Trim(b[..100]))
    ensures ReadHeader(b) == Failure(DirectoryTraversal)
  {
  }

  /** " ../evil", NUL padding, the checksum 859 as "0001533" and a NUL, then NULs. */
  function EvilBlock(): string
  {
    " ../evil" + Repeat('\0', 140) + "0001533\0" + Repeat('\0', 356)
  }

  lemma EvilBlockParts()
    ensures |EvilBlock()| == BlockSize
    ensures EvilBlock()[..148] == " ../evil" + Repeat('\0', 140)
    ensures EvilBlock()[148..156] == "0001533\0"
    ensures EvilBlock()[156..] == Repeat('\0', 356)
    ensures EvilBlock()[..100] == " ../evil" + Repeat('\0', 92)
  {
    var b := EvilBlock();
    var head := " ../evil" + Repeat('\0', 140);
    assert b == head + "0001533\0" + Repeat('\0', 356);
    assert b[..100] == head[..100];
    assert head[..100] == " ../evil" + Repeat('\0', 92);
  }

  lemma EvilHeaderSum()
    ensures |EvilBlock()| == BlockSize && HeaderChecksum(EvilBlock()) == 859
  {
    EvilBlockParts();
    SumAppend(" ../evil", Repeat('\0', 140));
    SumNuls(Repeat('\0', 140));
    SumNuls(Repeat('\0', 356));
    EvilNameSum();
  }

  lemma EvilStored()
    ensures |EvilBlock()| == BlockSize && StoredChecksum(EvilBlock()) == 859
  {
    EvilBlockParts();
    var field := "0001533\0";
    TrimOf(field, 0, 7);
    EvilDigits();
    assert field[0..7] == "0001533";
  }

  lemma EvilDigits()
    ensures OctDec("0001533") == 859
  {
    assert Octal(1) == "1";
    assert Octal(13) == Octal(1) + "5";
    assert Octal(107) == Octal(13) + "3";
    assert Octal(859) == Octal(107) + "3";
    assert Repeat('0', 3) == "000";
    assert Repeat('0', 3) + Octal(859) == "0001533";
    PaddedOctal(3, 859);
  }

  lemma SumSnoc(s: string, c: char)
    ensures Sum(s + [c]) == Sum(s) + c as int
  {
    assert (s + [c])[..|s|] == s;
  }

  lemma EvilNameSum()
    ensures Sum(" ../evil") == 603
  {
    SumSnoc("", ' ');
    SumSnoc(" ", '.');
    SumSnoc(" .", '.');
    SumSnoc(" ..", '/');
    SumSnoc(" ../", 'e');
    SumSnoc(" ../e", 'v');
    SumSnoc(" ../ev", 'i');
    SumSnoc(" ../evi", 'l');
    assert "" + [' '] == " " && " " + ['.'] == " ." && " ." + ['.'] == " .." && " .." + ['/'] == " ../";
    assert " ../" + ['e'] == " ../e" && " ../e" + ['v'] == " ../ev" && " ../ev" + ['i'] == " ../evi";
    assert " ../evi" + ['l'] == " ../evil";
  }

  lemma EvilTrimmedName()
    ensures Trim(" ../evil" + Repeat('\0', 92)) == "../evil"
  {
    var raw := " ../evil" + Repeat('\0', 92);
    TrimOf(raw, 1, 7);
    assert raw[1..8] == "../evil";
  }

  lemma EvilRawName()
    ensures |EvilBlock()| == BlockSize && !Traverses(EvilBlock()[..100])
  {
    EvilBlockParts();
    var raw := " ../evil" + Repeat('\0', 92);
    assert raw[..3] != "../" by {
      assert raw[0] == ' ';
    }
    NoSlashNoInfix(raw);
  }

  /** A string whose "/" is followed by no ".." holds no "/../": here the only '/' is at index 3, before "evil". */
  lemma NoSlashNoInfix(raw: string)
    requires raw == " ../evil" + Repeat('\0', 92)
    ensures !Contains(raw, "/../")
  {
    forall k | 0 <= k <= |raw|
      ensures !StartsWith(raw[k..], "/../")
    {
      if k + 4 <= |raw| {
        assert raw[k..][..4] == raw[k..k + 4];
        if k == 3 {
          assert raw[4] == 'e';
        } else {
          assert raw[k] != '/';
        }
      }
    }
    SuffixesNotContain(raw, "/../", 0);
  }

  lemma {:induction false} SuffixesNotContain(s: string, t: string, k: nat)
    requires k <= |s|
    requires forall j :: k <= j <= |s| ==> !StartsWith(s[j..], t)
    ensures !Contains(s[k..], t)
    decreases |s| - k
  {
    if k < |s| {
      SuffixesNotContain(s, t, k + 1);
      assert s[k..][1..] == s[k + 1..];
    }
  }

  // ---------------------------------------------------------------------
  // Walking the archive: doExtract and readLongHeader
  // ---------------------------------------------------------------------

  /** `floor($size / 512)` whole blocks, and one more for a partial block: the blocks `size` bytes take. */
  function BlockCount(size: nat): (n: nat)
    ensures size <= BlockSize * n < size + BlockSize
  {
    size / BlockSize + if size % BlockSize != 0 then 1 else 0
  }

  /** Where the stream stands after `size` bytes' worth of whole blocks from `offset`, or at its end. */
  function BlocksEnd(data: string, offset: nat, size: nat): (e: nat)
    requires offset <= |data|
    ensures offset <= e <= |data|
  {
    Min(offset + BlockSize * BlockCount(size), |data|)
  }

  /** `fwrite($fd, $content, $n)`: at most `n` bytes of the block. */
  function Prefix(block: string, n: nat): (r: string)
    ensures |r| == Min(|block|, n) && r == block[..|r|]
  {
    block[..Min(|block|, n)]
  }

  /** A "./" in front of a name is dropped. */
  function StripDotSlash(name: string): (r: string)
    ensures !Traverses(name) ==> !Traverses(r)
  {
    if StartsWith(name, "./") then
      DotSlashSafe(name);
      name[2..]
    else name
  }

  lemma DotSlashSafe(name: string)
    requires StartsWith(name, "./")
    ensures !Traverses(name) ==> !Traverses(name[2..])
  {
    ContainsSuffix(name, "/../", 2);
    if StartsWith(name[2..], "../") {
      assert name[1..2] == name[..2][1..] == "/";
      assert name[1..][..4] == name[1..2] + name[2..][..3];
      assert StartsWith(name[1..], "/../");
      assert Contains(name[1..], "/../");
      assert Contains(name, "/../");
    }
  }

  /** A string that holds `t` after its first `k` characters holds it. */
  lemma {:induction false} ContainsSuffix(s: string, t: string, k: nat)
    requires k <= |s|
    ensures Contains(s[k..], t) ==> Contains(s, t)
  {
    if k > 0 {
      ContainsSuffix(s[1..], t, k - 1);
      assert s[1..][k - 1..] == s[k..];
    }
  }

  /** What the extraction leaves behind: a file with its content, or a directory. */
  datatype Entry = File(path: string, content: string) | Directory(path: string)

  /**
   * `path` is `root` + "/" + a name the traversal test lets through. That
   * test looks only for "/../" and a leading "../", so a name that is ".."
   * or ends in "/.." passes it (see DotDotNotRefused).
   */
  predicate NotRefused(root: string, path: string)
  {
    |root| < |path| && path[..|root| + 1] == root + "/" && !Traverses(path[|root| + 1..])
  }

  lemma NotRefusedOf(root: string, name: string)
    requires !Traverses(name)
    ensures NotRefused(root, root + "/" + name)
  {
    var path := root + "/" + name;
    assert path[..|root| + 1] == root + "/";
    assert path[|root| + 1..] == name;
  }

  /** "..", "./.." and "a/.." pass the traversal test, though each names the parent of `root`. */
  lemma DotDotNotRefused(root: string)
    ensures NotRefused(root, root + "/..")
    ensures NotRefused(root, root + "/./..")
    ensures NotRefused(root, root + "/a/..")
  {
    ShortNamePasses("..");
    ShortNamePasses("./..");
    ShortNamePasses("a/..");
    NotRefusedOf(root, "..");
    NotRefusedOf(root, "./..");
    NotRefusedOf(root, "a/..");
    assert root + "/" + ".." == root + "/..";
    assert root + "/" + "./.." == root + "/./..";
    assert root + "/" + "a/.." == root + "/a/..";
  }

  /** A name of at most four characters, not "/../" and not starting "../", does not traverse. */
  lemma ShortNamePasses(name: string)
    requires |name| <= 4
    requires |name| < 3 || name[0] != '.' || name[1] != '.' || name[2] != '/'
    requires |name| < 4 || name[0] != '/'
    ensures !Traverses(name)
  {
    forall j | 0 <= j <= |name|
      ensures !StartsWith(name[j..], "/../")
    {
      if j == 0 {
        assert name[j..] == name;
      }
    }
    SuffixesNotContain(name, "/../", 0);
    assert name[0..] == name;
  }

  /** What `readLongHeader` leaves in `$header`: the next header, or the end marker's undecoded fields. */
  datatype LongEntry = Next(header: Header, next: nat) | EndMarker(name: string, next: nat)

  /**
   * `readLongHeader` on the stream at `offset`: the long name is every
   * block the 'L' header's size covers, trimmed; the block after them is
   * read as a header, whose name the long name replaces. When the stream
   * ends there, the 'L' header's own fields stay; when that block is the end
   * marker, its fields stay undecoded.
   */
  function LongHeader(data: string, offset: nat, h: Header): (r: Result<LongEntry, Fault>)
    requires offset <= |data|
    ensures r.Success? ==> offset <= r.value.next <= |data|
    ensures r.Success? && r.value.Next? ==>
              r.value.header.filename == Trim(data[offset..BlocksEnd(data, offset, h.size)])
              && !Traverses(r.value.header.filename)
    ensures r.Success? && r.value.EndMarker? ==>
              r.value.name == Trim(data[offset..BlocksEnd(data, offset, h.size)])
              && !Traverses(r.value.name)
    ensures Traverses(Trim(data[offset..BlocksEnd(data, offset, h.size)])) ==> r.Failure?
  {
    var namesEnd := BlocksEnd(data, offset, h.size);
    var next := Min(namesEnd + BlockSize, |data|);
    var block := data[namesEnd..next];
    LongOf(h, Trim(data[offset..namesEnd]), ReadHeader(block), next == namesEnd, next)
  }

  /**
   * The long entry from its pieces: the trimmed long name, the header read
   * after it (or its failure), whether that block was empty, and where the
   * stream then stands.
   */
  function LongOf(h: Header, name: string, header: Result<Option<Header>, Fault>, emptyBlock: bool, next: nat)
    : (r: Result<LongEntry, Fault>)
    ensures r.Success? ==> r.value.next == next && !Traverses(name)
    ensures r.Success? && r.value.Next? ==> r.value.header.filename == name
    ensures r.Success? && r.value.EndMarker? ==> r.value.name == name
    ensures Traverses(name) ==> r.Failure?
  {
    if header.Failure? then Failure(header.error)
    else if Traverses(name) then Failure(DirectoryTraversal)
    else if header.value.Some? then Success(Next(header.value.value.(filename := name), next))
    else if emptyBlock then Success(Next(h.(filename := name), next))
    else Success(EndMarker(name, next))
  }

  /** One pass of the loop in `doExtract`: what it writes, and where the stream then stands. */
  datatype Step =
    | Finished
    | Continue(written: Option<Entry>, next: nat)
    | Stopped(written: Option<Entry>, error: Fault)

  function Written(step: Step): seq<Entry>
  {
    if step.Finished? || step.written.None? then [] else [step.written.value]
  }

  /**
   * Lines 103-177 of `doExtract` for a decoded header at `offset`: a
   * directory is created, a symbolic link skipped, and a file gets the
   * `size` bytes that follow, which must all be there.
   */
  function Store(data: string, offset: nat, root: string, h: Header): (step: Step)
    requires offset <= |data| && !Traverses(h.filename)
    ensures step.Continue? ==> offset <= step.next <= |data|
    ensures step.Continue? || (step.Stopped? && step.error == FileSizeMismatch)
    ensures forall e | e in Written(step) :: NotRefused(root, e.path)
    ensures Written(step) == [] <==> h.typeflag == TypeSymlink
    ensures forall e | e in Written(step) && e.File? :: e.content == data[offset..Min(offset + h.size, |data|)]
    ensures step.Stopped? <==> h.typeflag != TypeDir && h.typeflag != TypeSymlink && offset + h.size > |data|
  {
    var path := root + "/" + StripDotSlash(h.filename);
    NotRefusedOf(root, StripDotSlash(h.filename));
    if h.typeflag == TypeDir then Continue(Some(Directory(path)), offset)
    else if h.typeflag == TypeSymlink then Continue(None, offset)
    else
      var content := data[offset..Min(offset + h.size, |data|)];
      if |content| != h.size then Stopped(Some(File(path, content)), FileSizeMismatch)
      else Continue(Some(File(path, content)), Min(offset + BlockSize * BlockCount(h.size), |data|))
  }

  /**
   * One pass of the loop in `doExtract` at `offset`: an empty read ends the
   * walk; the header's failures stop it; the end marker and a header with an
   * empty name are skipped; an 'L' header brings in its long name; the
   * entry is then stored under `root`. Every pass that goes on moves forward.
   */
  function NextEntry(data: string, offset: nat, root: string): (step: Step)
    requires offset <= |data|
    ensures step.Finished? <==> offset == |data|
    ensures step.Continue? ==> offset < step.next <= |data|
    ensures forall e | e in Written(step) :: NotRefused(root, e.path)
  {
    var afterHeader := Min(offset + BlockSize, |data|);
    var block := data[offset..afterHeader];
    if |block| == 0 then Finished
    else HeaderStep(data, afterHeader, root, ReadHeader(block))
  }

  /** What the loop does with a header read just before `offset`. */
  function HeaderStep(data: string, offset: nat, root: string, header: Result<Option<Header>, Fault>): (step: Step)
    requires offset <= |data|
    requires header.Success? && header.value.Some? ==> !Traverses(header.value.value.filename)
    ensures step.Continue? ==> offset <= step.next <= |data|
    ensures !step.Finished?
    ensures forall e | e in Written(step) :: NotRefused(root, e.path)
  {
    if header.Failure? then Stopped(None, header.error)
    else if header.value.None? || header.value.value.filename == "" then Continue(None, offset)
    else if header.value.value.typeflag != TypeLongFileName then Store(data, offset, root, header.value.value)
    else LongStep(data, offset, root, header.value.value)
  }

  /** An 'L' header at `offset`: its long name and the header after it, stored under `root`. */
  function LongStep(data: string, offset: nat, root: string, h: Header): (step: Step)
    requires offset <= |data|
    ensures step.Continue? ==> offset <= step.next <= |data|
    ensures forall e | e in Written(step) :: NotRefused(root, e.path)
  {
    LongEntryStep(data, offset, root, LongHeader(data, offset, h))
  }

  /** What the loop does with the long entry read from `offset` on. */
  function LongEntryStep(data: string, offset: nat, root: string, long: Result<LongEntry, Fault>): (step: Step)
    requires offset <= |data|
    requires long.Success? ==> offset <= long.value.next <= |data|
    requires long.Success? && long.value.Next? ==> !Traverses(long.value.header.filename)
    requires long.Success? && long.value.EndMarker? ==> !Traverses(long.value.name)
    ensures step.Continue? ==> offset <= step.next <= |data|
    ensures forall e | e in Written(step) :: NotRefused(root, e.path)
  {
    match long
    case Failure(error) => Stopped(None, error)
    case Success(Next(long, next)) => Store(data, next, root, long)
    case Success(EndMarker(name, _)) =>
      // the end marker's size field is a string of NULs: nothing is read,
      // and the empty file's size is never identical to that string
      NotRefusedOf(root, StripDotSlash(name));
      Stopped(Some(File(root + "/" + StripDotSlash(name), "")), FileSizeMismatch)
  }

  /** The files and directories an extraction leaves, and the error that stopped it, if any. */
  datatype Outcome = Outcome(entries: seq<Entry>, error: Option<Fault>)

  /**
   * `doExtract` from `offset` on: every entry it writes is `root` + "/" + a
   * name the traversal test let through, and when nothing goes wrong it
   * reads the stream to its end.
   */
  function ExtractFrom(data: string, offset: nat, root: string): (o: Outcome)
    requires offset <= |data|
    ensures forall e | e in o.entries :: NotRefused(root, e.path)
    decreases |data| - offset
  {
    match NextEntry(data, offset, root)
    case Finished => Outcome([], None)
    case Stopped(_, error) => Outcome(Written(NextEntry(data, offset, root)), Some(error))
    case Continue(_, next) =>
      var rest := ExtractFrom(data, next, root);
      Outcome(Written(NextEntry(data, offset, root)) + rest.entries, rest.error)
  }

  /** The entries `done` written before an extraction that ends in `o`. */
  function Prepend(done: seq<Entry>, o: Outcome): (r: Outcome)
    ensures r.error == o.error && |r.entries| == |done| + |o.entries|
  {
    Outcome(done + o.entries, o.error)
  }

  lemma Associative(a: seq<Entry>, b: seq<Entry>, c: seq<Entry>)
    ensures a + (b + c) == (a + b) + c
  {
  }

  /** After a pass that goes on, the outcome is the rest's, with what the pass wrote in front. */
  lemma ExtractContinues(data: string, offset: nat, root: string, done: seq<Entry>)
    requires offset <= |data| && NextEntry(data, offset, root).Continue?
    ensures var step := NextEntry(data, offset, root);
            Prepend(done, ExtractFrom(data, offset, root)) == Prepend(done + Written(step), ExtractFrom(data, step.next, root))
  {
    var step := NextEntry(data, offset, root);
    var rest := ExtractFrom(data, step.next, root);
    assert done + (Written(step) + rest.entries) == (done + Written(step)) + rest.entries;
  }

  /** A pass that ends the walk decides the outcome. */
  lemma ExtractEnds(data: string, offset: nat, root: string, done: seq<Entry>)
    requires offset <= |data| && !NextEntry(data, offset, root).Continue?
    ensures var step := NextEntry(data, offset, root);
            Prepend(done, ExtractFrom(data, offset, root))
              == Outcome(done + Written(step), if step.Stopped? then Some(step.error) else None)
  {
  }

  /** A stream that goes on with nothing but whole all-zero blocks extracts nothing more and stops cleanly. */
  lemma {:induction false} ZeroBlocks(data: string, offset: nat, root: string)
    requires offset <= |data| && (|data| - offset) % BlockSize == 0
    requires forall i | offset <= i < |data| :: data[i] == '\0'
    ensures ExtractFrom(data, offset, root) == Outcome([], None)
    decreases |data| - offset
  {
    if offset < |data| {
      var block := data[offset..offset + BlockSize];
      assert block == Repeat('\0', BlockSize);
      EndBlock();
      assert NextEntry(data, offset, root) == Continue(None, offset + BlockSize);
      ZeroBlocks(data, offset + BlockSize, root);
    }
  }
}
