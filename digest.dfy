/**
  The tester's MD5 fingerprints: the digest itself is an uninterpreted
  function from bytes to a 128-bit number; what is modelled is how the
  number is turned into the string that is stored and compared
  (`calcMd5`) and how a file's bytes are fed to it (`calcFileMd5`).
 */
module Md5Hex {
  import opened Digits
  import opened FileSys

  const TwoTo128: nat := 0x1_0000_0000_0000_0000_0000_0000_0000_0000

  /** The value of `new BigInteger(1, md.digest())` for a 16-byte digest. */
  type Digest = d: nat | d < TwoTo128

  /** The chunk size of the read buffer in `calcFileMd5`. */
  const BufferSize: nat := 4096 * 2

  /** `BigInteger.toString(16)`, then one "0" in front when it has exactly
      31 digits. */
  function HexOf(d: Digest): string {
    var raw := ToDigits(d, 16);
    if |raw| == 31 then "0" + raw else raw
  }

  /** `calcMd5(byte[])`: the fingerprint of bytes held in memory. */
  function CalcMd5(md5: seq<Byte> -> Digest, data: seq<Byte>): string {
    HexOf(md5(data))
  }

  lemma PowSixteen32()
    ensures Pow16(32) == TwoTo128
  {
    assert Pow16(4) == 0x1_0000;
    PowAdd(4, 4);
    PowAdd(8, 8);
    PowAdd(16, 16);
  }

  /** Every digest of 31 or 32 significant hex digits is rendered with
      exactly 32 characters, all of them hex digits. */
  lemma HexOfFullWidth(d: Digest)
    requires Pow16(30) <= d
    ensures |HexOf(d)| == 32
    ensures forall k :: 0 <= k < 32 ==> IsDigitChar(HexOf(d)[k])
  {
    PowSixteen32();
    if d < Pow16(31) {
      HexDigitCount(d, 31);
    } else {
      HexDigitCount(d, 32);
    }
  }

  /** Only one leading zero is ever restored: a digest below 16^30 keeps
      the unpadded rendering, which is shorter than 31 characters. */
  lemma HexOfShortDigest(d: Digest)
    requires d < Pow16(30)
    ensures HexOf(d) == ToDigits(d, 16) && |HexOf(d)| < 31
  {
    HexLengthBounds(d);
    var L := |ToDigits(d, 16)|;
    if d > 0 {
      PowMonotonic(if L - 1 < 30 then L - 1 else 30, L - 1);
    }
  }

  /** The normalised rendering loses nothing: distinct digests give
      distinct strings, so comparing strings is comparing digests. */
  lemma HexOfInjective(d: Digest, e: Digest)
    ensures HexOf(d) == HexOf(e) ==> d == e
  {
    var a, b := ToDigits(d, 16), ToDigits(e, 16);
    ToDigitsInjective(d, e, 16);
    if HexOf(d) != HexOf(e) {
    } else if |a| == 31 && |b| == 31 {
      assert a == HexOf(d)[1..] == HexOf(e)[1..] == b;
    } else if |a| == 31 {
      assert b[0] == '0';
      NoLeadingZero(e, 16);
    } else if |b| == 31 {
      assert a[0] == '0';
      NoLeadingZero(d, 16);
    }
  }

  /** A fingerprint is never the empty string `calcFileMd5` returns on
      failure. */
  lemma HexOfNonEmpty(d: Digest)
    ensures HexOf(d) != ""
  {
    assert |ToDigits(d, 16)| >= 1;
  }

  /** `calcFileMd5`: the file is opened (failing, and giving "", when it is
      missing or unreadable), then read in chunks of `BufferSize` bytes,
      each fed to the digest, until `read` reports the end of the stream.
      The result is the fingerprint of the whole file as if it were held
      in memory. */
  method CalcFileMd5(fs: FileSystem, path: string, md5: seq<Byte> -> Digest) returns (h: string)
    ensures h == if CanRead(fs, path) then CalcMd5(md5, fs.files[path].data) else ""
  {
    if !CanRead(fs, path) {
      return "";
    }
    var data := fs.files[path].data;
    var fed: seq<Byte> := [];
    var pos := 0;
    var numRead := 0;
    while numRead != -1
      invariant 0 <= pos <= |data|
      invariant fed == data[..pos]
      invariant numRead == -1 ==> pos == |data|
      decreases |data| - pos, if numRead == -1 then 0 else 1
    {
      numRead := if pos == |data| then -1
                 else if |data| - pos < BufferSize then |data| - pos
                 else BufferSize;
      if numRead > 0 {
        fed := fed + data[pos..pos + numRead];
        pos := pos + numRead;
      }
    }
    assert fed == data;
    h := HexOf(md5(fed));
  }
}
