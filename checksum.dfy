/** The header checksum the patcher stamps into the image before writing it
    (`calculateChecksum` of Ruby/main.rb): the sum of the big-endian 16-bit
    words from 0x200 to the end of the image, kept to 16 bits and stored
    big-endian at 0x18E. */
module Checksum {
  import opened Wrappers
  import opened Bytes

  const SumStart: int := 0x200
  const ChecksumAt: int := 0x18E

  /** The big-endian word at `i`. */
  function Word(rom: seq<int>, i: int): int
    requires 0 <= i && i + 1 < |rom|
  {
    rom[i] * 0x100 + rom[i + 1]
  }

  /** The sum of the words at `lo`, `lo + 2`, ... below `hi`. */
  function WordSum(rom: seq<int>, lo: int, hi: int): int
    requires 0 <= lo <= hi <= |rom| && (hi - lo) % 2 == 0
    decreases hi - lo
  {
    if hi == lo then 0 else WordSum(rom, lo, hi - 2) + Word(rom, hi - 2)
  }

  /** The checksum of an image of full size. */
  function ChecksumOf(rom: seq<int>): (r: int)
    requires |rom| >= RomSize
    ensures 0 <= r < 0x10000
  {
    WordSum(rom, SumStart, RomSize) % 0x10000
  }

  /** The image with its checksum stamped in. */
  function Stamped(rom: seq<int>): (r: seq<int>)
    requires |rom| >= RomSize
    ensures |r| == |rom|
  {
    Patch(rom, ChecksumAt, NumToBytes(ChecksumOf(rom), 2, false))
  }

  /** Byte `j` of the stamped image: one of the two checksum bytes inside the
      checksum field, the image's own byte elsewhere. */
  lemma StampedAt(rom: seq<int>, j: int)
    requires |rom| >= RomSize && 0 <= j < |rom|
    ensures Stamped(rom)[j] == if ChecksumAt <= j < ChecksumAt + 2
      then NumToBytes(ChecksumOf(rom), 2, false)[j - ChecksumAt] else rom[j]
  {
    var bytes := NumToBytes(ChecksumOf(rom), 2, false);
    if ChecksumAt <= j < ChecksumAt + 2 {
      assert Stamped(rom)[ChecksumAt..ChecksumAt + 2][j - ChecksumAt] == Stamped(rom)[j];
    }
  }

  /** The sum reads only the words it covers. */
  lemma {:induction false} WordSumFrame(a: seq<int>, b: seq<int>, lo: int, hi: int)
    requires 0 <= lo <= hi <= |a| && hi <= |b| && (hi - lo) % 2 == 0
    requires a[lo..hi] == b[lo..hi]
    ensures WordSum(a, lo, hi) == WordSum(b, lo, hi)
    decreases hi - lo
  {
    if hi > lo {
      assert a[hi - 2] == a[lo..hi][hi - 2 - lo] && a[hi - 1] == a[lo..hi][hi - 1 - lo];
      assert a[lo..hi - 2] == a[lo..hi][..hi - 2 - lo];
      assert b[lo..hi - 2] == b[lo..hi][..hi - 2 - lo];
      WordSumFrame(a, b, lo, hi - 2);
    }
  }

  /** The stored checksum lies below the words it sums, so stamping does not
      change it: the stored bytes read back as the checksum, and stamping a
      stamped image again changes nothing. */
  lemma StampedStable(rom: seq<int>)
    requires |rom| >= RomSize
    ensures ChecksumOf(Stamped(rom)) == ChecksumOf(rom)
    ensures FromBE(Stamped(rom)[ChecksumAt..ChecksumAt + 2]) == ChecksumOf(rom)
    ensures Stamped(Stamped(rom)) == Stamped(rom)
  {
    var s := Stamped(rom);
    var bytes := NumToBytes(ChecksumOf(rom), 2, false);
    assert s[SumStart..RomSize] == rom[SumStart..RomSize];
    WordSumFrame(s, rom, SumStart, RomSize);
    BytesToNumOfNumToBytes(ChecksumOf(rom), 2, false);
    assert s[ChecksumAt..ChecksumAt + 2] == bytes;
    assert Stamped(s) == s;
  }

  /** The `each_slice(2)` loop of `calculateChecksum`: the words from 0x200
      to the end of the image, added up. */
  method SumWords(rom: array<int>) returns (sum: int)
    requires rom.Length >= RomSize
    ensures sum == WordSum(rom[..], SumStart, RomSize)
  {
    sum := 0;
    var i := SumStart;
    while i < RomSize
      invariant SumStart <= i <= RomSize && (i - SumStart) % 2 == 0
      invariant sum == WordSum(rom[..], SumStart, i)
      decreases RomSize - i
    {
      sum := sum + rom[i] * 0x100 + rom[i + 1];
      i := i + 2;
    }
  }

  /** `calculateChecksum(rom)`: sums the words, keeps 16 bits and writes the
      two bytes; returns the checksum. An image shorter than 2 MiB reads
      `nil`, which Ruby fails on. */
  method CalculateChecksum(rom: array<int>) returns (r: Result<int, Fault>)
    modifies rom
    ensures r.Err? ==> rom.Length < RomSize && rom[..] == old(rom[..])
    ensures r.Ok? ==> rom.Length >= RomSize && r.value == ChecksumOf(old(rom[..]))
    ensures r.Ok? ==> rom[..] == Stamped(old(rom[..]))
  {
    if rom.Length < RomSize {
      return Err(ReadPastEnd(if rom.Length < SumStart then SumStart else rom.Length));
    }
    var sum := SumWords(rom);
    var checksum := sum % 0x10000;
    var checksumBytes := NumToBytes(checksum, 2, false);
    ghost var before := rom[..];
    for k := 0 to |checksumBytes|
      invariant forall j :: 0 <= j < rom.Length ==>
        rom[j] == if ChecksumAt <= j < ChecksumAt + k then checksumBytes[j - ChecksumAt] else before[j]
    {
      rom[ChecksumAt + k] := checksumBytes[k];
    }
    forall j | 0 <= j < rom.Length
      ensures rom[j] == Stamped(before)[j]
    {
      StampedAt(before, j);
    }
    assert rom[..] == Stamped(before);
    r := Ok(checksum);
  }
}
