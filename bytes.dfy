/** Byte primitives of Ruby/util.rb: big- and little-endian packing
    (`Util.bytesToNum`, `Util.numToBytes`) and the ROM geometry of
    Ruby/defines.rb. Ruby integers are unbounded, so `int` is exact here;
    `(n >> 8k) & 0xff` is `(n / 256^k) % 256` with Dafny's Euclidean
    division, for negative `n` as well. */
module Bytes {

  /** The cartridge image is exactly 2 MiB. */
  const RomSize: int := 0x200000
  const RomMinAddr: int := 0
  const RomMaxAddr: int := RomSize - 1

  type byte = b: int | 0 <= b < 0x100

  predicate IsByteSeq(s: seq<int>) {
    forall i :: 0 <= i < |s| ==> 0 <= s[i] < 0x100
  }

  function Pow256(c: nat): (p: int)
    ensures p >= 1
  {
    if c == 0 then 1 else 256 * Pow256(c - 1)
  }

  /** `bytesToNum(bytes, false)`: the first byte is the most significant. */
  function FromBE(s: seq<int>): int {
    if |s| == 0 then 0 else 256 * FromBE(s[..|s| - 1]) + s[|s| - 1]
  }

  /** `bytesToNum(bytes, true)`: the first byte is the least significant. */
  function FromLE(s: seq<int>): int {
    if |s| == 0 then 0 else s[0] + 256 * FromLE(s[1..])
  }

  function BytesToNum(s: seq<int>, isLE: bool): int {
    if isLE then FromLE(s) else FromBE(s)
  }

  /** `numToBytes(n, c, false)`: the low `c` bytes of `n`, most significant first. */
  function ToBE(n: int, c: nat): (r: seq<int>)
    ensures |r| == c && IsByteSeq(r)
    decreases c
  {
    if c == 0 then [] else ToBE(n / 256, c - 1) + [n % 256]
  }

  /** `numToBytes(n, c, true)`: the low `c` bytes of `n`, least significant first. */
  function ToLE(n: int, c: nat): (r: seq<int>)
    ensures |r| == c && IsByteSeq(r)
    decreases c
  {
    if c == 0 then [] else [n % 256] + ToLE(n / 256, c - 1)
  }

  function NumToBytes(n: int, c: nat, isLE: bool): (r: seq<int>)
    ensures |r| == c && IsByteSeq(r)
  {
    if isLE then ToLE(n, c) else ToBE(n, c)
  }

  /** The image `img` with `bytes` written from `addr` on, as the Ruby code
      does with `@patchedImage[addr + i] = bytes[i]`. */
  function Patch(img: seq<int>, addr: int, bytes: seq<int>): (r: seq<int>)
    requires 0 <= addr && addr + |bytes| <= |img|
    ensures |r| == |img| && r[addr..addr + |bytes|] == bytes
    ensures forall i :: 0 <= i < |img| && !(addr <= i < addr + |bytes|) ==> r[i] == img[i]
  {
    img[..addr] + bytes + img[addr + |bytes|..]
  }

  // ---------------------------------------------------------------------
  // Arithmetic helpers

  lemma MulAtLeast(k: int, d: int)
    requires k >= 1 && d > 0
    ensures k * d >= d
  {
    assert k * d == (k - 1) * d + d;
  }

  /** Euclidean division by a positive divisor is unique. */
  lemma DivModUnique(n: int, d: int, q: int, r: int)
    requires d > 0 && n == q * d + r && 0 <= r < d
    ensures n / d == q && n % d == r
  {
    var q0, r0 := n / d, n % d;
    assert n == q0 * d + r0 && 0 <= r0 < d;
    if q0 > q {
      assert (q0 - q) * d == r - r0;
      MulAtLeast(q0 - q, d);
    } else if q0 < q {
      assert (q - q0) * d == r0 - r;
      MulAtLeast(q - q0, d);
    }
  }

  /** Taking the low byte off, then `m` more units, is taking `256 * m` units. */
  lemma SplitMod(n: int, m: int)
    requires m >= 1
    ensures 256 * ((n / 256) % m) + n % 256 == n % (256 * m)
  {
    var q, r := n / 256, n % 256;
    var a, b := q / m, q % m;
    assert n == 256 * q + r;
    assert q == a * m + b;
    assert n == a * (256 * m) + (256 * b + r) by {
      assert 256 * q == 256 * (a * m) + 256 * b;
      assert 256 * (a * m) == a * (256 * m);
    }
    assert 256 * b <= 256 * (m - 1);
    DivModUnique(n, 256 * m, a, 256 * b + r);
  }

  // ---------------------------------------------------------------------
  // Round trips

  /** Packing keeps the value modulo `256^c`: negative numbers come back in
      two's complement. */
  lemma {:induction false} FromToBE(n: int, c: nat)
    ensures FromBE(ToBE(n, c)) == n % Pow256(c)
    decreases c
  {
    if c > 0 {
      var t := ToBE(n / 256, c - 1);
      var s := t + [n % 256];
      assert ToBE(n, c) == s;
      assert s[..|s| - 1] == t;
      FromToBE(n / 256, c - 1);
      SplitMod(n, Pow256(c - 1));
    }
  }

  lemma {:induction false} FromToLE(n: int, c: nat)
    ensures FromLE(ToLE(n, c)) == n % Pow256(c)
    decreases c
  {
    if c > 0 {
      var t := ToLE(n / 256, c - 1);
      var s := [n % 256] + t;
      assert ToLE(n, c) == s;
      assert s[1..] == t;
      FromToLE(n / 256, c - 1);
      SplitMod(n, Pow256(c - 1));
    }
  }

  /** `bytesToNum(numToBytes(n, c, le), le) == n` whenever `n` fits in `c` bytes. */
  lemma BytesToNumOfNumToBytes(n: int, c: nat, isLE: bool)
    requires 0 <= n < Pow256(c)
    ensures BytesToNum(NumToBytes(n, c, isLE), isLE) == n
  {
    if isLE { FromToLE(n, c); } else { FromToBE(n, c); }
    DivModUnique(n, Pow256(c), 0, n);
  }

  /** A byte sequence denotes a value below `256^|s|`. */
  lemma {:induction false} FromBERange(s: seq<int>)
    requires IsByteSeq(s)
    ensures 0 <= FromBE(s) < Pow256(|s|)
  {
    if |s| > 0 {
      FromBERange(s[..|s| - 1]);
    }
  }

  /** The converse round trip: a big-endian byte sequence is re-packed into
      itself. */
  lemma {:induction false} ToFromBE(s: seq<int>)
    requires IsByteSeq(s)
    ensures ToBE(FromBE(s), |s|) == s
  {
    if |s| > 0 {
      var init := s[..|s| - 1];
      var x := FromBE(s);
      DivModUnique(x, 256, FromBE(init), s[|s| - 1]);
      ToFromBE(init);
      assert ToBE(x, |s|) == ToBE(FromBE(init), |s| - 1) + [s[|s| - 1]];
      assert init + [s[|s| - 1]] == s;
    }
  }
}
