/** The resource decompressor of Ruby/main.rb (`ResEncoder#getByte`,
    `#getBit` and `#decode`). A packed resource starts with a tag byte and a
    big-endian 16-bit size; then flag bits, fetched one byte at a time and
    used least significant bit first, choose between a literal byte and a
    copy of earlier output. The flag bytes and the literal and copy bytes are
    read from the same cursor. */
module Lz {
  import opened Wrappers
  import opened Bytes

  // ---------------------------------------------------------------------
  // Flag bits

  function Pow2(k: nat): (p: nat)
    ensures p >= 1
  {
    if k == 0 then 1 else 2 * Pow2(k - 1)
  }

  /** `("%08b" % n).reverse.chars` for `k == 8`: the low `k` bits of `n`,
      least significant first. */
  function LsbBits(n: nat, k: nat): (r: seq<bool>)
    ensures |r| == k
    decreases k
  {
    if k == 0 then [] else [n % 2 == 1] + LsbBits(n / 2, k - 1)
  }

  /** The number a run of bits spells when the first is the least
      significant. */
  function FromLsbBits(bits: seq<bool>): (r: nat)
    ensures r < Pow2(|bits|)
  {
    if |bits| == 0 then 0 else (if bits[0] then 1 else 0) + 2 * FromLsbBits(bits[1..])
  }

  /** Reading the bits of a number that fits back gives the number. */
  lemma {:induction false} LsbBitsRoundTrip(n: nat, k: nat)
    requires n < Pow2(k)
    ensures FromLsbBits(LsbBits(n, k)) == n
    decreases k
  {
    if k > 0 {
      LsbBitsRoundTrip(n / 2, k - 1);
      assert LsbBits(n, k)[1..] == LsbBits(n / 2, k - 1);
    }
  }

  /** Spelling a run of bits and splitting it again gives the same run. */
  lemma {:induction false} FromLsbBitsRoundTrip(bits: seq<bool>)
    ensures LsbBits(FromLsbBits(bits), |bits|) == bits
    decreases |bits|
  {
    if |bits| > 0 {
      var n := FromLsbBits(bits);
      var rest := FromLsbBits(bits[1..]);
      assert n % 2 == (if bits[0] then 1 else 0) && n / 2 == rest;
      FromLsbBitsRoundTrip(bits[1..]);
      assert bits == [bits[0]] + bits[1..];
    }
  }

  /** The eight flags one byte supplies, least significant bit first. */
  function ByteBits(b: byte): (r: seq<bool>)
    ensures |r| == 8 && FromLsbBits(r) == b
  {
    assert Pow2(8) == 256;
    LsbBitsRoundTrip(b, 8);
    LsbBits(b, 8)
  }

  // ---------------------------------------------------------------------
  // The input cursor

  /** `@picOffset` and `@bitArray`: the next byte to read, and the flags of
      the last flag byte that are not used yet. */
  datatype Cursor = Cursor(pos: int, bits: seq<bool>)

  /** `getByte`. Past the end of the image Ruby reads `nil`, which every
      caller then fails on. */
  function NextByte(rom: seq<byte>, c: Cursor): Result<(byte, Cursor), Fault> {
    if 0 <= c.pos < |rom| then Ok((rom[c.pos], Cursor(c.pos + 1, c.bits)))
    else Err(ReadPastEnd(c.pos))
  }

  /** `getBit`: the next buffered flag, or, when none is left, the lowest
      bit of the next byte, whose other seven bits are buffered. */
  function NextBit(rom: seq<byte>, c: Cursor): (r: Result<(bool, Cursor), Fault>)
    ensures |c.bits| > 0 ==> r == Ok((c.bits[0], Cursor(c.pos, c.bits[1..])))
    ensures |c.bits| == 0 ==> (r.Ok? <==> 0 <= c.pos < |rom|)
    ensures |c.bits| == 0 && r.Ok? ==>
      && r.value.1.pos == c.pos + 1 && |r.value.1.bits| == 7
      && (r.value.0 <==> rom[c.pos] % 2 == 1)
      && FromLsbBits([r.value.0] + r.value.1.bits) == rom[c.pos]
  {
    if |c.bits| > 0 then Ok((c.bits[0], Cursor(c.pos, c.bits[1..])))
    else
      var (b, next) :- NextByte(rom, c);
      var bits := ByteBits(b);
      assert bits == [bits[0]] + bits[1..];
      Ok((bits[0], Cursor(next.pos, bits[1..])))
  }

  // ---------------------------------------------------------------------
  // Tokens

  /** What one turn of the decoding loop appends: one byte read from the
      input, or `count` bytes copied from `seekBack` positions back. */
  datatype Token = Literal(b: byte) | Copy(seekBack: int, count: nat)

  /** The two grammars, chosen by the tag: 0x83 or 0x03, and 0x84 or 0x04. */
  datatype Scheme = Scheme83 | Scheme84

  function SchemeOf(tag: byte): Option<Scheme> {
    if tag == 0x83 || tag == 0x03 then Some(Scheme83)
    else if tag == 0x84 || tag == 0x04 then Some(Scheme84)
    else None
  }

  /** One token of the 0x83 grammar: a set flag is a literal; otherwise two
      bytes hold a 12-bit distance (the low byte, then the high nibble of
      the second byte) and, in the low nibble, the length less three. */
  function Token83(rom: seq<byte>, c: Cursor): (r: Result<(Token, Cursor), Fault>)
    ensures r.Ok? ==> NextBit(rom, c).Ok? && (r.value.0.Literal? <==> NextBit(rom, c).value.0)
    ensures r.Ok? && r.value.0.Copy? ==> 0 <= r.value.0.seekBack <= 0xFFF && 3 <= r.value.0.count <= 18
    ensures NextBit(rom, c).Ok? && NextBit(rom, c).value.0 ==>
              var c1 := NextBit(rom, c).value.1;
              && (r.Ok? <==> 0 <= c1.pos < |rom|)
              && (r.Ok? ==> r.value == (Literal(rom[c1.pos]), Cursor(c1.pos + 1, c1.bits)))
  {
    var (flag, c1) :- NextBit(rom, c);
    if flag then
      var (b, c2) :- NextByte(rom, c1);
      Ok((Literal(b), c2))
    else
      var (seekBack, c2) :- NextByte(rom, c1);
      var (seekAndCounter, c3) :- NextByte(rom, c2);
      var counter := seekAndCounter % 16 + 2;
      Ok((Copy(seekBack + (seekAndCounter / 16) * 256, counter + 1), c3))
  }

  /** One token of the 0x84 grammar: a set flag is a literal. Otherwise a
      set second flag means a long copy: a 13-bit distance (the low byte,
      then the high five bits of the second byte) with the length less two
      in the low three bits, or, when those are zero, one more byte holding
      the length less one. A clear second flag means a short copy: two more
      flags, first the high one, give the length less three, and one byte
      gives the distance. */
  function Token84(rom: seq<byte>, c: Cursor): (r: Result<(Token, Cursor), Fault>)
    ensures r.Ok? ==> NextBit(rom, c).Ok? && (r.value.0.Literal? <==> NextBit(rom, c).value.0)
    ensures r.Ok? && r.value.0.Copy? ==> 0 <= r.value.0.seekBack <= 0x1FFF && 1 <= r.value.0.count <= 256
    ensures NextBit(rom, c).Ok? && NextBit(rom, c).value.0 ==>
              var c1 := NextBit(rom, c).value.1;
              && (r.Ok? <==> 0 <= c1.pos < |rom|)
              && (r.Ok? ==> r.value == (Literal(rom[c1.pos]), Cursor(c1.pos + 1, c1.bits)))
  {
    var (flag, c1) :- NextBit(rom, c);
    if flag then
      var (b, c2) :- NextByte(rom, c1);
      Ok((Literal(b), c2))
    else
      var (long, c2) :- NextBit(rom, c1);
      if long then LongCopy(rom, c2) else ShortCopy(rom, c2)
  }

  /** The long form of a 0x84 copy, after its two flags. */
  function LongCopy(rom: seq<byte>, c: Cursor): (r: Result<(Token, Cursor), Fault>)
    ensures r.Ok? ==> r.value.0.Copy? && 0 <= r.value.0.seekBack <= 0x1FFF && 1 <= r.value.0.count <= 256
  {
    var (seekBack, c1) :- NextByte(rom, c);
    var (seekAndCounter, c2) :- NextByte(rom, c1);
    var distance := seekBack + (seekAndCounter / 8) * 256;
    if seekAndCounter % 8 == 0 then
      var (counter, c3) :- NextByte(rom, c2);
      Ok((Copy(distance, counter + 1), c3))
    else
      Ok((Copy(distance, seekAndCounter % 8 + 2), c2))
  }

  /** The short form of a 0x84 copy, after its two flags. */
  function ShortCopy(rom: seq<byte>, c: Cursor): (r: Result<(Token, Cursor), Fault>)
    ensures r.Ok? ==> r.value.0.Copy? && 0 <= r.value.0.seekBack <= 0xFF && 3 <= r.value.0.count <= 6
  {
    var (high, c1) :- NextBit(rom, c);
    var (low, c2) :- NextBit(rom, c1);
    var counter := (if high then 2 else 0) + (if low then 1 else 0) + 2;
    var (seekBack, c3) :- NextByte(rom, c2);
    Ok((Copy(seekBack, counter + 1), c3))
  }

  function NextToken(rom: seq<byte>, scheme: Scheme, c: Cursor): Result<(Token, Cursor), Fault> {
    match scheme
    case Scheme83 => Token83(rom, c)
    case Scheme84 => Token84(rom, c)
  }

  // ---------------------------------------------------------------------
  // Output

  /** Ruby's `array[i]`: a negative `i` counts from the end, and an index
      outside the array reads `nil`. */
  function RubyAt(a: seq<byte>, i: int): Option<byte> {
    if 0 <= i < |a| then Some(a[i])
    else if -|a| <= i < 0 then Some(a[|a| + i])
    else None
  }

  /** `0.upto(counter) { |t| decodedBytes.push decodedBytes[copystart + t] }`
      with `n == counter + 1`: every byte is read after the previous one is
      appended, so a copy may overlap its own output. Pushing `nil` is a
      fault here. */
  function CopyFrom(out: seq<byte>, start: int, n: nat): (r: Result<seq<byte>, Fault>)
    ensures r.Ok? ==> |r.value| == |out| + n && r.value[..|out|] == out
    decreases n
  {
    if n == 0 then Ok(out)
    else
      var v :- if RubyAt(out, start).Some? then Ok(RubyAt(out, start).value) else Err(BadBackReference);
      var r := CopyFrom(out + [v], start + 1, n - 1);
      assert r.Ok? ==> r.value[..|out|] == (out + [v])[..|out|];
      r
  }

  /** The output after one token. */
  function Expand(out: seq<byte>, tok: Token): (r: Result<seq<byte>, Fault>)
    ensures r.Ok? ==> |r.value| == |out| + (if tok.Literal? then 1 else tok.count) && r.value[..|out|] == out
    ensures tok.Literal? ==> r == Ok(out + [tok.b])
  {
    match tok
    case Literal(b) => Ok(out + [b])
    case Copy(seekBack, count) => CopyFrom(out, |out| - seekBack, count)
  }

  /** A copy from a distance inside the output repeats the output with that
      period: each appended byte equals the byte `seekBack` positions before
      it, including bytes the same copy appended. */
  lemma {:induction false} CopyRepeats(out: seq<byte>, seekBack: int, n: nat)
    requires 0 < seekBack <= |out|
    ensures CopyFrom(out, |out| - seekBack, n).Ok?
    ensures var r := CopyFrom(out, |out| - seekBack, n).value;
      forall j :: |out| <= j < |r| ==> r[j] == r[j - seekBack]
    decreases n
  {
    if n > 0 {
      var v := out[|out| - seekBack];
      var next := out + [v];
      CopyRepeats(next, seekBack, n - 1);
      var r := CopyFrom(next, |next| - seekBack, n - 1).value;
      assert CopyFrom(out, |out| - seekBack, n) == Ok(r);
      assert r[..|next|] == next;
      assert r[|out|] == next[|out|] == v;
      assert r[|out| - seekBack] == next[|out| - seekBack] == v;
    }
  }

  /** A copy from distance zero reads the slot being filled, which Ruby
      reads as `nil`. */
  lemma ZeroDistance(out: seq<byte>, n: nat)
    requires n > 0
    ensures CopyFrom(out, |out|, n) == Err(BadBackReference)
  {
    assert RubyAt(out, |out|).None?;
  }

  // ---------------------------------------------------------------------
  // The decoding loop

  /** One turn of the `while` loop. */
  function Turn(rom: seq<byte>, scheme: Scheme, c: Cursor, out: seq<byte>): (r: Result<(seq<byte>, Cursor), Fault>)
    ensures r.Ok? ==> |r.value.0| > |out| && r.value.0[..|out|] == out
  {
    var (tok, c1) :- NextToken(rom, scheme, c);
    var out1 :- Expand(out, tok);
    Ok((out1, c1))
  }

  /** `while decodedBytes.size <= decodeSize`: tokens are decoded until the
      output is longer than `size`, so the last token may run past it. */
  function Loop(rom: seq<byte>, scheme: Scheme, c: Cursor, out: seq<byte>, size: int): (r: Result<(seq<byte>, Cursor), Fault>)
    ensures r.Ok? ==> |r.value.0| > size && |r.value.0| >= |out| && r.value.0[..|out|] == out
    decreases size + 1 - |out|
  {
    if |out| > size then Ok((out, c))
    else
      var (out1, c1) :- Turn(rom, scheme, c, out);
      var r := Loop(rom, scheme, c1, out1, size);
      assert r.Ok? ==> r.value.0[..|out|] == r.value.0[..|out1|][..|out|];
      r
  }

  /** The tag, then the size, high byte first (`(getByte << 8) + getByte`). */
  function Header(rom: seq<byte>, c: Cursor): (r: Result<(byte, int, Cursor), Fault>)
    ensures r.Ok? <==> 0 <= c.pos && c.pos + 3 <= |rom|
    ensures r.Ok? ==> r.value == (rom[c.pos], rom[c.pos + 1] as int * 256 + rom[c.pos + 2], Cursor(c.pos + 3, c.bits))
  {
    var (tag, c1) :- NextByte(rom, c);
    var (hi, c2) :- NextByte(rom, c1);
    var (lo, c3) :- NextByte(rom, c2);
    Ok((tag, hi * 256 + lo, c3))
  }

  /** `decode(offset)`: the tag, then the size, high byte first; an unknown
      tag gives `nil` (`None`), a known one the first `size` bytes the loop
      produced. Also the cursor the decoder is left at. */
  function Run(rom: seq<byte>, offset: int): (r: Result<(Option<seq<byte>>, Cursor), Fault>)
    ensures r.Ok? ==> 0 <= offset && offset + 3 <= |rom|
    ensures r.Ok? ==> (r.value.0.None? <==> SchemeOf(rom[offset]).None?)
    ensures r.Ok? && r.value.0.Some? ==> |r.value.0.value| == rom[offset + 1] as int * 256 + rom[offset + 2]
  {
    var (tag, size, c3) :- Header(rom, Cursor(offset, []));
    match SchemeOf(tag)
    case None => Ok((None, c3))
    case Some(scheme) =>
      var (out, c4) :- Loop(rom, scheme, c3, [], size);
      Ok((Some(out[..size]), c4))
  }

  /** The result alone. */
  function Decoded(rom: seq<byte>, offset: int): Result<Option<seq<byte>>, Fault> {
    var (out, _) :- Run(rom, offset);
    Ok(out)
  }

  /** A readable header with an unknown tag always decodes to `nil`. */
  lemma UnknownTag(rom: seq<byte>, offset: int)
    requires 0 <= offset && offset + 3 <= |rom| && SchemeOf(rom[offset]).None?
    ensures Decoded(rom, offset) == Ok(None)
  {
  }

  /** The decoded bytes are the start of what the tokens produce: decoding
      with a larger size returns a longer run of the same bytes. */
  lemma {:induction false} LoopExtends(rom: seq<byte>, scheme: Scheme, c: Cursor, out: seq<byte>, size: int, more: int)
    requires size <= more && Loop(rom, scheme, c, out, more).Ok? && Loop(rom, scheme, c, out, size).Ok?
    ensures var small := Loop(rom, scheme, c, out, size).value.0;
      var large := Loop(rom, scheme, c, out, more).value.0;
      |small| <= |large| && large[..|small|] == small
    decreases size + 1 - |out|
  {
    if |out| <= size {
      var (out1, c1) := Turn(rom, scheme, c, out).value;
      LoopExtends(rom, scheme, c1, out1, size, more);
    }
  }

  /** `with`: a result paired with the cursor it leaves, as the spec
      functions above return them. */
  function With<T>(r: Result<T, Fault>, c: Cursor): Result<(T, Cursor), Fault> {
    if r.Ok? then Ok((r.value, c)) else Err(r.error)
  }

  // ---------------------------------------------------------------------
  // The decoder object

  /** `ResEncoder`: the image it reads, and the cursor `decode` moves. */
  class ResDecoder {
    const romBytes: seq<byte>
    var picOffset: int
    var bitArray: seq<bool>

    function Cur(): Cursor
      reads this
    {
      Cursor(picOffset, bitArray)
    }

    /** Ruby leaves the cursor unset until `decode` sets it. */
    constructor(rom: seq<byte>)
      ensures romBytes == rom && picOffset == 0 && bitArray == []
    {
      romBytes := rom;
      picOffset := 0;
      bitArray := [];
    }

    /** `getByte`: the cursor moves on even when it reads past the end. */
    method GetByte() returns (r: Result<byte, Fault>)
      modifies this
      ensures With(r, Cur()) == NextByte(romBytes, old(Cur()))
      ensures picOffset == old(picOffset) + 1 && bitArray == old(bitArray)
    {
      if 0 <= picOffset < |romBytes| {
        r := Ok(romBytes[picOffset]);
      } else {
        r := Err(ReadPastEnd(picOffset));
      }
      picOffset := picOffset + 1;
    }

    /** `getBit`. */
    method GetBit() returns (r: Result<bool, Fault>)
      modifies this
      ensures With(r, Cur()) == NextBit(romBytes, old(Cur()))
    {
      if |bitArray| > 0 {
        r := Ok(bitArray[0]);
        bitArray := bitArray[1..];
        return;
      }
      var b :- GetByte();
      var bits := ByteBits(b);
      bitArray := bits[1..];
      r := Ok(bits[0]);
    }

    /** The flag and the bytes of one turn of the 0x83 loop. */
    method ReadToken83() returns (r: Result<Token, Fault>)
      modifies this
      ensures With(r, Cur()) == Token83(romBytes, old(Cur()))
    {
      var flag :- GetBit();
      if flag {
        var b :- GetByte();
        return Ok(Literal(b));
      }
      var seekBack :- GetByte();
      var seekAndCounter :- GetByte();
      var counter := seekAndCounter % 16 + 2;
      r := Ok(Copy(seekBack as int + (seekAndCounter as int / 16) * 256, counter + 1));
    }

    /** The flags and the bytes of one turn of the 0x84 loop. */
    method ReadToken84() returns (r: Result<Token, Fault>)
      modifies this
      ensures With(r, Cur()) == Token84(romBytes, old(Cur()))
    {
      var flag :- GetBit();
      if flag {
        var b :- GetByte();
        return Ok(Literal(b));
      }
      var long :- GetBit();
      if long {
        r := ReadLongCopy();
      } else {
        r := ReadShortCopy();
      }
    }

    /** A long copy of the 0x84 grammar, after its two flags. */
    method ReadLongCopy() returns (r: Result<Token, Fault>)
      modifies this
      ensures With(r, Cur()) == LongCopy(romBytes, old(Cur()))
    {
      var seekBack :- GetByte();
      var seekAndCounter :- GetByte();
      var distance := seekBack as int + (seekAndCounter as int / 8) * 256;
      if seekAndCounter % 8 == 0 {
        var counter :- GetByte();
        r := Ok(Copy(distance, counter as int + 1));
      } else {
        r := Ok(Copy(distance, seekAndCounter % 8 + 2));
      }
    }

    /** A short copy of the 0x84 grammar, after its two flags. */
    method ReadShortCopy() returns (r: Result<Token, Fault>)
      modifies this
      ensures With(r, Cur()) == ShortCopy(romBytes, old(Cur()))
    {
      var high :- GetBit();
      var low :- GetBit();
      var counter := (if high then 2 else 0) + (if low then 1 else 0) + 2;
      var seekBack :- GetByte();
      r := Ok(Copy(seekBack, counter + 1));
    }

    /** The first three bytes of `decode`. */
    method ReadHeader() returns (r: Result<(byte, int), Fault>)
      modifies this
      ensures r.Ok? ==> Header(romBytes, old(Cur())) == Ok((r.value.0, r.value.1, Cur()))
      ensures r.Err? ==> Header(romBytes, old(Cur())) == Err(r.error)
    {
      var encodeType :- GetByte();
      var hi :- GetByte();
      var lo :- GetByte();
      r := Ok((encodeType, hi as int * 256 + lo));
    }

    /** One turn's flags and bytes, in the grammar of the tag. */
    method ReadToken(scheme: Scheme) returns (r: Result<Token, Fault>)
      modifies this
      ensures With(r, Cur()) == NextToken(romBytes, scheme, old(Cur()))
    {
      if scheme == Scheme83 {
        r := ReadToken83();
      } else {
        r := ReadToken84();
      }
    }

    /** The `while decodedBytes.size <= decodeSize` loop of either grammar. */
    method Tokens(scheme: Scheme, decodeSize: int) returns (r: Result<seq<byte>, Fault>)
      modifies this
      ensures With(r, Cur()) == Loop(romBytes, scheme, old(Cur()), [], decodeSize)
    {
      var decodedBytes: seq<byte> := [];
      while |decodedBytes| <= decodeSize
        invariant Loop(romBytes, scheme, old(Cur()), [], decodeSize) == Loop(romBytes, scheme, Cur(), decodedBytes, decodeSize)
        decreases decodeSize + 1 - |decodedBytes|
      {
        ghost var here := Cur();
        var tok := ReadToken(scheme);
        if tok.Err? {
          return Err(tok.error);
        }
        var next := Append(decodedBytes, tok.value);
        LoopTurn(romBytes, scheme, here, decodedBytes, decodeSize, tok.value, Cur());
        if next.Err? {
          return Err(next.error);
        }
        decodedBytes := next.value;
      }
      r := Ok(decodedBytes);
    }

    /** `decode(offset)`: leaves the cursor after the last token read. */
    method Decode(offset: int) returns (r: Result<Option<seq<byte>>, Fault>)
      modifies this
      ensures With(r, Cur()) == Run(romBytes, offset)
    {
      bitArray := [];
      picOffset := offset;
      var header := ReadHeader();
      if header.Err? {
        return Err(header.error);
      }
      var (encodeType, decodeSize) := header.value;
      var scheme := SchemeOf(encodeType);
      if scheme.None? {
        return Ok(None);
      }
      var decodedBytes :- Tokens(scheme.value, decodeSize);
      r := Ok(Some(decodedBytes[..decodeSize]));
    }
  }

  /** One turn of the loop, once its token is read. */
  lemma LoopTurn(rom: seq<byte>, scheme: Scheme, c: Cursor, out: seq<byte>, size: int, tok: Token, c1: Cursor)
    requires |out| <= size && NextToken(rom, scheme, c) == Ok((tok, c1))
    ensures Loop(rom, scheme, c, out, size) ==
      if Expand(out, tok).Ok? then Loop(rom, scheme, c1, Expand(out, tok).value, size) else Err(Expand(out, tok).error)
  {
  }

  /** A literal is pushed; a copy goes through `CopyBack`. */
  method Append(out: seq<byte>, tok: Token) returns (r: Result<seq<byte>, Fault>)
    ensures r == Expand(out, tok)
  {
    match tok {
      case Literal(b) =>
        r := Ok(out + [b]);
      case Copy(seekBack, count) =>
        r := CopyBack(out, |out| - seekBack, count);
    }
  }

  /** The `0.upto(counter)` loop that appends a copy. */
  method CopyBack(out: seq<byte>, copystart: int, count: nat) returns (r: Result<seq<byte>, Fault>)
    ensures r == CopyFrom(out, copystart, count)
  {
    var decodedBytes := out;
    for t := 0 to count
      invariant CopyFrom(out, copystart, count) == CopyFrom(decodedBytes, copystart + t, count - t)
    {
      var v := RubyAt(decodedBytes, copystart + t);
      if v.None? {
        return Err(BadBackReference);
      }
      decodedBytes := decodedBytes + [v.value];
    }
    r := Ok(decodedBytes);
  }
}
