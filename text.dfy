/** The text codec of Ruby/util.rb: `decodeString` (text bytes to a string
    with `[xx]` escapes), `encodeString` (the way back) and `prepareString`
    (the pixel-width line wrapper). The character tables are parameters:
    `exportTable` maps a one- or two-byte code to its text, `importTable`
    maps a character to its code. */
module Text {
  import opened Wrappers
  import opened Bytes

  type ExportTable = map<int, string>
  type ImportTable = map<char, int>

  // ---------------------------------------------------------------------
  // Hexadecimal helpers ("%04X" and String#to_i(16))

  function HexDigit(d: int): char
    requires 0 <= d < 16
  {
    "0123456789ABCDEF"[d]
  }

  /** The digits of `n` in upper-case hexadecimal, without padding. */
  function HexRaw(n: nat): (s: string)
    ensures |s| >= 1
  {
    if n < 16 then [HexDigit(n)] else HexRaw(n / 16) + [HexDigit(n % 16)]
  }

  /** `"%0<w>X" % n`. */
  function Hex(n: nat, w: nat): (s: string)
    ensures |s| >= w
  {
    LeftPad(HexRaw(n), w)
  }

  function LeftPad(s: string, w: nat): (r: string)
    ensures |r| >= w && |r| >= |s|
    decreases w - |s|
  {
    if |s| >= w then s else LeftPad("0" + s, w)
  }

  function HexValue(c: char): int {
    if '0' <= c <= '9' then c as int - '0' as int
    else if 'a' <= c <= 'f' then c as int - 'a' as int + 10
    else if 'A' <= c <= 'F' then c as int - 'A' as int + 10
    else -1
  }

  predicate IsSpace(c: char) {
    c == ' ' || 9 <= c as int <= 13
  }

  /** `(a + b).to_i(16)`: the longest hexadecimal prefix, after an optional
      blank or sign; 0 when there is none. */
  function HexPair(a: char, b: char): int {
    if HexValue(a) >= 0 && HexValue(b) >= 0 then 16 * HexValue(a) + HexValue(b)
    else if HexValue(a) >= 0 then HexValue(a)
    else if (IsSpace(a) || a == '+') && HexValue(b) >= 0 then HexValue(b)
    else if a == '-' && HexValue(b) >= 0 then -HexValue(b)
    else 0
  }

  // ---------------------------------------------------------------------
  // decodeString

  /** The text of the token that starts at `i` and where the next one starts:
      1, 2 and 3 are a line break, a box break and the `[03]` escape; a byte
      above 0xFC leads a two-byte code, rendered `[XXXX]` when the table
      does not know it; any other byte is looked up alone. */
  function DecodeToken(b: seq<byte>, exportTable: ExportTable, i: nat): (r: Result<(string, nat), Fault>)
    requires i < |b|
    ensures r.Ok? ==> i < r.value.1 <= |b|
    ensures r.Ok? && b[i] > 0xFC ==> r.value.1 == i + 2
    ensures r.Ok? && b[i] <= 0xFC ==> r.value.1 == i + 1
    ensures r.Err? <==> (b[i] > 0xFC && i + 1 == |b|) || ((4 <= b[i] <= 0xFC || b[i] == 0) && b[i] as int !in exportTable)
  {
    if b[i] == 1 then Ok(("\n", i + 1))
    else if b[i] == 2 then Ok(("\n-----\n", i + 1))
    else if b[i] == 3 then Ok(("[03]", i + 1))
    else if b[i] > 0xFC then
      if i + 1 >= |b| then Err(TruncatedCode)
      else
        var code := b[i] as int * 256 + b[i + 1] as int;
        Ok((if code in exportTable then exportTable[code] else "[" + Hex(code, 4) + "]", i + 2))
    else if b[i] as int in exportTable then Ok((exportTable[b[i] as int], i + 1))
    else Err(UnmappedCode(b[i]))
  }

  function Prefixed(s: string, r: Result<string, Fault>): Result<string, Fault> {
    if r.Ok? then Ok(s + r.value) else r
  }

  /** The decoded text of `b[i..]`. */
  function DecodeFrom(b: seq<byte>, exportTable: ExportTable, i: nat): Result<string, Fault>
    requires i <= |b|
    decreases |b| - i
  {
    if i == |b| then Ok("")
    else
      var (piece, next) :- DecodeToken(b, exportTable, i);
      Prefixed(piece, DecodeFrom(b, exportTable, next))
  }

  lemma PrefixedTwice(s: string, t: string, r: Result<string, Fault>)
    ensures Prefixed(s, Prefixed(t, r)) == Prefixed(s + t, r)
  {
    if r.Ok? {
      assert s + (t + r.value) == (s + t) + r.value;
    }
  }

  lemma PrefixedEmpty(r: Result<string, Fault>)
    ensures Prefixed("", r) == r
  {
    if r.Ok? {
      assert "" + r.value == r.value;
    }
  }

  /** `Util.decodeString`. */
  method DecodeString(b: seq<byte>, exportTable: ExportTable) returns (r: Result<string, Fault>)
    ensures r == DecodeFrom(b, exportTable, 0)
  {
    var text := "";
    var i := 0;
    PrefixedEmpty(DecodeFrom(b, exportTable, 0));
    while i < |b|
      invariant 0 <= i <= |b|
      invariant DecodeFrom(b, exportTable, 0) == Prefixed(text, DecodeFrom(b, exportTable, i))
      decreases |b| - i
    {
      var token := DecodeToken(b, exportTable, i);
      if token.Err? {
        return Err(token.error);
      }
      var (piece, next) := token.value;
      PrefixedTwice(text, piece, DecodeFrom(b, exportTable, next));
      text := text + piece;
      i := next;
    }
    assert text + "" == text;
    return Ok(text);
  }

  // ---------------------------------------------------------------------
  // encodeString

  /** The three one-character stand-ins `prepareString` uses for `[03]`,
      `[20]` and `[01]` while it measures text. */
  const Mark03: char := 0x90 as char
  const Mark20: char := 0x91 as char
  const Mark01: char := 0x92 as char

  /** The `gsub`s that turn the stand-ins back into escapes. */
  function ExpandMarks(s: string): (r: string)
    ensures (forall k :: 0 <= k < |s| ==> s[k] !in {Mark03, Mark20, Mark01}) ==> r == s
  {
    if |s| == 0 then ""
    else
      (if s[0] == Mark03 then "[03]" else if s[0] == Mark20 then "[20]" else if s[0] == Mark01 then "[01]" else [s[0]])
      + ExpandMarks(s[1..])
  }

  /** Bytes produced, and the characters skipped with a warning. */
  datatype Encoding = Encoding(bytes: seq<int>, skipped: seq<char>)

  function Then(a: Encoding, b: Encoding): Encoding {
    Encoding(a.bytes + b.bytes, a.skipped + b.skipped)
  }

  /** The loop of `encodeString` over an already expanded string: a `[xy]`
      escape is the one value `xy` read as hexadecimal; a known character is
      its code; an unknown one is skipped. */
  function Encode(s: string, importTable: ImportTable): Encoding {
    if |s| == 0 then Encoding([], [])
    else if s[0] == '[' && |s| > 3 && s[3] == ']' then
      Then(Encoding([HexPair(s[1], s[2])], []), Encode(s[4..], importTable))
    else if s[0] in importTable then
      Then(Encoding([importTable[s[0]]], []), Encode(s[1..], importTable))
    else
      Then(Encoding([], [s[0]]), Encode(s[1..], importTable))
  }

  /** What `encodeString` returns: the number 0 for a `nil` text, an array
      of codes otherwise. */
  datatype Encoded = ZeroForNil | Codes(encoding: Encoding)

  /** `Util.encodeString`. */
  method EncodeString(text: Option<string>, importTable: ImportTable) returns (r: Encoded)
    ensures text.None? <==> r.ZeroForNil?
    ensures text.Some? ==> r == Codes(Encode(ExpandMarks(text.value), importTable))
  {
    if text.None? {
      return ZeroForNil;
    }
    var s := ExpandMarks(text.value);
    var bytes: seq<int> := [];
    var skipped: seq<char> := [];
    var i := 0;
    assert s[0..] == s;
    while i < |s|
      invariant 0 <= i <= |s|
      invariant Encode(s, importTable) == Then(Encoding(bytes, skipped), Encode(s[i..], importTable))
      decreases |s| - i
    {
      EncodeStep(s, i, importTable);
      var step: Encoding;
      var next: nat;
      if s[i] == '[' && i + 3 < |s| && s[i + 3] == ']' {
        step, next := Encoding([HexPair(s[i + 1], s[i + 2])], []), i + 4;
      } else if s[i] in importTable {
        step, next := Encoding([importTable[s[i]]], []), i + 1;
      } else {
        step, next := Encoding([], [s[i]]), i + 1;
      }
      ThenAssoc(Encoding(bytes, skipped), step, Encode(s[next..], importTable));
      bytes, skipped := bytes + step.bytes, skipped + step.skipped;
      i := next;
    }
    assert s[i..] == [];
    return Codes(Encoding(bytes, skipped));
  }

  /** One step of `Encode` at position `i`, stated on `s[i..]`. */
  lemma EncodeStep(s: string, i: nat, importTable: ImportTable)
    requires i < |s|
    ensures s[i] == '[' && i + 3 < |s| && s[i + 3] == ']' ==>
      Encode(s[i..], importTable) == Then(Encoding([HexPair(s[i + 1], s[i + 2])], []), Encode(s[i + 4..], importTable))
    ensures !(s[i] == '[' && i + 3 < |s| && s[i + 3] == ']') && s[i] in importTable ==>
      Encode(s[i..], importTable) == Then(Encoding([importTable[s[i]]], []), Encode(s[i + 1..], importTable))
    ensures !(s[i] == '[' && i + 3 < |s| && s[i + 3] == ']') && s[i] !in importTable ==>
      Encode(s[i..], importTable) == Then(Encoding([], [s[i]]), Encode(s[i + 1..], importTable))
  {
    var t := s[i..];
    assert t[0] == s[i];
    if i + 3 < |s| {
      assert t[1] == s[i + 1] && t[2] == s[i + 2] && t[3] == s[i + 3];
      assert t[4..] == s[i + 4..];
    }
    assert t[1..] == s[i + 1..];
  }

  lemma ThenAssoc(a: Encoding, b: Encoding, c: Encoding)
    ensures Then(Then(a, b), c) == Then(a, Then(b, c))
  {
    assert (a.bytes + b.bytes) + c.bytes == a.bytes + (b.bytes + c.bytes);
    assert (a.skipped + b.skipped) + c.skipped == a.skipped + (b.skipped + c.skipped);
  }

  // ---------------------------------------------------------------------
  // Round trip

  /** A one-byte code whose text is one ordinary character that the import
      table maps back to the same code. */
  predicate PlainCode(c: int, exportTable: ExportTable, importTable: ImportTable) {
    && c in exportTable
    && |exportTable[c]| == 1
    && exportTable[c][0] != '['
    && exportTable[c][0] !in {Mark03, Mark20, Mark01}
    && exportTable[c][0] in importTable
    && importTable[exportTable[c][0]] == c
  }

  /** Text bytes that survive decoding and re-encoding: the `[03]` control
      byte and plain one-byte codes (line and box breaks decode to text that
      is re-encoded character by character, and two-byte codes to one value). */
  predicate ReEncodable(b: seq<byte>, exportTable: ExportTable, importTable: ImportTable) {
    forall k :: 0 <= k < |b| ==> b[k] == 3 || (b[k] <= 0xFC && b[k] != 1 && b[k] != 2 && PlainCode(b[k], exportTable, importTable))
  }

  /** The text holds none of the one-character stand-ins. */
  predicate NoMarks(s: string) {
    forall k :: 0 <= k < |s| ==> s[k] !in {Mark03, Mark20, Mark01}
  }

  lemma {:induction false} DecodeFromShape(b: seq<byte>, exportTable: ExportTable, importTable: ImportTable, i: nat)
    requires i <= |b| && ReEncodable(b, exportTable, importTable)
    ensures DecodeFrom(b, exportTable, i).Ok?
    ensures var s := DecodeFrom(b, exportTable, i).value;
            NoMarks(s) && Encode(s, importTable) == Encoding(b[i..], [])
    decreases |b| - i
  {
    if i < |b| {
      DecodeFromShape(b, exportTable, importTable, i + 1);
      if b[i] == 3 {
        Mark03Step(b, exportTable, importTable, i);
      } else {
        PlainStep(b, exportTable, importTable, i);
      }
    }
  }

  lemma Mark03Step(b: seq<byte>, exportTable: ExportTable, importTable: ImportTable, i: nat)
    requires i < |b| && b[i] == 3
    requires DecodeFrom(b, exportTable, i + 1).Ok?
    requires var rest := DecodeFrom(b, exportTable, i + 1).value;
             NoMarks(rest) && Encode(rest, importTable) == Encoding(b[i + 1..], [])
    ensures DecodeFrom(b, exportTable, i).Ok?
    ensures var s := DecodeFrom(b, exportTable, i).value;
            NoMarks(s) && Encode(s, importTable) == Encoding(b[i..], [])
  {
    var rest := DecodeFrom(b, exportTable, i + 1).value;
    assert DecodeFrom(b, exportTable, i) == Ok("[03]" + rest);
    assert b[i..] == [3] + b[i + 1..];
    Escape03(rest, importTable, b[i + 1..]);
  }

  /** The escape `[03]` encodes as the byte 3 and holds no stand-in. */
  lemma Escape03(rest: string, importTable: ImportTable, tail: seq<int>)
    requires NoMarks(rest) && Encode(rest, importTable) == Encoding(tail, [])
    ensures Encode("[03]" + rest, importTable) == Encoding([3] + tail, [])
    ensures NoMarks("[03]" + rest)
  {
    var s := "[03]" + rest;
    assert s[0] == '[' && s[1] == '0' && s[2] == '3' && s[3] == ']' && s[4..] == rest;
    assert HexPair('0', '3') == 3;
    assert Encode(s, importTable) == Then(Encoding([3], []), Encoding(tail, []));
    assert Then(Encoding([3], []), Encoding(tail, [])) == Encoding([3] + tail, []);
  }

  lemma PlainStep(b: seq<byte>, exportTable: ExportTable, importTable: ImportTable, i: nat)
    requires i < |b| && ReEncodable(b, exportTable, importTable) && b[i] != 3
    requires DecodeFrom(b, exportTable, i + 1).Ok?
    requires var rest := DecodeFrom(b, exportTable, i + 1).value;
             NoMarks(rest) && Encode(rest, importTable) == Encoding(b[i + 1..], [])
    ensures DecodeFrom(b, exportTable, i).Ok?
    ensures var s := DecodeFrom(b, exportTable, i).value;
            NoMarks(s) && Encode(s, importTable) == Encoding(b[i..], [])
  {
    var rest := DecodeFrom(b, exportTable, i + 1).value;
    var ch := exportTable[b[i] as int][0];
    assert exportTable[b[i] as int] == [ch];
    var s := [ch] + rest;
    assert DecodeFrom(b, exportTable, i).value == s;
    assert s[1..] == rest;
    assert b[i..] == [b[i]] + b[i + 1..];
  }

  /** Decoding text bytes and encoding the result again gives back the same
      bytes, with nothing skipped, for bytes made of plain codes and `[03]`. */
  lemma DecodeEncodeRoundTrip(b: seq<byte>, exportTable: ExportTable, importTable: ImportTable)
    requires ReEncodable(b, exportTable, importTable)
    ensures DecodeFrom(b, exportTable, 0).Ok?
    ensures Encode(ExpandMarks(DecodeFrom(b, exportTable, 0).value), importTable) == Encoding(b, [])
  {
    DecodeFromShape(b, exportTable, importTable, 0);
    assert b[0..] == b;
  }
}

module Wrap {
  import opened Wrappers
  import opened Text

  // ---------------------------------------------------------------------
  // String helpers with Ruby's semantics

  /** Characters Ruby's `strip` removes at either end. */
  predicate IsStripSpace(c: char) {
    c == 0 as char || IsSpace(c)
  }

  function LStrip(s: string): (r: string)
    ensures |r| <= |s| && r == s[|s| - |r|..]
    ensures |r| > 0 ==> !IsStripSpace(r[0])
  {
    if |s| > 0 && IsStripSpace(s[0]) then LStrip(s[1..]) else s
  }

  function RStrip(s: string): (r: string)
    ensures |r| <= |s| && r == s[..|r|]
    ensures |r| > 0 ==> !IsStripSpace(r[|r| - 1])
    ensures forall k :: |r| <= k < |s| ==> IsStripSpace(s[k])
  {
    if |s| > 0 && IsStripSpace(s[|s| - 1]) then RStrip(s[..|s| - 1]) else s
  }

  function Strip(s: string): string {
    RStrip(LStrip(s))
  }

  /** `gsub` with a literal pattern: occurrences replaced left to right,
      without overlap. */
  function Replace(s: string, pat: string, rep: string): (r: string)
    requires |pat| > 0
    decreases |s|
  {
    if |s| == 0 then ""
    else if |pat| <= |s| && s[..|pat|] == pat then rep + Replace(s[|pat|..], pat, rep)
    else [s[0]] + Replace(s[1..], pat, rep)
  }

  /** `gsub(/\r\n?/, "\n")`. */
  function NormalizeNewlines(s: string): (r: string)
    ensures forall k :: 0 <= k < |r| ==> r[k] != '\r'
  {
    if |s| == 0 then ""
    else if s[0] == '\r' then
      "\n" + (if |s| > 1 && s[1] == '\n' then NormalizeNewlines(s[2..]) else NormalizeNewlines(s[1..]))
    else [s[0]] + NormalizeNewlines(s[1..])
  }

  predicate OccursAt(s: string, sep: string, j: int) {
    0 <= j && j + |sep| <= |s| && s[j..j + |sep|] == sep
  }

  /** The first position at or after `i` where `sep` occurs, or `|s|`. */
  function Find(s: string, sep: string, i: nat): (k: nat)
    requires |sep| > 0 && i <= |s|
    ensures i <= k <= |s|
    ensures k + |sep| <= |s| ==> OccursAt(s, sep, k)
    ensures forall j :: i <= j < k ==> !OccursAt(s, sep, j)
    decreases |s| - i
  {
    if i + |sep| > |s| then |s|
    else if s[i..i + |sep|] == sep then i
    else Find(s, sep, i + 1)
  }

  /** The pieces of `s` between occurrences of `sep`, empty ones included. */
  function Fields(s: string, sep: string): (r: seq<string>)
    requires |sep| > 0
    ensures |r| >= 1
    decreases |s|
  {
    var k := Find(s, sep, 0);
    if k + |sep| > |s| then [s] else [s[..k]] + Fields(s[k + |sep|..], sep)
  }

  function Join(fs: seq<string>, sep: string): string {
    if |fs| == 0 then "" else if |fs| == 1 then fs[0] else fs[0] + sep + Join(fs[1..], sep)
  }

  function DropTrailingEmpty(fs: seq<string>): (r: seq<string>)
    ensures |r| <= |fs| && r == fs[..|r|]
    ensures |r| > 0 ==> r[|r| - 1] != ""
    ensures forall k :: |r| <= k < |fs| ==> fs[k] == ""
  {
    if |fs| > 0 && fs[|fs| - 1] == "" then DropTrailingEmpty(fs[..|fs| - 1]) else fs
  }

  /** `split(sep)` for a literal separator other than a single blank:
      trailing empty fields are removed. */
  function SplitOn(s: string, sep: string): seq<string>
    requires |sep| > 0
  {
    DropTrailingEmpty(Fields(s, sep))
  }

  lemma JoinCons(f: string, fs: seq<string>, sep: string)
    requires |fs| >= 1
    ensures Join([f] + fs, sep) == f + sep + Join(fs, sep)
  {
    assert ([f] + fs)[1..] == fs;
  }

  lemma SplitAtSep(s: string, sep: string, k: nat)
    requires OccursAt(s, sep, k)
    ensures s == s[..k] + sep + s[k + |sep|..]
  {
    assert s == s[..k] + s[k..k + |sep|] + s[k + |sep|..];
  }

  /** Joining the fields with the separator gives the string back. */
  lemma {:induction false} JoinFields(s: string, sep: string)
    requires |sep| > 0
    ensures Join(Fields(s, sep), sep) == s
    decreases |s|
  {
    var k := Find(s, sep, 0);
    if k + |sep| <= |s| {
      var rest := s[k + |sep|..];
      JoinFields(rest, sep);
      JoinCons(s[..k], Fields(rest, sep), sep);
      SplitAtSep(s, sep, k);
    }
  }

  /** The end of the word that starts at `i`. */
  function WordEnd(s: string, i: nat): (k: nat)
    requires i <= |s|
    ensures i <= k <= |s|
    ensures k < |s| ==> IsSpace(s[k])
    ensures forall j :: i <= j < k ==> !IsSpace(s[j])
    decreases |s| - i
  {
    if i == |s| || IsSpace(s[i]) then i else WordEnd(s, i + 1)
  }

  /** `split(" ")`: the maximal runs of non-blank characters. */
  function SplitWords(s: string): (r: seq<string>)
    ensures forall w :: w in r ==> |w| > 0 && forall k :: 0 <= k < |w| ==> !IsSpace(w[k])
    decreases |s|
  {
    if |s| == 0 then []
    else if IsSpace(s[0]) then SplitWords(s[1..])
    else
      var k := WordEnd(s, 0);
      [s[..k]] + SplitWords(s[k..])
  }

  // ---------------------------------------------------------------------
  // Pixel widths

  /** `letterWidths[c.ord - 0x20]`, with Ruby's negative indexing; a
      missing entry is the `nil` that makes the sum fail. */
  function LetterWidth(c: char, widths: seq<int>): (r: Result<int, Fault>)
    ensures r.Ok? <==> -|widths| <= c as int - 0x20 < |widths|
    ensures r.Ok? && c as int >= 0x20 ==> r.value == widths[c as int - 0x20]
  {
    var idx := c as int - 0x20;
    if 0 <= idx < |widths| then Ok(widths[idx])
    else if -|widths| <= idx < 0 then Ok(widths[|widths| + idx])
    else Err(MissingWidth(c))
  }

  /** The width of a whole string (`map` then `inject(0)`). */
  function Width(s: string, widths: seq<int>): (r: Result<int, Fault>)
    ensures r.Ok? <==> forall k :: 0 <= k < |s| ==> LetterWidth(s[k], widths).Ok?
  {
    if |s| == 0 then Ok(0)
    else
      var w :- LetterWidth(s[0], widths);
      var rest :- Width(s[1..], widths);
      Ok(w + rest)
  }

  /** With the 128-entry table the tool reads from the ROM, every character
      below 0xA0 has a width and no other one does. */
  lemma LetterWidthDefined(c: char, widths: seq<int>)
    requires |widths| == 0x80
    ensures LetterWidth(c, widths).Ok? <==> c as int < 0xA0
  {
  }

  lemma {:induction false} WidthAppend(a: string, b: string, widths: seq<int>)
    requires Width(a, widths).Ok? && Width(b, widths).Ok?
    ensures Width(a + b, widths) == Ok(Width(a, widths).value + Width(b, widths).value)
    decreases |a|
  {
    if |a| > 0 {
      assert (a + b)[1..] == a[1..] + b;
      WidthAppend(a[1..], b, widths);
    } else {
      assert a + b == b;
    }
  }

  // ---------------------------------------------------------------------
  // The wrapper

  const LinesLimit := 3

  /** The state of the word loop: text emitted so far, the line being
      filled (each word followed by a blank) and the line counter of the
      current box. */
  datatype WrapState = WrapState(result: string, tmp: string, lines: int)

  /** `s[-2] = "2"`. */
  function SecondLastToTwo(s: string): (r: string)
    requires |s| >= 2
    ensures |r| == |s| && r[|s| - 2] == '2'
    ensures forall k :: 0 <= k < |s| && k != |s| - 2 ==> r[k] == s[k]
  {
    s[..|s| - 2] + "2" + s[|s| - 1..]
  }

  /** The end of a box: `resultString[-2] = "2"`, which fails on an empty
      result. */
  function MarkBoxEnd(s: string): (r: Result<string, Fault>)
    ensures r.Err? <==> |s| < 2
  {
    if |s| < 2 then Err(EmptyResult) else Ok(SecondLastToTwo(s))
  }

  /** Ending a line: the line without trailing blanks and a `[01]` break;
      the fourth line of a script box turns that break into `[02]` and
      starts the count again. */
  function Flush(result: string, tmp: string, lines: int, isScript: bool): (string, int) {
    var s := result + RStrip(tmp) + "[01]";
    if lines + 1 > LinesLimit && isScript then (SecondLastToTwo(s), 1) else (s, lines + 1)
  }

  predicate IsPunctuation(c: char) {
    c == ',' || c == '.' || c == '!' || c == '?'
  }

  /** Whether the line is ended before `word` is added to it. */
  function Breaks(tmp: string, word: string, widths: seq<int>, limit: int): Result<bool, Fault> {
    var wordLength :- Width(word, widths);
    var tmpLength :- Width(tmp, widths);
    var blank :- LetterWidth(' ', widths);
    Ok(tmpLength + wordLength + blank > limit ||
       (tmpLength > limit && |tmp| >= 2 && IsPunctuation(tmp[|tmp| - 2])))
  }

  /** One iteration of the word loop. */
  function WordStep(st: WrapState, word: string, widths: seq<int>, limit: int, isScript: bool): Result<WrapState, Fault> {
    var breaks :- Breaks(st.tmp, word, widths, limit);
    if breaks then
      var (result, lines) := Flush(st.result, st.tmp, st.lines, isScript);
      Ok(WrapState(result, word + " ", lines))
    else
      Ok(WrapState(st.result, st.tmp + word + " ", st.lines))
  }

  function WrapWords(st: WrapState, words: seq<string>, widths: seq<int>, limit: int, isScript: bool): Result<WrapState, Fault>
    decreases |words|
  {
    if |words| == 0 then Ok(st)
    else
      var next :- WordStep(st, words[0], widths, limit, isScript);
      WrapWords(next, words[1..], widths, limit, isScript)
  }

  /** The words of one source line, after the `[01]` escapes inside it are
      made one character wide. */
  function LineWords(line: string): seq<string> {
    SplitWords(Replace(line, "[01]", [Mark01]))
  }

  /** One source line: its words, then the line break after them. */
  function WrapLine(result: string, lines: int, line: string, widths: seq<int>, limit: int, isScript: bool): Result<(string, int), Fault> {
    var st :- WrapWords(WrapState(result, "", lines), LineWords(line), widths, limit, isScript);
    Ok(Flush(st.result, st.tmp, st.lines, isScript))
  }

  function WrapLines(result: string, lines: int, ls: seq<string>, widths: seq<int>, limit: int, isScript: bool): Result<(string, int), Fault>
    decreases |ls|
  {
    if |ls| == 0 then Ok((result, lines))
    else
      var next :- WrapLine(result, lines, ls[0], widths, limit, isScript);
      WrapLines(next.0, next.1, ls[1..], widths, limit, isScript)
  }

  /** The source lines of one box. */
  function BoxLines(box: string): seq<string> {
    SplitOn(Strip(box), "\n")
  }

  function WrapBoxes(result: string, boxes: seq<string>, widths: seq<int>, limit: int, isScript: bool): Result<string, Fault>
    decreases |boxes|
  {
    if |boxes| == 0 then Ok(result)
    else
      var wrapped :- WrapLines(result, 1, BoxLines(boxes[0]), widths, limit, isScript);
      var marked :- MarkBoxEnd(wrapped.0);
      WrapBoxes(marked, boxes[1..], widths, limit, isScript)
  }

  const BoxSeparator := "\n_\n"

  /** The text after the one-character stand-ins for `[03]` and `[20]` and
      the newline normalisation. */
  function Normalized(t: string): string {
    NormalizeNewlines(Replace(Replace(t, "[03]", [Mark03]), "[20]", [Mark20]))
  }

  function EndsWith(s: string, suffix: string): bool {
    |suffix| <= |s| && s[|s| - |suffix|..] == suffix
  }

  /** `str[0..-5]`: all but the last four characters, or nothing. */
  function DropLast4(s: string): (r: string)
    ensures |s| >= 4 ==> r == s[..|s| - 4]
    ensures |s| < 4 ==> r == ""
  {
    if |s| >= 4 then s[..|s| - 4] else ""
  }

  /** `Util.prepareString` as a function of its inputs. */
  function Prepare(text: Option<string>, limit: int, isScript: bool, widths: seq<int>): (r: Result<Option<string>, Fault>)
    ensures r.Ok? ==> (r.value.Some? <==> text.Some?)
  {
    if text.None? then Ok(None)
    else if |text.value| <= 4 then Ok(text)
    else
      var t := Normalized(text.value);
      var body :- WrapBoxes("", SplitOn(t, BoxSeparator), widths, limit, isScript);
      Ok(Some(if EndsWith(t, BoxSeparator) && isScript then body else DropLast4(body)))
  }

  lemma WordsStep(st: WrapState, words: seq<string>, i: nat, widths: seq<int>, limit: int, isScript: bool)
    requires i < |words|
    ensures WrapWords(st, words[i..], widths, limit, isScript) ==
      (var n := WordStep(st, words[i], widths, limit, isScript);
       if n.Err? then Err(n.error) else WrapWords(n.value, words[i + 1..], widths, limit, isScript))
  {
    assert words[i..][1..] == words[i + 1..];
  }

  lemma LinesStep(result: string, lines: int, ls: seq<string>, j: nat, widths: seq<int>, limit: int, isScript: bool)
    requires j < |ls|
    ensures WrapLines(result, lines, ls[j..], widths, limit, isScript) ==
      (var n := WrapLine(result, lines, ls[j], widths, limit, isScript);
       if n.Err? then Err(n.error) else WrapLines(n.value.0, n.value.1, ls[j + 1..], widths, limit, isScript))
  {
    assert ls[j..][1..] == ls[j + 1..];
  }

  lemma BoxesStep(result: string, boxes: seq<string>, b: nat, widths: seq<int>, limit: int, isScript: bool)
    requires b < |boxes|
    ensures WrapBoxes(result, boxes[b..], widths, limit, isScript) ==
      (var n := WrapLines(result, 1, BoxLines(boxes[b]), widths, limit, isScript);
       if n.Err? then Err(n.error)
       else var m := MarkBoxEnd(n.value.0);
            if m.Err? then Err(m.error) else WrapBoxes(m.value, boxes[b + 1..], widths, limit, isScript))
  {
    assert boxes[b..][1..] == boxes[b + 1..];
  }

  /** Ends the current line: its trailing blanks go, `[01]` follows, and in
      a script the fourth line turns the previous break into a box break. */
  method FlushLine(result0: string, tmp: string, lines0: int, isScript: bool) returns (result: string, lines: int)
    ensures (result, lines) == Flush(result0, tmp, lines0, isScript)
  {
    result := result0 + RStrip(tmp) + "[01]";
    lines := lines0 + 1;
    if lines > LinesLimit && isScript {
      result := SecondLastToTwo(result);
      lines := 1;
    }
  }

  /** Adds one word to the line being built, ending the line first when the
      word does not fit. */
  method AddWord(st: WrapState, word: string, widths: seq<int>, limit: int, isScript: bool) returns (r: Result<WrapState, Fault>)
    ensures r == WordStep(st, word, widths, limit, isScript)
  {
    var breaks := Breaks(st.tmp, word, widths, limit);
    if breaks.Err? {
      return Err(breaks.error);
    }
    if breaks.value {
      var result, lines := FlushLine(st.result, st.tmp, st.lines, isScript);
      return Ok(WrapState(result, word + " ", lines));
    }
    return Ok(WrapState(st.result, st.tmp + word + " ", st.lines));
  }

  /** The word loop of `Util.prepareString` over one source line, and the
      line break after it. */
  method WrapLineLoop(result0: string, lines0: int, line: string, widths: seq<int>, limit: int, isScript: bool)
    returns (r: Result<(string, int), Fault>)
    ensures r == WrapLine(result0, lines0, line, widths, limit, isScript)
  {
    var words := LineWords(line);
    var st := WrapState(result0, "", lines0);
    var w := 0;
    assert words[0..] == words;
    while w < |words|
      invariant 0 <= w <= |words|
      invariant WrapWords(WrapState(result0, "", lines0), words, widths, limit, isScript) == WrapWords(st, words[w..], widths, limit, isScript)
      decreases |words| - w
    {
      WordsStep(st, words, w, widths, limit, isScript);
      var next := AddWord(st, words[w], widths, limit, isScript);
      if next.Err? {
        return Err(next.error);
      }
      st := next.value;
      w := w + 1;
    }
    assert words[w..] == [];
    var result, lines := FlushLine(st.result, st.tmp, st.lines, isScript);
    return Ok((result, lines));
  }

  method WrapBoxLoop(result0: string, box: string, widths: seq<int>, limit: int, isScript: bool)
    returns (r: Result<string, Fault>)
    ensures r == (var n := WrapLines(result0, 1, BoxLines(box), widths, limit, isScript);
                  if n.Err? then Err(n.error) else MarkBoxEnd(n.value.0))
  {
    var ls := BoxLines(box);
    var result, lines := result0, 1;
    var j := 0;
    assert ls[0..] == ls;
    while j < |ls|
      invariant 0 <= j <= |ls|
      invariant WrapLines(result0, 1, ls, widths, limit, isScript) == WrapLines(result, lines, ls[j..], widths, limit, isScript)
      decreases |ls| - j
    {
      LinesStep(result, lines, ls, j, widths, limit, isScript);
      var next := WrapLineLoop(result, lines, ls[j], widths, limit, isScript);
      if next.Err? {
        return Err(next.error);
      }
      result, lines := next.value.0, next.value.1;
      j := j + 1;
    }
    assert ls[j..] == [];
    if |result| < 2 {
      return Err(EmptyResult);
    }
    return Ok(SecondLastToTwo(result));
  }

  /** `Util.prepareString`. */
  method PrepareString(text: Option<string>, limit: int, isScript: bool, widths: seq<int>) returns (r: Result<Option<string>, Fault>)
    ensures r == Prepare(text, limit, isScript, widths)
    ensures text.None? ==> r == Ok(None)
    ensures text.Some? && |text.value| <= 4 ==> r == Ok(text)
  {
    if text.None? {
      return Ok(None);
    }
    if |text.value| <= 4 {
      return Ok(text);
    }
    var t := Normalized(text.value);
    var boxes := SplitOn(t, BoxSeparator);
    var result := "";
    var b := 0;
    assert boxes[0..] == boxes;
    while b < |boxes|
      invariant 0 <= b <= |boxes|
      invariant WrapBoxes("", boxes, widths, limit, isScript) == WrapBoxes(result, boxes[b..], widths, limit, isScript)
      decreases |boxes| - b
    {
      BoxesStep(result, boxes, b, widths, limit, isScript);
      var next := WrapBoxLoop(result, boxes[b], widths, limit, isScript);
      if next.Err? {
        return Err(next.error);
      }
      result := next.value;
      b := b + 1;
    }
    assert boxes[b..] == [];
    if EndsWith(t, BoxSeparator) && isScript {
      return Ok(Some(result));
    }
    return Ok(Some(DropLast4(result)));
  }

  // ---------------------------------------------------------------------
  // Properties of the wrapper

  /** The line being filled is within the pixel limit, or holds a single
      word that is wider than the limit on its own. */
  predicate Fits(tmp: string, widths: seq<int>, limit: int) {
    || tmp == ""
    || (Width(tmp, widths).Ok? && Width(tmp, widths).value <= limit)
    || (tmp[|tmp| - 1] == ' ' && forall k :: 0 <= k < |tmp| - 1 ==> !IsSpace(tmp[k]))
  }

  predicate Blankless(word: string) {
    forall k :: 0 <= k < |word| ==> !IsSpace(word[k])
  }

  /** Adding a word keeps the line being filled within the limit, unless the
      word alone is wider: a word that would overflow the line ends it. */
  lemma WordStepFits(st: WrapState, word: string, widths: seq<int>, limit: int, isScript: bool)
    requires Blankless(word)
    requires WordStep(st, word, widths, limit, isScript).Ok?
    ensures Fits(WordStep(st, word, widths, limit, isScript).value.tmp, widths, limit)
  {
    var breaks := Breaks(st.tmp, word, widths, limit).value;
    if !breaks {
      var tw, ww, bw := Width(st.tmp, widths).value, Width(word, widths).value, LetterWidth(' ', widths).value;
      assert Width(" ", widths) == Ok(bw) by {
        assert " "[0] == ' ' && " "[1..] == "";
      }
      WidthAppend(st.tmp, word, widths);
      WidthAppend(st.tmp + word, " ", widths);
      assert Width(st.tmp + word + " ", widths).value == tw + ww + bw <= limit;
    } else {
      var tmp := word + " ";
      assert forall k :: 0 <= k < |tmp| - 1 ==> tmp[k] == word[k];
    }
  }

  /** The lines the word loop ends, in order: the line being filled each
      time the next word does not go after it. */
  function EndedLines(st: WrapState, words: seq<string>, widths: seq<int>, limit: int, isScript: bool): seq<string>
    decreases |words|
  {
    if |words| == 0 then []
    else
      var next := WordStep(st, words[0], widths, limit, isScript);
      if next.Err? then []
      else (if Breaks(st.tmp, words[0], widths, limit) == Ok(true) then [st.tmp] else [])
           + EndedLines(next.value, words[1..], widths, limit, isScript)
  }

  /** The text emitted for `ls`: each line without its trailing blanks,
      followed by a `[01]` break. */
  function Joined(ls: seq<string>): string
    decreases |ls|
  {
    if |ls| == 0 then "" else RStrip(ls[0]) + "[01]" + Joined(ls[1..])
  }

  /** Outside a script box the word loop emits exactly the lines it ends,
      each followed by a `[01]` break, and counts one line for each. */
  lemma {:induction false} WrapWordsEmits(st: WrapState, words: seq<string>, widths: seq<int>, limit: int)
    requires WrapWords(st, words, widths, limit, false).Ok?
    ensures var ended := EndedLines(st, words, widths, limit, false);
            && WrapWords(st, words, widths, limit, false).value.result == st.result + Joined(ended)
            && WrapWords(st, words, widths, limit, false).value.lines == st.lines + |ended|
    decreases |words|
  {
    if |words| == 0 {
      assert st.result + "" == st.result;
    } else {
      var next := WordStep(st, words[0], widths, limit, false).value;
      WrapWordsEmits(next, words[1..], widths, limit);
      var rest := EndedLines(next, words[1..], widths, limit, false);
      if Breaks(st.tmp, words[0], widths, limit) == Ok(true) {
        assert EndedLines(st, words, widths, limit, false) == [st.tmp] + rest;
        assert ([st.tmp] + rest)[1..] == rest;
        assert next.result + Joined(rest) == st.result + Joined([st.tmp] + rest);
      } else {
        assert EndedLines(st, words, widths, limit, false) == [] + rest;
        assert [] + rest == rest;
      }
    }
  }

  /** Every line of `ls` is within the pixel limit or a single over-wide
      word. */
  predicate AllFit(ls: seq<string>, widths: seq<int>, limit: int) {
    forall k :: 0 <= k < |ls| ==> Fits(ls[k], widths, limit)
  }

  lemma AllFitAppend(a: seq<string>, b: seq<string>, widths: seq<int>, limit: int)
    requires AllFit(a, widths, limit) && AllFit(b, widths, limit)
    ensures AllFit(a + b, widths, limit)
  {
    forall k | 0 <= k < |a + b| ensures Fits((a + b)[k], widths, limit) {
      if k < |a| {
        assert (a + b)[k] == a[k];
      } else {
        assert (a + b)[k] == b[k - |a|];
      }
    }
  }

  /** Every line the word loop ends was within the pixel limit or a single
      over-wide word, and so is the line still being filled. */
  lemma {:induction false} EndedLinesFit(st: WrapState, words: seq<string>, widths: seq<int>, limit: int, isScript: bool)
    requires forall w :: w in words ==> Blankless(w)
    requires Fits(st.tmp, widths, limit)
    requires WrapWords(st, words, widths, limit, isScript).Ok?
    ensures AllFit(EndedLines(st, words, widths, limit, isScript), widths, limit)
    ensures Fits(WrapWords(st, words, widths, limit, isScript).value.tmp, widths, limit)
    decreases |words|
  {
    if |words| > 0 {
      WordStepFits(st, words[0], widths, limit, isScript);
      var next := WordStep(st, words[0], widths, limit, isScript).value;
      assert forall w :: w in words[1..] ==> w in words;
      EndedLinesFit(next, words[1..], widths, limit, isScript);
      var head := if Breaks(st.tmp, words[0], widths, limit) == Ok(true) then [st.tmp] else [];
      assert AllFit(head, widths, limit);
      AllFitAppend(head, EndedLines(next, words[1..], widths, limit, isScript), widths, limit);
    }
  }

  /** Every line `prepareString` emits for one source line fits: each line
      the word loop ends, and the last one, which `WrapLine` ends after the
      loop, is within the pixel limit or a single over-wide word. */
  lemma WrapLineFits(result: string, lines: int, line: string, widths: seq<int>, limit: int, isScript: bool)
    requires WrapWords(WrapState(result, "", lines), LineWords(line), widths, limit, isScript).Ok?
    ensures AllFit(EndedLines(WrapState(result, "", lines), LineWords(line), widths, limit, isScript), widths, limit)
    ensures Fits(WrapWords(WrapState(result, "", lines), LineWords(line), widths, limit, isScript).value.tmp, widths, limit)
  {
    EndedLinesFit(WrapState(result, "", lines), LineWords(line), widths, limit, isScript);
  }

  /** In a script box the line counter stays between 1 and 3, and a break is
      a page break `[02]` exactly when it ends the third line. */
  lemma FlushCounts(result: string, tmp: string, lines: int)
    requires 1 <= lines <= LinesLimit
    ensures var (r, l) := Flush(result, tmp, lines, true);
            && 1 <= l <= LinesLimit
            && r[..|r| - 4] == result + RStrip(tmp)
            && r[|r| - 4..] == (if lines == LinesLimit then "[02]" else "[01]")
            && (lines == LinesLimit <==> l == 1)
  {
    var s := result + RStrip(tmp) + "[01]";
    if lines == LinesLimit {
      assert SecondLastToTwo(s)[..|s| - 4] == result + RStrip(tmp);
      assert SecondLastToTwo(s)[|s| - 4..] == "[02]";
    }
  }

  lemma {:induction false} WrapWordsCounts(st: WrapState, words: seq<string>, widths: seq<int>, limit: int)
    requires 1 <= st.lines <= LinesLimit
    requires WrapWords(st, words, widths, limit, true).Ok?
    ensures 1 <= WrapWords(st, words, widths, limit, true).value.lines <= LinesLimit
    decreases |words|
  {
    if |words| > 0 {
      FlushCounts(st.result, st.tmp, st.lines);
      WrapWordsCounts(WordStep(st, words[0], widths, limit, true).value, words[1..], widths, limit);
    }
  }

  lemma {:induction false} WrapLinesCounts(result: string, lines: int, ls: seq<string>, widths: seq<int>, limit: int)
    requires 1 <= lines <= LinesLimit
    requires WrapLines(result, lines, ls, widths, limit, true).Ok?
    ensures 1 <= WrapLines(result, lines, ls, widths, limit, true).value.1 <= LinesLimit
    decreases |ls|
  {
    if |ls| > 0 {
      var st := WrapWords(WrapState(result, "", lines), LineWords(ls[0]), widths, limit, true);
      WrapWordsCounts(WrapState(result, "", lines), LineWords(ls[0]), widths, limit);
      FlushCounts(st.value.result, st.value.tmp, st.value.lines);
      var next := WrapLine(result, lines, ls[0], widths, limit, true).value;
      WrapLinesCounts(next.0, next.1, ls[1..], widths, limit);
    }
  }

  /** The text ends with a line break or a page break marker. */
  predicate EndsWithBreak(s: string) {
    |s| >= 4 && (s[|s| - 4..] == "[01]" || s[|s| - 4..] == "[02]")
  }

  lemma FlushEnds(result: string, tmp: string, lines: int, isScript: bool)
    ensures EndsWithBreak(Flush(result, tmp, lines, isScript).0)
  {
    var s := result + RStrip(tmp) + "[01]";
    assert s[|s| - 4..] == "[01]";
    assert SecondLastToTwo(s)[|s| - 4..] == "[02]";
  }

  lemma {:induction false} WrapWordsEnds(st: WrapState, words: seq<string>, widths: seq<int>, limit: int, isScript: bool)
    requires WrapWords(st, words, widths, limit, isScript).Ok?
    ensures var out := WrapWords(st, words, widths, limit, isScript).value.result;
            out == st.result || EndsWithBreak(out)
    decreases |words|
  {
    if |words| > 0 {
      FlushEnds(st.result, st.tmp, st.lines, isScript);
      WrapWordsEnds(WordStep(st, words[0], widths, limit, isScript).value, words[1..], widths, limit, isScript);
    }
  }

  /** After one or more source lines the text ends with a break marker. */
  lemma {:induction false} WrapLinesEnd(result: string, lines: int, ls: seq<string>, widths: seq<int>, limit: int, isScript: bool)
    requires WrapLines(result, lines, ls, widths, limit, isScript).Ok?
    ensures |ls| > 0 ==> EndsWithBreak(WrapLines(result, lines, ls, widths, limit, isScript).value.0)
    ensures |ls| == 0 ==> WrapLines(result, lines, ls, widths, limit, isScript).value.0 == result
    decreases |ls|
  {
    if |ls| > 0 {
      var st := WrapWords(WrapState(result, "", lines), LineWords(ls[0]), widths, limit, isScript).value;
      FlushEnds(st.result, st.tmp, st.lines, isScript);
      var next := WrapLine(result, lines, ls[0], widths, limit, isScript).value;
      WrapLinesEnd(next.0, next.1, ls[1..], widths, limit, isScript);
    }
  }

  lemma MarkBoxEndEnds(s: string)
    requires s == "" || EndsWithBreak(s)
    requires MarkBoxEnd(s).Ok?
    ensures EndsWith(MarkBoxEnd(s).value, "[02]")
  {
    var r := MarkBoxEnd(s).value;
    assert r[|r| - 4..] == "[02]";
  }

  /** Every box ends with a page break: the result is empty or ends with
      `[02]`, and it is never empty once a box has been wrapped. */
  lemma {:induction false} WrapBoxesEnd(result: string, boxes: seq<string>, widths: seq<int>, limit: int, isScript: bool)
    requires result == "" || EndsWith(result, "[02]")
    requires WrapBoxes(result, boxes, widths, limit, isScript).Ok?
    ensures var out := WrapBoxes(result, boxes, widths, limit, isScript).value;
            (out == "" || EndsWith(out, "[02]")) && (|boxes| > 0 ==> EndsWith(out, "[02]"))
    decreases |boxes|
  {
    if |boxes| > 0 {
      var marked := WrapBoxStep(result, boxes, widths, limit, isScript);
      WrapBoxesEnd(marked, boxes[1..], widths, limit, isScript);
    }
  }

  /** One box of `WrapBoxes`: the text so far ends with a page break. */
  lemma WrapBoxStep(result: string, boxes: seq<string>, widths: seq<int>, limit: int, isScript: bool)
    returns (marked: string)
    requires |boxes| > 0 && (result == "" || EndsWith(result, "[02]"))
    requires WrapBoxes(result, boxes, widths, limit, isScript).Ok?
    ensures EndsWith(marked, "[02]")
    ensures WrapBoxes(result, boxes, widths, limit, isScript) == WrapBoxes(marked, boxes[1..], widths, limit, isScript)
  {
    var wrapped := WrapLines(result, 1, BoxLines(boxes[0]), widths, limit, isScript).value.0;
    WrapLinesEnd(result, 1, BoxLines(boxes[0]), widths, limit, isScript);
    marked := MarkBoxEnd(wrapped).value;
    MarkBoxEndEnds(wrapped);
  }

  /** The wrapped text keeps the last box's page break only for a script
      text that ends with a box separator; otherwise that final `[02]` is
      cut off. */
  lemma PrepareEnding(text: string, limit: int, isScript: bool, widths: seq<int>)
    requires |text| > 4
    requires Prepare(Some(text), limit, isScript, widths).Ok?
    ensures var t := Normalized(text);
            var body := WrapBoxes("", SplitOn(t, BoxSeparator), widths, limit, isScript).value;
            var out := Prepare(Some(text), limit, isScript, widths).value.value;
            && (body == "" || EndsWith(body, "[02]"))
            && (EndsWith(t, BoxSeparator) && isScript ==> out == body)
            && (!(EndsWith(t, BoxSeparator) && isScript) ==> (body == "" && out == "") || out + "[02]" == body)
  {
    var t := Normalized(text);
    var boxes := SplitOn(t, BoxSeparator);
    WrapBoxesEnd("", boxes, widths, limit, isScript);
    var body := WrapBoxes("", boxes, widths, limit, isScript).value;
    var keep := EndsWith(t, BoxSeparator) && isScript;
    assert Prepare(Some(text), limit, isScript, widths) == Ok(Some(if keep then body else DropLast4(body)));
    if body != "" && !keep {
      CutPageBreak(body);
    }
  }

  lemma CutPageBreak(body: string)
    requires EndsWith(body, "[02]")
    ensures DropLast4(body) + "[02]" == body
  {
    assert body == body[..|body| - 4] + body[|body| - 4..];
  }

  lemma {:induction false} ReplaceAbsent(s: string, pat: string, rep: string)
    requires |pat| > 0 && forall k :: 0 <= k < |s| ==> s[k] != pat[0]
    ensures Replace(s, pat, rep) == s
    decreases |s|
  {
    if |s| > 0 {
      ReplaceAbsent(s[1..], pat, rep);
      assert [s[0]] + s[1..] == s;
    }
  }

  lemma {:induction false} NormalizeAbsent(s: string)
    requires forall k :: 0 <= k < |s| ==> s[k] != '\r'
    ensures NormalizeNewlines(s) == s
    decreases |s|
  {
    if |s| > 0 {
      NormalizeAbsent(s[1..]);
      assert [s[0]] + s[1..] == s;
    }
  }

  lemma {:induction false} FindAbsent(s: string, sep: string, i: nat)
    requires |sep| > 0 && i <= |s| && forall k :: 0 <= k < |s| ==> s[k] != sep[0]
    ensures Find(s, sep, i) == |s|
    decreases |s| - i
  {
    if i + |sep| <= |s| {
      assert s[i..i + |sep|][0] == s[i];
      FindAbsent(s, sep, i + 1);
    }
  }

  lemma SplitAbsent(s: string, sep: string)
    requires |sep| > 0 && |s| > 0 && forall k :: 0 <= k < |s| ==> s[k] != sep[0]
    ensures SplitOn(s, sep) == [s]
  {
    FindAbsent(s, sep, 0);
  }

  /** A width table in which every character is 10 pixels wide. */
  function UniformWidths(): (ws: seq<int>)
    ensures |ws| == 0x80 && forall k :: 0 <= k < |ws| ==> ws[k] == 10
  {
    seq(0x80, _ => 10)
  }

  lemma {:induction false} UniformWidth(s: string)
    requires forall k :: 0 <= k < |s| ==> 0x20 <= s[k] as int < 0xA0
    ensures Width(s, UniformWidths()) == Ok(10 * |s|)
    decreases |s|
  {
    if |s| > 0 {
      UniformWidth(s[1..]);
    }
  }

  lemma {:induction false} WordEndOf(w: string, rest: string, i: nat)
    requires i <= |w| && Blankless(w) && (rest == "" || IsSpace(rest[0]))
    ensures WordEnd(w + rest, i) == |w|
    decreases |w| - i
  {
    if i < |w| {
      assert (w + rest)[i] == w[i];
      WordEndOf(w, rest, i + 1);
    } else if rest != "" {
      assert (w + rest)[i] == rest[0];
    }
  }

  /** A word followed by a blank or by nothing is split off whole. */
  lemma SplitWordsCons(w: string, rest: string)
    requires |w| > 0 && Blankless(w) && (rest == "" || IsSpace(rest[0]))
    ensures SplitWords(w + rest) == [w] + SplitWords(rest)
  {
    WordEndOf(w, rest, 0);
    assert (w + rest)[0] == w[0];
    assert (w + rest)[..|w|] == w && (w + rest)[|w|..] == rest;
  }

  lemma SplitWordsBlank(rest: string)
    ensures SplitWords(" " + rest) == SplitWords(rest)
  {
    assert (" " + rest)[1..] == rest;
  }

  lemma ExampleWords(t: string)
    requires t == "aa bb cc"
    ensures LineWords(t) == ["aa", "bb", "cc"]
  {
    ReplaceAbsent(t, "[01]", [Mark01]);
    assert t == "aa" + " " + "bb" + " " + "cc";
    assert Blankless("aa") && Blankless("bb") && Blankless("cc");
    SplitThreeWords("aa", "bb", "cc");
  }

  /** Three words separated by single blanks split into those words. */
  lemma SplitThreeWords(a: string, b: string, c: string)
    requires |a| > 0 && |b| > 0 && |c| > 0 && Blankless(a) && Blankless(b) && Blankless(c)
    ensures SplitWords(a + " " + b + " " + c) == [a, b, c]
  {
    SplitWordsCons(c, "");
    assert c + "" == c;
    var bc := b + (" " + c);
    WordThenBlank(b, c);
    WordThenBlank(a, bc);
    BlankJoin(a, b, c);
  }

  lemma BlankJoin(a: string, b: string, c: string)
    ensures a + (" " + (b + (" " + c))) == a + " " + b + " " + c
  {
  }

  /** A word followed by a blank is split off the rest. */
  lemma WordThenBlank(w: string, rest: string)
    requires |w| > 0 && Blankless(w)
    ensures SplitWords(w + (" " + rest)) == [w] + SplitWords(rest)
  {
    var tail := " " + rest;
    assert IsSpace(tail[0]);
    SplitWordsCons(w, tail);
    SplitWordsBlank(rest);
  }

  lemma ExampleBox(t: string)
    requires t == "aa bb cc"
    ensures Normalized(t) == t
    ensures SplitOn(t, BoxSeparator) == [t]
    ensures BoxLines(t) == [t]
  {
    ExampleNormalized(t);
    SplitAbsent(t, BoxSeparator);
    ExampleStripped(t);
    SplitAbsent(t, "\n");
  }

  lemma ExampleNormalized(t: string)
    requires t == "aa bb cc"
    ensures Normalized(t) == t
  {
    ReplaceAbsent(t, "[03]", [Mark03]);
    ReplaceAbsent(t, "[20]", [Mark20]);
    NormalizeAbsent(t);
  }

  lemma ExampleStripped(t: string)
    requires t == "aa bb cc"
    ensures LStrip(t) == t && RStrip(t) == t
  {
    assert !IsStripSpace(t[0]) && !IsStripSpace(t[|t| - 1]);
  }

  lemma ExampleSteps(isScript: bool)
    ensures WrapWords(WrapState("", "", 1), ["aa", "bb", "cc"], UniformWidths(), 35, isScript) == Ok(WrapState("aa[01]bb[01]", "cc ", 3))
  {
    var ws := UniformWidths();
    var s0 := WrapState("", "", 1);
    var s1 := WrapState("", "aa ", 1);
    var s2 := WrapState("aa[01]", "bb ", 2);
    var s3 := WrapState("aa[01]bb[01]", "cc ", 3);
    ExampleStep1(isScript);
    ExampleStep2(isScript);
    ExampleStep3(isScript);
    var words := ["aa", "bb", "cc"];
    assert words[1..] == ["bb", "cc"] && words[1..][1..] == ["cc"] && words[1..][1..][1..] == [];
    assert WrapWords(s3, [], ws, 35, isScript) == Ok(s3);
    assert WrapWords(s2, ["cc"], ws, 35, isScript) == Ok(s3);
    assert WrapWords(s1, ["bb", "cc"], ws, 35, isScript) == Ok(s3);
  }

  lemma ExampleStep1(isScript: bool)
    ensures WordStep(WrapState("", "", 1), "aa", UniformWidths(), 35, isScript) == Ok(WrapState("", "aa ", 1))
  {
    UniformWidth("");
    UniformWidth("aa");
    assert LetterWidth(' ', UniformWidths()) == Ok(10);
    assert Breaks("", "aa", UniformWidths(), 35) == Ok(false);
    assert "" + "aa" + " " == "aa ";
  }

  lemma ExampleStep2(isScript: bool)
    ensures WordStep(WrapState("", "aa ", 1), "bb", UniformWidths(), 35, isScript) == Ok(WrapState("aa[01]", "bb ", 2))
  {
    UniformWidth("bb");
    UniformWidth("aa ");
    assert LetterWidth(' ', UniformWidths()) == Ok(10);
    assert Breaks("aa ", "bb", UniformWidths(), 35) == Ok(true);
    assert RStrip("aa ") == "aa" by { assert "aa "[..2] == "aa"; }
    assert "" + "aa" + "[01]" == "aa[01]" && "bb" + " " == "bb ";
    assert Flush("", "aa ", 1, isScript) == ("aa[01]", 2);
  }

  lemma ExampleStep3(isScript: bool)
    ensures WordStep(WrapState("aa[01]", "bb ", 2), "cc", UniformWidths(), 35, isScript) == Ok(WrapState("aa[01]bb[01]", "cc ", 3))
  {
    UniformWidth("cc");
    UniformWidth("bb ");
    assert LetterWidth(' ', UniformWidths()) == Ok(10);
    assert Breaks("bb ", "cc", UniformWidths(), 35) == Ok(true);
    assert RStrip("bb ") == "bb" by { assert "bb "[..2] == "bb"; }
    assert "aa[01]" + "bb" + "[01]" == "aa[01]bb[01]" && "cc" + " " == "cc ";
    assert Flush("aa[01]", "bb ", 2, isScript) == ("aa[01]bb[01]", 3);
  }

  /** With 10-pixel characters and a 35-pixel limit, "aa bb cc" wraps into
      three lines, one word each: "aa " already takes 30 pixels, and adding
      "bb" and a blank would need 60. */
  lemma ThreeShortWords(text: string, isScript: bool)
    requires text == "aa bb cc"
    ensures Prepare(Some(text), 35, isScript, UniformWidths()) == Ok(Some("aa[01]bb[01]cc"))
  {
    var body := "aa[01]bb[01]cc[02]";
    ExampleBox(text);
    ExampleWrapped(text, isScript);
    ExampleCut(body, text);
    PrepareOneBox(text, 35, isScript, UniformWidths(), body);
  }

  /** A text of one box, with nothing to normalise, loses the final page
      break of its wrapped box. */
  lemma PrepareOneBox(text: string, limit: int, isScript: bool, widths: seq<int>, body: string)
    requires |text| > 4 && Normalized(text) == text && !EndsWith(text, BoxSeparator)
    requires SplitOn(text, BoxSeparator) == [text]
    requires WrapBoxes("", [text], widths, limit, isScript) == Ok(body)
    ensures Prepare(Some(text), limit, isScript, widths) == Ok(Some(DropLast4(body)))
  {
  }

  lemma ExampleLastLine(isScript: bool)
    ensures var line := Flush("aa[01]bb[01]", "cc ", 3, isScript).0;
            line == "aa[01]bb[01]cc[01]" || line == "aa[01]bb[01]cc[02]"
  {
    assert RStrip("cc ") == "cc" by { assert "cc "[..2] == "cc"; }
  }

  lemma ExampleLine(t: string, isScript: bool)
    requires t == "aa bb cc"
    ensures WrapLine("", 1, t, UniformWidths(), 35, isScript) == Ok(Flush("aa[01]bb[01]", "cc ", 3, isScript))
  {
    ExampleWords(t);
    ExampleSteps(isScript);
  }

  lemma ExampleWrapped(t: string, isScript: bool)
    requires t == "aa bb cc"
    ensures WrapBoxes("", [t], UniformWidths(), 35, isScript) == Ok("aa[01]bb[01]cc[02]")
  {
    ExampleBox(t);
    ExampleLine(t, isScript);
    ExampleLastLine(isScript);
    var line := Flush("aa[01]bb[01]", "cc ", 3, isScript);
    OneLineBox(t, UniformWidths(), 35, isScript, line);
    ExampleBoxEnd(line.0);
  }

  /** A box of one source line, wrapped from an empty result. */
  lemma OneLineBox(box: string, widths: seq<int>, limit: int, isScript: bool, line: (string, int))
    requires BoxLines(box) == [box]
    requires WrapLine("", 1, box, widths, limit, isScript) == Ok(line)
    ensures WrapBoxes("", [box], widths, limit, isScript) == MarkBoxEnd(line.0)
  {
    assert [box][1..] == [];
    assert WrapLines("", 1, [box], widths, limit, isScript) == Ok(line);
  }

  lemma ExampleBoxEnd(s: string)
    requires s == "aa[01]bb[01]cc[01]" || s == "aa[01]bb[01]cc[02]"
    ensures MarkBoxEnd(s) == Ok("aa[01]bb[01]cc[02]")
  {
    assert s[..|s| - 2] == "aa[01]bb[01]cc[0" && s[|s| - 1..] == "]";
    assert SecondLastToTwo(s) == "aa[01]bb[01]cc[0" + "2" + "]";
    assert "aa[01]bb[01]cc[0" + "2" + "]" == "aa[01]bb[01]cc[02]";
  }

  lemma ExampleCut(s: string, t: string)
    requires s == "aa[01]bb[01]cc[02]" && t == "aa bb cc"
    ensures DropLast4(s) == "aa[01]bb[01]cc"
    ensures !EndsWith(t, BoxSeparator)
  {
    assert t[5..] != BoxSeparator by { assert t[5..][0] == ' '; }
  }
}
