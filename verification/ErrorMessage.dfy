/** The decoding of error messages, packages/node/src/reqresp/utils/errorMessage.ts: the bytes pass through
    the UTF-8 decoder of the WHATWG Encoding Standard, section 8.1.1, and everything but the characters from
    0x20 to 0x7F is removed. The decoder never fails, so that the reader's hexadecimal form is never used. */
module ErrorMessages {

  type byte = bv8

  const MAX_ERROR_MESSAGE_LENGTH := 256

  const REPLACEMENT_CHARACTER: nat := 0xFFFD

  /** The decoder between two bytes; `needed` is zero between two characters. */
  datatype Decoder = Decoder(needed: nat, seen: nat, codePoint: nat, lower: nat, upper: nat)

  const START := Decoder(0, 0, 0, 0x80, 0xBF)

  /** The byte a character starts with. */
  function Lead(b: byte): (Decoder, seq<nat>) {
    var n := b as nat;
    if n <= 0x7F then (START, [n])
    else if 0xC2 <= n <= 0xDF then (Decoder(1, 0, n - 0xC0, 0x80, 0xBF), [])
    else if 0xE0 <= n <= 0xEF then
      (Decoder(2, 0, n - 0xE0, if n == 0xE0 then 0xA0 else 0x80, if n == 0xED then 0x9F else 0xBF), [])
    else if 0xF0 <= n <= 0xF4 then
      (Decoder(3, 0, n - 0xF0, if n == 0xF0 then 0x90 else 0x80, if n == 0xF4 then 0x8F else 0xBF), [])
    else (START, [REPLACEMENT_CHARACTER])
  }

  /** A byte that does not continue a character is looked at once more. */
  function Step(d: Decoder, b: byte): (Decoder, seq<nat>) {
    var n := b as nat;
    if d.needed == 0 then Lead(b)
    else if n < d.lower || n > d.upper || n < 0x80 then
      var (d', points) := Lead(b);
      (d', [REPLACEMENT_CHARACTER] + points)
    else
      var codePoint := 64 * d.codePoint + (n - 0x80);
      if d.seen + 1 == d.needed then (START, [codePoint])
      else (Decoder(d.needed, d.seen + 1, codePoint, 0x80, 0xBF), [])
  }

  function DecodedSoFar(bytes: seq<byte>): (Decoder, seq<nat>) {
    if bytes == [] then (START, [])
    else
      var (d, points) := DecodedSoFar(bytes[..|bytes| - 1]);
      var (d', more) := Step(d, bytes[|bytes| - 1]);
      (d', points + more)
  }

  /** The code points; a character that is cut off is replaced. A byte order mark in front, which the source
      drops, is not printable in any case. */
  function Decode(bytes: seq<byte>): seq<nat> {
    var (d, points) := DecodedSoFar(bytes);
    if d.needed == 0 then points else points + [REPLACEMENT_CHARACTER]
  }

  predicate IsPrintable(codePoint: nat) {
    0x20 <= codePoint <= 0x7F
  }

  function Printable(points: seq<nat>): string {
    if points == [] then ""
    else
      var init, last := Printable(points[..|points| - 1]), points[|points| - 1];
      if IsPrintable(last) then init + [last as char] else init
  }

  function FirstBytes(stream: seq<byte>, n: nat): (r: seq<byte>)
    ensures |r| == if |stream| < n then |stream| else n
    ensures r <= stream
  {
    if |stream| < n then stream else stream[..n]
  }

  function DecodeErrorMessage(bytes: seq<byte>): string {
    Printable(Decode(FirstBytes(bytes, MAX_ERROR_MESSAGE_LENGTH)))
  }

  /** The bytes from 0x20 to 0x7F, as characters. */
  function PrintableBytes(bytes: seq<byte>): string {
    if bytes == [] then ""
    else
      var init, last := PrintableBytes(bytes[..|bytes| - 1]), bytes[|bytes| - 1] as nat;
      if 32 <= last < 128 then init + [last as char] else init
  }

  lemma {:induction false} PrintableOfAppend(a: seq<nat>, b: seq<nat>)
    ensures Printable(a + b) == Printable(a) + Printable(b)
  {
    if b == [] {
      assert a + b == a;
    } else {
      PrintableOfAppend(a, b[..|b| - 1]);
      assert (a + b)[..|a + b| - 1] == a + b[..|b| - 1];
    }
  }

  /** The least code point a decoder may still come to in the middle of a character lies beyond 0x7F. */
  ghost predicate DecoderOk(d: Decoder) {
    d.needed > 0 ==>
      && d.seen < d.needed <= 3 && d.lower >= 0x80
      && var least := 64 * d.codePoint + (d.lower - 0x80);
         (match d.needed - d.seen
          case 1 => least
          case 2 => 64 * least
          case _ => 4096 * least) > 0x7F
  }

  function PrintableByte(b: byte): string {
    if IsPrintable(b as nat) then [b as char] else ""
  }

  lemma PrintableOfOne(n: nat)
    ensures Printable([n]) == if IsPrintable(n) then [n as char] else ""
  {
    assert [n][..0] == [];
  }

  lemma LeadIsOk(b: byte)
    ensures DecoderOk(Lead(b).0) && Printable(Lead(b).1) == PrintableByte(b)
  {
    PrintableOfOne(b as nat);
    PrintableOfOne(REPLACEMENT_CHARACTER);
  }

  lemma StepIsOk(d: Decoder, b: byte)
    requires DecoderOk(d)
    ensures DecoderOk(Step(d, b).0) && Printable(Step(d, b).1) == PrintableByte(b)
  {
    LeadIsOk(b);
    var n := b as nat;
    if d.needed == 0 {
    } else if n < d.lower || n > d.upper {
      PrintableOfOne(REPLACEMENT_CHARACTER);
      PrintableOfAppend([REPLACEMENT_CHARACTER], Lead(b).1);
    } else {
      PrintableOfOne(64 * d.codePoint + (n - 0x80));
    }
  }

  lemma {:induction false} DecodedSoFarIsPrintable(bytes: seq<byte>)
    ensures DecoderOk(DecodedSoFar(bytes).0) && Printable(DecodedSoFar(bytes).1) == PrintableBytes(bytes)
  {
    if bytes == [] {
    } else {
      var init, last := bytes[..|bytes| - 1], bytes[|bytes| - 1];
      DecodedSoFarIsPrintable(init);
      StepIsOk(DecodedSoFar(init).0, last);
      PrintableOfAppend(DecodedSoFar(init).1, Step(DecodedSoFar(init).0, last).1);
    }
  }

  /** However the bytes are decoded, malformed or cut off, what is left is exactly the printable ones among
      the first 256. */
  lemma DecodingKeepsPrintableBytes(bytes: seq<byte>)
    ensures DecodeErrorMessage(bytes) == PrintableBytes(FirstBytes(bytes, 256))
  {
    var first := FirstBytes(bytes, MAX_ERROR_MESSAGE_LENGTH);
    DecodedSoFarIsPrintable(first);
    PrintableOfAppend(DecodedSoFar(first).1, [REPLACEMENT_CHARACTER]);
    PrintableOfOne(REPLACEMENT_CHARACTER);
  }
}
