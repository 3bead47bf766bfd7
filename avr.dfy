/** `parse_avr`: unpacking an AVR text frame (`*` hex digits `;`) into the
    bytes it spells, two hex digits per byte. */
module Avr {
  import opened Common

  /** The only error `u8::from_str_radix` can give on a two-character slice. */
  datatype ParseIntError = InvalidDigit

  /** `char::to_digit(16)`: both letter cases are accepted. */
  function HexDigit(c: char): (r: Option<nat>)
    ensures r.Some? ==> r.value < 16
  {
    if '0' <= c <= '9' then Some(c as int - '0' as int)
    else if 'a' <= c <= 'f' then Some(c as int - 'a' as int + 10)
    else if 'A' <= c <= 'F' then Some(c as int - 'A' as int + 10)
    else None
  }

  /** `u8::from_str_radix(&frame[i..i + 2], 16)`. An unsigned parse accepts one
      leading `+`, so a pair `+d` is the single digit `d`. */
  function ParseHexByte(hi: char, lo: char): Result<byte, ParseIntError> {
    if hi == '+' then
      match HexDigit(lo)
      case Some(d) => Ok(d)
      case None => Err(InvalidDigit)
    else
      match (HexDigit(hi), HexDigit(lo))
      case (Some(h), Some(l)) => Ok(16 * h + l)
      case _ => Err(InvalidDigit)
  }

  /** The slices read start at 1, 3, 5, ... below `|frame| - 1`. */
  function PairCount(frame: string): nat
    requires |frame| >= 1
  {
    (|frame| - 1) / 2
  }

  /** The `k`-th two-character slice that `parse_avr` reads, parsed. */
  function PairAt(frame: string, k: nat): Result<byte, ParseIntError>
    requires |frame| >= 1 && k < PairCount(frame)
  {
    ParseHexByte(frame[2 * k + 1], frame[2 * k + 2])
  }

  /** `parse_avr`: the slices starting at 1, 3, 5, ... each parsed as a byte
      and collected into a `Result`. Collecting stops at the first failed
      slice; every failure is the same `InvalidDigit`, so which one stops it
      does not show in the result. An empty frame is refused: `frame.len() - 1`
      underflows. */
  function ParseAvr(frame: string): Result<seq<byte>, ParseIntError>
    requires |frame| >= 1
  {
    if forall k :: 0 <= k < PairCount(frame) ==> PairAt(frame, k).Ok? then
      Ok(seq(PairCount(frame), k requires 0 <= k < PairCount(frame) => PairAt(frame, k).value))
    else
      Err(InvalidDigit)
  }

  /** `parse_avr` succeeds exactly when every slice it reads is a valid base-16
      byte, and then yields one byte per slice, in order. */
  lemma ParseAvrSpec(frame: string)
    requires |frame| >= 1
    ensures ParseAvr(frame).Ok? <==> forall k :: 0 <= k < PairCount(frame) ==> PairAt(frame, k).Ok?
    ensures ParseAvr(frame).Ok? ==>
              |ParseAvr(frame).value| == PairCount(frame)
              && forall k :: 0 <= k < PairCount(frame) ==> ParseAvr(frame).value[k] == PairAt(frame, k).value
  {
  }

  /** `collect` on the iterator of parsed slices, read one slice at a time
      from the `k`-th on: the first failed slice ends the walk with its
      error, otherwise the bytes are gathered in order. */
  function CollectFrom(frame: string, k: nat): Result<seq<byte>, ParseIntError>
    requires |frame| >= 1 && k <= PairCount(frame)
    decreases PairCount(frame) - k
  {
    if k == PairCount(frame) then Ok([])
    else
      match PairAt(frame, k)
      case Err(e) => Err(e)
      case Ok(b) =>
        match CollectFrom(frame, k + 1)
        case Err(e) => Err(e)
        case Ok(rest) => Ok([b] + rest)
  }

  lemma {:induction false} CollectFromSlices(frame: string, k: nat)
    requires |frame| >= 1 && k <= PairCount(frame)
    ensures CollectFrom(frame, k).Ok? <==> forall j :: k <= j < PairCount(frame) ==> PairAt(frame, j).Ok?
    ensures CollectFrom(frame, k).Ok? ==>
              |CollectFrom(frame, k).value| == PairCount(frame) - k
              && forall j :: k <= j < PairCount(frame) ==> CollectFrom(frame, k).value[j - k] == PairAt(frame, j).value
    decreases PairCount(frame) - k
  {
    if k < PairCount(frame) {
      CollectFromSlices(frame, k + 1);
    }
  }

  /** `parse_avr` gives exactly what walking its slices one by one and
      stopping at the first failure gives. */
  lemma ParseAvrCollects(frame: string)
    requires |frame| >= 1
    ensures ParseAvr(frame) == CollectFrom(frame, 0)
  {
    CollectFromSlices(frame, 0);
    ParseAvrSpec(frame);
    if ParseAvr(frame).Ok? {
      assert ParseAvr(frame).value == CollectFrom(frame, 0).value;
    } else {
      assert CollectFrom(frame, 0).error.InvalidDigit?;
    }
  }

  /** Upper-case hex digit, as AVR frames are written. */
  function HexChar(d: nat): (c: char)
    requires d < 16
    ensures HexDigit(c) == Some(d)
  {
    if d < 10 then ('0' as int + d) as char else ('A' as int + d - 10) as char
  }

  /** Two hex digits per byte, high nibble first. */
  function Hex(bytes: seq<byte>): (s: string)
    ensures |s| == 2 * |bytes|
  {
    if bytes == [] then [] else [HexChar(bytes[0] / 16), HexChar(bytes[0] % 16)] + Hex(bytes[1..])
  }

  lemma {:induction false} HexAt(bytes: seq<byte>, j: nat)
    requires j < |bytes|
    ensures Hex(bytes)[2 * j] == HexChar(bytes[j] / 16)
    ensures Hex(bytes)[2 * j + 1] == HexChar(bytes[j] % 16)
  {
    if j > 0 {
      HexAt(bytes[1..], j - 1);
      assert Hex(bytes) == [HexChar(bytes[0] / 16), HexChar(bytes[0] % 16)] + Hex(bytes[1..]);
    }
  }

  /** The AVR text form of a frame. */
  function ToAvr(bytes: seq<byte>): string {
    "*" + Hex(bytes) + ";"
  }

  /** One byte written as two hex digits reads back as itself. */
  lemma HexByteRoundTrip(b: byte)
    ensures ParseHexByte(HexChar(b / 16), HexChar(b % 16)) == Ok(b)
  {
    assert HexChar(b / 16) != '+';
    assert 16 * (b / 16) + b % 16 == b;
  }

  lemma PairOfHex(bytes: seq<byte>, open: char, close: char, k: nat)
    requires k < |bytes|
    ensures PairCount([open] + Hex(bytes) + [close]) == |bytes|
    ensures PairAt([open] + Hex(bytes) + [close], k) == Ok(bytes[k])
  {
    var hex := Hex(bytes);
    var frame := [open] + hex + [close];
    assert |frame| == 2 * |bytes| + 2;
    HexAt(bytes, k);
    HexByteRoundTrip(bytes[k]);
    assert frame[2 * k + 1] == hex[2 * k] && frame[2 * k + 2] == hex[2 * k + 1];
    assert PairAt(frame, k) == ParseHexByte(hex[2 * k], hex[2 * k + 1]);
  }

  /** Round trip: whatever the two marker characters are, unpacking the hex
      text of `bytes` between them gives back `bytes`. */
  lemma ParseAvrRoundTrip(bytes: seq<byte>, open: char, close: char)
    ensures ParseAvr([open] + Hex(bytes) + [close]) == Ok(bytes)
  {
    var frame := [open] + Hex(bytes) + [close];
    assert |frame| == 2 * |bytes| + 2;
    assert PairCount(frame) == |bytes|;
    forall k | 0 <= k < |bytes|
      ensures PairAt(frame, k) == Ok(bytes[k])
    {
      PairOfHex(bytes, open, close, k);
    }
    ParseAvrSpec(frame);
    assert ParseAvr(frame).Ok?;
    var r := ParseAvr(frame).value;
    assert |r| == |bytes|;
    assert forall k :: 0 <= k < |r| ==> r[k] == bytes[k];
    assert r == bytes;
  }

  lemma ParseToAvr(bytes: seq<byte>)
    ensures ParseAvr(ToAvr(bytes)) == Ok(bytes)
  {
    ParseAvrRoundTrip(bytes, '*', ';');
  }

  /** The frame of the unit test for `parse_avr`, and the bytes it spells. */
  const ExampleFrame: string := "*8DA46D4F99155818A8044075D32B;"
  const ExampleData: seq<byte> := [141, 164, 109, 79, 153, 21, 88, 24, 168, 4, 64, 117, 211, 43]

  /** `ExamplePairs0` to `ExamplePairs6` each check two slices of the example
      frame; split this way, every proof obligation stays small. */
  lemma ExamplePairs0()
    ensures PairCount(ExampleFrame) == 14
    ensures PairAt(ExampleFrame, 0) == Ok(ExampleData[0]) && PairAt(ExampleFrame, 1) == Ok(ExampleData[1])
  {
    assert ExampleFrame[1] == '8' && ExampleFrame[2] == 'D';
    assert ExampleFrame[3] == 'A' && ExampleFrame[4] == '4';
  }

  lemma ExamplePairs1()
    ensures PairCount(ExampleFrame) == 14
    ensures PairAt(ExampleFrame, 2) == Ok(ExampleData[2]) && PairAt(ExampleFrame, 3) == Ok(ExampleData[3])
  {
    assert ExampleFrame[5] == '6' && ExampleFrame[6] == 'D';
    assert ExampleFrame[7] == '4' && ExampleFrame[8] == 'F';
  }

  lemma ExamplePairs2()
    ensures PairCount(ExampleFrame) == 14
    ensures PairAt(ExampleFrame, 4) == Ok(ExampleData[4]) && PairAt(ExampleFrame, 5) == Ok(ExampleData[5])
  {
    assert ExampleFrame[9] == '9' && ExampleFrame[10] == '9';
    assert ExampleFrame[11] == '1' && ExampleFrame[12] == '5';
  }

  lemma ExamplePairs3()
    ensures PairCount(ExampleFrame) == 14
    ensures PairAt(ExampleFrame, 6) == Ok(ExampleData[6]) && PairAt(ExampleFrame, 7) == Ok(ExampleData[7])
  {
    assert ExampleFrame[13] == '5' && ExampleFrame[14] == '8';
    assert ExampleFrame[15] == '1' && ExampleFrame[16] == '8';
  }

  lemma ExamplePairs4()
    ensures PairCount(ExampleFrame) == 14
    ensures PairAt(ExampleFrame, 8) == Ok(ExampleData[8]) && PairAt(ExampleFrame, 9) == Ok(ExampleData[9])
  {
    assert ExampleFrame[17] == 'A' && ExampleFrame[18] == '8';
    assert ExampleFrame[19] == '0' && ExampleFrame[20] == '4';
  }

  lemma ExamplePairs5()
    ensures PairCount(ExampleFrame) == 14
    ensures PairAt(ExampleFrame, 10) == Ok(ExampleData[10]) && PairAt(ExampleFrame, 11) == Ok(ExampleData[11])
  {
    assert ExampleFrame[21] == '4' && ExampleFrame[22] == '0';
    assert ExampleFrame[23] == '7' && ExampleFrame[24] == '5';
  }

  lemma ExamplePairs6()
    ensures PairCount(ExampleFrame) == 14
    ensures PairAt(ExampleFrame, 12) == Ok(ExampleData[12]) && PairAt(ExampleFrame, 13) == Ok(ExampleData[13])
  {
    assert ExampleFrame[25] == 'D' && ExampleFrame[26] == '3';
    assert ExampleFrame[27] == '2' && ExampleFrame[28] == 'B';
  }

  /** Every slice of the example frame spells the matching example byte. */
  lemma ExamplePairs()
    ensures PairCount(ExampleFrame) == |ExampleData|
    ensures forall k :: 0 <= k < |ExampleData| ==> PairAt(ExampleFrame, k) == Ok(ExampleData[k])
  {
    ExamplePairs0();
    forall k | 0 <= k < |ExampleData|
      ensures PairAt(ExampleFrame, k) == Ok(ExampleData[k])
    {
      if k < 2 {
      } else if k < 4 {
        ExamplePairs1();
      } else if k < 6 {
        ExamplePairs2();
      } else if k < 8 {
        ExamplePairs3();
      } else if k < 10 {
        ExamplePairs4();
      } else if k < 12 {
        ExamplePairs5();
      } else {
        ExamplePairs6();
      }
    }
  }

  /** The unit test's frame. */
  lemma ParseAvrExample()
    ensures ParseAvr("*8DA46D4F99155818A8044075D32B;") == Ok([141, 164, 109, 79, 153, 21, 88, 24, 168, 4, 64, 117, 211, 43])
  {
    ExamplePairs();
    ParseAvrSpec(ExampleFrame);
    var r := ParseAvr(ExampleFrame).value;
    assert forall k :: 0 <= k < |r| ==> r[k] == ExampleData[k];
    assert r == ExampleData;
  }

  /** A single slice that is not two hex digits makes the whole frame fail. */
  lemma ParseAvrBadSlice(frame: string, k: nat)
    requires |frame| >= 1 && k < PairCount(frame) && PairAt(frame, k).Err?
    ensures ParseAvr(frame) == Err(InvalidDigit)
  {
    ParseAvrSpec(frame);
    assert !ParseAvr(frame).Ok?;
    assert ParseAvr(frame).error.InvalidDigit?;
  }

  /** An odd number of hex digits before a `;` always fails: the last slice
      read takes in the closing marker. */
  lemma ParseAvrOddDigits(open: char, hex: string)
    requires |hex| % 2 == 1
    ensures ParseAvr([open] + hex + [';']).Err?
  {
    var frame := [open] + hex + [';'];
    var k := |hex| / 2;
    assert k < PairCount(frame);
    assert frame[2 * k + 2] == ';';
    ParseAvrBadSlice(frame, k);
  }

  /** The leading-sign quirk: `*+F;` unpacks to the single byte 15. */
  lemma ParseAvrPlusSign()
    ensures ParseAvr("*+F;") == Ok([15])
  {
    var frame := "*+F;";
    assert PairAt(frame, 0) == Ok(15);
    ParseAvrSpec(frame);
    var r := ParseAvr(frame).value;
    assert r == [15];
  }
}
