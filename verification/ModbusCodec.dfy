/** The Modbus RTU response codec: section 6.3 of "MODBUS Application Protocol Specification V1.1b3" for
    function 03, framed as in section 2.5.1.2 of the serial line guide.
 */
module ModbusCodec {
  import opened ModbusCrc

  const READ_HOLDING: bv8 := 0x03

  datatype Fault =
    | ShortFrame
    | SlaveMismatch
    | SlaveException(code: bv8)
    | UnexpectedFunction
    | LengthMismatch
    | ByteCountMismatch
    | CrcMismatch

  datatype Parsed = Values(values: seq<bv16>) | Raised(fault: Fault)

  // ---------------------------------------------------------------- printing

  function Low(w: bv16): bv8 { (w & 0xFF) as bv8 }

  function High(w: bv16): bv8 { (w >> 8) as bv8 }

  function Word(high: bv8, low: bv8): bv16 { ((high as bv16) << 8) | (low as bv16) }

  lemma WordSplits(w: bv16)
    ensures Word(High(w), Low(w)) == w
  {
  }

  lemma SplitWords(h: bv8, l: bv8)
    ensures High(Word(h, l)) == h && Low(Word(h, l)) == l
  {
  }

  lemma HighByteFirst(h: bv8, l: bv8)
    ensures Word(h, l) >> 8 == h as bv16 && Word(h, l) & 0xFF == l as bv16
  {
  }

  /** `frame_with_crc`: low byte first. */
  function FrameWithCrc(frame: seq<bv8>): seq<bv8> {
    frame + [Low(Crc(START, frame)), High(Crc(START, frame))]
  }

  /** Register values high byte first. */
  function BigEndian(values: seq<bv16>): (bytes: seq<bv8>)
    ensures |bytes| == 2 * |values|
  {
    if values == [] then []
    else BigEndian(values[..|values| - 1]) + [High(values[|values| - 1]), Low(values[|values| - 1])]
  }

  /** The answer of a slave to a read-holding-registers request. */
  function Response(slave: bv8, byteCount: bv8, values: seq<bv16>): seq<bv8> {
    FrameWithCrc([slave, READ_HOLDING, byteCount] + BigEndian(values))
  }

  // ---------------------------------------------------------------- parsing

  /** The first check of `parse_response` that the frame fails, in the order of the source. */
  function FirstFault(frame: seq<bv8>, expectedSlave: int, expectedCount: nat): (fault: seq<Fault>)
    ensures |fault| <= 1
  {
    if |frame| < 5 then [ShortFrame]
    else if frame[0] as int != expectedSlave then [SlaveMismatch]
    else if frame[1] & 0x80 != 0 then [SlaveException(frame[2])]
    else if frame[1] != READ_HOLDING then [UnexpectedFunction]
    else if |frame| != 3 + expectedCount * 2 + 2 then [LengthMismatch]
    else if frame[2] as int != expectedCount * 2 then [ByteCountMismatch]
    else if Crc(START, frame[..|frame| - 2]) != Word(frame[|frame| - 1], frame[|frame| - 2]) then [CrcMismatch]
    else []
  }

  /** The register values of a frame that has room for `count` of them. */
  function Registers(frame: seq<bv8>, count: nat): (values: seq<bv16>)
    requires |frame| >= 3 + 2 * count
    ensures |values| == count
    ensures forall i :: 0 <= i < count ==> values[i] == Word(frame[3 + 2 * i], frame[4 + 2 * i])
  {
    seq(count, i requires 0 <= i < count => Word(frame[3 + 2 * i], frame[4 + 2 * i]))
  }

  function Parse(frame: seq<bv8>, expectedSlave: int, expectedCount: nat): Parsed {
    var fault := FirstFault(frame, expectedSlave, expectedCount);
    if fault != [] then Raised(fault[0]) else Values(Registers(frame, expectedCount))
  }

  /** `parse_response`. */
  method ParseResponse(frame: seq<bv8>, expectedSlave: int, expectedCount: nat) returns (r: Parsed)
    ensures r == Parse(frame, expectedSlave, expectedCount)
    ensures r.Values? ==> |r.values| == expectedCount && |frame| == 2 * expectedCount + 5
    ensures r.Values? ==> forall i :: 0 <= i < expectedCount ==>
              r.values[i] >> 8 == frame[3 + 2 * i] as bv16 && r.values[i] & 0xFF == frame[4 + 2 * i] as bv16
  {
    hide Crc, Word;
    if |frame| < 5 {
      return Raised(ShortFrame);
    }
    if frame[0] as int != expectedSlave {
      return Raised(SlaveMismatch);
    }
    var func := frame[1];
    if func & 0x80 != 0 {
      return Raised(SlaveException(frame[2]));
    }
    if func != READ_HOLDING {
      return Raised(UnexpectedFunction);
    }
    var expectedLen := 3 + expectedCount * 2 + 2;
    if |frame| != expectedLen {
      return Raised(LengthMismatch);
    }
    if frame[2] as int != expectedCount * 2 {
      return Raised(ByteCountMismatch);
    }
    var n := |frame|;
    var crc := Crc16(frame[..n - 2]);
    if crc != Word(frame[n - 1], frame[n - 2]) {
      return Raised(CrcMismatch);
    }
    var values: seq<bv16> := [];
    for i := 0 to expectedCount
      invariant |values| == i
      invariant forall k :: 0 <= k < i ==> values[k] == Word(frame[3 + 2 * k], frame[4 + 2 * k])
    {
      var hi, lo := frame[3 + i * 2], frame[4 + i * 2];
      values := values + [Word(hi, lo)];
    }
    assert values == Registers(frame, expectedCount);
    forall i | 0 <= i < expectedCount
      ensures values[i] >> 8 == frame[3 + 2 * i] as bv16 && values[i] & 0xFF == frame[4 + 2 * i] as bv16
    {
      HighByteFirst(frame[3 + 2 * i], frame[4 + 2 * i]);
    }
    return Values(values);
  }

  /** An exception response of the slave is reported with its code, whatever was asked for. */
  lemma ExceptionReported(slave: bv8, kind: bv8, code: bv8, count: nat)
    requires kind & 0x80 != 0
    ensures Parse(FrameWithCrc([slave, kind, code]), slave as int, count) == Raised(SlaveException(code))
  {
    hide Crc, Low, High;
  }

  /** A response of another slave is never taken for the expected one's. */
  lemma OtherSlaveRefused(frame: seq<bv8>, slave: int, count: nat)
    requires |frame| >= 5 && frame[0] as int != slave
    ensures Parse(frame, slave, count) == Raised(SlaveMismatch)
  {
    hide Crc, Word;
  }

  // ---------------------------------------------------------------- residue

  lemma CrcTwoMore(c: bv16, body: seq<bv8>, lo: bv8, hi: bv8)
    ensures Crc(c, body + [lo, hi]) == FeedByte(FeedByte(Crc(c, body), lo), hi)
  {
    hide FeedByte;
    var f := body + [lo, hi];
    assert f[..|f| - 1] == body + [lo];
    assert (body + [lo])[..|body|] == body;
  }

  /** Feeding a register its own two bytes, low byte first, clears it; feeding anything else does not. */
  lemma FeedOwnBytes(c: bv16, lo: bv8, hi: bv8)
    ensures FeedByte(FeedByte(c, lo), hi) == 0 <==> c == Word(hi, lo)
  {
    var h := HighPart(hi);
    HighPartShifts(hi);
    WordIsXor(hi, lo);
    hide Xor, Word, HighPart;
    ShiftsLinear(Xor(c, lo as bv16), h, 8);
    ShiftsAdd(Xor(Xor(c, lo as bv16), h), 8, 8);
    XorAssociates(c, lo as bv16, h);
    XorApart(c, Word(hi, lo));
    ShiftsZero(16);
    if Shifts(Xor(c, Word(hi, lo)), 16) == 0 {
      ShiftsInjective(Xor(c, Word(hi, lo)), 16);
    }
  }

  function HighPart(hi: bv8): bv16 { (hi as bv16) << 8 }

  lemma WordIsXor(hi: bv8, lo: bv8)
    ensures Word(hi, lo) == Xor(lo as bv16, HighPart(hi))
  {
  }

  /** Eight shifts bring the high byte of the register down unchanged. */
  lemma HighPartShifts(hi: bv8)
    ensures Shifts(HighPart(hi), 8) == hi as bv16
  {
  }

  /** The CRC over a whole frame is zero exactly when its last two bytes are the CRC of the rest. */
  lemma ResidueZeroIff(frame: seq<bv8>)
    requires |frame| >= 2
    ensures Crc(START, frame) == 0
       <==> Crc(START, frame[..|frame| - 2]) == Word(frame[|frame| - 1], frame[|frame| - 2])
  {
    hide Crc, Word, FeedByte;
    var n := |frame|;
    assert frame == frame[..n - 2] + [frame[n - 2], frame[n - 1]];
    CrcTwoMore(START, frame[..n - 2], frame[n - 2], frame[n - 1]);
    FeedOwnBytes(Crc(START, frame[..n - 2]), frame[n - 2], frame[n - 1]);
  }

  /** Every printed frame has residue zero. */
  lemma PrintedResidueZero(frame: seq<bv8>)
    ensures Crc(START, FrameWithCrc(frame)) == 0
  {
    hide Crc, Word, High, Low;
    var f := FrameWithCrc(frame);
    assert f[..|f| - 2] == frame;
    WordSplits(Crc(START, frame));
    ResidueZeroIff(f);
  }

  // ---------------------------------------------------------------- round trip

  lemma {:induction false} BigEndianAt(values: seq<bv16>, i: nat)
    requires i < |values|
    ensures BigEndian(values)[2 * i] == High(values[i]) && BigEndian(values)[2 * i + 1] == Low(values[i])
    decreases |values|
  {
    hide High, Low;
    var n := |values| - 1;
    if i < n {
      BigEndianAt(values[..n], i);
    }
  }

  /** The parser returns `values` exactly for the frame a slave would print for them: both ways round. */
  lemma ParsesIffPrinted(frame: seq<bv8>, expectedSlave: int, expectedCount: nat, values: seq<bv16>)
    ensures Parse(frame, expectedSlave, expectedCount) == Values(values)
       <==> && |values| == expectedCount
            && |frame| >= 5
            && frame[0] as int == expectedSlave
            && frame[2] as int == 2 * expectedCount
            && frame == Response(frame[0], frame[2], values)
  {
    hide Crc, Word, High, Low;
    FunctionByte();
    if Parse(frame, expectedSlave, expectedCount) == Values(values) {
      AcceptedIsPrinted(frame, expectedSlave, expectedCount);
    }
    if |frame| >= 5 && |values| == expectedCount && frame == Response(frame[0], frame[2], values) {
      PrintedParses(frame, frame[0], frame[2], values);
    }
  }

  lemma FunctionByte()
    ensures READ_HOLDING & 0x80 == 0
  {
  }

  lemma AcceptedIsPrinted(frame: seq<bv8>, expectedSlave: int, expectedCount: nat)
    requires FirstFault(frame, expectedSlave, expectedCount) == []
    ensures |frame| == 5 + 2 * expectedCount
    ensures frame == Response(frame[0], frame[2], Registers(frame, expectedCount))
  {
    hide Crc, Word, High, Low, BigEndian;
    var n := |frame|;
    SplitWords(frame[n - 1], frame[n - 2]);
    RegistersPrinted(frame, expectedCount);
    assert frame[..n - 2] == [frame[0], READ_HOLDING, frame[2]] + frame[3..n - 2];
    assert frame == frame[..n - 2] + [frame[n - 2], frame[n - 1]];
  }

  /** Printing the registers read from a frame gives the frame's data bytes. */
  lemma RegistersPrinted(frame: seq<bv8>, count: nat)
    requires |frame| == 5 + 2 * count
    ensures BigEndian(Registers(frame, count)) == frame[3..|frame| - 2]
  {
    hide Word, High, Low, BigEndian;
    var values := Registers(frame, count);
    forall k | 0 <= k < 2 * count ensures BigEndian(values)[k] == frame[3 + k] {
      var i := k / 2;
      BigEndianAt(values, i);
      SplitWords(frame[3 + 2 * i], frame[4 + 2 * i]);
    }
  }

  lemma PrintedParses(frame: seq<bv8>, slave: bv8, byteCount: bv8, values: seq<bv16>)
    requires frame == Response(slave, byteCount, values)
    ensures |frame| == 5 + 2 * |values| && frame[0] == slave && frame[1] == READ_HOLDING && frame[2] == byteCount
    ensures Crc(START, frame[..|frame| - 2]) == Word(frame[|frame| - 1], frame[|frame| - 2])
    ensures Registers(frame, |values|) == values
  {
    hide Crc, Word, High, Low;
    var body := [slave, READ_HOLDING, byteCount] + BigEndian(values);
    assert frame[..|frame| - 2] == body;
    WordSplits(Crc(START, body));
    forall i | 0 <= i < |values| ensures Registers(frame, |values|)[i] == values[i] {
      BigEndianAt(values, i);
      assert body[3 + 2 * i] == BigEndian(values)[2 * i] && body[4 + 2 * i] == BigEndian(values)[2 * i + 1];
      WordSplits(values[i]);
    }
  }

  /** Printing and parsing gives the values back, for every slave and every list that fits a frame. */
  lemma RoundTrip(slave: bv8, byteCount: bv8, values: seq<bv16>)
    requires byteCount as int == 2 * |values|
    ensures Parse(Response(slave, byteCount, values), slave as int, |values|) == Values(values)
  {
    PrintedParses(Response(slave, byteCount, values), slave, byteCount, values);
    ParsesIffPrinted(Response(slave, byteCount, values), slave as int, |values|, values);
  }

  // ---------------------------------------------------------------- error detection

  lemma AcceptedResidue(frame: seq<bv8>, slave: int, count: nat)
    requires Parse(frame, slave, count).Values?
    ensures Crc(START, frame) == 0
  {
    hide Crc, Word;
    ResidueZeroIff(frame);
  }

  /** No accepted frame turns into another accepted frame by an error burst of up to 16 bits anywhere on the
      line, CRC bytes included - whichever slave and count the receiver expects. */
  lemma BurstRaises(f: seq<bv8>, g: seq<bv8>, k: nat, slave: int, count: nat, slave': int, count': nat)
    requires Parse(f, slave, count).Values? && DifferWithin(f, g, k) && f != g
    ensures Parse(g, slave', count').Raised?
  {
    hide Crc, Parse, DifferWithin;
    AcceptedResidue(f, slave, count);
    BurstDetected(f, g, k);
    if Parse(g, slave', count').Values? {
      AcceptedResidue(g, slave', count');
    }
  }

  /** In particular changing any one byte, or any two adjacent bytes, of an accepted frame makes the parser
      raise. */
  lemma CorruptionRaises(f: seq<bv8>, g: seq<bv8>, i: nat, slave: int, count: nat)
    requires Parse(f, slave, count).Values?
    requires |f| == |g| && f != g && forall j :: 0 <= j < |f| && j != i && j != i + 1 ==> f[j] == g[j]
    ensures Parse(g, slave, count).Raised?
  {
    hide Parse, DifferWithin;
    AdjacentBytesWithin(f, g, i);
    BurstRaises(f, g, 8 * i, slave, count, slave, count);
  }
}
