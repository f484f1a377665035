/** The browser's parser of a daily file, versions 1 and 2. */
module DayParser {
  import opened Wrappers
  import opened Bytes
  import opened MacAddress
  import opened DayFile

  datatype DayError =
    | InvalidMagic
    | UnsupportedFormat
    | UnsupportedFlags
    | InvalidTelemetryOffsets
    | InvalidOffsets
    | InvalidCodebook
    | InvalidTimestamps
    | InvalidTargetOrder
    | InvalidApOrder

  /** The fixed header fields of an accepted file. */
  datatype Frame = Frame(
    version: int, start: u32, end: u32, roundCount: nat, targetCount: nat, timeout: u16,
    timestampsOffset: nat, macsOffset: nat, samplesOffset: nat, generation: u32,
    snrOffset: nat, stateOffset: nat, apCount: nat, apMacsOffset: nat,
    air24Offset: nat, air5Offset: nat, meshSnrOffset: nat, fileEnd: nat)
  {
    function MatrixSize(): nat { targetCount * roundCount }
    function ApMatrixSize(): nat { apCount * roundCount }
    function CodebookOffset(): nat { if version == 1 then 64 else 132 }
    function HeaderSize(): nat { if version == 1 then 576 else 640 }

    predicate TelemetryInOrder() {
      && snrOffset == samplesOffset + MatrixSize()
      && stateOffset == snrOffset + MatrixSize()
      && apMacsOffset >= stateOffset + MatrixSize()
      && air24Offset >= apMacsOffset + apCount * 6
      && air5Offset == air24Offset + ApMatrixSize()
      && meshSnrOffset == air5Offset + ApMatrixSize()
      && fileEnd == meshSnrOffset + ApMatrixSize()
    }

    predicate SectionsInOrder(size: nat) {
      && timestampsOffset == HeaderSize()
      && macsOffset == timestampsOffset + roundCount * 4
      && samplesOffset >= macsOffset + targetCount * 6
      && fileEnd == size
    }
  }

  function RawFrame(bytes: seq<byte>): Frame
    requires |bytes| >= 576
  {
    var version := ReadLe16(bytes, 8);
    var rounds, targets, samples := ReadLe32(bytes, 24), ReadLe32(bytes, 28), ReadLe32(bytes, 44);
    if version == 2 then
      Frame(version, ReadLe32(bytes, 16), ReadLe32(bytes, 20), rounds, targets, ReadLe16(bytes, 32),
            ReadLe32(bytes, 36), ReadLe32(bytes, 40), samples, ReadLe32(bytes, 48),
            ReadLe32(bytes, 52), ReadLe32(bytes, 56), ReadLe32(bytes, 60), ReadLe32(bytes, 64),
            ReadLe32(bytes, 68), ReadLe32(bytes, 72), ReadLe32(bytes, 76), ReadLe32(bytes, 80))
    else
      var f := Frame(version, ReadLe32(bytes, 16), ReadLe32(bytes, 20), rounds, targets, ReadLe16(bytes, 32),
                     ReadLe32(bytes, 36), ReadLe32(bytes, 40), samples, ReadLe32(bytes, 48),
                     0, 0, 0, 0, 0, 0, 0, 0);
      f.(fileEnd := samples + f.MatrixSize())
  }

  function FrameSpec(bytes: seq<byte>): Result<Frame, DayError> {
    if |bytes| < 576 || bytes[..8] != FILE_MAGIC then Failure(InvalidMagic)
    else
      var f := RawFrame(bytes);
      if f.version !in {1, 2} || ReadLe16(bytes, 10) != f.HeaderSize() || ReadLe16(bytes, 34) != 254
         || f.end as int - f.start as int != DAY_SECONDS
      then Failure(UnsupportedFormat)
      else if f.version == 1 && ReadLe32(bytes, 12) != 1 then Failure(UnsupportedFlags)
      else if f.version == 2 && ReadLe32(bytes, 12) != 31 then Failure(UnsupportedFlags)
      else if f.version == 2 && !f.TelemetryInOrder() then Failure(InvalidTelemetryOffsets)
      else if !f.SectionsInOrder(|bytes|) then Failure(InvalidOffsets)
      else Success(f)
  }

  /** An accepted frame keeps every later read inside the buffer. */
  lemma FrameInBounds(bytes: seq<byte>)
    requires FrameSpec(bytes).Success?
    ensures var f := FrameSpec(bytes).value;
            && f.CodebookOffset() + 2 * 254 <= f.HeaderSize() <= |bytes|
            && f.timestampsOffset + 4 * f.roundCount <= |bytes|
            && f.macsOffset + 6 * f.targetCount <= |bytes|
            && f.samplesOffset + f.MatrixSize() <= |bytes|
            && (f.version == 1 ==> f.apCount == 0)
            && (f.version == 2 ==>
                 && f.snrOffset + f.MatrixSize() <= |bytes| && f.stateOffset + f.MatrixSize() <= |bytes|
                 && f.apMacsOffset + 6 * f.apCount <= |bytes|
                 && f.air24Offset + f.ApMatrixSize() <= |bytes| && f.air5Offset + f.ApMatrixSize() <= |bytes|
                 && f.meshSnrOffset + f.ApMatrixSize() <= |bytes|)
  {
    var f := FrameSpec(bytes).value;
    assert f.MatrixSize() >= 0 && f.ApMatrixSize() >= 0;
  }

  function Codes(bytes: seq<byte>, at: nat): (codes: seq<u16>)
    requires at + 508 <= |bytes|
    ensures |codes| == 254
  {
    seq(254, i requires 0 <= i < 254 => ReadLe16(bytes, at + i * 2))
  }

  function Timestamps(bytes: seq<byte>, at: nat, count: nat): (times: seq<u32>)
    requires at + 4 * count <= |bytes|
    ensures |times| == count
  {
    seq(count, i requires 0 <= i < count => ReadLe32(bytes, at + i * 4))
  }

  function MacTexts(bytes: seq<byte>, at: nat, count: nat): (macs: seq<string>)
    requires at + 6 * count <= |bytes|
    ensures |macs| == count
  {
    seq(count, i requires 0 <= i < count => MacText(bytes[at + i * 6..at + i * 6 + 6]))
  }

  predicate GoodCodes(codes: seq<u16>, timeout: u16) {
    forall i :: 0 <= i < |codes| ==> codes[i] > (if i == 0 then 0 else codes[i - 1]) && codes[i] <= timeout
  }

  predicate GoodTimes(times: seq<u32>, start: u32, end: u32) {
    forall i :: 0 <= i < |times| ==> (i > 0 ==> times[i - 1] < times[i]) && start <= times[i] < end
  }

  predicate InTextOrder(macs: seq<string>) {
    forall i :: 0 < i < |macs| ==> TextLess(macs[i - 1], macs[i])
  }

  /** A parsed day: views into the buffer plus the decoded lists. */
  datatype Day = Day(frame: Frame, bytes: seq<byte>, codebook: seq<u16>, timestamps: seq<u32>,
                     macs: seq<string>, apMacs: seq<string>)

  function ParseDaySpec(bytes: seq<byte>): Result<Day, DayError> {
    match FrameSpec(bytes)
    case Failure(e) => Failure(e)
    case Success(f) =>
      FrameInBounds(bytes);
      var codebook := Codes(bytes, f.CodebookOffset());
      var times := Timestamps(bytes, f.timestampsOffset, f.roundCount);
      var macs := MacTexts(bytes, f.macsOffset, f.targetCount);
      var apMacs := if f.version == 2 then MacTexts(bytes, f.apMacsOffset, f.apCount) else [];
      if !GoodCodes(codebook, f.timeout) then Failure(InvalidCodebook)
      else if !GoodTimes(times, f.start, f.end) then Failure(InvalidTimestamps)
      else if !InTextOrder(macs) then Failure(InvalidTargetOrder)
      else if !InTextOrder(apMacs) then Failure(InvalidApOrder)
      else Success(Day(f, bytes, codebook, times, macs, apMacs))
  }

  lemma MacTextAt(mac: Mac, i: nat)
    requires i < 6
    ensures MacText(mac)[3 * i] == LowerHex(mac[i] / 16) && MacText(mac)[3 * i + 1] == LowerHex(mac[i] % 16)
    ensures i > 0 ==> MacText(mac)[3 * i - 1] == ':'
  {
    assert (3 * i) / 3 == i && (3 * i + 1) / 3 == i;
    assert (3 * i) % 3 == 0 && (3 * i + 1) % 3 == 1;
    assert i > 0 ==> (3 * i - 1) % 3 == 2;
  }

  method MacAt(bytes: seq<byte>, offset: nat) returns (text: string)
    requires offset + 6 <= |bytes|
    ensures text == MacText(bytes[offset..offset + 6])
  {
    hide MacText, LowerHex;
    ghost var spec := MacText(bytes[offset..offset + 6]);
    text := "";
    for i := 0 to 6
      invariant text == spec[..if i == 0 then 0 else 3 * i - 1]
    {
      MacTextAt(bytes[offset..offset + 6], i);
      var b := bytes[offset + i];
      var pair := [LowerHex(b / 16), LowerHex(b % 16)];
      text := if i > 0 then text + ":" + pair else text + pair;
    }
  }

  method ParseCodes(bytes: seq<byte>, f: Frame) returns (codebook: Option<seq<u16>>)
    requires f.CodebookOffset() + 508 <= |bytes|
    ensures codebook == if GoodCodes(Codes(bytes, f.CodebookOffset()), f.timeout)
                        then Some(Codes(bytes, f.CodebookOffset())) else None
  {
    var codes := new u16[254];
    var previous: u16 := 0;
    ghost var spec := Codes(bytes, f.CodebookOffset());
    for i := 0 to 254
      invariant previous == if i == 0 then 0 else spec[i - 1]
      invariant forall k :: 0 <= k < i ==> codes[k] == spec[k] && spec[k] <= f.timeout
      invariant forall k :: 0 <= k < i ==> spec[k] > if k == 0 then 0 else spec[k - 1]
    {
      var value := ReadLe16(bytes, f.CodebookOffset() + i * 2);
      assert value == spec[i];
      if value <= previous || value > f.timeout {
        assert !GoodCodes(spec, f.timeout);
        return None;
      }
      codes[i] := value;
      previous := value;
    }
    assert codes[..] == spec;
    assert GoodCodes(spec, f.timeout);
    return Some(codes[..]);
  }

  method ParseTimes(bytes: seq<byte>, f: Frame) returns (timestamps: Option<seq<u32>>)
    requires f.timestampsOffset + 4 * f.roundCount <= |bytes|
    ensures timestamps == if GoodTimes(Timestamps(bytes, f.timestampsOffset, f.roundCount), f.start, f.end)
                          then Some(Timestamps(bytes, f.timestampsOffset, f.roundCount)) else None
  {
    var times := new u32[f.roundCount];
    var previous: u32 := 0;
    ghost var spec := Timestamps(bytes, f.timestampsOffset, f.roundCount);
    for i := 0 to f.roundCount
      invariant i > 0 ==> previous == spec[i - 1]
      invariant forall k :: 0 <= k < i ==> times[k] == spec[k] && f.start <= spec[k] < f.end
      invariant forall k :: 0 < k < i ==> spec[k - 1] < spec[k]
    {
      var value := ReadLe32(bytes, f.timestampsOffset + i * 4);
      assert value == spec[i];
      if (i > 0 && value <= previous) || value < f.start || value >= f.end {
        return None;
      }
      times[i] := value;
      previous := value;
    }
    assert times[..] == spec;
    return Some(times[..]);
  }

  method ParseMacs(bytes: seq<byte>, at: nat, count: nat) returns (macs: Option<seq<string>>)
    requires at + 6 * count <= |bytes|
    ensures macs == if InTextOrder(MacTexts(bytes, at, count)) then Some(MacTexts(bytes, at, count)) else None
  {
    var texts := [];
    var previousMac := "";
    ghost var spec := MacTexts(bytes, at, count);
    for i := 0 to count
      invariant |texts| == i && texts == spec[..i]
      invariant previousMac == if i == 0 then "" else spec[i - 1]
      invariant forall k :: 0 < k < i ==> TextLess(spec[k - 1], spec[k])
    {
      var value := MacAt(bytes, at + i * 6);
      assert value == spec[i];
      if previousMac != "" && !TextLess(previousMac, value) {
        return None;
      }
      texts := texts + [value];
      previousMac := value;
    }
    assert spec[..count] == spec;
    return Some(texts);
  }

  method ParseDay(bytes: seq<byte>) returns (r: Result<Day, DayError>)
    ensures r == ParseDaySpec(bytes)
  {
    var framed := FrameSpec(bytes);
    if framed.Failure? {
      return Failure(framed.error);
    }
    var f := framed.value;
    FrameInBounds(bytes);
    var codebook := ParseCodes(bytes, f);
    if codebook.None? {
      return Failure(InvalidCodebook);
    }
    var timestamps := ParseTimes(bytes, f);
    if timestamps.None? {
      return Failure(InvalidTimestamps);
    }
    var macs := ParseMacs(bytes, f.macsOffset, f.targetCount);
    if macs.None? {
      return Failure(InvalidTargetOrder);
    }
    var apMacs: Option<seq<string>> := Some([]);
    if f.version == 2 {
      apMacs := ParseMacs(bytes, f.apMacsOffset, f.apCount);
      if apMacs.None? {
        return Failure(InvalidApOrder);
      }
    }
    return Success(Day(f, bytes, codebook.value, timestamps.value, macs.value, apMacs.value));
  }
}
