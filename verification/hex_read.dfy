/** `Payload::from_hex` (src/payload.rs:16-130): the line scan over Intel HEX
    records and the decoder method. The file's text arrives as its lines
    (what `str::lines` yields); reading the file is not modelled. */
module HexRead {
  import opened Bytes
  import Hex
  import opened Checksum
  import opened Image
  import opened MemoryMap

  /** What `from_hex` reports. The first four carry the content of the
      source's `Err` messages (the file name is left out); the others are the
      places where the source panics instead of returning an error, kept as
      distinguished results. */
  datatype DecodeError =
    | HexDecodeError(cause: Hex.FromHexError)
    | ChecksumMismatch(line: nat, computed: byte, included: byte)
    | SegmentAddressLength(line: nat)
    | LinearAddressLength(line: nat)
      // `&line[1..]` on an empty line
    | EmptyLine(line: nat)
      // `length - 1` underflows on a line that decodes to no bytes
    | EmptyRecord(line: nat)
      // `bytes[1]`, `bytes[2]` or `bytes[3]` out of bounds
    | TruncatedHeader(line: nat)
      // `length - count - 1` underflows
    | CountExceedsLength(line: nat)
      // `assert!(raw_bytes.len() % BYTES_IN_WORD == 0)`
    | UnalignedImage

  predicate IsPanic(e: DecodeError)
  {
    e.EmptyLine? || e.EmptyRecord? || e.TruncatedHeader? || e.CountExceedsLength? || e.UnalignedImage?
  }

  /** The Intel HEX record types the decoder acts on (section "Record types"
      of the Intel Hexadecimal Object File Format Specification rev. A). */
  const DATA: byte := 0
  const END_OF_FILE: byte := 1
  const EXTENDED_SEGMENT_ADDRESS: byte := 2
  const EXTENDED_LINEAR_ADDRESS: byte := 4

  /** One checked line: header fields and the payload slice. */
  datatype Record = Record(count: byte, baseAddress: nat, recordType: byte, payload: seq<byte>)

  /** The bytes a line's hex digits stand for, when the line has a marker and
      its remainder decodes. */
  function LineBytes(line: string): Option<seq<byte>>
  {
    if |line| == 0 then None
    else match Hex.Decode(line[1..])
      case Err(_) => None
      case Ok(bs) => Some(bs)
  }

  /** src/payload.rs:31-47 on the decoded bytes of one line: check the
      checksum, read the header and take the LAST `count` bytes before the
      checksum as the payload. */
  function ParseRecord(bs: seq<byte>, lineNumber: nat): (r: Result<Record, DecodeError>)
    ensures r.Ok? ==>
      && |bs| >= 4 && bs[|bs| - 1] == HexChecksum(bs[..|bs| - 1])
      && |r.value.payload| == r.value.count < |bs|
      && bs[..4] == [r.value.count, r.value.baseAddress / 256, r.value.baseAddress % 256, r.value.recordType]
      && bs[|bs| - 1 - r.value.count .. |bs| - 1] == r.value.payload
    ensures r.Err? && r.error.ChecksumMismatch? <==> |bs| >= 1 && bs[|bs| - 1] != HexChecksum(bs[..|bs| - 1])
    ensures r.Err? && r.error.ChecksumMismatch? ==>
      r.error == ChecksumMismatch(lineNumber, HexChecksum(bs[..|bs| - 1]), bs[|bs| - 1])
    ensures r.Err? ==> r.error.ChecksumMismatch? || (IsPanic(r.error) && !r.error.UnalignedImage?)
    ensures |bs| >= 4 && bs[|bs| - 1] == HexChecksum(bs[..|bs| - 1]) && bs[0] < |bs| ==> r.Ok?
  {
    var length := |bs|;
    if length == 0 then Err(EmptyRecord(lineNumber))
    else
      var computed := HexChecksum(bs[..length - 1]);
      var included := bs[length - 1];
      if included != computed then Err(ChecksumMismatch(lineNumber, computed, included))
      else if length < 4 then Err(TruncatedHeader(lineNumber))
      else
        var count := bs[0];
        if count > length - 1 then Err(CountExceedsLength(lineNumber))
        else
          // `(bytes[1] as usize) << 8 | bytes[2] as usize`
          ShiftOr8(bs[1], bs[2]);
          var base := BitOr((bs[1] as nat) * 256, bs[2]);
          DivUnique(base, 256, bs[1] as int, bs[2] as int);
          assert bs[..4] == [count, base / 256, base % 256, bs[3]];
          Ok(Record(count, base, bs[3], bs[length - count - 1 .. length - 1]))
  }

  /** In terms of the byte sum: a record is rejected for its checksum
      exactly when its bytes, checksum included, do not sum to zero modulo
      256, and every accepted record sums to zero. */
  lemma ParseRecordChecksum(bs: seq<byte>, lineNumber: nat)
    ensures var r := ParseRecord(bs, lineNumber);
      && (r.Err? && r.error.ChecksumMismatch? <==> |bs| >= 1 && Sum(bs) % 256 != 0)
      && (r.Ok? ==> Sum(bs) % 256 == 0)
  {
    if |bs| >= 1 {
      ChecksumValid(bs);
    }
  }

  /** Which panic a record whose checksum holds meets: no bytes at all, a
      header cut short, or a count reaching past the checksum. A record of
      one to three bytes whose checksum does not hold is a checksum error
      instead, as the checksum is compared before the header is read. */
  lemma ParseRecordPanics(bs: seq<byte>, lineNumber: nat)
    ensures ParseRecord(bs, lineNumber) == Err(EmptyRecord(lineNumber)) <==> |bs| == 0
    ensures ParseRecord(bs, lineNumber) == Err(TruncatedHeader(lineNumber))
        <==> 1 <= |bs| < 4 && bs[|bs| - 1] == HexChecksum(bs[..|bs| - 1])
    ensures ParseRecord(bs, lineNumber) == Err(CountExceedsLength(lineNumber))
        <==> |bs| >= 4 && bs[|bs| - 1] == HexChecksum(bs[..|bs| - 1]) && bs[0] >= |bs|
  {
  }

  /** src/payload.rs:28-30: drop the line's first character (the `:` start
      code, whatever it is) and hex-decode the rest. */
  function ParseLine(line: string, lineNumber: nat): (r: Result<Record, DecodeError>)
    ensures r.Err? && r.error.EmptyLine? <==> line == []
    ensures r.Err? && r.error.HexDecodeError? <==> |line| >= 1 && Hex.Decode(line[1..]).Err?
    ensures LineBytes(line).Some? ==> r == ParseRecord(LineBytes(line).value, lineNumber)
  {
    if |line| == 0 then Err(EmptyLine(lineNumber))
    else match Hex.Decode(line[1..])
      case Err(e) => Err(HexDecodeError(e))
      case Ok(bs) => ParseRecord(bs, lineNumber)
  }

  /** A line's bytes whose checksum holds and whose count fits before the
      checksum parse to their header fields and the last `count` bytes
      before the checksum. */
  lemma ParseRecordFields(bs: seq<byte>, lineNumber: nat)
    requires |bs| >= 4 && bs[|bs| - 1] == HexChecksum(bs[..|bs| - 1]) && bs[0] < |bs|
    ensures ParseRecord(bs, lineNumber)
         == Ok(Record(bs[0], (bs[1] as nat) * 256 + bs[2], bs[3], bs[|bs| - 1 - bs[0] .. |bs| - 1]))
  {
    ShiftOr8(bs[1], bs[2]);
  }

  /** A line is its start code followed by the digits of its bytes. */
  lemma ParseLineDigits(line: string, bs: seq<byte>, lineNumber: nat)
    requires |line| >= 1 && Hex.Decode(line[1..]) == Ok(bs)
    ensures ParseLine(line, lineNumber) == ParseRecord(bs, lineNumber)
  {
  }

  /** The decode-time registers and the collected `memory_map`. */
  datatype ScanState = ScanState(memoryMap: seq<Entry>, esa: nat, ela: nat)

  const INITIAL: ScanState := ScanState([], 0, 0)

  /** The address of payload byte `offset` of a data record:
      `(extended_linear_address << 16) | (16 * extended_segment_address + base_address + offset)`. */
  function DataAddress(st: ScanState, base: nat, offset: nat): nat
  {
    BitOr(st.ela * TWO_16, 16 * st.esa + base + offset)
  }

  /** Below 64 KiB the segment-relative part does not reach the bits of the
      linear address, so the OR is an addition. */
  lemma DataAddressSum(st: ScanState, base: nat, offset: nat)
    requires 16 * st.esa + base + offset < TWO_16
    ensures DataAddress(st, base, offset) == st.ela * TWO_16 + 16 * st.esa + base + offset
  {
    ShiftOr16(st.ela, 16 * st.esa + base + offset);
  }

  /** The pairs a data record pushes, one per payload byte. */
  function DataEntries(st: ScanState, base: nat, payload: seq<byte>): (es: seq<Entry>)
    ensures |es| == |payload|
    ensures forall i :: 0 <= i < |es| ==> es[i] == (DataAddress(st, base, i), payload[i])
  {
    seq(|payload|, i requires 0 <= i < |payload| => (DataAddress(st, base, i), payload[i]))
  }

  /** Where a scan stands: still reading, stopped by an end-of-file record,
      or failed. */
  datatype Scan = Running(state: ScanState) | Stopped(state: ScanState) | Failed(error: DecodeError)

  /** The `match record_type` of src/payload.rs:49-81. */
  function ApplyRecord(rec: Record, st: ScanState, lineNumber: nat): (r: Scan)
    requires |rec.payload| == rec.count
    ensures r.Stopped? <==> rec.recordType == END_OF_FILE
    ensures r.Stopped? ==> r.state == st
    ensures r.Failed? <==>
      (rec.recordType == EXTENDED_SEGMENT_ADDRESS || rec.recordType == EXTENDED_LINEAR_ADDRESS) && rec.count != 2
    ensures r.Running? ==> st.memoryMap <= r.state.memoryMap
    ensures r.Running? && rec.recordType != DATA ==> r.state.memoryMap == st.memoryMap
    ensures (st.esa < TWO_16 && st.ela < TWO_16 && !r.Failed?) ==> r.state.esa < TWO_16 && r.state.ela < TWO_16
    ensures rec.recordType !in {DATA, END_OF_FILE, EXTENDED_SEGMENT_ADDRESS, EXTENDED_LINEAR_ADDRESS} ==>
      r == Running(st)
  {
    match rec.recordType
    case 0 => Running(st.(memoryMap := st.memoryMap + DataEntries(st, rec.baseAddress, rec.payload)))
    case 1 => Stopped(st)
    case 2 =>
      if rec.count != 2 then Failed(SegmentAddressLength(lineNumber))
      else Running(st.(esa := FromBigEndian16(rec.payload[0], rec.payload[1])))
    case 4 =>
      if rec.count != 2 then Failed(LinearAddressLength(lineNumber))
      else Running(st.(ela := FromBigEndian16(rec.payload[0], rec.payload[1])))
    case _ => Running(st)
  }

  /** One pass of the loop body: parse line `lineNumber` and act on its
      record. */
  function Step(line: string, lineNumber: nat, st: ScanState): Scan
  {
    match ParseLine(line, lineNumber)
    case Err(e) => Failed(e)
    case Ok(rec) => ApplyRecord(rec, st, lineNumber)
  }

  /** The `for (line_number, line) in ...` loop from line `i` on. */
  function ScanLines(lines: seq<string>, i: nat, st: ScanState): Scan
    requires i <= |lines|
  {
    Run(Step, lines, i, st)
  }

  /** A loop over lines `i..` that threads a state through `step` and stops
      at the first line whose step does not keep running. */
  function Run(step: (string, nat, ScanState) -> Scan, lines: seq<string>, i: nat, st: ScanState): Scan
    requires i <= |lines|
    decreases |lines| - i
  {
    if i == |lines| then Running(st)
    else
      var r := step(lines[i], i, st);
      if r.Running? then Run(step, lines, i + 1, r.state) else r
  }

  /** The whole decoder: scan, then assemble the image. */
  function HexImage(lines: seq<string>, littleEndian: bool, fill: byte): Result<Payload, DecodeError>
  {
    match ScanLines(lines, 0, INITIAL)
    case Failed(e) => Err(e)
    case Running(st) => AssembleImage(st.memoryMap, littleEndian, fill)
    case Stopped(st) => AssembleImage(st.memoryMap, littleEndian, fill)
  }

  function AssembleImage(memoryMap: seq<Entry>, littleEndian: bool, fill: byte): Result<Payload, DecodeError>
  {
    match Assemble(memoryMap, littleEndian, fill)
    case Ok(p) => Ok(p)
    case Err(_) => Err(DecodeError.UnalignedImage)
  }

  /** Scanning a file is scanning a prefix of it and carrying the registers
      and the collected pairs on to the rest. */
  lemma ScanPrefix(lines: seq<string>, k: nat, i: nat, st: ScanState)
    requires i <= k <= |lines|
    requires ScanLines(lines[..k], i, st).Running?
    ensures ScanLines(lines, i, st) == ScanLines(lines, k, ScanLines(lines[..k], i, st).state)
  {
    RunPrefix(Step, lines, k, i, st);
  }

  lemma {:induction false} RunPrefix(step: (string, nat, ScanState) -> Scan, lines: seq<string>, k: nat, i: nat, st: ScanState)
    requires i <= k <= |lines|
    requires Run(step, lines[..k], i, st).Running?
    ensures Run(step, lines, i, st) == Run(step, lines, k, Run(step, lines[..k], i, st).state)
    decreases k - i
  {
    if i < k {
      assert lines[..k][i] == lines[i];
      RunPrefix(step, lines, k, i + 1, step(lines[i], i, st).state);
    }
  }

  /** A line reached by the scan whose last byte is not the checksum of the
      bytes before it ends decoding with a checksum error naming the line's
      0-based index, the computed and the included checksum. */
  lemma ChecksumMismatchReported(lines: seq<string>, k: nat, littleEndian: bool, fill: byte)
    requires k < |lines|
    requires ScanLines(lines[..k], 0, INITIAL).Running?
    requires LineBytes(lines[k]).Some? && |LineBytes(lines[k]).value| >= 1
    requires var bs := LineBytes(lines[k]).value; bs[|bs| - 1] != HexChecksum(bs[..|bs| - 1])
    ensures var bs := LineBytes(lines[k]).value;
      HexImage(lines, littleEndian, fill) == Err(ChecksumMismatch(k, HexChecksum(bs[..|bs| - 1]), bs[|bs| - 1]))
  {
    ChecksumValid(LineBytes(lines[k]).value);
    ScanPrefix(lines, k, 0, INITIAL);
  }

  /** An end-of-file record reached by the scan ends it: the image is built
      from what was collected before it, and whatever follows it is never
      decoded or checksummed. */
  lemma EndOfFileStopsScan(lines: seq<string>, k: nat, rest: seq<string>, littleEndian: bool, fill: byte)
    requires k < |lines|
    requires ScanLines(lines[..k], 0, INITIAL).Running?
    requires ParseLine(lines[k], k).Ok? && ParseLine(lines[k], k).value.recordType == END_OF_FILE
    ensures var st := ScanLines(lines[..k], 0, INITIAL).state;
      && HexImage(lines, littleEndian, fill) == AssembleImage(st.memoryMap, littleEndian, fill)
      && HexImage(lines[..k + 1] + rest, littleEndian, fill) == AssembleImage(st.memoryMap, littleEndian, fill)
  {
    var st := ScanLines(lines[..k], 0, INITIAL).state;
    EndOfFileStep(lines[k], k, st);
    RunHalts(Step, lines, k, INITIAL, st);
    EndOfFileIgnoresRest(lines, k, rest, st);
  }

  /** What follows an end-of-file record does not change the scan's
      outcome. */
  lemma EndOfFileIgnoresRest(lines: seq<string>, k: nat, rest: seq<string>, st: ScanState)
    requires k < |lines|
    requires ScanLines(lines[..k], 0, INITIAL) == Running(st)
    requires Step(lines[k], k, st) == Stopped(st)
    ensures ScanLines(lines[..k + 1] + rest, 0, INITIAL) == Stopped(st)
  {
    RunHaltsBefore(Step, lines, k, rest, INITIAL, st);
  }

  /** A run that halts at line `k` halts there whatever follows line `k`. */
  lemma RunHaltsBefore(step: (string, nat, ScanState) -> Scan, lines: seq<string>, k: nat, rest: seq<string>, init: ScanState, st: ScanState)
    requires k < |lines|
    requires Run(step, lines[..k], 0, init) == Running(st)
    requires !step(lines[k], k, st).Running?
    ensures Run(step, lines[..k + 1] + rest, 0, init) == step(lines[k], k, st)
  {
    var other := lines[..k + 1] + rest;
    assert other[..k] == lines[..k];
    assert other[k] == lines[k];
    RunHalts(step, other, k, init, st);
  }

  /** An end-of-file record stops the scan and keeps its state. */
  lemma EndOfFileStep(line: string, lineNumber: nat, st: ScanState)
    requires ParseLine(line, lineNumber).Ok? && ParseLine(line, lineNumber).value.recordType == END_OF_FILE
    ensures Step(line, lineNumber, st) == Stopped(st)
  {
  }

  /** A run that reaches line `k` in state `st` and does not keep running
      there ends with that line's outcome. */
  lemma RunHalts(step: (string, nat, ScanState) -> Scan, lines: seq<string>, k: nat, init: ScanState, st: ScanState)
    requires k < |lines|
    requires Run(step, lines[..k], 0, init) == Running(st)
    requires !step(lines[k], k, st).Running?
    ensures Run(step, lines, 0, init) == step(lines[k], k, st)
  {
    RunPrefix(step, lines, k, 0, init);
  }

  /** Byte `i` of a data record lands right after the pairs collected
      before it, at `(ela << 16) | (16 * esa + base + i)`. That is
      `ela * 2^16 + 16 * esa + base + i` whenever the segment-relative part
      stays below 64 KiB, and the segment-relative part alone when no
      linear address is set. */
  lemma DataRecordPlacement(rec: Record, st: ScanState, lineNumber: nat, i: nat)
    requires |rec.payload| == rec.count && rec.recordType == DATA && i < rec.count
    ensures ApplyRecord(rec, st, lineNumber).Running?
    ensures var m := ApplyRecord(rec, st, lineNumber).state.memoryMap;
      && |m| == |st.memoryMap| + rec.count
      && m[..|st.memoryMap|] == st.memoryMap
      && m[|st.memoryMap| + i] == (DataAddress(st, rec.baseAddress, i), rec.payload[i])
      && (16 * st.esa + rec.baseAddress + i < TWO_16 ==>
            m[|st.memoryMap| + i].0 == st.ela * TWO_16 + 16 * st.esa + rec.baseAddress + i)
      && (st.ela == 0 ==> m[|st.memoryMap| + i].0 == 16 * st.esa + rec.baseAddress + i)
  {
    if 16 * st.esa + rec.baseAddress + i < TWO_16 {
      DataAddressSum(st, rec.baseAddress, i);
    }
  }

  /** Past 64 KiB the segment-relative part overlaps the bits of the linear
      address and the OR merges them rather than adding: under linear
      address 1 and segment address 0x1000, offset 0 of a record at base 0
      lands at 0x1_0000, not at 0x2_0000. */
  lemma SegmentOverlapsLinear()
    ensures DataAddress(ScanState([], 0x1000, 1), 0, 0) == TWO_16
  {
    BitOrSelf(TWO_16);
  }

  /** A two-byte extended address record loads its register with the
      big-endian value of its payload and changes nothing else. */
  lemma AddressRecordSetsRegister(rec: Record, st: ScanState, lineNumber: nat)
    requires |rec.payload| == rec.count == 2
    requires rec.recordType == EXTENDED_SEGMENT_ADDRESS || rec.recordType == EXTENDED_LINEAR_ADDRESS
    ensures var r := ApplyRecord(rec, st, lineNumber);
      && r.Running? && r.state.memoryMap == st.memoryMap
      && var register := if rec.recordType == EXTENDED_SEGMENT_ADDRESS then r.state.esa else r.state.ela;
      && var other := if rec.recordType == EXTENDED_SEGMENT_ADDRESS then r.state.ela == st.ela else r.state.esa == st.esa;
      && other && register / 256 == rec.payload[0] && register % 256 == rec.payload[1]
  {
    FromBigEndian16Bytes(rec.payload[0], rec.payload[1]);
  }

  /** The inner loop of a data record: push one `(address, byte)` pair per
      payload byte. */
  method PushData(memoryMap: seq<Entry>, st: ScanState, base: nat, bytes: seq<byte>) returns (pushed: seq<Entry>)
    ensures pushed == memoryMap + DataEntries(st, base, bytes)
  {
    pushed := memoryMap;
    var offset := 0;
    while offset < |bytes|
      invariant offset <= |bytes|
      invariant pushed == memoryMap + DataEntries(st, base, bytes[..offset])
    {
      var address := BitOr(st.ela * TWO_16, 16 * st.esa + base + offset);
      pushed := pushed + [(address, bytes[offset])];
      offset := offset + 1;
      assert pushed == memoryMap + DataEntries(st, base, bytes[..offset]);
    }
    assert bytes[..offset] == bytes;
  }

  /** The `match record_type` arm the loop takes for one parsed record. */
  method ActOnRecord(rec: Record, st: ScanState, lineNumber: nat) returns (next: Scan)
    requires |rec.payload| == rec.count
    ensures next == ApplyRecord(rec, st, lineNumber)
  {
    var bytes := rec.payload;
    if rec.recordType == DATA {
      var memoryMap := PushData(st.memoryMap, st, rec.baseAddress, bytes);
      next := Running(st.(memoryMap := memoryMap));
    } else if rec.recordType == END_OF_FILE {
      next := Stopped(st);
    } else if rec.recordType == EXTENDED_SEGMENT_ADDRESS {
      if rec.count != 2 {
        return Failed(SegmentAddressLength(lineNumber));
      }
      next := Running(st.(esa := FromBigEndian16(bytes[0], bytes[1])));
    } else if rec.recordType == EXTENDED_LINEAR_ADDRESS {
      if rec.count != 2 {
        return Failed(LinearAddressLength(lineNumber));
      }
      next := Running(st.(ela := FromBigEndian16(bytes[0], bytes[1])));
    } else {
      next := Running(st);
    }
  }

  /** One pass of the loop body as code: parse the line, then act on its
      record. */
  method ScanLine(line: string, lineNumber: nat, st: ScanState) returns (next: Scan)
    ensures next == Step(line, lineNumber, st)
  {
    var parsed := ParseLine(line, lineNumber);
    if parsed.Err? {
      return Failed(parsed.error);
    }
    next := ActOnRecord(parsed.value, st, lineNumber);
  }

  /** A line whose step keeps running hands its state on to the next line. */
  lemma ScanAdvance(lines: seq<string>, i: nat, st: ScanState, next: Scan)
    requires i < |lines| && next == Step(lines[i], i, st) && next.Running?
    ensures ScanLines(lines, i, st) == ScanLines(lines, i + 1, next.state)
  {
  }

  /** A line whose step does not keep running is the outcome of the scan. */
  lemma ScanHalts(lines: seq<string>, i: nat, st: ScanState, next: Scan)
    requires i < |lines| && next == Step(lines[i], i, st) && !next.Running?
    ensures ScanLines(lines, i, st) == next
  {
  }

  /** Line `i + j` moves the scan from `states[j]` to `states[j + 1]`. */
  predicate Moves(lines: seq<string>, i: nat, states: seq<ScanState>, j: nat)
    requires i + j < |lines| && j + 1 < |states|
  {
    Step(lines[i + j], i + j, states[j]) == Running(states[j + 1])
  }

  /** Line `i + j` moves a run of `step` from `states[j]` to
      `states[j + 1]`. */
  predicate MovesBy(step: (string, nat, ScanState) -> Scan, lines: seq<string>, i: nat, states: seq<ScanState>, j: nat)
    requires i + j < |lines| && j + 1 < |states|
  {
    step(lines[i + j], i + j, states[j]) == Running(states[j + 1])
  }

  /** A run through `states`: each of the `n` lines from `i` on moves it to
      the next state, and the line after them ends it with `last`. */
  lemma {:induction false} RunStates(step: (string, nat, ScanState) -> Scan, lines: seq<string>, i: nat, n: nat, states: seq<ScanState>, last: Scan)
    requires |states| == n + 1 && i + n < |lines|
    requires forall j :: 0 <= j < n ==> MovesBy(step, lines, i, states, j)
    requires step(lines[i + n], i + n, states[n]) == last && !last.Running?
    ensures Run(step, lines, i, states[0]) == last
    decreases n
  {
    if n > 0 {
      assert MovesBy(step, lines, i, states, 0);
      var next, rest := i + 1, states[1..];
      forall j | 0 <= j < n - 1
        ensures MovesBy(step, lines, next, rest, j)
      {
        assert MovesBy(step, lines, i, states, j + 1);
      }
      assert step(lines[next + (n - 1)], next + (n - 1), rest[n - 1]) == last;
      RunStates(step, lines, next, n - 1, rest, last);
    }
  }

  /** `Moves`, with `Step` passed as a value. */
  lemma MovesByStep(lines: seq<string>, i: nat, n: nat, states: seq<ScanState>)
    requires |states| == n + 1 && i + n < |lines|
    requires forall j :: 0 <= j < n ==> Moves(lines, i, states, j)
    ensures forall j :: 0 <= j < n ==> MovesBy(Step, lines, i, states, j)
  {
    forall j | 0 <= j < n
      ensures MovesBy(Step, lines, i, states, j)
    {
      assert Moves(lines, i, states, j);
    }
  }

  /** A scan through `states`: each of the `n` lines from `i` on moves it
      to the next state, and the line after them ends it with `last`. */
  lemma ScanStates(lines: seq<string>, i: nat, n: nat, states: seq<ScanState>, last: Scan)
    requires |states| == n + 1 && i + n < |lines|
    requires forall j :: 0 <= j < n ==> Moves(lines, i, states, j)
    requires Step(lines[i + n], i + n, states[n]) == last && !last.Running?
    ensures ScanLines(lines, i, states[0]) == last
  {
    MovesByStep(lines, i, n, states);
    RunStates(Step, lines, i, n, states, last);
  }

  /** `Payload::from_hex` over the file's lines. */
  method FromHex(lines: seq<string>, littleEndian: bool, fillValue: byte) returns (r: Result<Payload, DecodeError>)
    ensures r == HexImage(lines, littleEndian, fillValue)
  {
    var outcome := ScanFile(lines);
    if outcome.Failed? {
      return Err(outcome.error);
    }
    r := BuildImage(outcome.state.memoryMap, littleEndian, fillValue);
  }

  /** The `for (line_number, line) in ...` loop of src/payload.rs:26-82:
      the registers and the collected pairs when it ends, or the error it
      returns. */
  method ScanFile(lines: seq<string>) returns (outcome: Scan)
    ensures outcome == ScanLines(lines, 0, INITIAL)
  {
    var memoryMap: seq<Entry> := [];
    var extendedSegmentAddress: nat := 0;
    var extendedLinearAddress: nat := 0;
    var lineNumber := 0;
    while lineNumber < |lines|
      invariant lineNumber <= |lines|
      invariant ScanLines(lines, lineNumber, ScanState(memoryMap, extendedSegmentAddress, extendedLinearAddress))
             == ScanLines(lines, 0, INITIAL)
    {
      var st := ScanState(memoryMap, extendedSegmentAddress, extendedLinearAddress);
      var next := ScanLine(lines[lineNumber], lineNumber, st);
      if !next.Running? {
        ScanHalts(lines, lineNumber, st, next);
        return next;
      }
      ScanAdvance(lines, lineNumber, st, next);
      memoryMap, extendedSegmentAddress, extendedLinearAddress := next.state.memoryMap, next.state.esa, next.state.ela;
      lineNumber := lineNumber + 1;
    }
    outcome := Running(ScanState(memoryMap, extendedSegmentAddress, extendedLinearAddress));
  }

  /** src/payload.rs:83-129: sort the pairs, fill the gaps and, for a
      little-endian image, reverse the bytes of every word. */
  method BuildImage(memoryMap: seq<Entry>, littleEndian: bool, fillValue: byte) returns (r: Result<Payload, DecodeError>)
    ensures r == AssembleImage(memoryMap, littleEndian, fillValue)
  {
    var sorted := SortEntries(memoryMap);
    var startAddress := StartAddress(sorted);
    var rawBytes := GapFill(sorted, fillValue);
    if littleEndian {
      if |rawBytes| % 4 != 0 {
        return Err(DecodeError.UnalignedImage);
      }
      r := Ok(Payload(startAddress, Words.ReverseEachWord(rawBytes)));
    } else {
      r := Ok(Payload(startAddress, rawBytes));
    }
  }
}
