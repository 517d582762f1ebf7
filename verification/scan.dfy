/** The record loop of `binout_open` over one physical file, as written and corrected. */
module Scan {
  import opened Wrappers
  import opened Bytes
  import opened Header
  import opened Directory
  import opened Records

  /** How a file's scan ends: at the end of the file, with a failed read or seek (the file is
      closed and dropped, but what it inserted stays in the directory), with an `assert`
      firing, or, for the fuel-bounded loop only, still running when the fuel is spent. */
  datatype ScanOutcome =
    | Finished(events: seq<DirEvent>)
    | FileFailed(events: seq<DirEvent>, msg: string)
    | ScanAborted(msg: string)
    | OutOfFuel(events: seq<DirEvent>)

  predicate Extends(o: ScanOutcome, prefix: seq<DirEvent>) {
    !o.ScanAborted? ==> |prefix| <= |o.events| && o.events[..|prefix|] == prefix
  }

  /** The loop as the source writes it: `fuel` bounds the number of records, because the
      source's loop does not always terminate. */
  function ScanAsWritten(h: Header, bytes: seq<byte>, fileIndex: nat, st: ParseState, fuel: nat): (o: ScanOutcome)
    requires Supported(h) && ValidState(st)
    ensures Extends(o, st.events)
    decreases fuel
  {
    if fuel == 0 then OutOfFuel(st.events)
    else match Step(h, bytes, fileIndex, st)
    case Done => Finished(st.events)
    case Failed(msg) => FileFailed(st.events, msg)
    case Aborted(msg) => ScanAborted(msg)
    case Next(st') => ScanAsWritten(h, bytes, fileIndex, st', fuel - 1)
  }

  const NO_PROGRESS: string := "The record does not move the file position forward"

  /** The step continues the scan only past the position it started at. */
  predicate Advances(r: StepResult, st: ParseState) {
    r.Next? ==> r.st.pos > st.pos
  }

  /** One record of the corrected loop: a record after which the scan would go on from its
      own start or from an earlier position is rejected; every other record is read exactly
      as the source reads it. */
  function StepChecked(h: Header, bytes: seq<byte>, fileIndex: nat, st: ParseState): (r: StepResult)
    requires Supported(h) && ValidState(st)
    ensures r == Step(h, bytes, fileIndex, st) <==> Advances(Step(h, bytes, fileIndex, st), st)
    ensures r != Step(h, bytes, fileIndex, st) ==> r == Failed(NO_PROGRESS)
  {
    var r := Step(h, bytes, fileIndex, st);
    if Advances(r, st) then r else Failed(NO_PROGRESS)
  }

  /** `a` is the `uint64_t` that holds the true value `x`. */
  predicate Holds(a: nat, x: int) {
    a == if x >= 0 then x else x + U64_MODULUS
  }

  /** Subtracting a small value keeps the `uint64_t` in step with the true difference. */
  lemma SubHolds(a: nat, b: nat, x: int)
    requires a < U64_MODULUS && b < 256 && Holds(a, x)
    requires -(SIGNED_LIMIT as int) <= x - b && x < SIGNED_LIMIT
    ensures Holds(SubU64(a, b), x - b)
  {
  }

  /** Subtracting the length and command fields, and for a DATA record also the typeid
      field, the name-length byte and the name, from a record length below 2^63, with
      `uint64_t` wrap-around, and reading the result as a `long`, gives the true (possibly
      negative) difference. */
  lemma DataSkipIsExact(len: nat, l: nat, c: nat, t: nat, n: nat)
    requires len < SIGNED_LIMIT && l <= 8 && c <= 8 && t <= 8 && n < 256
    ensures SubU64(SubU64(len, l), c) < U64_MODULUS
    ensures ToSigned64(SubU64(SubU64(len, l), c)) == len - l - c
    ensures ToSigned64(SubU64(SubU64(SubU64(SubU64(SubU64(len, l), c), t), DATA_NAME_LENGTH), n))
            == len - l - c - t - 1 - n
  {
    var a1 := SubU64(len, l);
    SubHolds(len, l, len);
    var a2 := SubU64(a1, c);
    SubHolds(a1, c, len - l);
    var a3 := SubU64(a2, t);
    SubHolds(a2, t, len - l - c);
    var a4 := SubU64(a3, DATA_NAME_LENGTH);
    SubHolds(a3, DATA_NAME_LENGTH, len - l - c - t);
    SubHolds(a4, n, len - l - c - t - 1);
  }

  /** A record whose length field is below 2^63 and after which the scan goes on moves the
      position to its start plus its length, whether or not that length covers its own
      fields. */
  lemma StepMovesByLength(h: Header, bytes: seq<byte>, fileIndex: nat, st: ParseState)
    requires Supported(h) && ValidState(st) && Step(h, bytes, fileIndex, st).Next?
    ensures ReadField(bytes, st.pos, h.lengthFieldSize).Some?
    ensures ReadField(bytes, st.pos, h.lengthFieldSize).value < SIGNED_LIMIT
            ==> Step(h, bytes, fileIndex, st).st.pos == st.pos + ReadField(bytes, st.pos, h.lengthFieldSize).value
  {
    var len := ReadField(bytes, st.pos, h.lengthFieldSize).value;
    var command := ReadField(bytes, st.pos + h.lengthFieldSize, h.commandFieldSize).value;
    StepIsRecordBody(h, bytes, fileIndex, st, len, command);
    if len < SIGNED_LIMIT {
      var p := st.pos + h.lengthFieldSize + h.commandFieldSize;
      var rdl := SubU64(SubU64(len, h.lengthFieldSize), h.commandFieldSize);
      if command == COMMAND_DATA {
        RecordBodyIsData(h, bytes, fileIndex, st, len, p);
        DataMovesByLength(h, bytes, fileIndex, st, len, p);
      } else {
        DataSkipIsExact(len, h.lengthFieldSize, h.commandFieldSize, 0, 0);
        if command == COMMAND_CD {
          assert rdl == len - h.lengthFieldSize - h.commandFieldSize;
        }
      }
    }
  }

  /** The DATA branch of `StepMovesByLength`. */
  lemma DataMovesByLength(h: Header, bytes: seq<byte>, fileIndex: nat, st: ParseState, len: nat, p: nat)
    requires Supported(h) && ValidState(st) && len < SIGNED_LIMIT
    requires p == st.pos + h.lengthFieldSize + h.commandFieldSize
    requires DataRecord(h, bytes, fileIndex, st, SubU64(SubU64(len, h.lengthFieldSize), h.commandFieldSize), p).Next?
    ensures DataRecord(h, bytes, fileIndex, st, SubU64(SubU64(len, h.lengthFieldSize), h.commandFieldSize), p).st.pos
            == st.pos + len
  {
    var rdl := SubU64(SubU64(len, h.lengthFieldSize), h.commandFieldSize);
    var typeId := ReadField(bytes, p, h.typeidFieldSize).value;
    var nameLength := ReadField(bytes, p + h.typeidFieldSize, DATA_NAME_LENGTH).value;
    var nameBytes := ReadBytes(bytes, p + h.typeidFieldSize + DATA_NAME_LENGTH, nameLength).value;
    DataRecordIsSkip(h, bytes, fileIndex, st, rdl, p, typeId, nameLength, nameBytes);
    assert nameLength < 256 by { assert Pow256(1) == 256; }
    DataSkipIsExact(len, h.lengthFieldSize, h.commandFieldSize, h.typeidFieldSize, nameLength);
  }

  /** Which records the corrected loop rejects, by their length field: none whose length is
      1 to 2^63 - 1, and every one of length 0 after which the source would go on. */
  lemma RejectedLengths(h: Header, bytes: seq<byte>, fileIndex: nat, st: ParseState)
    requires Supported(h) && ValidState(st) && Step(h, bytes, fileIndex, st).Next?
    ensures ReadField(bytes, st.pos, h.lengthFieldSize).Some?
    ensures 0 < ReadField(bytes, st.pos, h.lengthFieldSize).value < SIGNED_LIMIT
            ==> StepChecked(h, bytes, fileIndex, st) == Step(h, bytes, fileIndex, st)
    ensures ReadField(bytes, st.pos, h.lengthFieldSize).value == 0
            ==> StepChecked(h, bytes, fileIndex, st) == Failed(NO_PROGRESS)
  {
    StepMovesByLength(h, bytes, fileIndex, st);
  }

  /** The corrected loop; it terminates on every input. */
  function ScanChecked(h: Header, bytes: seq<byte>, fileIndex: nat, st: ParseState): (o: ScanOutcome)
    requires Supported(h) && ValidState(st)
    ensures !o.OutOfFuel?
    ensures Extends(o, st.events)
    decreases if st.pos <= |bytes| then |bytes| - st.pos + 1 else 0
  {
    match StepChecked(h, bytes, fileIndex, st)
    case Done => Finished(st.events)
    case Failed(msg) => FileFailed(st.events, msg)
    case Aborted(msg) => ScanAborted(msg)
    case Next(st') => ScanChecked(h, bytes, fileIndex, st')
  }

  /** Within `fuel` records, the loop as written meets a record after which it goes on
      without having moved forward. */
  predicate Stalls(h: Header, bytes: seq<byte>, fileIndex: nat, st: ParseState, fuel: nat)
    requires Supported(h) && ValidState(st)
    decreases fuel
  {
    && fuel > 0
    && var r := Step(h, bytes, fileIndex, st);
       r.Next? && (r.st.pos <= st.pos || Stalls(h, bytes, fileIndex, r.st, fuel - 1))
  }

  /** The two loops part only at a record that does not move forward: if the loop as
      written meets one within `fuel` records, the corrected loop rejects it; otherwise the
      loop as written is still running or ends exactly as the corrected loop does. */
  lemma {:induction false} CheckedAgreesWithAsWritten(h: Header, bytes: seq<byte>, fileIndex: nat, st: ParseState, fuel: nat)
    requires Supported(h) && ValidState(st)
    ensures var o, c := ScanAsWritten(h, bytes, fileIndex, st, fuel), ScanChecked(h, bytes, fileIndex, st);
            && (Stalls(h, bytes, fileIndex, st, fuel) ==> c.FileFailed? && c.msg == NO_PROGRESS)
            && (!Stalls(h, bytes, fileIndex, st, fuel) ==> o.OutOfFuel? || o == c)
    decreases fuel
  {
    if fuel > 0 {
      var r := Step(h, bytes, fileIndex, st);
      if !r.Next? {
        StopAgrees(h, bytes, fileIndex, st, fuel);
      } else if r.st.pos > st.pos {
        NextAgrees(h, bytes, fileIndex, st, fuel);
        CheckedAgreesWithAsWritten(h, bytes, fileIndex, r.st, fuel - 1);
      } else {
        StallRejected(h, bytes, fileIndex, st, fuel);
      }
    }
  }

  /** A record that ends the scan ends both loops the same way. */
  lemma StopAgrees(h: Header, bytes: seq<byte>, fileIndex: nat, st: ParseState, fuel: nat)
    requires Supported(h) && ValidState(st) && fuel > 0 && !Step(h, bytes, fileIndex, st).Next?
    ensures ScanAsWritten(h, bytes, fileIndex, st, fuel) == ScanChecked(h, bytes, fileIndex, st)
    ensures !Stalls(h, bytes, fileIndex, st, fuel)
  {
    assert StepChecked(h, bytes, fileIndex, st) == Step(h, bytes, fileIndex, st);
  }

  /** A record that moves forward moves both loops to the same next state. */
  lemma NextAgrees(h: Header, bytes: seq<byte>, fileIndex: nat, st: ParseState, fuel: nat)
    requires Supported(h) && ValidState(st) && fuel > 0
    requires Step(h, bytes, fileIndex, st).Next? && Step(h, bytes, fileIndex, st).st.pos > st.pos
    ensures var st' := Step(h, bytes, fileIndex, st).st;
            && ScanAsWritten(h, bytes, fileIndex, st, fuel) == ScanAsWritten(h, bytes, fileIndex, st', fuel - 1)
            && ScanChecked(h, bytes, fileIndex, st) == ScanChecked(h, bytes, fileIndex, st')
            && Stalls(h, bytes, fileIndex, st, fuel) == Stalls(h, bytes, fileIndex, st', fuel - 1)
  {
    assert StepChecked(h, bytes, fileIndex, st) == Step(h, bytes, fileIndex, st);
  }

  /** A record that does not move forward is rejected by the corrected loop. */
  lemma StallRejected(h: Header, bytes: seq<byte>, fileIndex: nat, st: ParseState, fuel: nat)
    requires Supported(h) && ValidState(st) && fuel > 0
    requires Step(h, bytes, fileIndex, st).Next? && Step(h, bytes, fileIndex, st).st.pos <= st.pos
    ensures ScanChecked(h, bytes, fileIndex, st) == FileFailed(st.events, NO_PROGRESS)
    ensures Stalls(h, bytes, fileIndex, st, fuel)
  {
    assert StepChecked(h, bytes, fileIndex, st) == Failed(NO_PROGRESS);
  }

  /** One-byte length, command and typeid fields. */
  const SMALL_HEADER: Header := Header(HEADER_LITTLE_ENDIAN, 1, 1, 1, HEADER_FLOAT_IEEE)

  /** A zero-length record: length field 0, command 1. */
  const HANG_BYTES: seq<byte> := [0, 1]

  /** On that record the source's loop seeks back to where the record started, so the scan
      never ends, whatever fuel it is given; the corrected loop rejects the record. */
  lemma {:induction false} ZeroLengthRecordHangs(fuel: nat)
    ensures ScanAsWritten(SMALL_HEADER, HANG_BYTES, 0, InitialState(0), fuel) == OutOfFuel([])
    ensures ScanChecked(SMALL_HEADER, HANG_BYTES, 0, InitialState(0)) == FileFailed([], NO_PROGRESS)
    decreases fuel
  {
    var st := InitialState(0);
    assert HANG_BYTES[0..1] == [0] && HANG_BYTES[1..2] == [1];
    assert LittleEndian([0]) == 0 && LittleEndian([1]) == 1;
    assert Step(SMALL_HEADER, HANG_BYTES, 0, st) == Next(st);
    if fuel > 0 {
      ZeroLengthRecordHangs(fuel - 1);
    }
  }

  /** A record of length 1 (shorter than its own two fields, command 4) followed by a
      record of length 4 (command 9, two bytes of data). */
  const SHORT_BYTES: seq<byte> := [1, 4, 9, 0, 0]

  /** The first record's wrapped data length seeks one byte back from the end of its fields,
      so the scan goes on at byte 1, reads the second record and ends; both loops finish. */
  lemma ShortRecordStepsPast()
    ensures ScanAsWritten(SMALL_HEADER, SHORT_BYTES, 0, InitialState(0), 3) == Finished([])
    ensures ScanChecked(SMALL_HEADER, SHORT_BYTES, 0, InitialState(0)) == Finished([])
  {
    var st0 := InitialState(0);
    var st1 := st0.(pos := 1);
    var st5 := st0.(pos := 5);
    assert SHORT_BYTES[0..1] == [1] && SHORT_BYTES[1..2] == [4] && SHORT_BYTES[2..3] == [9];
    assert LittleEndian([1]) == 1 && LittleEndian([4]) == 4 && LittleEndian([9]) == 9;
    assert Step(SMALL_HEADER, SHORT_BYTES, 0, st0) == Next(st1);
    assert Step(SMALL_HEADER, SHORT_BYTES, 0, st1) == Next(st5);
    assert Step(SMALL_HEADER, SHORT_BYTES, 0, st5) == Done;
  }
}
