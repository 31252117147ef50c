/** mock_file_t and the loops over all files, proved against Files. */
module MockFiles {
  import opened ByteStrings
  import opened Results
  import opened Framing
  import opened MockFrames
  import opened Files
  import opened Tmac

  predicate Fits32(v: int) {
    -0x8000_0000 <= v < 0x8000_0000
  }

  class MockFile {
    const settings: Settings
    const data: array<byte>
    const pendingData: array<byte>
    var hasPendingData: bool
    const records: array<Bytes>          // oldest first
    var recordCount: nat
    const pendingRecord: array<byte>
    var hasPendingRecord: bool
    var value: int                       // int32_t
    var pendingValue: int
    var hasPendingValue: bool
    var contentsUnknown: bool

    ghost const repr: set<object>

    ghost predicate Sound()
      reads this, repr
      ensures Sound() ==> this in repr
    {
      && {this, data, pendingData, records, pendingRecord} <= repr
      && data.Length == pendingData.Length == FILE_DATA && records.Length == MAX_RECORDS
      && pendingRecord.Length == RECORD_SIZE
      && data != pendingData && data != pendingRecord && pendingData != pendingRecord
      && recordCount <= Capacity(settings) && (forall i | 0 <= i < MAX_RECORDS :: |records[i]| == RECORD_SIZE)
      && Fits32(value) && Fits32(pendingValue)
    }

    /** The committed and pending parts these fields hold. */
    ghost function State(): File
      requires Sound()
      reads this, repr
    {
      File(settings, Contents(data[..], records[..recordCount], value),
           Pending(if hasPendingData then Some(pendingData[..]) else None,
                   if hasPendingRecord then Some(pendingRecord[..]) else None,
                   if hasPendingValue then Some(pendingValue) else None),
           contentsUnknown)
    }

    /** A fresh file: cleared, nothing pending. */
    constructor (settings: Settings, initial: int)
      requires Fits32(initial)
      ensures Sound() && fresh(repr) && this.settings == settings
      ensures State() == File(settings, Contents(Zeros(FILE_DATA), [], initial), NOTHING, false)
    {
      this.settings := settings;
      data := new byte[FILE_DATA](_ => 0);
      pendingData := new byte[FILE_DATA](_ => 0);
      pendingRecord := new byte[RECORD_SIZE](_ => 0);
      records := new Bytes[MAX_RECORDS](_ => Zeros(RECORD_SIZE));
      recordCount := 0;
      value, pendingValue := initial, 0;
      hasPendingData, hasPendingRecord, hasPendingValue, contentsUnknown := false, false, false, false;
      repr := {this, data, pendingData, records, pendingRecord};
    }

    /** The record part of mock_commit_files: the slots move down when full. */
    method CommitRecord()
      requires Sound() && hasPendingRecord
      modifies this`recordCount, this`hasPendingRecord, records
      ensures Sound() && !hasPendingRecord
      ensures records[..recordCount] == LastOf(old(records[..recordCount]) + [old(pendingRecord[..])], Capacity(settings))
    {
      hide LastOf;
      var cap := Min(settings.maxRecords, MAX_RECORDS);
      if cap == 0 {
        cap := 1;
      }
      ghost var before := records[..recordCount];
      if recordCount == cap {
        ShiftDown(cap);
        recordCount := recordCount - 1;
        assert records[..recordCount] == before[1..];
      }
      LastWithRoom(before, pendingRecord[..], cap);
      ghost var kept := records[..recordCount];
      records[recordCount] := pendingRecord[..];
      recordCount := recordCount + 1;
      hasPendingRecord := false;
      assert records[..recordCount] == kept + [pendingRecord[..]];
    }

    /** memmove over the record slots. */
    method ShiftDown(cap: nat)
      requires Sound() && 1 <= cap <= MAX_RECORDS
      modifies records
      ensures Sound() && records[..cap - 1] == old(records[1..cap])
    {
      for i := 0 to cap - 1
        invariant Sound()
        invariant forall j | 0 <= j < MAX_RECORDS :: records[j] == old(records[if j < i then j + 1 else j])
      {
        records[i] := records[i + 1];
      }
    }

    /** mock_commit_files on this file. */
    method Commit()
      requires Sound()
      modifies repr
      ensures Sound() && State() == Committed(old(State()))
    {
      hide LastOf, Splice;
      if hasPendingRecord {
        CommitRecord();
      }
      if hasPendingValue {
        value := pendingValue;
        hasPendingValue := false;
      }
      if hasPendingData {
        Blit(data, 0, pendingData[..]);
        SpliceAll(old(data[..]), pendingData[..]);
        hasPendingData := false;
      }
    }

    /** mock_abort_files on this file. */
    method Abort()
      requires Sound()
      modifies this
      ensures Sound() && State() == Apply(old(State()), Op.Abort)
    {
      hasPendingRecord := false;
      hasPendingValue := false;
      hasPendingData := false;
    }

    method Conclude(commit: bool)
      requires Sound()
      modifies repr
      ensures Sound() && State() == Apply(old(State()), if commit then Op.Commit else Op.Abort)
    {
      hide Committed;
      if commit {
        Commit();
      } else {
        Abort();
      }
    }

    /** mock_write_target */
    method WriteTarget() returns (target: array<byte>)
      requires Sound()
      modifies this`hasPendingData, pendingData
      ensures Sound() && target == (if settings.kind.Backup? then pendingData else data)
      ensures settings.kind.Backup? ==>
          hasPendingData && pendingData[..] == if old(hasPendingData) then old(pendingData[..]) else data[..]
      ensures !settings.kind.Backup? ==> hasPendingData == old(hasPendingData) && pendingData[..] == old(pendingData[..])
    {
      if !settings.kind.Backup? {
        return data;
      }
      if !hasPendingData {
        Blit(pendingData, 0, data[..]);
        SpliceAll(old(pendingData[..]), data[..]);
        hasPendingData := true;
      }
      target := pendingData;
    }

    /** The copy of the WriteData command; false is a boundary error. */
    method WriteData(offset: nat, bytes: Bytes) returns (ok: bool)
      requires Sound()
      modifies repr
      ensures Sound() && State() == Apply(old(State()), Op.WriteData(offset, bytes))
      ensures ok <==> offset + |bytes| <= FILE_DATA
    {
      hide Splice;
      if offset + |bytes| > FILE_DATA {
        return false;
      }
      var target := WriteTarget();
      Blit(target, offset, bytes);
      ok := true;
    }

    /** The contents are no longer known. */
    method Forget()
      requires Sound()
      modifies this`contentsUnknown
      ensures Sound() && State() == Apply(old(State()), Op.Forget)
    {
      contentsUnknown := true;
    }

    /** Credit, LimitedCredit and Debit; the sum has to stay an int32. */
    method AddValue(delta: int, debit: bool)
      requires Sound() && settings.kind.ValueFile? && Fits32(delta) && Fits32(-delta)
      requires Fits32((if hasPendingValue then pendingValue else value) + if debit then -delta else delta)
      modifies this
      ensures Sound() && State() == Apply(old(State()), Op.AddValue(if debit then -delta else delta))
    {
      if !hasPendingValue {
        pendingValue := value;
        hasPendingValue := true;
      }
      pendingValue := pendingValue + if debit then -delta else delta;
    }

    /** The record part of WriteRecord on a record file. Where the frame was not
        plain there is no length either, and the record is dropped. */
    method WriteRecord(plain: bool, data: Bytes)
      requires Sound() && IsRecordFile(settings) && (!plain ==> data == [])
      modifies repr
      ensures Sound() && State() == Apply(old(State()), Op.WriteRecord(if plain then Some(data) else None))
    {
      if |data| > 0 {
        var stored := Min(|data|, RECORD_SIZE);
        Blit(pendingRecord, 0, Zeros(RECORD_SIZE));
        Blit(pendingRecord, 0, data[..stored]);
        assert pendingRecord[..] == Slot(data);
        hasPendingRecord := true;
      }
    }

    /** The ReadRecords command: walks back from the newest record. */
    method ReadRecordsInto(first: nat, count: nat) returns (r: Read)
      requires Sound()
      ensures Files.Valid(State()) && r == ReadRecords(State(), first, count)
    {
      hide Newest;
      SoundIsValid();
      if contentsUnknown {
        return Refused(0x9D);
      }
      if !IsRecordFile(settings) {
        return Refused(0xF0);
      }
      var want := count;
      if want == 0 {
        want := if first < recordCount then recordCount - first else 0;
      }
      if first + want > recordCount {
        return Refused(0xBE);
      }
      var size := Min(settings.recordSize, RECORD_SIZE);
      var payload: Bytes := [];
      NewestNone(records[..recordCount], first, size);
      for n := 0 to want
        invariant payload == Newest(records[..recordCount], first, n, size)
      {
        var index := recordCount - 1 - first - n;
        NewestNext(records[..recordCount], first, n, size);
        payload := payload + records[index][..size];
      }
      r := Data(payload);
    }

    /** The ReadData command; `readLen` shortens the answer if it is not zero. */
    method ReadDataInto(offset: nat, length: nat, readLen: nat) returns (r: Read)
      requires Sound()
      ensures Files.Valid(State()) && r == ReadData(State(), offset, length, readLen)
    {
      SoundIsValid();
      if contentsUnknown {
        return Refused(0x9D);
      }
      if settings.kind.ValueFile? || IsRecordFile(settings) {
        return Refused(0xF0);
      }
      var size := if settings.size > FILE_DATA then FILE_DATA else settings.size;
      var len := length;
      if len == 0 {
        len := if offset < size then size - offset else 0;
      }
      if readLen > 0 && readLen < len {
        len := readLen;
      }
      if offset + len > size {
        return Refused(0xBE);
      }
      r := Data(data[offset..offset + len]);
    }

    lemma SoundIsValid()
      requires Sound()
      ensures Files.Valid(State())
    {
      assert forall i | 0 <= i < recordCount :: records[..recordCount][i] == records[i];
    }
  }

  lemma LastWithRoom(before: seq<Bytes>, r: Bytes, cap: nat)
    requires 1 <= cap && |before| <= cap
    ensures LastOf(before + [r], cap) == (if |before| == cap then before[1..] else before) + [r]
  {}

  lemma NewestNone(records: seq<Bytes>, first: nat, size: nat)
    requires first <= |records| && size <= RECORD_SIZE && forall r <- records :: |r| == RECORD_SIZE
    ensures Newest(records, first, 0, size) == []
  {}

  lemma NewestNext(records: seq<Bytes>, first: nat, n: nat, size: nat)
    requires first + n < |records| && size <= RECORD_SIZE && forall r <- records :: |r| == RECORD_SIZE
    ensures Newest(records, first, n + 1, size)
         == Newest(records, first, n, size) + records[|records| - 1 - first - n][..size]
  {}

  //--------------------------------------------------------------------------
  // all files of the card
  //--------------------------------------------------------------------------

  ghost predicate Apart(files: seq<MockFile>) {
    forall i, j | 0 <= i < j < |files| :: files[i].repr !! files[j].repr
  }

  ghost function AllRepr(files: seq<MockFile>): set<object> {
    (set i, o | 0 <= i < |files| && o in files[i].repr :: o) + (set f | f in files)
  }

  ghost predicate AllSound(files: seq<MockFile>)
    reads AllRepr(files)
  {
    forall i | 0 <= i < |files| :: files[i].Sound()
  }

  ghost function States(files: seq<MockFile>): (st: seq<File>)
    requires AllSound(files)
    reads AllRepr(files)
    ensures |st| == |files|
  {
    seq(|files|, i requires 0 <= i < |files| && files[i].Sound() reads AllRepr(files) => files[i].State())
  }

  /** The loops of mock_commit_files and mock_abort_files. */
  method EndTransaction(files: seq<MockFile>, commit: bool)
    requires Apart(files) && AllSound(files)
    modifies AllRepr(files)
    ensures AllSound(files)
    ensures States(files) == Execute(old(States(files)), Command(0, if commit then Op.Commit else Op.Abort))
  {
    hide Apply, MockFile.Sound, MockFile.State;
    var op := if commit then Op.Commit else Op.Abort;
    ghost var before := States(files);
    for n := 0 to |files|
      invariant AllSound(files)
      invariant forall i | 0 <= i < |files| :: files[i].State() == if i < n then Apply(before[i], op) else before[i]
    {
      assert files[n].repr <= AllRepr(files);
      files[n].Conclude(commit);
    }
  }

  /** mock_find_file */
  method FindFile(files: seq<MockFile>, fileNo: byte) returns (i: nat)
    requires AllSound(files)
    ensures i == Find(States(files), fileNo)
  {
    i := 0;
    while i < |files| && files[i].settings.fileNo != fileNo
      invariant 0 <= i <= |files|
      invariant forall j | 0 <= j < i :: files[j].settings.fileNo != fileNo
    {
      i := i + 1;
    }
    FirstFound(States(files), fileNo, i);
  }

  lemma {:induction false} FirstFound(st: seq<File>, fileNo: byte, i: nat)
    requires i <= |st| && (i < |st| ==> st[i].settings.fileNo == fileNo)
    requires forall j | 0 <= j < i :: st[j].settings.fileNo != fileNo
    ensures Find(st, fileNo) == i
  {
    if i > 0 {
      FirstFound(st[1..], fileNo, i - 1);
    }
  }

  //--------------------------------------------------------------------------
  // the write commands, from the received frame
  //--------------------------------------------------------------------------

  /** mock_tmi_write_record: a block behind the input, if there is room. */
  method Accumulate(tmi: array<byte>, len: nat, header: Bytes, data: Bytes) returns (next: nat)
    requires tmi.Length == TMI_SIZE && len <= TMI_SIZE && |header| == 7
    modifies tmi
    ensures next <= TMI_SIZE && tmi[..next] == Accumulated(old(tmi[..len]), header, data)
  {
    hide Splice;
    var block := 16 + (|data| + 15) / 16 * 16;
    if len + block > TMI_SIZE {
      return len;
    }
    ghost var before := tmi[..];
    Blit(tmi, len, Zeros(block));
    tmi[len] := WRITE_RECORD;
    Blit(tmi, len + 1, header);
    Blit(tmi, len + 16, data);
    next := len + block;
    Laid(before, len, block, header, data, tmi[..]);
  }

  lemma Laid(before: Bytes, len: nat, block: nat, header: Bytes, data: Bytes, after: Bytes)
    requires len + block <= |before| && block >= 16 + |data| && |header| == 7
    requires after == Splice(Splice(Splice(before, len, Zeros(block))[len := WRITE_RECORD], len + 1, header), len + 16, data)
    ensures after[..len + block] == before[..len] + Splice(Splice(Zeros(block)[0 := WRITE_RECORD], 1, header), 16, data)
  {
    var x, a := Splice(before, len, Zeros(block))[len := WRITE_RECORD], Zeros(block)[0 := WRITE_RECORD];
    assert x[..len] == before[..len] && x[len..len + block] == a;
    SpliceShifted(x, len, block, 1, header);
    SpliceShifted(Splice(x, len + 1, header), len, block, 16, data);
  }

  lemma SpliceShifted(x: Bytes, len: nat, block: nat, at: nat, t: Bytes)
    requires len + block <= |x| && at + |t| <= block
    ensures var y := Splice(x, len + at, t);
            y[..len] == x[..len] && y[len..len + block] == Splice(x[len..len + block], at, t)
            && y[..len + block] == y[..len] + y[len..len + block]
  {}

  /** An operation on the file that was found reaches exactly that file. */
  lemma FoundReached(st: seq<File>, fileNo: byte, op: Op, after: seq<File>)
    requires var i := Find(st, fileNo); i < |st| && (op.WriteRecord? ==> IsRecordFile(st[i].settings))
    requires !op.Commit? && !op.Abort? && |after| == |st|
    requires forall j | 0 <= j < |st| :: after[j] == if j == Find(st, fileNo) then Apply(st[j], op) else st[j]
    ensures after == Execute(st, Command(fileNo, op)) && !RecordRefused(st, Command(fileNo, op))
  {
    hide Apply;
  }

  lemma NoneReached(st: seq<File>, fileNo: byte, op: Op)
    requires Find(st, fileNo) == |st| && !op.Commit? && !op.Abort? && !op.WriteRecord?
    ensures Execute(st, Command(fileNo, op)) == st
  {
    hide Apply;
  }

  lemma RefusalAborts(st: seq<File>, fileNo: byte, record: Option<Bytes>)
    requires RecordRefused(st, Command(fileNo, Op.WriteRecord(record)))
    ensures Execute(st, Command(fileNo, Op.WriteRecord(record))) == Execute(st, Command(0, Op.Abort))
  {
    hide Apply;
  }

  lemma SettingsOf(files: seq<MockFile>)
    requires AllSound(files)
    ensures forall i | 0 <= i < |files| :: States(files)[i].settings == files[i].settings
  {}

  /** A full frame: the rest of a chained write is never looked at. */
  method FullFrame(files: seq<MockFile>, tx: Bytes, macLen: nat) returns (status: byte)
    requires Apart(files) && AllSound(files) && |tx| == FULL_FRAME
    requires tx[0] == WRITE_RECORD || tx[0] == WRITE_DATA || tx[0] == UPDATE_RECORD
    modifies AllRepr(files)
    ensures AllSound(files) && status == MORE
    ensures Reads(tx, macLen).Some? && States(files) == Execute(old(States(files)), Reads(tx, macLen).value)
  {
    hide Apply, MockFile.Sound, MockFile.State, Find, Execute;
    ghost var before := States(files);
    var i := FindFile(files, tx[1]);
    if i < |files| {
      assert files[i].repr <= AllRepr(files);
      SoundHasThis(files[i]);
      files[i].Forget();
      FoundReached(before, tx[1], Op.Forget, States(files));
    } else {
      NoneReached(before, tx[1], Op.Forget);
    }
    status := MORE;
  }

  lemma SoundHasThis(f: MockFile)
    requires f.Sound()
    ensures f in f.repr
  {}

  lemma RecordRead(tx: Bytes, macLen: nat)
    requires |tx| > 1 && tx[0] == WRITE_RECORD && |tx| != FULL_FRAME
    ensures Reads(tx, macLen) == Some(Command(tx[1], Op.WriteRecord(Carried(tx, macLen))))
  {}

  lemma DataRead(tx: Bytes, macLen: nat)
    requires |tx| > 8 && tx[0] == WRITE_DATA && |tx| != FULL_FRAME
    ensures var b := Carried(tx, macLen);
            Reads(tx, macLen) == Some(Command(tx[1], if b.Some? then Op.WriteData(FromU24(tx[2..5]), b.value) else Op.Forget))
  {
    hide FromU24;
  }

  method RecordInto(files: seq<MockFile>, fileNo: byte, i: nat, plain: bool, data: Bytes)
    requires Apart(files) && AllSound(files) && i == Find(States(files), fileNo) && i < |files|
    requires IsRecordFile(files[i].settings) && (!plain ==> data == [])
    modifies AllRepr(files)
    ensures AllSound(files)
    ensures var c := Command(fileNo, Op.WriteRecord(if plain then Some(data) else None));
            States(files) == Execute(old(States(files)), c) && !RecordRefused(old(States(files)), c)
  {
    hide Apply, MockFile.Sound, MockFile.State, Find, Execute;
    ghost var before := States(files);
    SettingsOf(files);
    assert files[i].repr <= AllRepr(files);
    files[i].WriteRecord(plain, data);
    FoundReached(before, fileNo, Op.WriteRecord(if plain then Some(data) else None), States(files));
  }

  method DataInto(files: seq<MockFile>, fileNo: byte, i: nat, plain: bool, offset: nat, data: Bytes) returns (status: byte)
    requires Apart(files) && AllSound(files) && i == Find(States(files), fileNo) && i < |files|
    modifies AllRepr(files)
    ensures AllSound(files)
    ensures States(files)
         == Execute(old(States(files)), Command(fileNo, if plain then Op.WriteData(offset, data) else Op.Forget))
    ensures status == if plain && offset + |data| > FILE_DATA then 0xBE else 0x00
  {
    hide Apply, MockFile.Sound, MockFile.State, Find, Execute;
    ghost var before := States(files);
    assert files[i].repr <= AllRepr(files);
    if plain {
      var ok := files[i].WriteData(offset, data);
      status := if ok then 0x00 else 0xBE;
      FoundReached(before, fileNo, Op.WriteData(offset, data), States(files));
    } else {
      SoundHasThis(files[i]);
      files[i].Forget();
      status := 0x00;
      FoundReached(before, fileNo, Op.Forget, States(files));
    }
  }

  /** WriteRecord to a record file: the transaction MAC input first, then the
      record. */
  method RecordAccepted(files: seq<MockFile>, tx: Bytes, macLen: nat, i: nat, tmFile: bool, tmi: array<byte>, tmiLen: nat)
    returns (newLen: nat)
    requires Apart(files) && AllSound(files) && tmi !in AllRepr(files) && tmi.Length == TMI_SIZE && tmiLen <= TMI_SIZE
    requires |tx| > 1 && tx[0] == WRITE_RECORD && |tx| != FULL_FRAME
    requires i == Find(States(files), tx[1]) && i < |files| && IsRecordFile(files[i].settings)
    modifies AllRepr(files), tmi
    ensures AllSound(files) && newLen <= TMI_SIZE
    ensures var c := Command(tx[1], Op.WriteRecord(Carried(tx, macLen)));
            States(files) == Execute(old(States(files)), c) && !RecordRefused(old(States(files)), c)
    ensures tmi[..newLen] == if tmFile then Received(old(States(files)), old(tmi[..tmiLen]), tx, macLen)
                             else old(tmi[..tmiLen])
  {
    hide Apply, MockFile.Sound, MockFile.State, Find, Execute, WritePayload, Accumulated, Apart, FromU24;
    SettingsOf(files);
    var plain, dataLen := MeasureWrite(tx, 7, macLen);
    newLen := tmiLen;
    var data := if plain then tx[8..8 + dataLen] else [];
    if tmFile && plain && dataLen > 0 {
      newLen := Accumulate(tmi, tmiLen, tx[1..8], data);
    }
    RecordInto(files, tx[1], i, plain, data);
  }

  /** The WriteRecord command. No file, or one that takes no records, ends the
      transaction on the whole card. */
  method WriteRecordCommand(files: seq<MockFile>, tx: Bytes, macLen: nat, tmFile: bool, tmi: array<byte>, tmiLen: nat)
    returns (status: byte, newLen: nat)
    requires Apart(files) && AllSound(files) && tmi !in AllRepr(files) && tmi.Length == TMI_SIZE && tmiLen <= TMI_SIZE
    requires tx != [] && tx[0] == WRITE_RECORD && |tx| != FULL_FRAME
    modifies AllRepr(files), tmi
    ensures AllSound(files) && newLen <= TMI_SIZE && Reads(tx, macLen).Some?
    ensures States(files) == Execute(old(States(files)), Reads(tx, macLen).value)
    ensures status == 0x00 <==> |tx| > 1 && !RecordRefused(old(States(files)), Reads(tx, macLen).value)
    ensures tmi[..newLen] == if tmFile || status != 0x00 then Received(old(States(files)), old(tmi[..tmiLen]), tx, macLen)
                             else old(tmi[..tmiLen])
    ensures status != 0x00 ==> newLen == 0
  {
    hide Apply, MockFile.Sound, MockFile.State, Find, Execute, Carried, Accumulated, Apart;
    ghost var before := States(files);
    if |tx| == 1 {
      EndTransaction(files, false);
      return 0xF0, 0;
    }
    hide Reads;
    SettingsOf(files);
    RecordRead(tx, macLen);
    var i := FindFile(files, tx[1]);
    if i == |files| || !IsRecordFile(files[i].settings) {
      EndTransaction(files, false);
      RefusalAborts(before, tx[1], Carried(tx, macLen));
      return if i == |files| then 0xF0 else 0x9D, 0;
    }
    newLen := RecordAccepted(files, tx, macLen, i, tmFile, tmi, tmiLen);
    status := 0x00;
  }

  /** The WriteData command. */
  method WriteDataCommand(files: seq<MockFile>, tx: Bytes, macLen: nat) returns (status: byte)
    requires Apart(files) && AllSound(files) && tx != [] && tx[0] == WRITE_DATA && |tx| != FULL_FRAME
    modifies AllRepr(files)
    ensures AllSound(files)
    ensures States(files) == if Reads(tx, macLen).Some? then Execute(old(States(files)), Reads(tx, macLen).value)
                             else old(States(files))
    ensures status == if |tx| <= 8 || Find(old(States(files)), tx[1]) == |files| then 0xF0
                      else if Carried(tx, macLen).Some? && FromU24(tx[2..5]) + |Carried(tx, macLen).value| > FILE_DATA then 0xBE
                      else 0x00
  {
    hide Apply, MockFile.Sound, MockFile.State, Find, Execute, WritePayload, FromU24, Apart;
    ghost var before := States(files);
    var plain, dataLen := MeasureWrite(tx, 7, macLen);
    if |tx| <= 8 {
      return 0xF0;
    }
    hide Reads;
    DataRead(tx, macLen);
    var i := FindFile(files, tx[1]);
    if i == |files| {
      NoneReached(before, tx[1], Reads(tx, macLen).value.op);
      return 0xF0;
    }
    status := DataInto(files, tx[1], i, plain, FromU24(tx[2..5]), if plain then tx[8..8 + dataLen] else []);
  }
}
