/** The transactional files of the card: a committed part that reads see, and a
    pending part that only CommitTransaction makes visible. */
module Files {
  import opened ByteStrings
  import opened Results
  import opened MockFrames

  datatype Kind = Standard | Backup | ValueFile | Linear | Cyclic | TransactionMac

  /** What creation fixes. */
  datatype Settings = Settings(fileNo: byte, kind: Kind, size: nat, recordSize: nat, maxRecords: nat)

  datatype Contents = Contents(data: Bytes, records: seq<Bytes>, value: int)

  datatype Pending = Pending(data: Option<Bytes>, record: Option<Bytes>, value: Option<int>)

  datatype File = File(settings: Settings, committed: Contents, pending: Pending, unknown: bool)

  const FILE_DATA: nat := 256      // MOCK_FILE_DATA
  const RECORD_SIZE: nat := 64     // MOCK_RECORD_SIZE
  const MAX_RECORDS: nat := 8      // MOCK_MAX_RECORDS

  predicate IsRecordFile(s: Settings) {
    s.kind.Linear? || s.kind.Cyclic?
  }

  /** How many records the file holds at most. */
  function Capacity(s: Settings): (c: nat)
    ensures 1 <= c <= MAX_RECORDS
  {
    Max(1, Min(s.maxRecords, MAX_RECORDS))
  }

  lemma Limits(s: Settings)
    ensures FILE_DATA == 256 && RECORD_SIZE == 64
    ensures Capacity(s) == if s.maxRecords == 0 then 1 else if s.maxRecords > 8 then 8 else s.maxRecords
  {}

  predicate Valid(f: File) {
    && |f.committed.data| == FILE_DATA && |f.committed.records| <= Capacity(f.settings)
    && (forall r <- f.committed.records :: |r| == RECORD_SIZE)
    && (f.pending.data.Some? ==> |f.pending.data.value| == FILE_DATA)
    && (f.pending.record.Some? ==> |f.pending.record.value| == RECORD_SIZE)
  }

  //--------------------------------------------------------------------------
  // operations on one file
  //--------------------------------------------------------------------------

  /** What the card makes of a command; a record it cannot see is None, and Forget
      says that it no longer knows what the file holds. */
  datatype Op =
    | WriteRecord(record: Option<Bytes>)
    | AddValue(delta: int)
    | WriteData(offset: nat, bytes: Bytes)
    | Forget
    | Commit
    | Abort

  /** The record slot: cut or zero-filled to its size. */
  function Slot(data: Bytes): (r: Bytes)
    ensures |r| == RECORD_SIZE
  {
    if |data| > RECORD_SIZE then data[..RECORD_SIZE] else data + Zeros(RECORD_SIZE - |data|)
  }

  function LastOf<T>(s: seq<T>, n: nat): (r: seq<T>)
    ensures |r| == Min(|s|, n)
  {
    if |s| > n then s[|s| - n..] else s
  }

  /** The end of the list, in its order. */
  lemma LastOfAt<T>(s: seq<T>, n: nat, i: nat)
    requires i < Min(|s|, n)
    ensures LastOf(s, n)[i] == s[Max(0, |s| - n) + i]
  {}

  lemma SlotHolds(data: Bytes, i: nat)
    requires i < 64
    ensures |Slot(data)| == 64 && Slot(data)[i] == if i < |data| then data[i] else 0
  {}

  function OrElse<T>(o: Option<T>, d: T): T {
    if o.Some? then o.value else d
  }

  const NOTHING: Pending := Pending(None, None, None)

  /** mock_commit_files on one file. */
  function Committed(f: File): File {
    var c, p := f.committed, f.pending;
    f.(committed := Contents(OrElse(p.data, c.data),
                             if p.record.Some? then LastOf(c.records + [p.record.value], Capacity(f.settings)) else c.records,
                             OrElse(p.value, c.value)),
       pending := NOTHING)
  }

  /** One operation on one file. A record the card cannot see leaves everything as
      it was. */
  function Apply(f: File, op: Op): File {
    match op
    case WriteRecord(record) =>
      if !IsRecordFile(f.settings) || record.None? || record.value == [] then f
      else f.(pending := f.pending.(record := Some(Slot(record.value))))
    case AddValue(delta) =>
      if !f.settings.kind.ValueFile? then f
      else f.(pending := f.pending.(value := Some(OrElse(f.pending.value, f.committed.value) + delta)))
    case WriteData(offset, bytes) =>
      if offset + |bytes| > FILE_DATA || |f.committed.data| != FILE_DATA then f
      else if !f.settings.kind.Backup? then f.(committed := f.committed.(data := Splice(f.committed.data, offset, bytes)))
      else
        var at := OrElse(f.pending.data, f.committed.data);
        if |at| != FILE_DATA then f else f.(pending := f.pending.(data := Some(Splice(at, offset, bytes))))
    case Forget => f.(unknown := true)
    case Commit => Committed(f)
    case Abort => f.(pending := NOTHING)
  }

  function Run(f: File, ops: seq<Op>): File {
    hide Apply;
    if ops == [] then f else Apply(Run(f, ops[..|ops| - 1]), ops[|ops| - 1])
  }

  lemma ApplyValid(f: File, op: Op)
    requires Valid(f)
    ensures Valid(Apply(f, op)) && Apply(f, op).settings == f.settings
  {
    if op.Commit? {
      var all := f.committed.records + if f.pending.record.Some? then [f.pending.record.value] else [];
      assert forall r <- all :: |r| == RECORD_SIZE;
    }
  }

  lemma {:induction false} RunValid(f: File, ops: seq<Op>)
    requires Valid(f)
    ensures Valid(Run(f, ops)) && Run(f, ops).settings == f.settings
    decreases |ops|
  {
    hide Apply, Valid;
    if ops != [] {
      RunValid(f, ops[..|ops| - 1]);
      ApplyValid(Run(f, ops[..|ops| - 1]), ops[|ops| - 1]);
    }
  }

  //--------------------------------------------------------------------------
  // reads
  //--------------------------------------------------------------------------

  datatype Read = Data(bytes: Bytes) | Refused(status: byte)

  /** Records `first` to `first + count - 1`, the newest being record 0. */
  function Newest(records: seq<Bytes>, first: nat, count: nat, size: nat): (b: Bytes)
    requires first + count <= |records| && size <= RECORD_SIZE && forall r <- records :: |r| == RECORD_SIZE
    ensures |b| == count * size
    decreases count
  {
    if count == 0 then []
    else Newest(records, first, count - 1, size) + records[|records| - first - count][..size]
  }

  /** The newest first: piece `k` is the front of the record `first + k` places before
      the last. */
  lemma {:induction false} NewestAt(records: seq<Bytes>, first: nat, count: nat, size: nat, k: nat)
    requires first + count <= |records| && size <= RECORD_SIZE && forall r <- records :: |r| == RECORD_SIZE
    requires k < count
    ensures 0 <= k * size <= k * size + size <= count * size
    ensures Newest(records, first, count, size)[k * size..k * size + size] == records[|records| - 1 - first - k][..size]
    decreases count
  {
    hide Newest;
    var b, last := Newest(records, first, count - 1, size), records[|records| - first - count][..size];
    OneOlder(records, first, count, size);
    Pieces(k, count - 1, size);
    Pieces(count - 1, count, size);
    var at := k * size;
    if k + 1 < count {
      NewestAt(records, first, count - 1, size, k);
      assert (b + last)[at..at + size] == b[at..at + size];
    } else {
      assert (b + last)[|b|..|b| + size] == last;
    }
  }

  lemma OneOlder(records: seq<Bytes>, first: nat, count: nat, size: nat)
    requires first + count <= |records| && size <= RECORD_SIZE && forall r <- records :: |r| == RECORD_SIZE
    requires count > 0
    ensures Newest(records, first, count, size)
         == Newest(records, first, count - 1, size) + records[|records| - first - count][..size]
  {}

  lemma Pieces(k: nat, n: nat, size: nat)
    requires k <= n
    ensures k * size <= n * size && k * size + size == (k + 1) * size
  {}

  function ReadRecords(f: File, first: nat, count: nat): Read
    requires Valid(f)
  {
    var n := |f.committed.records|;
    var want := if count == 0 then (if first < n then n - first else 0) else count;
    if f.unknown then Refused(0x9D)
    else if !IsRecordFile(f.settings) then Refused(0xF0)
    else if first + want > n then Refused(0xBE)
    else Data(Newest(f.committed.records, first, want, Min(f.settings.recordSize, RECORD_SIZE)))
  }

  /** What ReadRecords returns, piece by piece; no count means all from there to the
      oldest. Nothing beyond the records there are. */
  lemma RecordsRead(f: File, first: nat, count: nat, k: nat)
    requires Valid(f) && IsRecordFile(f.settings) && !f.unknown
    ensures var r, n, size := ReadRecords(f, first, count), |f.committed.records|, Min(f.settings.recordSize, 64);
            var c := if count == 0 then n - first else count;
            if first + count > n then r == Refused(0xBE)
            else
              && r.Data? && |r.bytes| == c * size
              && (k < c ==>
                    && 0 <= k * size <= k * size + size <= c * size
                    && r.bytes[k * size..k * size + size] == f.committed.records[n - 1 - first - k][..size])
  {
    hide Newest, Capacity;
    var n := |f.committed.records|;
    var c := if count == 0 then n - first else count;
    if first + count <= n && k < c {
      NewestAt(f.committed.records, first, c, Min(f.settings.recordSize, RECORD_SIZE), k);
    }
  }

  function GetValue(f: File): Option<int> {
    if f.settings.kind.ValueFile? then Some(f.committed.value) else None
  }

  /** `short`, if not zero, is the most the mock returns at once. */
  function ReadData(f: File, offset: nat, length: nat, short: nat): Read
    requires Valid(f)
  {
    var size := Min(f.settings.size, FILE_DATA);
    var whole := if length == 0 then (if offset < size then size - offset else 0) else length;
    var len := if 0 < short < whole then short else whole;
    if f.unknown then Refused(0x9D)
    else if f.settings.kind.ValueFile? || IsRecordFile(f.settings) then Refused(0xF0)
    else if offset + len > size then Refused(0xBE)
    else Data(f.committed.data[offset..offset + len])
  }

  /** Two files that differ only in what is pending. */
  predicate SameCommitted(f: File, g: File) {
    f.settings == g.settings && f.committed == g.committed && f.unknown == g.unknown
  }

  /** Reads never see an uncommitted change. */
  lemma ReadsSeeCommitted(f: File, g: File, a: nat, b: nat, short: nat)
    requires Valid(f) && Valid(g) && SameCommitted(f, g)
    ensures ReadRecords(f, a, b) == ReadRecords(g, a, b) && ReadData(f, a, b, short) == ReadData(g, a, b, short)
    ensures GetValue(f) == GetValue(g)
  {
    hide Newest;
  }

  /** Between commits only writes to a standard file, and those the card cannot
      see, change what reads see. */
  predicate Invisible(s: Settings, op: Op) {
    !op.Commit? && !op.Forget? && (op.WriteData? ==> s.kind.Backup?)
  }

  lemma InvisibleStep(f: File, op: Op)
    requires Invisible(f.settings, op)
    ensures SameCommitted(Apply(f, op), f)
  {
    hide Slot, Splice;
  }

  /** A transaction that ends in an abort has changed nothing: neither while it
      ran nor afterwards. */
  lemma {:induction false} AbortUndoes(f: File, ops: seq<Op>)
    requires f.pending == NOTHING && forall op <- ops :: Invisible(f.settings, op)
    ensures SameCommitted(Run(f, ops), f)
    ensures Run(f, ops + [Abort]) == f
    decreases |ops|
  {
    hide Apply, Invisible;
    if ops != [] {
      AbortUndoes(f, ops[..|ops| - 1]);
      InvisibleStep(Run(f, ops[..|ops| - 1]), ops[|ops| - 1]);
    }
    assert (ops + [Abort])[..|ops|] == ops;
    AbortClears(Run(f, ops));
  }

  lemma AbortClears(f: File)
    ensures Apply(f, Abort) == f.(pending := NOTHING)
  {}

  /** What the card has forgotten it does not read out, whatever follows. */
  lemma {:induction false} ForgottenStays(f: File, ops: seq<Op>, a: nat, b: nat, short: nat)
    requires Valid(f) && f.unknown
    ensures Valid(Run(f, ops)) && Run(f, ops).unknown
    ensures ReadData(Run(f, ops), a, b, short) == Refused(0x9D) && ReadRecords(Run(f, ops), a, b) == Refused(0x9D)
    decreases |ops|
  {
    hide Apply, Newest;
    RunValid(f, ops);
    if ops != [] {
      ForgottenStays(f, ops[..|ops| - 1], a, b, short);
      ForgottenStep(Run(f, ops[..|ops| - 1]), ops[|ops| - 1]);
    }
  }

  lemma ForgottenStep(f: File, op: Op)
    ensures f.unknown ==> Apply(f, op).unknown
  {
    hide Slot, Splice, LastOf;
  }

  //--------------------------------------------------------------------------
  // whole histories
  //
  // What a run has committed, read off the list of operations alone.
  //--------------------------------------------------------------------------

  /** The record the open transaction would commit: the last one the card saw. */
  function OpenRecord(ops: seq<Op>): Option<Bytes> {
    if ops == [] then None
    else
      var last := ops[|ops| - 1];
      if last.Commit? || last.Abort? then None
      else if last.WriteRecord? && last.record.Some? && last.record.value != [] then Some(Slot(last.record.value))
      else OpenRecord(ops[..|ops| - 1])
  }

  /** One record for each commit of a transaction that wrote one, in order. */
  function DoneRecords(ops: seq<Op>): seq<Bytes> {
    if ops == [] then []
    else
      var before, open := DoneRecords(ops[..|ops| - 1]), OpenRecord(ops[..|ops| - 1]);
      if ops[|ops| - 1].Commit? && open.Some? then before + [open.value] else before
  }

  /** The sum of credits and debits since the last commit or abort. */
  function OpenDelta(ops: seq<Op>): int {
    if ops == [] then 0
    else
      var last := ops[|ops| - 1];
      if last.Commit? || last.Abort? then 0
      else OpenDelta(ops[..|ops| - 1]) + if last.AddValue? then last.delta else 0
  }

  function DoneDelta(ops: seq<Op>): int {
    if ops == [] then 0
    else DoneDelta(ops[..|ops| - 1]) + if ops[|ops| - 1].Commit? then OpenDelta(ops[..|ops| - 1]) else 0
  }

  datatype Write = Write(offset: nat, bytes: Bytes)

  /** A write that stays inside the file. */
  predicate Lands(op: Op) {
    op.WriteData? && op.offset + |op.bytes| <= FILE_DATA
  }

  function OpenWrites(ops: seq<Op>): (w: seq<Write>)
    ensures forall x <- w :: x.offset + |x.bytes| <= FILE_DATA
  {
    if ops == [] then []
    else
      var last := ops[|ops| - 1];
      if last.Commit? || last.Abort? then []
      else OpenWrites(ops[..|ops| - 1]) + if Lands(last) then [Write(last.offset, last.bytes)] else []
  }

  function DoneWrites(ops: seq<Op>): (w: seq<Write>)
    ensures forall x <- w :: x.offset + |x.bytes| <= FILE_DATA
  {
    if ops == [] then []
    else DoneWrites(ops[..|ops| - 1]) + if ops[|ops| - 1].Commit? then OpenWrites(ops[..|ops| - 1]) else []
  }

  function Written(data: Bytes, w: seq<Write>): (d: Bytes)
    requires |data| == FILE_DATA && forall x <- w :: x.offset + |x.bytes| <= FILE_DATA
    ensures |d| == FILE_DATA
  {
    if w == [] then data
    else
      var x := w[|w| - 1];
      Splice(Written(data, w[..|w| - 1]), x.offset, x.bytes)
  }

  lemma LastOfLast<T>(s: seq<T>, t: T, n: nat)
    requires n >= 1
    ensures LastOf(LastOf(s, n) + [t], n) == LastOf(s + [t], n)
  {}

  /** A record file holds exactly the last committed records, oldest first. */
  lemma {:induction false} RecordHistory(f: File, ops: seq<Op>)
    requires Valid(f) && IsRecordFile(f.settings) && f.pending == NOTHING
    ensures var r := Run(f, ops);
            && r.committed.records == LastOf(f.committed.records + DoneRecords(ops), Capacity(f.settings))
            && r.pending.record == OpenRecord(ops)
    decreases |ops|
  {
    hide LastOf, Slot, Splice, Valid;
    if ops == [] {
      LastOfAll(f);
    } else {
      var before := ops[..|ops| - 1];
      RecordHistory(f, before);
      RunValid(f, before);
      var open, all := OpenRecord(before), f.committed.records + DoneRecords(before);
      if open.Some? {
        LastOfLast(all, open.value, Capacity(f.settings));
        assert f.committed.records + (DoneRecords(before) + [open.value]) == all + [open.value];
      }
    }
  }

  lemma LastOfAll(f: File)
    requires Valid(f)
    ensures LastOf(f.committed.records + [], Capacity(f.settings)) == f.committed.records
  {}

  /** A value file holds the initial value plus all committed deltas; the pending
      value adds those of the open transaction. */
  lemma {:induction false} ValueHistory(f: File, ops: seq<Op>)
    requires f.settings.kind.ValueFile? && f.pending == NOTHING
    ensures var r := Run(f, ops);
            && r.committed.value == f.committed.value + DoneDelta(ops)
            && OrElse(r.pending.value, r.committed.value) == f.committed.value + DoneDelta(ops) + OpenDelta(ops)
            && r.settings == f.settings
    decreases |ops|
  {
    hide LastOf, Slot, Splice;
    if ops != [] {
      ValueHistory(f, ops[..|ops| - 1]);
    }
  }

  lemma {:induction false} WrittenMore(data: Bytes, a: seq<Write>, b: seq<Write>)
    requires |data| == FILE_DATA && forall x <- a + b :: x.offset + |x.bytes| <= FILE_DATA
    ensures (forall x <- a :: x.offset + |x.bytes| <= FILE_DATA) && (forall x <- b :: x.offset + |x.bytes| <= FILE_DATA)
    ensures Written(Written(data, a), b) == Written(data, a + b)
    decreases |b|
  {
    assert forall x <- a :: x in a + b;
    assert forall x <- b :: x in a + b;
    if b != [] {
      assert (a + b)[..|a + b| - 1] == a + b[..|b| - 1];
      WrittenMore(data, a, b[..|b| - 1]);
    } else {
      assert a + b == a;
    }
  }

  /** A backup file holds the initial data with all committed writes applied in
      order; the pending data adds those of the open transaction. */
  lemma {:induction false} BackupHistory(f: File, ops: seq<Op>)
    requires Valid(f) && f.settings.kind.Backup? && f.pending == NOTHING
    ensures var r := Run(f, ops);
            && r.committed.data == Written(f.committed.data, DoneWrites(ops))
            && OrElse(r.pending.data, r.committed.data) == Written(Written(f.committed.data, DoneWrites(ops)), OpenWrites(ops))
    decreases |ops|
  {
    hide LastOf, Slot, Splice, Capacity, Apply;
    if ops != [] {
      var before := ops[..|ops| - 1];
      BackupHistory(f, before);
      RunValid(f, before);
      assert before + [ops[|ops| - 1]] == ops;
      BackupStep(f, before, Run(f, before), ops[|ops| - 1]);
    }
  }

  lemma WritesSnoc(before: seq<Op>, op: Op)
    ensures DoneWrites(before + [op]) == DoneWrites(before) + if op.Commit? then OpenWrites(before) else []
    ensures OpenWrites(before + [op]) == if op.Commit? || op.Abort? then []
                                         else OpenWrites(before) + if Lands(op) then [Write(op.offset, op.bytes)] else []
  {
    assert (before + [op])[..|before|] == before;
  }

  lemma WrittenOne(data: Bytes, w: seq<Write>, x: Write)
    requires |data| == FILE_DATA && (forall y <- w :: y.offset + |y.bytes| <= FILE_DATA) && x.offset + |x.bytes| <= FILE_DATA
    ensures Written(data, w + [x]) == Splice(Written(data, w), x.offset, x.bytes)
  {
    hide Splice;
    assert (w + [x])[..|w|] == w;
  }

  lemma BackupStep(f: File, before: seq<Op>, r: File, op: Op)
    requires |f.committed.data| == |r.committed.data| == FILE_DATA && r.settings.kind.Backup?
    requires r.committed.data == Written(f.committed.data, DoneWrites(before))
    requires OrElse(r.pending.data, r.committed.data) == Written(Written(f.committed.data, DoneWrites(before)), OpenWrites(before))
    ensures var ops, t := before + [op], Apply(r, op);
            && t.committed.data == Written(f.committed.data, DoneWrites(ops))
            && OrElse(t.pending.data, t.committed.data) == Written(Written(f.committed.data, DoneWrites(ops)), OpenWrites(ops))
  {
    hide LastOf, Slot, Splice, DoneWrites, OpenWrites;
    var d, w := DoneWrites(before), OpenWrites(before);
    WritesSnoc(before, op);
    assert d + [] == d && w + [] == w;
    if op.Commit? {
      assert forall x <- d + w :: x in d || x in w;
      WrittenMore(f.committed.data, d, w);
    } else if Lands(op) {
      WrittenOne(Written(f.committed.data, d), w, Write(op.offset, op.bytes));
    }
  }

  //--------------------------------------------------------------------------
  // all files of the card
  //--------------------------------------------------------------------------

  datatype Command = Command(fileNo: byte, op: Op)

  /** The write commands, as the card reads them off a received frame. A full
      frame is taken for the first part of a chained write, which the card does
      not reassemble; data that does not have the declared length, with or
      without a MAC, is taken for enciphered. */
  function Reads(tx: Bytes, macLen: nat): Option<Command> {
    hide WritePayload, FromU24;
    if tx == [] || (tx[0] != WRITE_RECORD && tx[0] != WRITE_DATA && tx[0] != UPDATE_RECORD) then None
    else if |tx| == FULL_FRAME then Some(Command(tx[1], Forget))
    else if tx[0] == WRITE_RECORD then
      if |tx| == 1 then Some(Command(0, Abort)) else Some(Command(tx[1], WriteRecord(Carried(tx, macLen))))
    else if tx[0] == WRITE_DATA && |tx| > 8 then
      var b := Carried(tx, macLen);
      Some(Command(tx[1], if b.Some? then WriteData(FromU24(tx[2..5]), b.value) else Forget))
    else None
  }

  /** mock_find_file: the first file of that number, or the count if none. */
  function Find(st: seq<File>, fileNo: byte): (i: nat)
    ensures i <= |st|
    ensures i < |st| ==> st[i].settings.fileNo == fileNo
    ensures forall j | 0 <= j < i :: st[j].settings.fileNo != fileNo
  {
    if st == [] || st[0].settings.fileNo == fileNo then 0 else 1 + Find(st[1..], fileNo)
  }

  /** A record written to no file or to one that takes none is refused, and that
      ends the transaction on the whole card. */
  predicate RecordRefused(st: seq<File>, c: Command) {
    c.op.WriteRecord? && (Find(st, c.fileNo) == |st| || !IsRecordFile(st[Find(st, c.fileNo)].settings))
  }

  /** The operation a command means for file `i`, if any. */
  function Reaching(st: seq<File>, c: Command, i: nat): Option<Op> {
    if c.op.Commit? || c.op.Abort? then Some(c.op)
    else if RecordRefused(st, c) then Some(Abort)
    else if Find(st, c.fileNo) == i then Some(c.op)
    else None
  }

  function Execute(st: seq<File>, c: Command): (r: seq<File>)
    ensures |r| == |st|
  {
    hide Apply, Reaching;
    seq(|st|, i requires 0 <= i < |st| =>
      var o := Reaching(st, c, i);
      if o.Some? then Apply(st[i], o.value) else st[i])
  }

  function RunAll(st: seq<File>, cs: seq<Command>): (r: seq<File>)
    ensures |r| == |st|
  {
    hide Execute;
    if cs == [] then st else Execute(RunAll(st, cs[..|cs| - 1]), cs[|cs| - 1])
  }

  /** The operations of a run that concern file `i`. */
  function Concerning(st: seq<File>, cs: seq<Command>, i: nat): seq<Op> {
    hide Reaching;
    if cs == [] then []
    else
      var o := Reaching(st, cs[|cs| - 1], i);
      Concerning(st, cs[..|cs| - 1], i) + if o.Some? then [o.value] else []
  }

  /** Finding a file depends on the settings only, and those stay. */
  lemma {:induction false} SameFind(st: seq<File>, t: seq<File>, fileNo: byte)
    requires |st| == |t| && forall i | 0 <= i < |st| :: st[i].settings == t[i].settings
    ensures Find(st, fileNo) == Find(t, fileNo)
  {
    if st != [] {
      SameFind(st[1..], t[1..], fileNo);
    }
  }

  lemma ApplySettings(f: File, op: Op)
    ensures Apply(f, op).settings == f.settings
  {
    hide LastOf, Slot, Splice;
  }

  lemma {:induction false} SettingsStay(st: seq<File>, cs: seq<Command>)
    ensures forall i | 0 <= i < |st| :: RunAll(st, cs)[i].settings == st[i].settings
    decreases |cs|
  {
    hide Apply, Reaching;
    if cs != [] {
      var before, c := RunAll(st, cs[..|cs| - 1]), cs[|cs| - 1];
      SettingsStay(st, cs[..|cs| - 1]);
      forall i | 0 <= i < |st| ensures Execute(before, c)[i].settings == before[i].settings {
        if Reaching(before, c, i).Some? {
          ApplySettings(before[i], Reaching(before, c, i).value);
        }
      }
    }
  }

  /** Each file goes through exactly the operations that concern it. */
  lemma {:induction false} FilesAreIndependent(st: seq<File>, cs: seq<Command>, i: nat)
    requires i < |st|
    ensures RunAll(st, cs)[i] == Run(st[i], Concerning(st, cs, i))
    decreases |cs|
  {
    hide Apply, Reaching;
    if cs != [] {
      var prefix, c := cs[..|cs| - 1], cs[|cs| - 1];
      FilesAreIndependent(st, prefix, i);
      SameReaching(st, prefix, c, i);
      var ops, o := Concerning(st, prefix, i), Reaching(st, c, i);
      if o.Some? {
        assert (ops + [o.value])[..|ops|] == ops;
      } else {
        assert ops + [] == ops;
      }
    }
  }

  lemma SameReaching(st: seq<File>, cs: seq<Command>, c: Command, i: nat)
    ensures Reaching(RunAll(st, cs), c, i) == Reaching(st, c, i)
  {
    SettingsStay(st, cs);
    SameFind(RunAll(st, cs), st, c.fileNo);
  }

  /** For a whole card and any run of commands: every record file holds its last
      committed records, every value its initial value plus committed deltas,
      every backup file its committed writes. */
  lemma CardHistory(st: seq<File>, cs: seq<Command>, i: nat)
    requires i < |st| && Valid(st[i]) && st[i].pending == NOTHING
    ensures var f, ops := RunAll(st, cs)[i], Concerning(st, cs, i);
            && (IsRecordFile(st[i].settings) ==>
                  f.committed.records == LastOf(st[i].committed.records + DoneRecords(ops), Capacity(st[i].settings)))
            && (st[i].settings.kind.ValueFile? ==> f.committed.value == st[i].committed.value + DoneDelta(ops))
            && (st[i].settings.kind.Backup? ==> f.committed.data == Written(st[i].committed.data, DoneWrites(ops)))
  {
    hide Run, LastOf, Written, DoneRecords, DoneDelta, DoneWrites, RunAll, Concerning;
    var ops := Concerning(st, cs, i);
    FilesAreIndependent(st, cs, i);
    if IsRecordFile(st[i].settings) { RecordHistory(st[i], ops); }
    if st[i].settings.kind.ValueFile? { ValueHistory(st[i], ops); }
    if st[i].settings.kind.Backup? { BackupHistory(st[i], ops); }
  }
}
