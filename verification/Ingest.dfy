/**
 Ingest of messages by many connections at once.  Every store operation of a request (create
 a file, look up a record, overwrite a file, insert a record) is one step, steps of different
 requests interleave freely, and a write to the file store may fail half-way, as it does when
 a producer that sends straight into a file disconnects.
 */
module Ingest {
  import opened Options
  import opened Bytes

  /** Stream, id, and the substream of a dataset message. */
  datatype Key = Key(stream: string, id: nat, substream: Option<nat>)

  /** Where a request may store its file. */
  datatype Paths = Paths(processed: bool, rawToOffline: bool, offline: string, online: string)

  datatype Message = Message(name: string, metadata: string, bytes: seq<Byte>, paths: Paths)

  datatype Record = Record(name: string, size: nat, metadata: string)

  /** Empty metadata is stored as an empty document. */
  function StoredMetadata(metadata: string): string {
    if metadata == "" then "{}" else metadata
  }

  function RecordOf(m: Message): Record {
    Record(m.name, |m.bytes|, StoredMetadata(m.metadata))
  }

  predicate SameRequestInRecord(m: Message, r: Record) {
    |m.bytes| == r.size && m.name == r.name && StoredMetadata(m.metadata) == r.metadata
  }

  predicate HasDots(name: string) {
    exists i, j | 0 <= i < j == i + 1 < |name| :: name[i] == '.' && name[j] == '.'
  }

  function FolderOf(p: Paths): string { if p.processed then "processed" else "raw" }

  /** The folder a file goes to; names that lead elsewhere and missing paths are refused. */
  function RootFolder(name: string, p: Paths): Option<string> {
    if HasDots(name) || !(FolderOf(p) + "/" <= name) then None
    else if p.processed || p.rawToOffline then Some(p.offline)
    else if p.online == "" then None
    else Some(p.online)
  }

  /** Whether a message makes a file at all: it is not empty and has a folder to go to. */
  predicate Storable(m: Message) {
    m.bytes != [] && RootFolder(m.name, m.paths).Some?
  }

  // ---------------------------------------------------------------------------------------
  // Store operations
  // ---------------------------------------------------------------------------------------

  /**
   What the environment does to one store operation.  A failed write may have created or
   truncated the file and written some of its bytes; a failed insert may have stored the record.
   */
  datatype Io = Fine | Fails(written: Option<nat>)

  datatype FileResult = Written | AlreadyExists | WrongSize | WrongName | FileError

  datatype CheckResult = NoRecord | Duplicate | BadRequest | CheckError

  datatype InsertResult = Inserted | DuplicateId | InsertError

  /** The write fails with less than all bytes written. */
  predicate Cut(m: Message, io: Io) {
    Storable(m) && io.Fails? && io.written.Some? && io.written.value < |m.bytes|
  }

  /** What a write leaves in the file. */
  function Left(m: Message, io: Io): seq<Byte> {
    if Cut(m, io) then m.bytes[..io.written.value] else m.bytes
  }

  function WriteResult(files: map<string, seq<Byte>>, m: Message, overwrite: bool, io: Io): FileResult {
    if m.bytes == [] then WrongSize
    else if RootFolder(m.name, m.paths).None? then WrongName
    else if m.name in files && !overwrite then AlreadyExists
    else if io.Fine? then Written else FileError
  }

  /** The file store after a write; it is untouched when the file could not even be opened. */
  function WriteFile(files: map<string, seq<Byte>>, m: Message, overwrite: bool, io: Io): map<string, seq<Byte>> {
    var res := WriteResult(files, m, overwrite, io);
    if res.Written? || (res.FileError? && io.Fails? && io.written.Some?) then files[m.name := Left(m, io)] else files
  }

  function CheckDuplicate(db: map<Key, Record>, key: Key, m: Message, io: Io): CheckResult {
    if io.Fails? then CheckError
    else if key !in db then NoRecord
    else if SameRequestInRecord(m, db[key]) then Duplicate
    else BadRequest
  }

  function InsertOutcome(db: map<Key, Record>, key: Key, io: Io): InsertResult {
    if io.Fails? then InsertError else if key in db then DuplicateId else Inserted
  }

  function Insert(db: map<Key, Record>, key: Key, m: Message, io: Io): map<Key, Record> {
    if key in db || io == Fails(None) then db else db[key := RecordOf(m)]
  }

  // ---------------------------------------------------------------------------------------
  // Requests as processes
  // ---------------------------------------------------------------------------------------

  /** The next store operation of a request, or how it ended. */
  datatype Stage = Create | CheckFile | Overwrite | InsertRecord | CheckRecord | Done(ok: bool)

  /**
   `toFile` and `toDb` say which handlers are in its chain, `again` that its record was there
   when it began; `hurt` records an error of a store.
   */
  datatype Request = Request(key: Key, toFile: bool, toDb: bool, again: bool, stage: Stage, warned: bool, hurt: bool)

  /** `filed` holds the keys whose record was inserted by a request that also stored the file. */
  datatype World = World(
    files: map<string, seq<Byte>>,
    db: map<Key, Record>,
    filed: set<Key>,
    requests: map<nat, Request>)

  /** What each key stands for: the name, metadata and bytes every request with that key carries. */
  type Catalog = map<Key, Message>

  /** Different keys use different names. */
  predicate Distinct(c: Catalog) {
    forall k, k' | k in c && k' in c && k != k' :: c[k].name != c[k'].name
  }

  datatype Op =
    | Begin(id: nat, key: Key, toFile: bool, toDb: bool)
    | Act(id: nat, io: Io)

  predicate Enabled(c: Catalog, w: World, op: Op) {
    match op
    case Begin(id, key, _, _) => key in c && (id in w.requests ==> w.requests[id].stage.Done?)
    case Act(id, _) => id in w.requests && w.requests[id].key in c && !w.requests[id].stage.Done?
  }

  function AfterFile(toDb: bool): Stage {
    if toDb then InsertRecord else Done(true)
  }

  function FirstStage(toFile: bool, toDb: bool): Stage {
    if toFile then Create else AfterFile(toDb)
  }

  function Put(w: World, id: nat, r: Request): World {
    w.(requests := w.requests[id := r])
  }

  function Failed(r: Request): Request {
    r.(stage := Done(false), hurt := true)
  }

  /** The same request at another stage. */
  predicate Same(r: Request, n: Request) {
    n.key == r.key && n.toFile == r.toFile && n.toDb == r.toDb && n.again == r.again
  }

  function AfterWrite(r: Request, res: FileResult): (n: Request)
    ensures Same(r, n) && !n.stage.Overwrite? && !n.stage.Create? && !n.stage.CheckRecord?
    ensures n.stage.InsertRecord? ==> res.Written? && r.toDb
    ensures n.hurt <==> r.hurt || res.FileError?
  {
    match res
    case Written => r.(stage := AfterFile(r.toDb))
    case AlreadyExists => r.(stage := CheckFile)
    case WrongSize => r.(stage := Done(false))
    case WrongName => r.(stage := Done(false))
    case FileError => Failed(r)
  }

  /** A duplicate request is ignored with a warning; without a record the file is overwritten, with a warning too. */
  function AfterFileCheck(r: Request, res: CheckResult): (n: Request)
    ensures Same(r, n) && (n.stage.Overwrite? || n.stage.Done?)
    ensures n.stage.Overwrite? ==> res.NoRecord?
    ensures n.hurt <==> r.hurt || res.CheckError?
  {
    match res
    case NoRecord => r.(stage := Overwrite, warned := true)
    case Duplicate => r.(stage := Done(true), warned := true)
    case BadRequest => r.(stage := Done(false))
    case CheckError => Failed(r)
  }

  function AfterInsert(r: Request, res: InsertResult): (n: Request)
    ensures Same(r, n) && (n.stage.CheckRecord? || n.stage.Done?)
    ensures n.stage.CheckRecord? ==> res.DuplicateId?
    ensures n.hurt <==> r.hurt || res.InsertError?
  {
    match res
    case Inserted => r.(stage := Done(true))
    case DuplicateId => r.(stage := CheckRecord)
    case InsertError => Failed(r)
  }

  function AfterRecordCheck(r: Request, res: CheckResult): (n: Request)
    ensures Same(r, n) && n.stage.Done?
    ensures n.hurt <==> r.hurt || res.CheckError?
  {
    match res
    case NoRecord => r.(stage := Done(true))
    case Duplicate => r.(stage := Done(true), warned := true)
    case BadRequest => r.(stage := Done(false))
    case CheckError => Failed(r)
  }

  /** Both stores and the request after its next store operation. */
  datatype Effect = Effect(files: map<string, seq<Byte>>, db: map<Key, Record>, request: Request)

  function Perform(files: map<string, seq<Byte>>, db: map<Key, Record>, r: Request, m: Message, io: Io): Effect {
    match r.stage
    case Create => Effect(WriteFile(files, m, false, io), db, AfterWrite(r, WriteResult(files, m, false, io)))
    case CheckFile => Effect(files, db, AfterFileCheck(r, CheckDuplicate(db, r.key, m, io)))
    case Overwrite => Effect(WriteFile(files, m, true, io), db, AfterWrite(r, WriteResult(files, m, true, io)))
    case InsertRecord => Effect(files, Insert(db, r.key, m, io), AfterInsert(r, InsertOutcome(db, r.key, io)))
    case CheckRecord => Effect(files, db, AfterRecordCheck(r, CheckDuplicate(db, r.key, m, io)))
    case Done(_) => Effect(files, db, r)
  }

  function Step(c: Catalog, w: World, op: Op): World
    requires Enabled(c, w, op)
  {
    match op
    case Begin(id, key, toFile, toDb) =>
      Put(w, id, Request(key, toFile, toDb, key in w.db, FirstStage(toFile, toDb), false, false))
    case Act(id, io) =>
      var r := w.requests[id];
      var e := Perform(w.files, w.db, r, c[r.key], io);
      var filed := if r.toFile && r.key in e.db && r.key !in w.db then w.filed + {r.key} else w.filed;
      World(e.files, e.db, filed, w.requests[id := e.request])
  }

  // ---------------------------------------------------------------------------------------
  // Files of records are intact
  // ---------------------------------------------------------------------------------------

  predicate Intact(c: Catalog, w: World, k: Key)
    requires k in c
  {
    c[k].name in w.files && w.files[c[k].name] == c[k].bytes
  }

  /** Holds a file, by having stored it, and is about to insert the record. */
  predicate Relies(r: Request) {
    r.stage.InsertRecord? && r.toFile
  }

  /** Every record is the one its key stands for. */
  ghost predicate RecordsRight(c: Catalog, w: World) {
    forall k | k in w.db :: k in c && w.db[k] == RecordOf(c[k])
  }

  /** Records are right, and every file that is counted on is whole. */
  ghost predicate Safe(c: Catalog, w: World) {
    && RecordsRight(c, w)
    && (forall k | k in w.filed :: k in w.db && k in c && Intact(c, w, k))
    && (forall id | id in w.requests ::
          w.requests[id].key in c && (Relies(w.requests[id]) ==> Intact(c, w, w.requests[id].key)))
  }

  /** An overwrite that fails and leaves less than the whole file behind. */
  predicate Truncates(c: Catalog, w: World, op: Op) {
    && op.Act? && op.id in w.requests && w.requests[op.id].stage.Overwrite? && w.requests[op.id].key in c
    && Cut(c[w.requests[op.id].key], op.io)
  }

  /** Someone else counts on that file: its record is stored, or is about to be. */
  predicate Counted(w: World, id: nat, k: Key) {
    k in w.filed || exists other :: other in w.requests && other != id && w.requests[other].key == k && Relies(w.requests[other])
  }

  predicate Harmful(c: Catalog, w: World, op: Op) {
    Truncates(c, w, op) && Counted(w, op.id, w.requests[op.id].key)
  }

  /** Writing the file of one key: whole, or with nobody counting on it. */
  lemma WriteIsSafe(c: Catalog, w: World, id: nat, k: Key, bytes: seq<Byte>)
    requires Distinct(c) && Safe(c, w) && k in c && id in w.requests && !Relies(w.requests[id])
    requires bytes == c[k].bytes || !Counted(w, id, k)
    ensures Safe(c, w.(files := w.files[c[k].name := bytes]))
  {
    var n := w.(files := w.files[c[k].name := bytes]);
    forall k' | k' in c && Intact(c, w, k') && (k' != k || bytes == c[k].bytes) ensures Intact(c, n, k') { }
  }

  /** What one store operation may change in the database and of the request. */
  lemma PerformShape(files: map<string, seq<Byte>>, db: map<Key, Record>, r: Request, m: Message, io: Io)
    ensures
      var e := Perform(files, db, r, m, io);
      && Same(r, e.request)
      && (e.db == db || (r.stage.InsertRecord? && r.key !in db && e.db == db[r.key := RecordOf(m)]))
      && (!r.stage.Done? && e.request.stage.Overwrite? ==> r.key !in e.db)
  {
    hide SameRequestInRecord, RecordOf, WriteFile, AfterWrite, AfterFileCheck, AfterInsert, AfterRecordCheck;
  }

  /** What it may change in the file store. */
  lemma PerformFiles(files: map<string, seq<Byte>>, db: map<Key, Record>, r: Request, m: Message, io: Io)
    ensures
      var e := Perform(files, db, r, m, io);
      && (r.stage.InsertRecord? ==> e.files == files)
      && (!r.stage.Done? && e.request.stage.InsertRecord? ==> e.db == db && e.files == files[m.name := m.bytes])
      && (e.files == files || (e.files == files[m.name := Left(m, io)] && (m.name in files ==> r.stage.Overwrite?)))
  {
    hide CheckDuplicate, Insert, AfterWrite, AfterFileCheck, AfterInsert, AfterRecordCheck;
  }

  /** Nobody counts on a file that is not there. */
  lemma NobodyCounts(c: Catalog, w: World, id: nat, k: Key)
    requires Safe(c, w) && k in c && !Intact(c, w, k)
    ensures !Counted(w, id, k)
  {
  }

  lemma FileStepIsSafe(c: Catalog, w: World, id: nat, io: Io)
    requires Distinct(c) && Safe(c, w) && Enabled(c, w, Act(id, io)) && !w.requests[id].stage.InsertRecord?
    requires !Harmful(c, w, Act(id, io))
    ensures Safe(c, Step(c, w, Act(id, io)))
  {
    hide Distinct, Counted, Safe, Perform;
    var r := w.requests[id];
    var k, m := r.key, c[r.key];
    PerformShape(w.files, w.db, r, m, io);
    PerformFiles(w.files, w.db, r, m, io);
    var e := Perform(w.files, w.db, r, m, io);
    var v := w.(files := e.files);
    if e.files != w.files {
      if m.name !in w.files { NobodyCounts(c, w, id, k); }
      WriteIsSafe(c, w, id, k, Left(m, io));
    }
    MoveIsSafe(c, v, id, e.request);
    assert Step(c, w, Act(id, io)) == Put(v, id, e.request);
  }

  lemma OverwriteBreaks(c: Catalog, w: World, id: nat, io: Io)
    requires Safe(c, w) && Enabled(c, w, Act(id, io)) && Harmful(c, w, Act(id, io))
    ensures !Safe(c, Step(c, w, Act(id, io)))
  {
    var k := w.requests[id].key;
    var n := Step(c, w, Act(id, io));
    assert !Intact(c, n, k);
    if k !in w.filed {
      var other :| other in w.requests && other != id && w.requests[other].key == k && Relies(w.requests[other]);
      assert n.requests[other] == w.requests[other];
    }
  }

  /** A step that only moves one request on. */
  lemma MoveIsSafe(c: Catalog, w: World, id: nat, r: Request)
    requires Safe(c, w) && r.key in c && (Relies(r) ==> Intact(c, w, r.key))
    ensures Safe(c, Put(w, id, r))
  {
    var n := Put(w, id, r);
    assert forall k | k in c && Intact(c, w, k) :: Intact(c, n, k);
  }

  lemma InsertIsSafe(c: Catalog, w: World, id: nat, io: Io)
    requires Safe(c, w) && Enabled(c, w, Act(id, io)) && w.requests[id].stage.InsertRecord?
    ensures Safe(c, Step(c, w, Act(id, io)))
  {
    hide Perform;
    var r := w.requests[id];
    PerformShape(w.files, w.db, r, c[r.key], io);
    PerformFiles(w.files, w.db, r, c[r.key], io);
    var n := Step(c, w, Act(id, io));
    assert forall k | k in c && Intact(c, w, k) :: Intact(c, n, k);
  }

  lemma BeginIsSafe(c: Catalog, w: World, id: nat, key: Key, toFile: bool, toDb: bool)
    requires Safe(c, w) && Enabled(c, w, Begin(id, key, toFile, toDb))
    ensures Safe(c, Step(c, w, Begin(id, key, toFile, toDb)))
  {
    hide Safe;
    MoveIsSafe(c, w, id, Request(key, toFile, toDb, key in w.db, FirstStage(toFile, toDb), false, false));
  }

  /** The exact boundary: from a safe state, a step stays safe if and only if it is not harmful. */
  lemma StepBoundary(c: Catalog, w: World, op: Op)
    requires Distinct(c) && Safe(c, w) && Enabled(c, w, op)
    ensures Safe(c, Step(c, w, op)) <==> !Harmful(c, w, op)
  {
    hide Safe, Step, Distinct;
    match op
    case Begin(id, key, toFile, toDb) => BeginIsSafe(c, w, id, key, toFile, toDb);
    case Act(id, io) =>
      if w.requests[id].stage.InsertRecord? { InsertIsSafe(c, w, id, io); }
      else if Harmful(c, w, op) { OverwriteBreaks(c, w, id, io); }
      else { FileStepIsSafe(c, w, id, io); }
  }

  // ---------------------------------------------------------------------------------------
  // Runs
  // ---------------------------------------------------------------------------------------

  ghost predicate Legal(c: Catalog, w: World, ops: seq<Op>)
    decreases |ops|
  {
    ops == [] || (Enabled(c, w, ops[0]) && Legal(c, Step(c, w, ops[0]), ops[1..]))
  }

  function Run(c: Catalog, w: World, ops: seq<Op>): World
    requires Legal(c, w, ops)
    decreases |ops|
  {
    if ops == [] then w else Run(c, Step(c, w, ops[0]), ops[1..])
  }

  /** No step of the run is harmful. */
  ghost predicate Harmless(c: Catalog, w: World, ops: seq<Op>)
    requires Legal(c, w, ops)
    decreases |ops|
  {
    ops == [] || (!Harmful(c, w, ops[0]) && Harmless(c, Step(c, w, ops[0]), ops[1..]))
  }

  lemma {:induction false} HarmlessRunsAreSafe(c: Catalog, w: World, ops: seq<Op>)
    requires Distinct(c) && Safe(c, w) && Legal(c, w, ops) && Harmless(c, w, ops)
    ensures Safe(c, Run(c, w, ops))
    decreases |ops|
  {
    hide Safe, Step, Distinct, Harmful, Enabled;
    if ops != [] {
      StepBoundary(c, w, ops[0]);
      HarmlessRunsAreSafe(c, Step(c, w, ops[0]), ops[1..]);
    }
  }

  const EMPTY: World := World(map[], map[], {}, map[])

  /**
   Main result: in every interleaving without a harmful step, each record that was stored
   along with its file has that file, with the bytes its key stands for.
   */
  lemma FilesOfRecordsAreWhole(c: Catalog, ops: seq<Op>, k: Key)
    requires Distinct(c) && Legal(c, EMPTY, ops) && Harmless(c, EMPTY, ops)
    requires k in Run(c, EMPTY, ops).filed
    ensures
      var w := Run(c, EMPTY, ops);
      && k in c && k in w.db
      && w.db[k] == Record(c[k].name, |c[k].bytes|, if c[k].metadata == "" then "{}" else c[k].metadata)
      && c[k].name in w.files && w.files[c[k].name] == c[k].bytes
  {
    HarmlessRunsAreSafe(c, EMPTY, ops);
  }

  /** No failed overwrite, no harm: so it is for transfers that are buffered before they are stored. */
  lemma {:induction false} SoundStoresAreHarmless(c: Catalog, w: World, ops: seq<Op>)
    requires Legal(c, w, ops) && forall i | 0 <= i < |ops| :: ops[i].Act? ==> ops[i].io.Fine?
    ensures Harmless(c, w, ops)
    decreases |ops|
  {
    if ops != [] { SoundStoresAreHarmless(c, Step(c, w, ops[0]), ops[1..]); }
  }

  // One request per key at a time

  predicate Active(r: Request) { !r.stage.Done? }

  /** A request begins only when no other request with its key is under way. */
  predicate OneAtATime(w: World, op: Op) {
    op.Begin? ==> forall id | id in w.requests && Active(w.requests[id]) :: w.requests[id].key != op.key
  }

  ghost predicate Serial(c: Catalog, w: World, ops: seq<Op>)
    requires Legal(c, w, ops)
    decreases |ops|
  {
    ops == [] || (OneAtATime(w, ops[0]) && Serial(c, Step(c, w, ops[0]), ops[1..]))
  }

  /** At most one active request per key, and one that overwrites a file has found no record. */
  ghost predicate Orderly(w: World) {
    && w.filed <= w.db.Keys
    && (forall i, j | i in w.requests && j in w.requests && i != j && Active(w.requests[i]) && Active(w.requests[j]) ::
          w.requests[i].key != w.requests[j].key)
    && (forall i | i in w.requests && w.requests[i].stage.Overwrite? :: w.requests[i].key !in w.db)
  }

  lemma OrderlyIsHarmless(c: Catalog, w: World, op: Op)
    requires Orderly(w)
    ensures !Harmful(c, w, op)
  {
  }

  /** What one step may change besides its own request. */
  lemma StepShape(c: Catalog, w: World, op: Op)
    requires Enabled(c, w, op)
    ensures
      var n, id := Step(c, w, op), op.id;
      && id in n.requests && n.requests == w.requests[id := n.requests[id]]
      && n.requests[id].key == (if op.Begin? then op.key else w.requests[id].key)
      && (n.requests[id].stage.Overwrite? ==> n.requests[id].key !in n.db)
      && (n.db == w.db || (op.Act? && var k := w.requests[id].key; k !in w.db && n.db == w.db[k := RecordOf(c[k])]))
      && w.filed <= n.filed <= w.filed + (n.db.Keys - w.db.Keys)
  {
    hide Perform, RecordOf;
    if op.Act? {
      var r := w.requests[op.id];
      PerformShape(w.files, w.db, r, c[r.key], op.io);
    }
  }

  lemma OrderlyStep(c: Catalog, w: World, op: Op)
    requires Orderly(w) && Enabled(c, w, op) && OneAtATime(w, op)
    ensures Orderly(Step(c, w, op))
  {
    hide Step;
    StepShape(c, w, op);
  }

  /** Whatever fails and whenever producers disconnect, handling one request per key at a time does no harm. */
  lemma {:induction false} SerialRunsAreHarmless(c: Catalog, w: World, ops: seq<Op>)
    requires Legal(c, w, ops) && Serial(c, w, ops) && Orderly(w)
    ensures Harmless(c, w, ops)
    decreases |ops|
  {
    hide Orderly, Step, Harmful, Enabled, OneAtATime;
    if ops != [] {
      OrderlyIsHarmless(c, w, ops[0]);
      OrderlyStep(c, w, ops[0]);
      SerialRunsAreHarmless(c, Step(c, w, ops[0]), ops[1..]);
    }
  }

  // ---------------------------------------------------------------------------------------
  // Records and outcomes
  // ---------------------------------------------------------------------------------------

  /** A transfer request adds records; it never changes or removes one. */
  lemma RecordsNeverChange(c: Catalog, w: World, op: Op)
    requires Enabled(c, w, op)
    ensures forall k | k in w.db :: k in Step(c, w, op).db && Step(c, w, op).db[k] == w.db[k]
  {
  }

  /**
   How a request ends: in error exactly after a store reported one or for a file that cannot
   be stored; with a warning if its record was there from the start; never in success
   without its record and its file.
   */
  predicate Fair(c: Catalog, w: World, r: Request) {
    && r.key in c
    && (r.again ==> r.key in w.db)
    && (r.stage == Done(false) ==> r.hurt || (r.toFile && !Storable(c[r.key])))
    && (r.hurt ==> r.stage == Done(false))
    && (r.toFile && !Storable(c[r.key]) ==> r.stage == Create || r.stage == Done(false))
    && (r.stage == Done(true) && r.toDb && r.again ==> r.warned)
    && (r.stage.CheckRecord? ==> r.key in w.db)
    && (r.stage.Overwrite? ==> r.toFile && !r.again)
    && (r.stage.Create? || r.stage.CheckFile? ==> r.toFile)
    && (r.toDb || !(r.stage.InsertRecord? || r.stage.CheckRecord?))
    && (r.stage == Done(true) && r.toDb ==> r.key in w.db)
    && (r.stage != Create && r.stage != Done(false) && r.toFile ==> c[r.key].name in w.files)
  }

  ghost predicate AllFair(c: Catalog, w: World) {
    RecordsRight(c, w) && forall id | id in w.requests :: Fair(c, w, w.requests[id])
  }

  /** More records and files never make a request unfair. */
  lemma FairWithMore(c: Catalog, w: World, n: World, r: Request)
    requires Fair(c, w, r) && (forall k | k in w.db :: k in n.db) && (forall f | f in w.files :: f in n.files)
    ensures Fair(c, n, r)
  {
  }

  lemma RecordMatches(c: Catalog, w: World, k: Key)
    requires RecordsRight(c, w) && k in w.db
    ensures k in c && SameRequestInRecord(c[k], w.db[k])
  {
  }

  lemma WriteKeeps(files: map<string, seq<Byte>>, m: Message, overwrite: bool, io: Io)
    ensures WriteResult(files, m, overwrite, io).Written? ==> m.name in WriteFile(files, m, overwrite, io)
    ensures forall f | f in files :: f in WriteFile(files, m, overwrite, io)
    ensures WriteResult(files, m, overwrite, io).AlreadyExists? ==> m.name in files
  {
  }

  lemma FairFileStages(c: Catalog, w: World, r: Request, io: Io)
    requires RecordsRight(c, w) && Fair(c, w, r) && (r.stage.Create? || r.stage.CheckFile? || r.stage.Overwrite?)
    ensures
      var e := Perform(w.files, w.db, r, c[r.key], io);
      Fair(c, w.(files := e.files, db := e.db), e.request)
  {
    hide WriteFile, SameRequestInRecord, RecordsRight;
    WriteKeeps(w.files, c[r.key], r.stage.Overwrite?, io);
    if r.key in w.db { RecordMatches(c, w, r.key); }
  }

  lemma FairRecordStages(c: Catalog, w: World, r: Request, io: Io)
    requires RecordsRight(c, w) && Fair(c, w, r) && (r.stage.InsertRecord? || r.stage.CheckRecord?)
    ensures
      var e := Perform(w.files, w.db, r, c[r.key], io);
      Fair(c, w.(files := e.files, db := e.db), e.request)
  {
    hide WriteFile, SameRequestInRecord, RecordsRight;
    if r.key in w.db { RecordMatches(c, w, r.key); }
  }

  lemma ActIsFair(c: Catalog, w: World, id: nat, io: Io)
    requires AllFair(c, w) && Enabled(c, w, Act(id, io))
    ensures AllFair(c, Step(c, w, Act(id, io)))
  {
    hide Perform, Fair;
    var r := w.requests[id];
    var e := Perform(w.files, w.db, r, c[r.key], io);
    var n := Step(c, w, Act(id, io));
    PerformShape(w.files, w.db, r, c[r.key], io);
    PerformFiles(w.files, w.db, r, c[r.key], io);
    if r.stage.InsertRecord? || r.stage.CheckRecord? { FairRecordStages(c, w, r, io); } else { FairFileStages(c, w, r, io); }
    forall j | j in n.requests ensures Fair(c, n, n.requests[j]) {
      if j == id { FairWithMore(c, w.(files := e.files, db := e.db), n, e.request); } else { FairWithMore(c, w, n, w.requests[j]); }
    }
  }

  lemma BeginIsFair(c: Catalog, w: World, op: Op)
    requires AllFair(c, w) && Enabled(c, w, op) && op.Begin?
    ensures AllFair(c, Step(c, w, op))
  {
    var n := Step(c, w, op);
    assert forall j | j in n.requests && j != op.id :: n.requests[j] == w.requests[j];
  }

  lemma {:induction false} RunsAreFair(c: Catalog, w: World, ops: seq<Op>)
    requires AllFair(c, w) && Legal(c, w, ops)
    ensures AllFair(c, Run(c, w, ops))
    decreases |ops|
  {
    hide AllFair, Step, Enabled;
    if ops != [] {
      if ops[0].Act? { ActIsFair(c, w, ops[0].id, ops[0].io); } else { BeginIsFair(c, w, ops[0]); }
      RunsAreFair(c, Step(c, w, ops[0]), ops[1..]);
    }
  }

  /** No store operation of this request fails. */
  predicate Unharmed(ops: seq<Op>, id: nat) {
    forall i | 0 <= i < |ops| :: ops[i].Act? && ops[i].id == id ==> ops[i].io.Fine?
  }

  lemma FineHurtsNobody(files: map<string, seq<Byte>>, db: map<Key, Record>, r: Request, m: Message)
    ensures Perform(files, db, r, m, Fine).request.hurt == r.hurt
  {
    hide WriteFile, SameRequestInRecord, RootFolder, Insert, AfterWrite, AfterFileCheck, AfterInsert, AfterRecordCheck;
  }

  /** A request is hurt only by a failure of its own store operations, whatever the others meet. */
  lemma {:induction false} OnlyOwnFailuresHurt(c: Catalog, w: World, ops: seq<Op>, id: nat)
    requires Legal(c, w, ops) && Unharmed(ops, id) && (id in w.requests ==> !w.requests[id].hurt)
    ensures id in Run(c, w, ops).requests ==> !Run(c, w, ops).requests[id].hurt
    decreases |ops|
  {
    hide Perform;
    if ops != [] {
      var op := ops[0];
      if op.Act? && op.id == id {
        assert op.io.Fine?;
        var r := w.requests[id];
        FineHurtsNobody(w.files, w.db, r, c[r.key]);
      }
      OnlyOwnFailuresHurt(c, Step(c, w, op), ops[1..], id);
    }
  }

  /**
   Main result: in every run, whatever the interleaving, a request that is through has
   succeeded if and only if no store failed it and its file, if it was to store one, can be
   stored; it has a warning if its record was already there when it began.  Its record is
   then in the database, and its file in the file store.  No store fails a request none of
   whose own operations fail.
   */
  lemma RetriesSucceed(c: Catalog, ops: seq<Op>, id: nat)
    requires Legal(c, EMPTY, ops) && id in Run(c, EMPTY, ops).requests
    ensures
      var w := Run(c, EMPTY, ops);
      var r := w.requests[id];
      && r.key in c
      && (r.stage.Done? ==> (r.stage == Done(true) <==> !r.hurt && !(r.toFile && !Storable(c[r.key]))))
      && (r.stage == Done(true) && r.toDb && r.again ==> r.warned)
      && (r.stage == Done(true) && r.toDb ==> r.key in w.db)
      && (r.stage == Done(true) && r.toFile ==> c[r.key].name in w.files)
      && (Unharmed(ops, id) ==> !r.hurt)
  {
    assert AllFair(c, EMPTY);
    RunsAreFair(c, EMPTY, ops);
    if Unharmed(ops, id) { OnlyOwnFailuresHurt(c, EMPTY, ops, id); }
  }

  /** The failing input: a file that is empty or has no folder ends in error although no store failed. */
  lemma UnstorableFails(c: Catalog, k: Key, toDb: bool) returns (ops: seq<Op>, w: World)
    requires k in c && !Storable(c[k])
    ensures Reached(c, ops, w) && Unharmed(ops, 0)
    ensures 0 in w.requests && w.requests[0].stage == Done(false) && !w.requests[0].hurt
  {
    hide Reached;
    StartReached(c);
    var begun, m := Then(c, [], EMPTY, Begin(0, k, true, toDb));
    ops, w := Then(c, begun, m, Act(0, Fine));
  }

  // ---------------------------------------------------------------------------------------
  // A failed overwrite loses a file that a record names
  // ---------------------------------------------------------------------------------------

  lemma {:induction false} OneMore(c: Catalog, w: World, ops: seq<Op>, op: Op)
    requires Legal(c, w, ops) && Enabled(c, Run(c, w, ops), op)
    ensures Legal(c, w, ops + [op]) && Run(c, w, ops + [op]) == Step(c, Run(c, w, ops), op)
    decreases |ops|
  {
    hide Step, Enabled;
    if ops == [] {
      assert [] + [op] == [op] && [op][1..] == [];
    } else {
      assert (ops + [op])[1..] == ops[1..] + [op];
      OneMore(c, Step(c, w, ops[0]), ops[1..], op);
    }
  }

  /** The stores and the first two requests after a run. */
  ghost predicate Reached(c: Catalog, ops: seq<Op>, w: World) {
    Legal(c, EMPTY, ops) && Run(c, EMPTY, ops) == w
  }

  lemma Then(c: Catalog, ops: seq<Op>, w: World, op: Op) returns (ops': seq<Op>, n: World)
    requires Reached(c, ops, w) && Enabled(c, w, op)
    ensures Reached(c, ops', n) && n == Step(c, w, op) && ops' == ops + [op]
  {
    hide Step, Enabled, Legal, Run;
    OneMore(c, EMPTY, ops, op);
    ops', n := ops + [op], Step(c, w, op);
  }

  /**
   Two requests for one message: the second finds the file but no record and begins to
   overwrite it; it fails after truncating the file, and then the first inserts the record.
   */
  lemma FileIsLost(c: Catalog, k: Key) returns (ops: seq<Op>, w: World)
    requires k in c && Storable(c[k])
    ensures Reached(c, ops, w)
    ensures k in w.filed && k in w.db && c[k].name in w.files && w.files[c[k].name] == []
  {
    hide Reached;
    ops, w := [], EMPTY;
    StartReached(c);
    ops, w := Then(c, ops, w, Begin(0, k, true, true));
    ops, w := Then(c, ops, w, Act(0, Fine));
    ops, w := Then(c, ops, w, Begin(1, k, true, true));
    ops, w := Then(c, ops, w, Act(1, Fine));
    ops, w := Then(c, ops, w, Act(1, Fine));
    ops, w := Then(c, ops, w, Act(1, Fails(Some(0))));
    ops, w := Then(c, ops, w, Act(0, Fine));
  }

  lemma StartReached(c: Catalog)
    ensures Reached(c, [], EMPTY)
  {
  }
}
