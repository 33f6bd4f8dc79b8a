/**
 What one transfer leaves behind: the file and database handlers run on any two stores, in
 terms of the fields of the message, and the folder a file name leads to.
 */
module IngestOutcomes {
  import opened Bytes
  import opened Options
  import opened Ingest
  import opened IngestHandlers

  // ---------------------------------------------------------------------------------------
  // Duplicates
  // ---------------------------------------------------------------------------------------

  /** The record a message is stored as. */
  function Stored(m: Message): Record {
    Record(m.name, |m.bytes|, if m.metadata == "" then "{}" else m.metadata)
  }

  /** A request is a duplicate exactly when size, name and metadata are those of the record. */
  lemma DuplicateExactly(db: map<Key, Record>, key: Key, m: Message)
    ensures CheckDuplicate(db, key, m, Fine) ==
            if key !in db then NoRecord
            else if db[key] == Stored(m) then Duplicate
            else BadRequest
  {
  }

  /** Both handlers, one after the other, on stores that do not fail. */
  function Transferred(files: map<string, seq<Byte>>, db: map<Key, Record>, r: Request, m: Message): Effect {
    var e := if r.stage.Create? then FileHandler(files, db, r, m, Fine, Fine, Fine) else Effect(files, db, r);
    if e.request.stage.InsertRecord? then DbHandler(e.files, e.db, e.request, m, Fine, Fine) else e
  }

  /** The database handler by itself. */
  lemma DbOutcome(files: map<string, seq<Byte>>, db: map<Key, Record>, r: Request, m: Message)
    requires r.stage.InsertRecord?
    ensures
      var e, known := DbHandler(files, db, r, m, Fine, Fine), r.key in db;
      && e.files == files
      && e.db == (if known then db else db[r.key := Stored(m)])
      && e.request.stage == Done(!known || db[r.key] == Stored(m))
      && (e.request.warned <==> r.warned || (known && db[r.key] == Stored(m)))
  {
    DuplicateExactly(db, r.key, m);
  }

  lemma WriteOutcome(files: map<string, seq<Byte>>, db: map<Key, Record>, r: Request, m: Message)
    requires r.stage.Create? || r.stage.Overwrite?
    ensures Perform(files, db, r, m, Fine) ==
            if !Storable(m) then Effect(files, db, r.(stage := Done(false)))
            else if r.stage.Create? && m.name in files then Effect(files, db, r.(stage := CheckFile))
            else Effect(files[m.name := m.bytes], db, r.(stage := AfterFile(r.toDb)))
  {
    hide RootFolder;
  }

  lemma FileCheckOutcome(files: map<string, seq<Byte>>, db: map<Key, Record>, r: Request, m: Message)
    requires r.stage.CheckFile?
    ensures Perform(files, db, r, m, Fine) ==
            Effect(files, db,
                   if r.key !in db then r.(stage := Overwrite, warned := true)
                   else if db[r.key] == Stored(m) then r.(stage := Done(true), warned := true)
                   else r.(stage := Done(false)))
  {
    DuplicateExactly(db, r.key, m);
  }

  /** The file handler by itself. */
  lemma FileOutcome(files: map<string, seq<Byte>>, db: map<Key, Record>, r: Request, m: Message)
    requires r.stage.Create?
    ensures
      var e := FileHandler(files, db, r, m, Fine, Fine, Fine);
      var there, known := m.name in files, r.key in db;
      && e.db == db && Same(r, e.request)
      && (!Storable(m) ==> e.files == files && e.request == r.(stage := Done(false)))
      && (Storable(m) ==>
            && e.files == (if there && known then files else files[m.name := m.bytes])
            && e.request.stage == (if there && known then Done(db[r.key] == Stored(m)) else AfterFile(r.toDb))
            && (e.request.warned <==> r.warned || (there && (!known || db[r.key] == Stored(m)))))
  {
    hide Perform, Storable, Stored;
    WriteOutcome(files, db, r, m);
    FileCheckOutcome(files, db, r.(stage := CheckFile), m);
    WriteOutcome(files, db, r.(stage := Overwrite, warned := true), m);
  }

  /**
   The outcome of every transfer to file and database.  A new message is stored, file and
   record.  A retry succeeds with a warning.  A request that conflicts with the record of its
   key fails; it leaves both stores alone if and only if a file of its name is there already.
   */
  lemma TransferOutcome(files: map<string, seq<Byte>>, db: map<Key, Record>, r: Request, m: Message)
    requires r.stage.Create? && r.toFile && r.toDb && Storable(m)
    ensures
      var e := Transferred(files, db, r, m);
      var there, known := m.name in files, r.key in db;
      var same := known && db[r.key] == Stored(m);
      && e.files == (if there && known then files else files[m.name := m.bytes])
      && e.db == (if known then db else db[r.key := Stored(m)])
      && e.request.stage == Done(!known || same)
      && (e.request.warned <==> r.warned || same || (there && !known))
  {
    hide FileHandler, DbHandler, Storable;
    FileOutcome(files, db, r, m);
    var f := FileHandler(files, db, r, m, Fine, Fine, Fine);
    if f.request.stage.InsertRecord? { DbOutcome(f.files, f.db, f.request, m); }
  }

  /** A conflicting request fails and changes no record; it can only add the file of a new name. */
  lemma ConflictsAreRefused(files: map<string, seq<Byte>>, db: map<Key, Record>, r: Request, m: Message)
    requires r.stage.Create? && r.toFile && r.toDb && r.key in db && db[r.key] != Stored(m)
    ensures
      var e := Transferred(files, db, r, m);
      && e.request.stage == Done(false) && e.db == db
      && (e.files == files <==> m.name in files || !Storable(m))
      && (forall f | f in files :: f in e.files && e.files[f] == files[f])
  {
    hide FileHandler, DbHandler, Storable;
    if Storable(m) { TransferOutcome(files, db, r, m); } else { FileOutcome(files, db, r, m); }
  }

  // ---------------------------------------------------------------------------------------
  // Every record has its file
  // ---------------------------------------------------------------------------------------

  /** Every request stores its file first. */
  ghost predicate AllToFile(w: World) {
    w.filed == w.db.Keys && forall id | id in w.requests :: w.requests[id].toFile
  }

  lemma {:induction false} RunsFile(c: Catalog, w: World, ops: seq<Op>)
    requires Legal(c, w, ops) && AllToFile(w) && forall i | 0 <= i < |ops| :: ops[i].Begin? ==> ops[i].toFile
    ensures AllToFile(Run(c, w, ops))
    decreases |ops|
  {
    hide Perform;
    if ops != [] {
      var op := ops[0];
      if op.Act? {
        var r := w.requests[op.id];
        PerformShape(w.files, w.db, r, c[r.key], op.io);
      }
      RunsFile(c, Step(c, w, op), ops[1..]);
    }
  }

  /**
   In every interleaving without a harmful step in which every request stores its file, every
   record of the database has its whole file.
   */
  lemma RecordsHaveFiles(c: Catalog, ops: seq<Op>, k: Key)
    requires Distinct(c) && Legal(c, EMPTY, ops) && Harmless(c, EMPTY, ops)
    requires forall i | 0 <= i < |ops| :: ops[i].Begin? ==> ops[i].toFile
    requires k in Run(c, EMPTY, ops).db
    ensures
      var w := Run(c, EMPTY, ops);
      k in c && w.db[k] == Stored(c[k]) && c[k].name in w.files && w.files[c[k].name] == c[k].bytes
  {
    RunsFile(c, EMPTY, ops);
    FilesOfRecordsAreWhole(c, ops, k);
  }

  // ---------------------------------------------------------------------------------------
  // Folders
  // ---------------------------------------------------------------------------------------

  /** Two dots in a row somewhere in the name. */
  ghost predicate ContainsDots(name: string) {
    exists a: string, b: string :: name == a + ".." + b
  }

  lemma DotsByParts(name: string)
    ensures HasDots(name) <==> ContainsDots(name)
  {
    if HasDots(name) {
      var i, j :| 0 <= i < j == i + 1 < |name| && name[i] == '.' && name[j] == '.';
      assert name == name[..i] + ".." + name[i + 2..];
    }
    if ContainsDots(name) {
      var a: string, b: string :| name == a + ".." + b;
      assert name[|a|] == '.' && name[|a| + 1] == '.';
    }
  }

  /** The name is the folder, a slash and something behind it. */
  ghost predicate LiesIn(name: string, folder: string) {
    exists rest: string :: name == folder + "/" + rest
  }

  /**
   A file has a folder exactly when its name lies in the folder of its source type, holds no
   two dots in a row, and the online path is known where it is needed; processed data and raw
   data kept offline go to the offline path, other raw data to the online path.
   */
  lemma FoldersExactly(name: string, p: Paths)
    ensures
      RootFolder(name, p) ==
        if ContainsDots(name) || !LiesIn(name, if p.processed then "processed" else "raw") then None
        else if p.processed || p.rawToOffline then Some(p.offline)
        else if p.online != "" then Some(p.online)
        else None
  {
    DotsByParts(name);
    var folder := if p.processed then "processed" else "raw";
    if folder + "/" <= name {
      assert name == folder + "/" + name[|folder| + 1..];
    }
    if LiesIn(name, folder) {
      var rest: string :| name == folder + "/" + rest;
      assert name[..|folder| + 1] == folder + "/";
    }
  }
}
