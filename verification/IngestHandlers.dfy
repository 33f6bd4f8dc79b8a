/**
 The file and database handlers of a transfer request as they run: methods that change the
 stores and set the request's flags.  Run without interruption they are the store operations
 of `Ingest`, one after the other.
 */
module IngestHandlers {
  import opened Bytes
  import opened Options
  import opened Ingest

  /** The file handler: create, and if the file is there, check and perhaps overwrite. */
  function FileHandler(files: map<string, seq<Byte>>, db: map<Key, Record>, r: Request, m: Message,
                       create: Io, check: Io, overwrite: Io): Effect
  {
    var e := Perform(files, db, r, m, create);
    if !e.request.stage.CheckFile? then e
    else
      var f := Perform(e.files, e.db, e.request, m, check);
      if !f.request.stage.Overwrite? then f else Perform(f.files, f.db, f.request, m, overwrite)
  }

  /** The database handler: insert, and if the id is taken, check. */
  function DbHandler(files: map<string, seq<Byte>>, db: map<Key, Record>, r: Request, m: Message,
                     insert: Io, check: Io): Effect
  {
    var e := Perform(files, db, r, m, insert);
    if !e.request.stage.CheckRecord? then e else Perform(e.files, e.db, e.request, m, check)
  }

  class Transfer {
    const key: Key
    const message: Message
    var alreadyProcessed: bool
    var warned: bool

    constructor (key: Key, message: Message)
      ensures this.key == key && this.message == message && !alreadyProcessed && !warned
    {
      this.key, this.message, alreadyProcessed, warned := key, message, false, false;
    }

    /** The request at a stage, as `Ingest` sees it. */
    ghost function At(stage: Stage): Request
      reads this
    {
      Request(key, true, true, false, stage, warned, false)
    }
  }

  /** A name begins with a folder if and only if that is what stands before its first separator. */
  lemma FolderIsFront(name: string, pos: nat, folder: string)
    requires pos <= |name| && '/' !in name[..pos] && (pos < |name| ==> name[pos] == '/') && '/' !in folder
    ensures folder + "/" <= name <==> pos < |name| && name[..pos] == folder
  {
    if folder + "/" <= name {
      assert name[|folder|] == '/' && name[..|folder|] == folder;
    }
  }

  class Stores {
    var files: map<string, seq<Byte>>
    var db: map<Key, Record>

    constructor ()
      ensures files == map[] && db == map[]
    {
      files, db := map[], map[];
    }

    /** The folder for the file of a message, or nothing when its name or paths are refused. */
    method GetRootFolder(name: string, p: Paths) returns (root: Option<string>)
      ensures root == RootFolder(name, p)
    {
      var i := 0;
      while i + 1 < |name|
        invariant i >= 0 && forall k, l | 0 <= k < l == k + 1 < |name| && k < i :: !(name[k] == '.' && name[l] == '.')
      {
        if name[i] == '.' && name[i + 1] == '.' {
          return None;
        }
        i := i + 1;
      }
      var pos := 0;
      while pos < |name| && name[pos] != '/'
        invariant 0 <= pos <= |name| && '/' !in name[..pos]
      {
        pos := pos + 1;
      }
      FolderIsFront(name, pos, FolderOf(p));
      if pos == |name| || name[..pos] != FolderOf(p) {
        return None;
      }
      if p.processed || p.rawToOffline {
        return Some(p.offline);
      }
      return if p.online == "" then None else Some(p.online);
    }

    method ProcessFile(m: Message, overwrite: bool, io: Io) returns (res: FileResult)
      modifies this`files
      ensures files == WriteFile(old(files), m, overwrite, io) && res == WriteResult(old(files), m, overwrite, io)
    {
      if |m.bytes| <= 0 {
        return WrongSize;
      }
      var root := GetRootFolder(m.name, m.paths);
      if root.None? {
        return WrongName;
      }
      if m.name in files && !overwrite {
        return AlreadyExists;
      }
      match io
      case Fine =>
        files := files[m.name := m.bytes];
        return Written;
      case Fails(None) => return FileError;
      case Fails(Some(n)) =>
        files := files[m.name := if n < |m.bytes| then m.bytes[..n] else m.bytes];
        return FileError;
    }

    method CheckForDuplicates(t: Transfer, io: Io) returns (res: CheckResult)
      ensures res == CheckDuplicate(db, t.key, t.message, io)
    {
      if io.Fails? {
        return CheckError;
      }
      if t.key !in db {
        return NoRecord;
      }
      if SameRequestInRecord(t.message, db[t.key]) {
        return Duplicate;
      }
      return BadRequest;
    }

    /** Stores the file of a transfer; a duplicate is only marked as processed. */
    method FileProcess(t: Transfer, create: Io, check: Io, overwrite: Io) returns (ok: bool)
      requires !t.alreadyProcessed
      modifies this`files, t
      ensures
        var e := FileHandler(old(files), db, old(t.At(Create)), t.message, create, check, overwrite);
        && files == e.files && e.db == db && t.warned == e.request.warned
        && (ok <==> e.request.stage != Done(false))
        && (ok ==> (t.alreadyProcessed <==> e.request.stage == Done(true)))
    {
      var res := ProcessFile(t.message, false, create);
      if res != AlreadyExists {
        return res == Written;
      }
      var dup := CheckForDuplicates(t, check);
      if dup == NoRecord {
        t.warned := true;
        res := ProcessFile(t.message, true, overwrite);
        return res == Written;
      }
      if dup == Duplicate {
        t.alreadyProcessed, t.warned := true, true;
        return true;
      }
      return false;
    }

    /** Inserts the record of a transfer that is not already processed. */
    method DbWrite(t: Transfer, insert: Io, check: Io) returns (ok: bool)
      modifies this`db, t`warned
      ensures t.alreadyProcessed ==> ok && db == old(db) && t.warned == old(t.warned)
      ensures
        !t.alreadyProcessed ==>
          var e := DbHandler(files, old(db), old(t.At(InsertRecord)), t.message, insert, check);
          db == e.db && e.files == files && t.warned == e.request.warned && e.request.stage == Done(ok)
    {
      if t.alreadyProcessed {
        return true;
      }
      match insert
      case Fails(None) => return false;
      case Fails(Some(_)) =>
        if t.key !in db { db := db[t.key := RecordOf(t.message)]; }
        return false;
      case Fine =>
        if t.key !in db {
          db := db[t.key := RecordOf(t.message)];
          return true;
        }
        var dup := CheckForDuplicates(t, check);
        if dup == Duplicate {
          t.warned := true;
          return true;
        }
        return dup == NoRecord;
    }
  }
}
