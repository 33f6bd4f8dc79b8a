/** Which handlers a request passes through, by its opcode, ingest mode and size. */
module RequestChain {
  import opened Options

  datatype Opcode =
    | TransferData | TransferDatasetData | TransferMetaData | Authorize
    | StreamInfo | DeleteStream | LastStream | GetMeta | OtherOpcode

  datatype Handler =
    | InitialAuthorize | SecondaryAuthorize | ReceiveMetadata
    | ReceiveData | FileWrite | FileReceive | DbWrite | DbMetaWrite
    | DbStreamInfo | DbDeleteStream | DbLastStream | DbGetMeta

  datatype Header = Header(op: Opcode, mode: nat, dataSize: nat)

  const META_DATA_ONLY: nat := 2

  predicate StoreInFilesystem(mode: nat) { mode / 4 % 2 == 1 }

  predicate StoreInDatabase(mode: nat) { mode / 8 % 2 == 1 }

  predicate NeedDbHandler(h: Header) {
    StoreInDatabase(h.mode) || h.mode == META_DATA_ONLY
  }

  /** Large data goes straight from the socket into the file. */
  predicate ReceiveDirectToFile(h: Header, thresholdMb: nat) {
    h.dataSize > thresholdMb * 1024 * 1024
  }

  /** The handlers of a request, in order, or None when the header is refused. */
  function Chain(h: Header, thresholdMb: nat): (r: Option<seq<Handler>>) {
    var auth := if h.op.Authorize? then [] else [SecondaryAuthorize];
    match h.op
    case TransferData | TransferDatasetData =>
      var store :=
        if ReceiveDirectToFile(h, thresholdMb) then
          if StoreInFilesystem(h.mode) then Some([FileReceive]) else None
        else Some([ReceiveData] + (if StoreInFilesystem(h.mode) then [FileWrite] else []));
      if store.None? then None
      else Some(auth + [ReceiveMetadata] + store.value + (if NeedDbHandler(h) then [DbWrite] else []))
    case TransferMetaData =>
      if NeedDbHandler(h) then Some(auth + [ReceiveData, DbMetaWrite]) else None
    case Authorize => Some([ReceiveMetadata, InitialAuthorize])
    case StreamInfo => Some(auth + [DbStreamInfo])
    case DeleteStream => Some(auth + [DbDeleteStream])
    case LastStream => Some(auth + [DbLastStream])
    case GetMeta => Some(auth + [DbGetMeta])
    case OtherOpcode => None
  }

  /** Handlers that touch data, files or the database. */
  predicate IsWork(h: Handler) {
    h !in {InitialAuthorize, SecondaryAuthorize, ReceiveMetadata}
  }

  /** Adds the handlers one by one, as the factory does, stopping at the first refusal. */
  method AddHandlers(h: Header, thresholdMb: nat) returns (handlers: seq<Handler>, ok: bool)
    ensures ok <==> Chain(h, thresholdMb).Some?
    ensures ok ==> handlers == Chain(h, thresholdMb).value
  {
    handlers, ok := [], true;
    if !h.op.Authorize? {
      handlers := handlers + [SecondaryAuthorize];
    }
    match h.op
    case TransferData | TransferDatasetData =>
      handlers := handlers + [ReceiveMetadata];
      if ReceiveDirectToFile(h, thresholdMb) {
        if !StoreInFilesystem(h.mode) {
          return handlers, false;
        }
        handlers := handlers + [FileReceive];
      } else {
        handlers := handlers + [ReceiveData];
        if StoreInFilesystem(h.mode) {
          handlers := handlers + [FileWrite];
        }
      }
      if NeedDbHandler(h) {
        handlers := handlers + [DbWrite];
      }
    case TransferMetaData =>
      if !NeedDbHandler(h) {
        return handlers, false;
      }
      handlers := handlers + [ReceiveData, DbMetaWrite];
    case Authorize => handlers := handlers + [ReceiveMetadata, InitialAuthorize];
    case StreamInfo => handlers := handlers + [DbStreamInfo];
    case DeleteStream => handlers := handlers + [DbDeleteStream];
    case LastStream => handlers := handlers + [DbLastStream];
    case GetMeta => handlers := handlers + [DbGetMeta];
    case OtherOpcode => ok := false;
  }

  /**
   Every handler that does work comes after the secondary authorization, which comes first
   or not at all, and never together with the initial one.
   */
  lemma WorkFollowsAuthorization(h: Header, thresholdMb: nat)
    requires Chain(h, thresholdMb).Some?
    ensures
      var hs := Chain(h, thresholdMb).value;
      if h.op.Authorize? then hs == [ReceiveMetadata, InitialAuthorize]
      else
        && hs != [] && hs[0] == SecondaryAuthorize
        && forall i | 0 < i < |hs| :: hs[i] != SecondaryAuthorize && hs[i] != InitialAuthorize
  {
  }

  /** A transfer stores its file, if it has a file handler at all, before it inserts its record. */
  lemma FileBeforeRecord(h: Header, thresholdMb: nat)
    requires Chain(h, thresholdMb).Some? && (h.op.TransferData? || h.op.TransferDatasetData?)
    ensures
      var hs := Chain(h, thresholdMb).value;
      && (DbWrite in hs <==> NeedDbHandler(h))
      && (DbWrite in hs ==> hs[|hs| - 1] == DbWrite)
      && (StoreInFilesystem(h.mode) <==> FileWrite in hs || FileReceive in hs)
      && (StoreInFilesystem(h.mode) ==>
            var f := if DbWrite in hs then hs[|hs| - 2] else hs[|hs| - 1];
            f == if ReceiveDirectToFile(h, thresholdMb) then FileReceive else FileWrite)
  {
    var hs := Chain(h, thresholdMb).value;
    var n := |hs|;
    assert NeedDbHandler(h) ==> hs[n - 1] == DbWrite;
    if StoreInFilesystem(h.mode) {
      assert hs[if NeedDbHandler(h) then n - 2 else n - 1] ==
             if ReceiveDirectToFile(h, thresholdMb) then FileReceive else FileWrite;
    }
  }

  predicate IsTransfer(op: Opcode) { op.TransferData? || op.TransferDatasetData? }

  /** The requests a handler is for. */
  predicate RunsFor(x: Handler, h: Header, thresholdMb: nat) {
    var direct := h.dataSize > thresholdMb * 0x10_0000;
    match x
    case InitialAuthorize => h.op.Authorize?
    case SecondaryAuthorize => !h.op.Authorize?
    case ReceiveMetadata => IsTransfer(h.op) || h.op.Authorize?
    case ReceiveData => (IsTransfer(h.op) && !direct) || h.op.TransferMetaData?
    case FileReceive => IsTransfer(h.op) && direct
    case FileWrite => IsTransfer(h.op) && !direct && h.mode / 4 % 2 == 1
    case DbWrite => IsTransfer(h.op) && (h.mode / 8 % 2 == 1 || h.mode == 2)
    case DbMetaWrite => h.op.TransferMetaData?
    case DbStreamInfo => h.op.StreamInfo?
    case DbDeleteStream => h.op.DeleteStream?
    case DbLastStream => h.op.LastStream?
    case DbGetMeta => h.op.GetMeta?
  }

  /** Which header is accepted. */
  lemma AcceptedExactly(h: Header, thresholdMb: nat)
    ensures
      Chain(h, thresholdMb).Some? <==>
        && !h.op.OtherOpcode?
        && (IsTransfer(h.op) ==> h.dataSize <= thresholdMb * 0x10_0000 || h.mode / 4 % 2 == 1)
        && (h.op.TransferMetaData? ==> h.mode / 8 % 2 == 1 || h.mode == 2)
  {
  }

  lemma TransferHandlers(h: Header, thresholdMb: nat, x: Handler)
    requires Chain(h, thresholdMb).Some? && IsTransfer(h.op)
    ensures x in Chain(h, thresholdMb).value <==> RunsFor(x, h, thresholdMb)
  {
    var store :=
      if ReceiveDirectToFile(h, thresholdMb) then [FileReceive]
      else if StoreInFilesystem(h.mode) then [ReceiveData, FileWrite] else [ReceiveData];
    var record := if NeedDbHandler(h) then [DbWrite] else [];
    assert Chain(h, thresholdMb).value == [SecondaryAuthorize, ReceiveMetadata] + store + record;
  }

  /** Authorization, metadata, data, file, database: a handler runs behind those of lower rank. */
  function Rank(x: Handler): nat {
    match x
    case SecondaryAuthorize => 0
    case ReceiveMetadata => 1
    case ReceiveData | FileReceive | InitialAuthorize => 2
    case FileWrite => 3
    case _ => 4
  }

  /** Every handler runs for exactly its own requests, once, and in the order of the ranks. */
  lemma HandlersExactly(h: Header, thresholdMb: nat, x: Handler)
    requires Chain(h, thresholdMb).Some?
    ensures x in Chain(h, thresholdMb).value <==> RunsFor(x, h, thresholdMb)
    ensures forall i, j | 0 <= i < j < |Chain(h, thresholdMb).value| ::
              Rank(Chain(h, thresholdMb).value[i]) < Rank(Chain(h, thresholdMb).value[j])
  {
    if IsTransfer(h.op) { TransferHandlers(h, thresholdMb, x); }
  }
}
