/**
 One connection of the receiver from its first request to its close: an authorization cache
 that is filled once, renewed when it is older than the interval, and consulted before any
 handler that touches data, files or the database.  The authorizer, the clock and the errors
 of other handlers are arbitrary inputs.
 */
module Session {
  import opened Options
  import opened RequestChain

  datatype SourceType = Processed | Raw

  /** The fields the authorization server fills in. */
  datatype Grant = Grant(beamtimeId: string, dataSource: string, beamline: string,
                         offlinePath: string, onlinePath: string, sourceType: SourceType)

  datatype AuthData = AuthData(grant: Grant, lastUpdate: int, credentials: string)

  /** What the authorization server answers; a malformed answer may have filled in some fields. */
  datatype Reply =
    | Unreachable
    | Refused(unauthorized: bool)
    | Malformed(partial: Grant)
    | Answer(grant: Grant, accessTypes: seq<string>)

  datatype Error =
    | NoError | AuthorizationFailure | ReAuthorizationFailure | InternalServerError | UnsupportedClient

  function Required(s: SourceType): string {
    if s.Processed? then "write" else "writeraw"
  }

  predicate Allows(access: seq<string>, s: SourceType) {
    Required(s) in access
  }

  predicate Granted(r: Reply) {
    r.Answer? && Allows(r.accessTypes, r.grant.sourceType)
  }

  /** Raw data needs the access type "writeraw", processed data "write", in the list of the answer. */
  lemma GrantedExactly(r: Reply)
    ensures
      Granted(r) <==>
        && r.Answer?
        && (r.grant.sourceType.Raw? ==> "writeraw" in r.accessTypes)
        && (r.grant.sourceType.Processed? ==> "write" in r.accessTypes)
  {
  }

  function AuthorizeError(r: Reply): Error {
    match r
    case Unreachable => InternalServerError
    case Refused(unauthorized) => if unauthorized then AuthorizationFailure else InternalServerError
    case Malformed(_) => InternalServerError
    case Answer(_, _) => if Granted(r) then NoError else AuthorizationFailure
  }

  /** The cache after asking the server: filled in and stamped, or as it was. */
  function Updated(d: AuthData, r: Reply, now: int): AuthData {
    if Granted(r) then d.(grant := r.grant, lastUpdate := now) else d
  }

  const WORD64: nat := 0x1_0000_0000_0000_0000

  /** Milliseconds since the last update, as an unsigned number: a clock set back counts as very long. */
  function Elapsed(d: AuthData, now: int): nat {
    (now - d.lastUpdate) % WORD64
  }

  predicate NeedReauthorize(d: AuthData, now: int, interval: nat) {
    Elapsed(d, now) >= interval
  }

  // ---------------------------------------------------------------------------------------
  // The two authorization handlers
  // ---------------------------------------------------------------------------------------

  /** The inputs of one request besides its header. */
  datatype Input = Input(
    header: Header,
    supported: bool,
    metadata: string,
    reply: Reply,
    checkedAt: int,
    now: int,
    failAt: Option<nat>,
    sent: bool)

  function InitialError(d: AuthData, i: Input): Error {
    if !i.supported then UnsupportedClient
    else if d.credentials != "" then AuthorizationFailure
    else AuthorizeError(i.reply)
  }

  function Initial(d: AuthData, i: Input): AuthData {
    if !i.supported || d.credentials != "" then d
    else Updated(d.(credentials := i.metadata), i.reply, i.now)
  }

  /** A renewal that is refused, or granted for another beamtime, ends the authorization. */
  predicate Invalidates(d: AuthData, i: Input) {
    AuthorizeError(i.reply) == AuthorizationFailure || (Granted(i.reply) && i.reply.grant.beamtimeId != d.grant.beamtimeId)
  }

  function SecondaryError(d: AuthData, i: Input, interval: nat): Error {
    if !i.supported then UnsupportedClient
    else if d.credentials == "" then AuthorizationFailure
    else if !NeedReauthorize(d, i.checkedAt, interval) then NoError
    else if Invalidates(d, i) then ReAuthorizationFailure
    else AuthorizeError(i.reply)
  }

  function Secondary(d: AuthData, i: Input, interval: nat): AuthData {
    if !i.supported || d.credentials == "" || !NeedReauthorize(d, i.checkedAt, interval) then d
    else
      var n := Updated(d, i.reply, i.now);
      if Invalidates(d, i) then n.(credentials := "") else n
  }

  /** A renewal is due and the server grants it. */
  predicate Renews(d: AuthData, i: Input, interval: nat) {
    i.supported && d.credentials != "" && NeedReauthorize(d, i.checkedAt, interval) && Granted(i.reply)
  }

  /**
   A request that fails here leaves the fields the server had filled in exactly if no renewal
   was granted; when one was, it failed for naming another beamtime.  Without a granted
   renewal nothing changes but that the authorization may end.
   */
  lemma FailedRenewalKeepsFields(d: AuthData, i: Input, interval: nat)
    ensures SecondaryError(d, i, interval) != NoError ==>
              (Secondary(d, i, interval).grant == d.grant <==> !Renews(d, i, interval))
    ensures !Renews(d, i, interval) ==>
              Secondary(d, i, interval).grant == d.grant && Secondary(d, i, interval).lastUpdate == d.lastUpdate
    ensures !Renews(d, i, interval) && Secondary(d, i, interval) != d ==>
              SecondaryError(d, i, interval) == ReAuthorizationFailure
  {
  }

  /** A server that says no, or says yes without the access type needed. */
  predicate Denies(r: Reply) { r == Refused(true) || (r.Answer? && !Granted(r)) }

  /**
   The authorization ends exactly when a due renewal is denied or names another beamtime, and
   only then is the error a failed re-authorization; a server that cannot be reached, fails or
   answers nonsense fails the request alone.
   */
  lemma RenewalEndsExactly(d: AuthData, i: Input, interval: nat)
    requires i.supported && d.credentials != "" && (i.checkedAt - d.lastUpdate) % 0x1_0000_0000_0000_0000 >= interval
    ensures
      var err, n := SecondaryError(d, i, interval), Secondary(d, i, interval);
      var ends := Denies(i.reply) || (Granted(i.reply) && i.reply.grant.beamtimeId != d.grant.beamtimeId);
      && (n.credentials == if ends then "" else d.credentials)
      && (err == ReAuthorizationFailure <==> ends)
      && (err == InternalServerError <==> i.reply.Unreachable? || i.reply == Refused(false) || i.reply.Malformed?)
      && (Granted(i.reply) ==> n.grant == i.reply.grant && n.lastUpdate == i.now)
  {
  }

  /** The failing input: a renewal for another beamtime overwrites the fields and then fails. */
  lemma OtherBeamtimeOverwrites(d: AuthData, i: Input, interval: nat)
    requires Renews(d, i, interval) && i.reply.grant.beamtimeId != d.grant.beamtimeId
    ensures SecondaryError(d, i, interval) == ReAuthorizationFailure
    ensures Secondary(d, i, interval) == AuthData(i.reply.grant, i.now, "") && i.reply.grant != d.grant
  {
  }

  // ---------------------------------------------------------------------------------------
  // Connections
  // ---------------------------------------------------------------------------------------

  /**
   What the secondary authorization put into a request: the fields of the cache, the access
   list they were granted with, the milliseconds from that grant to the check, None when just
   renewed, and whether the client's version is supported.
   */
  datatype Fields = Fields(grant: Grant, accessTypes: seq<string>, age: Option<nat>, supported: bool)

  /** A handler that was reached, or an initial authorization that was granted, with the fields of the request. */
  datatype Served = Served(handler: Handler, fields: Option<Fields>)

  /** `first` is the beamtime of the initial authorization; `access` and `stamp` are the access list and time of the last granted answer. */
  datatype Connection = Connection(
    data: AuthData,
    open: bool,
    first: Option<string>,
    access: seq<string>,
    stamp: int,
    log: seq<Served>)

  /** A connection and the request it is handling. */
  datatype Handling = Handling(connection: Connection, fields: Option<Fields>)

  function ByInitial(s: Handling, i: Input): Handling {
    var c := s.connection;
    var n := Initial(c.data, i);
    s.(connection :=
       if InitialError(c.data, i) != NoError then c.(data := n, open := false)
       else c.(data := n, first := Some(n.grant.beamtimeId), access := i.reply.accessTypes, stamp := i.now,
               log := c.log + [Served(InitialAuthorize, s.fields)]))
  }

  function BySecondary(s: Handling, i: Input, interval: nat): Handling {
    var c := s.connection;
    var n := Secondary(c.data, i, interval);
    if SecondaryError(c.data, i, interval) != NoError then s.(connection := c.(data := n, open := false))
    else
      var renewed := NeedReauthorize(c.data, i.checkedAt, interval);
      var access := if renewed then i.reply.accessTypes else c.access;
      var stamp := if renewed then i.now else c.stamp;
      var age := if renewed then None else Some((i.checkedAt - c.stamp) % 0x1_0000_0000_0000_0000);
      Handling(c.(data := n, access := access, stamp := stamp), Some(Fields(n.grant, access, age, i.supported)))
  }

  function ByOther(s: Handling, h: Handler, fails: bool): Handling {
    s.(connection := s.connection.(log := s.connection.log + [Served(h, s.fields)], open := !fails))
  }

  /** One handler; an error closes the connection. */
  function ByHandler(s: Handling, i: Input, h: Handler, index: nat, interval: nat): Handling {
    if h.InitialAuthorize? then ByInitial(s, i)
    else if h.SecondaryAuthorize? then BySecondary(s, i, interval)
    else ByOther(s, h, i.failAt == Some(index))
  }

  /** The handlers of a request from `index` on, up to the first error. */
  function Handle(s: Handling, i: Input, hs: seq<Handler>, index: nat, interval: nat): Handling
    requires index <= |hs|
    decreases |hs| - index
  {
    if index == |hs| || !s.connection.open then s
    else Handle(ByHandler(s, i, hs[index], index, interval), i, hs, index + 1, interval)
  }

  /** One request: its handlers, then the response; any error closes the connection. */
  function Serve(c: Connection, i: Input, thresholdMb: nat, interval: nat): Connection {
    var hs := Chain(i.header, thresholdMb);
    if !c.open then c
    else if hs.None? then c.(open := false)
    else
      var n := Handle(Handling(c, None), i, hs.value, 0, interval).connection;
      n.(open := n.open && i.sent)
  }

  function Listen(c: Connection, inputs: seq<Input>, thresholdMb: nat, interval: nat): Connection
    decreases |inputs|
  {
    if inputs == [] || !c.open then c
    else Listen(Serve(c, inputs[0], thresholdMb, interval), inputs[1..], thresholdMb, interval)
  }

  const NOBODY: Grant := Grant("", "", "", "", "", Processed)

  function Accepted(lastUpdate: int): Connection {
    Connection(AuthData(NOBODY, lastUpdate, ""), true, None, [], lastUpdate, [])
  }

  // ---------------------------------------------------------------------------------------
  // Every run of a connection
  // ---------------------------------------------------------------------------------------

  /** Fields for the beamtime of the initial authorization, with access, from a fresh authorization of a supported client. */
  predicate Authorized(f: Option<Fields>, first: Option<string>, interval: nat) {
    && f.Some? && f.value.supported
    && first == Some(f.value.grant.beamtimeId)
    && Allows(f.value.accessTypes, f.value.grant.sourceType)
    && (f.value.age.Some? ==> f.value.age.value < interval)
  }

  /** An initial authorization was granted among the first `n` entries of the log. */
  ghost predicate Opened(log: seq<Served>, n: nat)
    requires n <= |log|
  {
    exists j | 0 <= j < n :: log[j].handler == InitialAuthorize
  }

  lemma OpenedStays(log: seq<Served>, last: Served, n: nat)
    requires n <= |log|
    ensures Opened(log + [last], n) == Opened(log, n)
    ensures Opened(log, n) || last.handler == InitialAuthorize ==> Opened(log + [last], |log| + 1)
  {
    assert forall j | 0 <= j < n :: (log + [last])[j] == log[j];
    assert (log + [last])[|log|] == last;
  }

  ghost predicate Sound(c: Connection, interval: nat) {
    && (forall i | 0 <= i < |c.log| && IsWork(c.log[i].handler) ::
          Authorized(c.log[i].fields, c.first, interval) && Opened(c.log, i))
    && (c.open && c.data.credentials == "" ==> forall i | 0 <= i < |c.log| :: !IsWork(c.log[i].handler))
    && (c.open && c.data.credentials != "" ==>
          && c.first == Some(c.data.grant.beamtimeId) && Allows(c.access, c.data.grant.sourceType)
          && c.stamp == c.data.lastUpdate && Opened(c.log, |c.log|))
  }

  lemma InitialIsSound(s: Handling, i: Input, interval: nat)
    requires Sound(s.connection, interval) && s.connection.open
    ensures Sound(ByInitial(s, i).connection, interval)
  {
    var log, last := s.connection.log, Served(InitialAuthorize, s.fields);
    assert forall k | 0 <= k < |log| :: (log + [last])[k] == log[k];
    OpenedStays(log, last, |log|);
  }

  /** Without an error, the secondary authorization leaves authorized fields in the request. */
  lemma SecondaryIsSound(s: Handling, i: Input, interval: nat)
    requires Sound(s.connection, interval) && s.connection.open
    ensures
      var n := BySecondary(s, i, interval);
      Sound(n.connection, interval) && (n.connection.open ==> Carried(n, interval))
  {
  }

  /** The request may go on to handlers that do work. */
  ghost predicate Carried(s: Handling, interval: nat) {
    s.connection.data.credentials != "" && Authorized(s.fields, s.connection.first, interval)
  }

  lemma OtherIsSound(s: Handling, h: Handler, fails: bool, interval: nat)
    requires Sound(s.connection, interval) && s.connection.open && (IsWork(h) ==> Carried(s, interval))
    ensures Sound(ByOther(s, h, fails).connection, interval)
    ensures Carried(s, interval) ==> Carried(ByOther(s, h, fails), interval)
  {
    hide Opened;
    var n, log := ByOther(s, h, fails).connection, s.connection.log;
    OpenedStays(log, Served(h, s.fields), |log|);
    forall k | 0 <= k < |n.log| && IsWork(n.log[k].handler)
      ensures Authorized(n.log[k].fields, n.first, interval) && Opened(n.log, k)
    {
      if k < |log| {
        assert n.log[k] == log[k];
        OpenedStays(log, Served(h, s.fields), k);
      }
    }
  }

  /** Handlers behind the secondary authorization. */
  lemma {:induction false} RestIsSound(s: Handling, i: Input, hs: seq<Handler>, index: nat, interval: nat)
    requires index <= |hs| && Sound(s.connection, interval) && (s.connection.open ==> Carried(s, interval))
    requires forall k | index <= k < |hs| :: hs[k] != SecondaryAuthorize && hs[k] != InitialAuthorize
    ensures Sound(Handle(s, i, hs, index, interval).connection, interval)
    decreases |hs| - index
  {
    hide Sound, Carried;
    if index < |hs| && s.connection.open {
      OtherIsSound(s, hs[index], i.failAt == Some(index), interval);
      RestIsSound(ByHandler(s, i, hs[index], index, interval), i, hs, index + 1, interval);
    }
  }

  lemma ChainIsSound(c: Connection, i: Input, thresholdMb: nat, interval: nat)
    requires Sound(c, interval) && c.open && Chain(i.header, thresholdMb).Some?
    ensures Sound(Handle(Handling(c, None), i, Chain(i.header, thresholdMb).value, 0, interval).connection, interval)
  {
    hide Sound, Carried, Chain;
    WorkFollowsAuthorization(i.header, thresholdMb);
    var hs, s := Chain(i.header, thresholdMb).value, Handling(c, None);
    if i.header.op.Authorize? {
      OtherIsSound(s, ReceiveMetadata, i.failAt == Some(0), interval);
      var m := ByOther(s, ReceiveMetadata, i.failAt == Some(0));
      if m.connection.open { InitialIsSound(m, i, interval); }
      assert Handle(ByInitial(m, i), i, hs, 2, interval) == ByInitial(m, i);
      assert Handle(m, i, hs, 1, interval) == if m.connection.open then ByInitial(m, i) else m;
    } else {
      SecondaryIsSound(s, i, interval);
      RestIsSound(BySecondary(s, i, interval), i, hs, 1, interval);
    }
  }

  lemma ServeIsSound(c: Connection, i: Input, thresholdMb: nat, interval: nat)
    requires Sound(c, interval)
    ensures Sound(Serve(c, i, thresholdMb, interval), interval)
  {
    hide Handle, Chain, Authorized;
    if c.open && Chain(i.header, thresholdMb).Some? { ChainIsSound(c, i, thresholdMb, interval); }
  }

  lemma {:induction false} ListenIsSound(c: Connection, inputs: seq<Input>, thresholdMb: nat, interval: nat)
    requires Sound(c, interval)
    ensures Sound(Listen(c, inputs, thresholdMb, interval), interval)
    decreases |inputs|
  {
    hide Sound, Serve;
    if inputs != [] && c.open {
      ServeIsSound(c, inputs[0], thresholdMb, interval);
      ListenIsSound(Serve(c, inputs[0], thresholdMb, interval), inputs[1..], thresholdMb, interval);
    }
  }

  /**
   Main result: in every run of a connection, whatever the producer sends, the authorizer
   answers and the clock shows, each handler that touches data, files or the database runs
   for a supported client, after an initial authorization, for its beamtime, with the access
   type of its source among those of the last granted answer, and that answer younger than
   the interval or given for this request.
   */
  lemma SessionsAreAuthorized(lastUpdate: int, inputs: seq<Input>, thresholdMb: nat, interval: nat, k: nat)
    requires k < |Listen(Accepted(lastUpdate), inputs, thresholdMb, interval).log|
    requires IsWork(Listen(Accepted(lastUpdate), inputs, thresholdMb, interval).log[k].handler)
    ensures
      var c := Listen(Accepted(lastUpdate), inputs, thresholdMb, interval);
      var f := c.log[k].fields;
      && f.Some? && f.value.supported && c.first == Some(f.value.grant.beamtimeId)
      && (if f.value.grant.sourceType.Raw? then "writeraw" else "write") in f.value.accessTypes
      && (f.value.age.Some? ==> f.value.age.value < interval)
      && exists j | 0 <= j < k :: c.log[j].handler == InitialAuthorize
  {
    hide Listen;
    ListenIsSound(Accepted(lastUpdate), inputs, thresholdMb, interval);
  }

  // ---------------------------------------------------------------------------------------
  // Which requests are served
  // ---------------------------------------------------------------------------------------

  /** The cache admits the request as it is, or the server renews it for the same beamtime. */
  predicate Admitted(d: AuthData, i: Input, interval: nat) {
    && i.supported && d.credentials != ""
    && (|| (i.checkedAt - d.lastUpdate) % 0x1_0000_0000_0000_0000 < interval
        || (Granted(i.reply) && i.reply.grant.beamtimeId == d.grant.beamtimeId))
  }

  lemma AdmittedExactly(d: AuthData, i: Input, interval: nat)
    ensures SecondaryError(d, i, interval) == NoError <==> Admitted(d, i, interval)
    ensures InitialError(d, i) == NoError <==> i.supported && d.credentials == "" && Granted(i.reply)
  {
  }

  /** How many handlers from `index` on are reached. */
  function Reached(failAt: Option<nat>, index: nat, n: nat): nat
    requires index <= n
  {
    if failAt.Some? && index <= failAt.value < n then failAt.value - index + 1 else n - index
  }

  /** All handlers behind the authorization are reached in order, up to the first that fails. */
  lemma {:induction false} RestIsReached(s: Handling, i: Input, hs: seq<Handler>, index: nat, interval: nat)
    requires index <= |hs| && s.connection.open
    requires forall k | index <= k < |hs| :: hs[k] != SecondaryAuthorize && hs[k] != InitialAuthorize
    ensures
      var n, r := Handle(s, i, hs, index, interval).connection, Reached(i.failAt, index, |hs|);
      && (n.open <==> forall k | index <= k < |hs| :: i.failAt != Some(k))
      && n.log == s.connection.log + seq(r, k requires 0 <= k < r => Served(hs[index + k], s.fields))
    decreases |hs| - index
  {
    if index < |hs| {
      var n := ByHandler(s, i, hs[index], index, interval);
      var r := Reached(i.failAt, index, |hs|);
      var entries := seq(r, k requires 0 <= k < r => Served(hs[index + k], s.fields));
      assert entries[..1] == [Served(hs[index], s.fields)];
      if n.connection.open {
        RestIsReached(n, i, hs, index + 1, interval);
        var rest := seq(r - 1, k requires 0 <= k < r - 1 => Served(hs[index + 1 + k], s.fields));
        assert entries == entries[..1] + rest;
      } else {
        assert entries == entries[..1];
      }
    }
  }

  /**
   Exactly when a request leaves its connection open, and what runs: an admitted request
   reaches every handler of its chain in order, up to the first that fails, all with the same
   fields; any other request reaches none.
   */
  lemma RequestsAreServed(c: Connection, i: Input, thresholdMb: nat, interval: nat)
    requires c.open && !i.header.op.Authorize?
    ensures
      var n, hs := Serve(c, i, thresholdMb, interval), Chain(i.header, thresholdMb);
      && (hs.None? || !Admitted(c.data, i, interval) ==> !n.open && n.log == c.log)
      && (hs.Some? && Admitted(c.data, i, interval) ==>
            && (n.open <==> i.sent && forall k | 1 <= k < |hs.value| :: i.failAt != Some(k))
            && |n.log| == |c.log| + Reached(i.failAt, 1, |hs.value|) && n.log[..|c.log|] == c.log
            && forall k | |c.log| <= k < |n.log| ::
                 n.log[k].handler == hs.value[1 + k - |c.log|] && n.log[k].fields == n.log[|c.log|].fields)
  {
    hide Secondary, SecondaryError, Chain, Admitted;
    var hs := Chain(i.header, thresholdMb);
    if hs.Some? {
      WorkFollowsAuthorization(i.header, thresholdMb);
      AdmittedExactly(c.data, i, interval);
      var s := BySecondary(Handling(c, None), i, interval);
      assert Handle(Handling(c, None), i, hs.value, 0, interval) == Handle(s, i, hs.value, 1, interval);
      if s.connection.open { RestIsReached(s, i, hs.value, 1, interval); }
    }
  }

  /** An initial authorization succeeds exactly once, for a supported client the server grants it to. */
  lemma InitialExactly(c: Connection, i: Input, thresholdMb: nat, interval: nat)
    requires c.open && i.header.op.Authorize?
    ensures
      var n := Serve(c, i, thresholdMb, interval);
      var ok := i.failAt != Some(0) && i.supported && c.data.credentials == "" && Granted(i.reply);
      && (n.open <==> ok && i.sent)
      && (ok ==> n.data == AuthData(i.reply.grant, i.now, i.metadata))
      && (!ok ==> n.data.grant == c.data.grant && n.first == c.first)
  {
    WorkFollowsAuthorization(i.header, thresholdMb);
    var hs := [ReceiveMetadata, InitialAuthorize];
    assert Chain(i.header, thresholdMb) == Some(hs);
    var m := ByOther(Handling(c, None), ReceiveMetadata, i.failAt == Some(0));
    assert Handle(ByInitial(m, i), i, hs, 2, interval) == ByInitial(m, i);
    assert Handle(m, i, hs, 1, interval) == if m.connection.open then ByInitial(m, i) else m;
  }

  // ---------------------------------------------------------------------------------------
  // The connection as an object
  // ---------------------------------------------------------------------------------------

  class Receiver {
    const thresholdMb: nat
    const interval: nat
    var data: AuthData
    var open: bool
    ghost var fields: Option<Fields>
    ghost var first: Option<string>
    ghost var access: seq<string>
    ghost var stamp: int
    ghost var log: seq<Served>

    ghost function View(): Connection
      reads this
    {
      Connection(data, open, first, access, stamp, log)
    }

    constructor (thresholdMb: nat, interval: nat, lastUpdate: int)
      ensures View() == Accepted(lastUpdate) && this.thresholdMb == thresholdMb && this.interval == interval
    {
      this.thresholdMb, this.interval := thresholdMb, interval;
      data, open := AuthData(NOBODY, lastUpdate, ""), true;
      fields, first, access, stamp, log := None, None, [], lastUpdate, [];
    }

    /** Fills in the cache from an answer, and takes everything back when the answer is no good. */
    method UpdateData(reply: Reply, now: int) returns (err: Error)
      modifies this`data
      ensures data == Updated(old(data), reply, now) && err == AuthorizeError(reply)
    {
      match reply
      case Unreachable => err := InternalServerError;
      case Refused(unauthorized) => err := if unauthorized then AuthorizationFailure else InternalServerError;
      case Malformed(partial) =>
        var oldData := data;
        data := data.(grant := partial);
        data := oldData;
        err := InternalServerError;
      case Answer(grant, accessTypes) =>
        var oldData := data;
        data := data.(grant := grant);
        if !Allows(accessTypes, data.grant.sourceType) {
          data := oldData;
          err := AuthorizationFailure;
        } else {
          data := data.(lastUpdate := now);
          err := NoError;
        }
    }

    method InitialAuthorization(i: Input) returns (err: Error)
      modifies this`data
      ensures data == Initial(old(data), i) && err == InitialError(old(data), i)
    {
      if !i.supported {
        return UnsupportedClient;
      }
      if data.credentials != "" {
        return AuthorizationFailure;
      }
      data := data.(credentials := i.metadata);
      err := UpdateData(i.reply, i.now);
    }

    /** Checks the request, renews the cache if it is old, and fills in the request from it. */
    method SecondaryAuthorization(i: Input) returns (err: Error)
      modifies this`data, this`access, this`stamp, this`fields
      ensures data == Secondary(old(data), i, interval) && err == SecondaryError(old(data), i, interval)
      ensures err == NoError ==>
                Handling(View(), fields) == BySecondary(old(Handling(View(), fields)), i, interval)
      ensures err != NoError ==> access == old(access) && stamp == old(stamp) && fields == old(fields)
    {
      if !i.supported {
        return UnsupportedClient;
      }
      if data.credentials == "" {
        return AuthorizationFailure;
      }
      if !NeedReauthorize(data, i.checkedAt, interval) {
        fields := Some(Fields(data.grant, access, Some((i.checkedAt - stamp) % 0x1_0000_0000_0000_0000), true));
        return NoError;
      }
      var oldBeamtimeId := data.grant.beamtimeId;
      err := UpdateData(i.reply, i.now);
      if err == AuthorizationFailure || (err == NoError && oldBeamtimeId != data.grant.beamtimeId) {
        data := data.(credentials := "");
        return ReAuthorizationFailure;
      }
      if err == NoError {
        access, stamp := i.reply.accessTypes, i.now;
        fields := Some(Fields(data.grant, access, None, true));
      }
    }

    /** The handler loop of one request, up to the first error. */
    method HandleRequest(i: Input, hs: seq<Handler>)
      requires open
      modifies this
      ensures View() == Handle(Handling(old(View()), None), i, hs, 0, interval).connection
    {
      fields := None;
      var k := 0;
      while k < |hs| && open
        invariant 0 <= k <= |hs|
        invariant Handle(Handling(View(), fields), i, hs, k, interval) ==
                  Handle(Handling(old(View()), None), i, hs, 0, interval)
      {
        ghost var before := Handling(View(), fields);
        if hs[k].InitialAuthorize? {
          var err := InitialAuthorization(i);
          if err != NoError {
            open := false;
          } else {
            first, access, stamp := Some(data.grant.beamtimeId), i.reply.accessTypes, i.now;
            log := log + [Served(InitialAuthorize, fields)];
          }
        } else if hs[k].SecondaryAuthorize? {
          var err := SecondaryAuthorization(i);
          if err != NoError {
            open := false;
          }
        } else {
          log := log + [Served(hs[k], fields)];
          if i.failAt == Some(k) { open := false; }
        }
        assert Handling(View(), fields) == ByHandler(before, i, hs[k], k, interval);
        k := k + 1;
      }
    }

    /** Requests one after the other, until the first error. */
    method ListenTo(inputs: seq<Input>)
      requires open
      modifies this
      ensures View() == Listen(old(View()), inputs, thresholdMb, interval)
    {
      hide Handle, Chain;
      var k := 0;
      assert inputs[0..] == inputs;
      while k < |inputs| && open
        invariant 0 <= k <= |inputs|
        invariant Listen(View(), inputs[k..], thresholdMb, interval) == Listen(old(View()), inputs, thresholdMb, interval)
      {
        ghost var before := View();
        var i := inputs[k];
        var hs, ok := AddHandlers(i.header, thresholdMb);
        if !ok {
          open := false;
        } else {
          HandleRequest(i, hs);
          if !i.sent { open := false; }
        }
        assert View() == Serve(before, i, thresholdMb, interval);
        assert inputs[k..][1..] == inputs[k + 1..];
        k := k + 1;
      }
    }
  }
}
