/**
 * The `Command` model: one MDM command for one device. The commands table is
 * modelled as the sequence of its rows in insertion order; the queries of
 * the model are functions over that sequence.
 */
module Commands {
  import opened Wrappers

  /** A command uuid, taken as already-normalised text and compared exactly. */
  type Uuid = string
  /** The JSON parameters of a command, in their serialized form; opaque here. */
  type Parameters = string
  type Time = int

  /** The statuses of a command (stored as one-character codes in the source). */
  datatype CommandStatus = Queued | Sent | Acknowledged | Error | NotNow | Expired

  /** The column defaults SQLAlchemy fills in on an INSERT that leaves them unset. */
  const DEFAULT_STATUS: CommandStatus := Queued
  const DEFAULT_TTL: int := 5

  /** A row of the commands table. */
  datatype Command = Command(
    id: int,
    requestType: string,
    uuid: Uuid,
    parameters: Option<Parameters>,
    status: CommandStatus,
    after: Option<Time>,
    ttl: int,
    deviceId: Option<int>)

  /**
   * A `Command` object that has not been flushed yet: None marks a column the
   * program has not assigned.
   */
  datatype PendingCommand = PendingCommand(
    requestType: Option<string>,
    uuid: Option<Uuid>,
    parameters: Option<Parameters>,
    status: Option<CommandStatus>,
    after: Option<Time>,
    ttl: Option<int>,
    deviceId: Option<int>)

  /** A command as the protocol layer builds it (`commands.Command`). */
  datatype ProtocolCommand = ProtocolCommand(requestType: string, uuid: Uuid, parameters: Parameters)

  /** Why the database refuses an INSERT. */
  datatype InsertError = NotNullViolation | UniqueViolation

  /** What `Query.one()` raises. */
  datatype LookupError = NoResultFound | MultipleResultsFound

  /**
   * What the table guarantees: ids are unique and grow with insertion order,
   * and `uuid` is unique.
   */
  predicate WellFormed(store: seq<Command>) {
    forall i, j :: 0 <= i < j < |store| ==> store[i].id < store[j].id && store[i].uuid != store[j].uuid
  }

  predicate UuidTaken(store: seq<Command>, uuid: Uuid) {
    exists c :: c in store && c.uuid == uuid
  }

  /** Two different rows carry `uuid`. */
  predicate UuidDuplicated(store: seq<Command>, uuid: Uuid) {
    exists i, j :: 0 <= i < j < |store| && store[i].uuid == uuid && store[j].uuid == uuid
  }

  // ---------------------------------------------------------------------------
  // Building and inserting a command
  // ---------------------------------------------------------------------------

  /** `Command()`: a new object with no column assigned. */
  const BLANK: PendingCommand := PendingCommand(None, None, None, None, None, None, None)

  /**
   * `Command.from_model`: a new object whose request type, uuid and parameters
   * are copied from the protocol command; every other column stays unset.
   */
  method FromModel(cmd: ProtocolCommand) returns (c: PendingCommand)
    ensures c.requestType == Some(cmd.requestType)
    ensures c.uuid == Some(cmd.uuid)
    ensures c.parameters == Some(cmd.parameters)
    ensures c.status.None? && c.after.None? && c.ttl.None? && c.deviceId.None?
  {
    c := BLANK;
    c := c.(requestType := Some(cmd.requestType));
    c := c.(uuid := Some(cmd.uuid));
    c := c.(parameters := Some(cmd.parameters));
  }

  /** The larger of 0 and the largest id in the table (0 when it is empty). */
  function MaxId(store: seq<Command>): (m: int)
    ensures forall c :: c in store ==> c.id <= m
  {
    if store == [] then 0
    else
      var rest := MaxId(store[..|store| - 1]);
      assert store == store[..|store| - 1] + [store[|store| - 1]];
      var last := store[|store| - 1].id;
      if last > rest then last else rest
  }

  /** The id the database assigns to the next row: above every id in use. */
  function NextId(store: seq<Command>): (id: int)
    ensures forall c :: c in store ==> c.id < id
  {
    MaxId(store) + 1
  }

  /** The row a pending command becomes, with the column defaults filled in. */
  function Row(p: PendingCommand, id: int): Command
    requires p.requestType.Some? && p.uuid.Some?
  {
    Command(id, p.requestType.value, p.uuid.value, p.parameters,
            p.status.GetOr(DEFAULT_STATUS), p.after, p.ttl.GetOr(DEFAULT_TTL), p.deviceId)
  }

  /**
   * Flushing a pending command: `request_type` and `uuid` are NOT NULL and
   * `uuid` is UNIQUE; otherwise the row is appended with a fresh id.
   */
  function Insert(store: seq<Command>, p: PendingCommand): (r: Result<seq<Command>, InsertError>)
    ensures r.Failure? <==> p.requestType.None? || p.uuid.None? || UuidTaken(store, p.uuid.value)
    ensures r.Success? ==> |r.value| == |store| + 1 && r.value[..|store|] == store
    ensures r.Success? ==> forall c :: c in store ==> c.id < r.value[|store|].id
  {
    if p.requestType.None? || p.uuid.None? then Failure(NotNullViolation)
    else if UuidTaken(store, p.uuid.value) then Failure(UniqueViolation)
    else
      var result := store + [Row(p, NextId(store))];
      assert result[..|store|] == store;
      Success(result)
  }

  /**
   * The new row carries what the object assigned, and the column defaults
   * where it assigned nothing: status Queued and ttl 5.
   */
  lemma InsertRow(store: seq<Command>, p: PendingCommand)
    requires Insert(store, p).Success?
    ensures var row := Insert(store, p).value[|store|];
      && row.requestType == p.requestType.value
      && row.uuid == p.uuid.value
      && row.parameters == p.parameters
      && row.after == p.after
      && row.deviceId == p.deviceId
      && row.status == (if p.status.None? then Queued else p.status.value)
      && row.ttl == (if p.ttl.None? then 5 else p.ttl.value)
  {
  }

  /** Inserting keeps ids increasing and uuids unique. */
  lemma InsertWellFormed(store: seq<Command>, p: PendingCommand)
    requires WellFormed(store) && Insert(store, p).Success?
    ensures WellFormed(Insert(store, p).value)
  {
    var s := Insert(store, p).value;
    var n := |store|;
    forall i, j | 0 <= i < j < |s|
      ensures s[i].id < s[j].id && s[i].uuid != s[j].uuid
    {
      if j == n {
        assert s[i] == store[i];
        assert s[i] in store;
        assert s[j].uuid == p.uuid.value;
      } else {
        assert s[i] == store[i] && s[j] == store[j];
      }
    }
  }

  // ---------------------------------------------------------------------------
  // Command.find_by_uuid
  // ---------------------------------------------------------------------------

  /** The rows whose uuid is `uuid`, in table order. */
  function UuidMatches(store: seq<Command>, uuid: Uuid): (m: seq<Command>)
    ensures forall c :: c in m <==> c in store && c.uuid == uuid
  {
    if store == [] then []
    else
      var last := store[|store| - 1];
      assert store == store[..|store| - 1] + [last];
      UuidMatches(store[..|store| - 1], uuid) + (if last.uuid == uuid then [last] else [])
  }

  /** `Command.find_by_uuid`: `query.filter(uuid == uuid).one()`. */
  function FindByUuid(store: seq<Command>, uuid: Uuid): (r: Result<Command, LookupError>)
    ensures r.Success? ==> r.value in store && r.value.uuid == uuid
    ensures r.Success? ==> forall c :: c in store && c.uuid == uuid ==> c == r.value
    ensures r == Failure(NoResultFound) <==> !UuidTaken(store, uuid)
  {
    var m := UuidMatches(store, uuid);
    if |m| == 0 then Failure(NoResultFound)
    else
      assert m[0] in m;
      if |m| > 1 then Failure(MultipleResultsFound) else Success(m[0])
  }

  lemma MatchesNonEmpty(store: seq<Command>, uuid: Uuid)
    ensures |UuidMatches(store, uuid)| >= 1 <==> UuidTaken(store, uuid)
  {
    var m := UuidMatches(store, uuid);
    if |m| >= 1 {
      assert m[0] in m;
    }
  }

  /** Two rows carry the uuid iff two earlier rows do, or one earlier row and the last one. */
  lemma DuplicatedStep(store: seq<Command>, uuid: Uuid)
    requires store != []
    ensures var n := |store| - 1;
      UuidDuplicated(store, uuid) <==>
        UuidDuplicated(store[..n], uuid) || (UuidTaken(store[..n], uuid) && store[n].uuid == uuid)
  {
    var n := |store| - 1;
    var prefix := store[..n];
    if UuidDuplicated(store, uuid) && !UuidDuplicated(prefix, uuid) {
      var i, j :| 0 <= i < j < |store| && store[i].uuid == uuid && store[j].uuid == uuid;
      assert j == n;
      assert prefix[i] in prefix;
    }
    if UuidTaken(prefix, uuid) && store[n].uuid == uuid {
      var c :| c in prefix && c.uuid == uuid;
      var i :| 0 <= i < n && prefix[i] == c;
      assert store[i].uuid == uuid;
    }
    if UuidDuplicated(prefix, uuid) {
      var i, j :| 0 <= i < j < |prefix| && prefix[i].uuid == uuid && prefix[j].uuid == uuid;
      assert store[i].uuid == uuid && store[j].uuid == uuid;
    }
  }

  lemma {:induction false} UuidMatchesCount(store: seq<Command>, uuid: Uuid)
    ensures |UuidMatches(store, uuid)| >= 2 <==> UuidDuplicated(store, uuid)
  {
    if store != [] {
      var prefix := store[..|store| - 1];
      UuidMatchesCount(prefix, uuid);
      MatchesNonEmpty(prefix, uuid);
      DuplicatedStep(store, uuid);
    }
  }

  /** `one()` raises MultipleResultsFound exactly when two rows carry the uuid. */
  lemma FindByUuidMultiple(store: seq<Command>, uuid: Uuid)
    ensures FindByUuid(store, uuid) == Failure(MultipleResultsFound) <==> UuidDuplicated(store, uuid)
  {
    UuidMatchesCount(store, uuid);
  }

  /** Since `uuid` is unique, the lookup fails only when no row carries the uuid. */
  lemma FindByUuidUnique(store: seq<Command>, uuid: Uuid)
    requires WellFormed(store)
    ensures FindByUuid(store, uuid).Success? <==> UuidTaken(store, uuid)
  {
    FindByUuidMultiple(store, uuid);
  }

  /** The row just inserted is found by its uuid. */
  lemma FindInserted(store: seq<Command>, p: PendingCommand)
    requires Insert(store, p).Success?
    ensures var s := Insert(store, p).value;
      FindByUuid(s, p.uuid.value) == Success(s[|store|])
  {
    var s := Insert(store, p).value;
    assert s[..|s| - 1] == store;
    MatchesNonEmpty(store, p.uuid.value);
    assert UuidMatches(store, p.uuid.value) == [];
    assert UuidMatches(s, p.uuid.value) == [s[|store|]];
  }

  // ---------------------------------------------------------------------------
  // Command.get_next_device_command
  // ---------------------------------------------------------------------------

  /** The filter of the query: the device's commands whose status is Queued. */
  predicate IsCandidate(c: Command, device: Option<int>) {
    c.deviceId == device && c.status == Queued
  }

  /**
   * `filter(device == device, status == Queued).order_by(id).first()`: a
   * candidate of least id, or None when the device has none. `device` is the
   * device's primary key; None selects the commands attached to no device.
   */
  function NextDeviceCommand(store: seq<Command>, device: Option<int>): (r: Option<Command>)
    ensures r.Some? ==> r.value in store && IsCandidate(r.value, device)
    ensures r.Some? ==> forall c :: c in store && IsCandidate(c, device) ==> r.value.id <= c.id
    ensures r.None? <==> forall c :: c in store ==> !IsCandidate(c, device)
  {
    if store == [] then None
    else
      var best := NextDeviceCommand(store[..|store| - 1], device);
      var last := store[|store| - 1];
      assert store == store[..|store| - 1] + [last];
      if IsCandidate(last, device) && (best.None? || last.id < best.value.id) then Some(last) else best
  }

  /** The query, run as a scan of the table that keeps the candidate of least id seen so far. */
  method GetNextDeviceCommand(store: seq<Command>, device: Option<int>) returns (r: Option<Command>)
    ensures r == NextDeviceCommand(store, device)
  {
    r := None;
    var i := 0;
    while i < |store|
      invariant 0 <= i <= |store|
      invariant r == NextDeviceCommand(store[..i], device)
    {
      assert store[..i + 1][..i] == store[..i];
      var c := store[i];
      if IsCandidate(c, device) && (r.None? || c.id < r.value.id) {
        r := Some(c);
      }
      i := i + 1;
    }
    assert store[..|store|] == store;
  }

  /** With unique ids the selected command is THE queued command of least id for the device. */
  lemma NextIsLeastQueued(store: seq<Command>, device: Option<int>, c: Command)
    requires WellFormed(store)
    ensures NextDeviceCommand(store, device) == Some(c) <==>
      c in store && IsCandidate(c, device) && forall m :: m in store && IsCandidate(m, device) ==> c.id <= m.id
  {
    var r := NextDeviceCommand(store, device);
    if c in store && IsCandidate(c, device) && (forall m :: m in store && IsCandidate(m, device) ==> c.id <= m.id) {
      assert r.Some?;
      var i :| 0 <= i < |store| && store[i] == c;
      var j :| 0 <= j < |store| && store[j] == r.value;
      assert c.id == r.value.id;
      assert i == j;
    }
  }

  lemma EarliestIsSelected(store: seq<Command>, device: Option<int>, k: nat)
    requires WellFormed(store) && k < |store|
    requires IsCandidate(store[k], device) && forall j :: 0 <= j < k ==> !IsCandidate(store[j], device)
    ensures NextDeviceCommand(store, device) == Some(store[k])
  {
    forall m | m in store && IsCandidate(m, device)
      ensures store[k].id <= m.id
    {
      var j :| 0 <= j < |store| && store[j] == m;
      assert j >= k;
    }
    NextIsLeastQueued(store, device, store[k]);
  }

  lemma SelectedIsEarliest(store: seq<Command>, device: Option<int>, k: nat)
    requires WellFormed(store) && k < |store|
    requires NextDeviceCommand(store, device) == Some(store[k])
    ensures forall j :: 0 <= j < k ==> !IsCandidate(store[j], device)
  {
    forall j | 0 <= j < k
      ensures !IsCandidate(store[j], device)
    {
      assert store[j] in store;
      assert store[j].id < store[k].id;
    }
  }

  /** First enqueued, first selected: the selected command is the earliest queued row of the device. */
  lemma NextIsEarliestQueued(store: seq<Command>, device: Option<int>, k: nat)
    requires WellFormed(store) && k < |store|
    ensures NextDeviceCommand(store, device) == Some(store[k]) <==>
      IsCandidate(store[k], device) && forall j :: 0 <= j < k ==> !IsCandidate(store[j], device)
  {
    if IsCandidate(store[k], device) && forall j :: 0 <= j < k ==> !IsCandidate(store[j], device) {
      EarliestIsSelected(store, device, k);
    }
    if NextDeviceCommand(store, device) == Some(store[k]) {
      SelectedIsEarliest(store, device, k);
    }
  }

  /** A new row never overtakes queued work: selection changes only if the device had none. */
  lemma InsertKeepsSelection(store: seq<Command>, p: PendingCommand, device: Option<int>)
    requires Insert(store, p).Success?
    ensures var s := Insert(store, p).value;
      NextDeviceCommand(s, device) ==
        if NextDeviceCommand(store, device).Some? then NextDeviceCommand(store, device)
        else if IsCandidate(s[|store|], device) then Some(s[|store|])
        else None
  {
    var s := Insert(store, p).value;
    assert s[..|s| - 1] == store;
  }

  /** Two tables that agree on id, device and status position by position. */
  predicate SameSelectionKeys(s: seq<Command>, t: seq<Command>) {
    |s| == |t| &&
    forall i :: 0 <= i < |s| ==> s[i].id == t[i].id && s[i].deviceId == t[i].deviceId && s[i].status == t[i].status
  }

  /**
   * The selection reads nothing but id, device and status: `after`, `ttl`,
   * uuid, request type and parameters do not influence which row is chosen.
   */
  lemma {:induction false} SelectionReadsOnlyKeys(s: seq<Command>, t: seq<Command>, device: Option<int>)
    requires SameSelectionKeys(s, t)
    ensures NextDeviceCommand(s, device).Some? <==> NextDeviceCommand(t, device).Some?
    ensures NextDeviceCommand(s, device).Some? ==>
      NextDeviceCommand(s, device).value.id == NextDeviceCommand(t, device).value.id
  {
    if s != [] {
      var n := |s| - 1;
      assert SameSelectionKeys(s[..n], t[..n]);
      SelectionReadsOnlyKeys(s[..n], t[..n], device);
      var bs, bt := NextDeviceCommand(s[..n], device), NextDeviceCommand(t[..n], device);
      assert IsCandidate(s[n], device) == IsCandidate(t[n], device);
      assert NextDeviceCommand(s, device) ==
        if IsCandidate(s[n], device) && (bs.None? || s[n].id < bs.value.id) then Some(s[n]) else bs;
      assert NextDeviceCommand(t, device) ==
        if IsCandidate(t[n], device) && (bt.None? || t[n].id < bt.value.id) then Some(t[n]) else bt;
    }
  }

  /**
   * Commands enqueued in the order A, B for a device with no queued work come
   * out A first; once A has left Queued, whatever its new status (Sent
   * included), B is next.
   */
  lemma FirstEnqueuedFirstDelivered(store: seq<Command>, a: PendingCommand, b: PendingCommand,
                                    device: Option<int>, later: CommandStatus)
    requires WellFormed(store)
    requires forall c :: c in store ==> !IsCandidate(c, device)
    requires a.deviceId == device && a.status.None?
    requires b.deviceId == device && b.status.None?
    requires Insert(store, a).Success? && Insert(Insert(store, a).value, b).Success?
    requires later != Queued
    ensures var s := Insert(Insert(store, a).value, b).value;
      && NextDeviceCommand(s, device) == Some(s[|store|])
      && NextDeviceCommand(s[|store| := s[|store|].(status := later)], device) == Some(s[|store| + 1])
  {
    var s1 := Insert(store, a).value;
    var s := Insert(s1, b).value;
    var n := |store|;
    InsertWellFormed(store, a);
    InsertWellFormed(s1, b);
    assert NextDeviceCommand(s, device) == Some(s[n]) by {
      InsertKeepsSelection(store, a, device);
      InsertKeepsSelection(s1, b, device);
      assert s[n] == s1[n];
    }
    var t := s[n := s[n].(status := later)];
    assert WellFormed(t) by {
      forall i, j | 0 <= i < j < |t| ensures t[i].id < t[j].id && t[i].uuid != t[j].uuid {
        assert s[i].id < s[j].id && s[i].uuid != s[j].uuid;
      }
    }
    forall j | 0 <= j < n + 1
      ensures !IsCandidate(t[j], device)
    {
      if j < n {
        assert t[j] == store[j];
        assert store[j] in store;
      }
    }
    EarliestIsSelected(t, device, n + 1);
  }
}
