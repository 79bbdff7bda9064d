/**
 * The base class of every queued command: its defaults, how it runs the
 * concrete `Process`, how it saves itself into the command-request table
 * (duplicate check, conflict policy, one retry, waking a queue), and the
 * three `TryGetProperty` helpers that read parameters back from a command's
 * XML payload.
 */
module CommandRequests {
  import opened Wrappers
  import opened Runtime
  import UpdateMyListStats

  // ------------------------------------------------------------------ types

  /** What `Save` does when a request with the same CommandID is already stored. */
  datatype CommandConflict = Replace | Ignore | Error | Undefined(code: int)

  /** The three command processors a saved request can wake. */
  datatype Lane = General | Hasher | Images

  /** What one `CommandRequest.Save` call on the repository does: commit, or throw `TransactionException`. */
  datatype StoreOutcome = Committed | TransactionFailed

  /** One row of the command-request table; times are ticks, 0 being `DateTime.MinValue`. */
  datatype Record = Record(commandId: string, commandType: int, priority: int, dateTimeUpdated: int, commandDetails: string)

  /**
   * The concrete command class. `UpdateMyListStatsCommand` is modelled in full
   * (its `[Command]` attribute's request type code is defined outside this
   * model, hence the field); any other command is described by what it
   * declares: its attribute (if any), its default priority, an override of
   * `ConflictBehavior` (if any) and the CommandID its `GenerateCommandID` sets.
   */
  datatype CommandKind =
    | UpdateMyListStatsCommand(requestTypeCode: int)
    | OtherCommand(attributeRequestType: Option<int>, defaultPriority: int,
                   conflictOverride: Option<CommandConflict>, generatedId: string)
  {
    function AttributeRequestType(): Option<int> {
      match this
      case UpdateMyListStatsCommand(code) => Some(code)
      case OtherCommand(t, _, _, _) => t
    }

    function DefaultPriority(): int {
      match this
      case UpdateMyListStatsCommand(_) => UpdateMyListStats.DefaultPriority
      case OtherCommand(_, p, _, _) => p
    }

    /** `ConflictBehavior`: the base class answers `Ignore`. */
    function ConflictBehavior(): (c: CommandConflict)
      ensures DeclaredConflict(this).None? ==> c == Ignore
    {
      match this
      case UpdateMyListStatsCommand(_) => Ignore
      case OtherCommand(_, _, o, _) => o.GetOr(Ignore)
    }

    function GeneratedId(): string {
      match this
      case UpdateMyListStatsCommand(_) => UpdateMyListStats.CommandId
      case OtherCommand(_, _, _, id) => id
    }

    /**
     * One run of `Process`: the log lines it writes and the exception it
     * throws, if any. `fault` is what an arbitrary command's `Process` throws
     * on this run; the UpdateMyListStats command only logs.
     */
    function Process(fault: Option<string>): (run: ProcessRun)
      ensures UpdateMyListStatsCommand? ==> run.fault.None? && run.log == [Info(UpdateMyListStats.ProcessMessage)]
    {
      match this
      case UpdateMyListStatsCommand(_) => ProcessRun([Info(UpdateMyListStats.ProcessMessage)], None)
      case OtherCommand(_, _, _, _) => ProcessRun([], fault)
    }
  }

  /** The override a kind declares; UpdateMyListStats declares none. */
  function DeclaredConflict(k: CommandKind): Option<CommandConflict> {
    if k.OtherCommand? then k.conflictOverride else None
  }

  datatype LogEntry = Info(message: string) | ErrorLogged(exception: string)

  datatype ProcessRun = ProcessRun(log: seq<LogEntry>, fault: Option<string>)

  /** The end of `ProcessCommand`: what was logged, and the exception passed on to the caller, if any. */
  datatype ProcessOutcome = ProcessOutcome(log: seq<LogEntry>, rethrown: Option<string>)

  // ------------------------------------------------------ the request table

  /** The first row holding `id` (`GetByCommandID`). */
  function FindByCommandId(rows: seq<Record>, id: string): (r: Option<nat>)
    ensures r.Some? ==> r.value < |rows| && rows[r.value].commandId == id
    ensures r.Some? ==> forall j :: 0 <= j < r.value ==> rows[j].commandId != id
    ensures r.None? <==> forall j :: 0 <= j < |rows| ==> rows[j].commandId != id
  {
    if rows == [] then None
    else if rows[0].commandId == id then Some(0)
    else match FindByCommandId(rows[1..], id)
      case None => None
      case Some(k) => Some(k + 1)
  }

  function RemoveAt(rows: seq<Record>, i: nat): seq<Record>
    requires i < |rows|
  {
    rows[..i] + rows[i + 1..]
  }

  /** No two rows share a CommandID. */
  predicate DistinctIds(rows: seq<Record>) {
    forall i, j :: 0 <= i < j < |rows| ==> rows[i].commandId != rows[j].commandId
  }

  /** The processor `Save` wakes for the queue index the repository assigns; other indexes wake none. */
  function NotifiedLanes(queueIndex: int): (r: seq<Lane>)
    ensures |r| <= 1
    ensures r == [General] <==> queueIndex == 0
    ensures r == [Hasher] <==> queueIndex == 1
    ensures r == [Images] <==> queueIndex == 2
    ensures r == [] <==> !(0 <= queueIndex <= 2)
  {
    if queueIndex == 0 then [General]
    else if queueIndex == 1 then [Hasher]
    else if queueIndex == 2 then [Images]
    else []
  }

  /** The command-request repository, as a table of rows. */
  class CommandStore {
    var rows: seq<Record>

    constructor ()
      ensures rows == []
    {
      rows := [];
    }

    /** `GetByCommandID`: the position of the first row with that CommandID. */
    method GetByCommandID(id: string) returns (r: Option<nat>)
      ensures r == FindByCommandId(rows, id)
    {
      var i := 0;
      while i < |rows|
        invariant 0 <= i <= |rows|
        invariant forall j :: 0 <= j < i ==> rows[j].commandId != id
      {
        if rows[i].commandId == id {
          return Some(i);
        }
        i := i + 1;
      }
      return None;
    }

    method Delete(i: nat)
      requires i < |rows|
      modifies this
      ensures rows == RemoveAt(old(rows), i)
    {
      rows := RemoveAt(rows, i);
    }

    /** `Save`: appends the row when the transaction commits; reports whether it did. */
    method Save(r: Record, outcome: StoreOutcome) returns (committed: bool)
      modifies this
      ensures committed <==> outcome == Committed
      ensures rows == if committed then old(rows) + [r] else old(rows)
    {
      committed := outcome == Committed;
      if committed {
        rows := rows + [r];
      }
    }
  }

  /** The three command processors, recording each `NotifyOfNewCommand` call. */
  class Processors {
    var notified: seq<Lane>

    constructor ()
      ensures notified == []
    {
      notified := [];
    }

    method NotifyOfNewCommand(queueIndex: int)
      modifies this
      ensures notified == old(notified) + NotifiedLanes(queueIndex)
    {
      notified := notified + NotifiedLanes(queueIndex);
    }
  }

  // ------------------------------------------------------------------- save

  /** The key `Save` looks up: the CommandID on entry, tagged when the save is forced. */
  function LookupKey(commandId: string, force: bool): string {
    commandId + (if force then "_Forced" else "")
  }

  /** Everything `Save` leaves behind. */
  datatype SaveState = SaveState(rows: seq<Record>, notified: seq<Lane>, request: Record,
                                 thrown: Option<string>, attempts: nat)

  /**
   * `Save` on values: `request` is the request's fields on entry, `now` the
   * clock, `serialized` what `GetCommandDetails` returns once the new
   * CommandID is set, `first`/`retry` the two repository outcomes, and
   * `queueIndex` what `GetQueueIndex` answers. A thrown exception carries the
   * looked-up key (`CommandExistsException.CommandID`).
   */
  function SaveSpec(rows: seq<Record>, notified: seq<Lane>, request: Record, kind: CommandKind,
                    force: bool, now: int, serialized: string,
                    first: StoreOutcome, retry: StoreOutcome, queueIndex: int): SaveState
  {
    var key := LookupKey(request.commandId, force);
    var found := FindByCommandId(rows, key);
    if found.Some? && kind.ConflictBehavior() == Ignore then
      SaveState(rows, notified, request, None, 0)
    else if found.Some? && kind.ConflictBehavior() != Replace then
      SaveState(rows, notified, request, Some(key), 0)
    else
      var kept := if found.Some? then RemoveAt(rows, found.value) else rows;
      var saved := request.(dateTimeUpdated := now, commandId := kind.GeneratedId(),
                            commandDetails := serialized);
      var committed := first == Committed || retry == Committed;
      SaveState(if committed then kept + [saved] else kept, notified + NotifiedLanes(queueIndex),
                saved, None, if first == Committed then 1 else 2)
  }

  /** The request is stored with a fresh CommandID only when no row holds its key or the policy is Replace. */
  predicate SaveProceeds(rows: seq<Record>, request: Record, kind: CommandKind, force: bool) {
    FindByCommandId(rows, LookupKey(request.commandId, force)).None? || kind.ConflictBehavior() == Replace
  }

  /** Ignore: a request whose key is stored already changes nothing, not even the request. */
  lemma SaveIgnoresStoredKey(rows: seq<Record>, notified: seq<Lane>, request: Record, kind: CommandKind,
                             force: bool, now: int, serialized: string,
                             first: StoreOutcome, retry: StoreOutcome, queueIndex: int)
    requires FindByCommandId(rows, LookupKey(request.commandId, force)).Some?
    requires kind.ConflictBehavior() == Ignore
    ensures SaveSpec(rows, notified, request, kind, force, now, serialized, first, retry, queueIndex)
            == SaveState(rows, notified, request, None, 0)
  {
  }

  /** Error and any undefined policy: `CommandExistsException` naming the key, and nothing changes. */
  lemma SaveRejectsStoredKey(rows: seq<Record>, notified: seq<Lane>, request: Record, kind: CommandKind,
                             force: bool, now: int, serialized: string,
                             first: StoreOutcome, retry: StoreOutcome, queueIndex: int)
    requires FindByCommandId(rows, LookupKey(request.commandId, force)).Some?
    requires kind.ConflictBehavior() == Error || kind.ConflictBehavior().Undefined?
    ensures var s := SaveSpec(rows, notified, request, kind, force, now, serialized, first, retry, queueIndex);
            s.thrown == Some(LookupKey(request.commandId, force)) && s.rows == rows && s.notified == notified
            && s.request == request && s.attempts == 0
  {
  }

  /**
   * A save that goes ahead: the request gets the clock, its generated CommandID
   * and its payload; the stored copy of its key (Replace) is deleted; the save
   * is tried once more only after a transaction failure; the row is added when
   * either try commits, a second failure is swallowed; and the lane is woken
   * either way.
   */
  lemma SaveStoresOnce(rows: seq<Record>, notified: seq<Lane>, request: Record, kind: CommandKind,
                       force: bool, now: int, serialized: string,
                       first: StoreOutcome, retry: StoreOutcome, queueIndex: int)
    requires SaveProceeds(rows, request, kind, force)
    ensures var s := SaveSpec(rows, notified, request, kind, force, now, serialized, first, retry, queueIndex);
            var found := FindByCommandId(rows, LookupKey(request.commandId, force));
            var kept := if found.Some? then RemoveAt(rows, found.value) else rows;
            && s.thrown.None?
            && s.request.commandId == kind.GeneratedId() && s.request.dateTimeUpdated == now
            && s.request.commandDetails == serialized
            && s.request.commandType == request.commandType && s.request.priority == request.priority
            && (s.attempts == 1 <==> first == Committed) && 1 <= s.attempts <= 2
            && s.rows == (if first == Committed || retry == Committed then kept + [s.request] else kept)
            && s.notified == notified + NotifiedLanes(queueIndex)
  {
  }

  /** Replace removes exactly the stored row with the key; a committed save then keeps the table size. */
  lemma {:induction false} SaveReplaceKeepsSize(rows: seq<Record>, notified: seq<Lane>, request: Record, kind: CommandKind,
                                                force: bool, now: int, serialized: string,
                                                first: StoreOutcome, retry: StoreOutcome, queueIndex: int)
    requires FindByCommandId(rows, LookupKey(request.commandId, force)).Some?
    requires kind.ConflictBehavior() == Replace
    requires first == Committed || retry == Committed
    ensures var s := SaveSpec(rows, notified, request, kind, force, now, serialized, first, retry, queueIndex);
            |s.rows| == |rows| && s.rows[|rows| - 1].commandId == kind.GeneratedId()
            && multiset(s.rows) == multiset(rows) - multiset{rows[FindByCommandId(rows, LookupKey(request.commandId, force)).value]} + multiset{s.request}
  {
    var i := FindByCommandId(rows, LookupKey(request.commandId, force)).value;
    assert rows == rows[..i] + [rows[i]] + rows[i + 1..];
  }

  /**
   * A request whose CommandID on entry is already its generated one, saved
   * without force, keeps the table free of duplicate CommandIDs.
   */
  lemma {:induction false} SaveKeepsIdsDistinct(rows: seq<Record>, notified: seq<Lane>, request: Record, kind: CommandKind,
                                                now: int, serialized: string,
                                                first: StoreOutcome, retry: StoreOutcome, queueIndex: int)
    requires DistinctIds(rows)
    requires request.commandId == kind.GeneratedId()
    ensures DistinctIds(SaveSpec(rows, notified, request, kind, false, now, serialized, first, retry, queueIndex).rows)
  {
    var key := LookupKey(request.commandId, false);
    assert key == request.commandId;
    var found := FindByCommandId(rows, key);
    if SaveProceeds(rows, request, kind, false) {
      var kept := if found.Some? then RemoveAt(rows, found.value) else rows;
      if found.Some? {
        RemoveOnlyHolder(rows, found.value);
      }
      assert forall j :: 0 <= j < |kept| ==> kept[j].commandId != key;
      AppendFreshId(kept, SaveSpec(rows, notified, request, kind, false, now, serialized, first, retry, queueIndex).request);
    }
  }

  /** Deleting the row that holds an ID from a table without duplicates leaves no holder of that ID. */
  lemma RemoveOnlyHolder(rows: seq<Record>, i: nat)
    requires DistinctIds(rows) && i < |rows|
    ensures DistinctIds(RemoveAt(rows, i))
    ensures forall j :: 0 <= j < |RemoveAt(rows, i)| ==> RemoveAt(rows, i)[j].commandId != rows[i].commandId
  {
    var kept := RemoveAt(rows, i);
    assert forall j :: 0 <= j < |kept| ==> kept[j] == rows[if j < i then j else j + 1];
  }

  lemma AppendFreshId(rows: seq<Record>, r: Record)
    requires DistinctIds(rows)
    requires forall j :: 0 <= j < |rows| ==> rows[j].commandId != r.commandId
    ensures DistinctIds(rows + [r])
  {
  }

  /**
   * The duplicate check uses the CommandID as it stands on entry: a freshly
   * built UpdateMyListStats request (CommandID still unset) that commits adds
   * a second row with the same CommandID.
   */
  lemma FreshRequestIsNotDeduplicated(code: int, stored: Record, request: Record, now: int, serialized: string,
                                      queueIndex: int)
    requires stored.commandId == UpdateMyListStats.CommandId
    requires request.commandId == ""
    ensures var s := SaveSpec([stored], [], request, UpdateMyListStatsCommand(code), false, now, serialized,
                              Committed, Committed, queueIndex);
            |s.rows| == 2 && s.rows[0].commandId == s.rows[1].commandId && !DistinctIds(s.rows)
  {
    assert FindByCommandId([stored], "") == None;
  }

  // -------------------------------------------------------------- requests

  /** A command request: the fields the table stores, plus `BubbleExceptions`. */
  class CommandRequest {
    const kind: CommandKind
    var commandId: string
    var commandType: int
    var priority: int
    var dateTimeUpdated: int
    var commandDetails: string
    var bubbleExceptions: bool

    /**
     * The constructor: the command type comes from the class's `[Command]`
     * attribute, -1 without one; the priority is the class's default;
     * exceptions are not bubbled. An unset CommandID or payload is "".
     */
    constructor (kind: CommandKind)
      ensures this.kind == kind
      ensures commandType == kind.AttributeRequestType().GetOr(-1)
      ensures priority == kind.DefaultPriority()
      ensures !bubbleExceptions
      ensures commandId == "" && commandDetails == "" && dateTimeUpdated == 0
    {
      this.kind := kind;
      commandType := kind.AttributeRequestType().GetOr(-1);
      priority := kind.DefaultPriority();
      bubbleExceptions := false;
      commandId := "";
      commandDetails := "";
      dateTimeUpdated := 0;
    }

    function Snapshot(): Record
      reads this
    {
      Record(commandId, commandType, priority, dateTimeUpdated, commandDetails)
    }

    method GenerateCommandID()
      modifies this
      ensures commandId == kind.GeneratedId()
      ensures Snapshot() == old(Snapshot()).(commandId := kind.GeneratedId())
      ensures bubbleExceptions == old(bubbleExceptions)
    {
      commandId := kind.GeneratedId();
    }

    /**
     * `ProcessCommand`: runs `Process`; a fault is passed on when
     * `BubbleExceptions` is set and otherwise logged and swallowed.
     */
    method ProcessCommand(fault: Option<string>) returns (r: ProcessOutcome)
      ensures var run := kind.Process(fault);
              && (r.rethrown.Some? <==> bubbleExceptions && run.fault.Some?)
              && (r.rethrown.Some? ==> r.rethrown == run.fault && r.log == run.log)
              && (run.fault.None? ==> r == ProcessOutcome(run.log, None))
              && (!bubbleExceptions && run.fault.Some? ==> r.log == run.log + [ErrorLogged(run.fault.value)])
    {
      var run := kind.Process(fault);
      if run.fault.None? {
        return ProcessOutcome(run.log, None);
      }
      if bubbleExceptions {
        return ProcessOutcome(run.log, run.fault);
      }
      return ProcessOutcome(run.log + [ErrorLogged(run.fault.value)], None);
    }

    /** `Save`, against `SaveSpec`. */
    method Save(store: CommandStore, processors: Processors, force: bool, now: int, serialized: string,
                first: StoreOutcome, retry: StoreOutcome, queueIndex: int)
      returns (thrown: Option<string>, attempts: nat)
      modifies this, store, processors
      ensures bubbleExceptions == old(bubbleExceptions)
      ensures SaveState(store.rows, processors.notified, Snapshot(), thrown, attempts)
              == SaveSpec(old(store.rows), old(processors.notified), old(Snapshot()), kind, force, now,
                          serialized, first, retry, queueIndex)
    {
      var key := LookupKey(commandId, force);
      var existing := store.GetByCommandID(key);
      if existing.Some? {
        var policy := kind.ConflictBehavior();
        if policy == Ignore {
          return None, 0;
        } else if policy != Replace {
          return Some(key), 0;
        }
        store.Delete(existing.value);
      }
      dateTimeUpdated := now;
      GenerateCommandID();
      commandDetails := serialized;
      var committed := store.Save(Snapshot(), first);
      attempts := 1;
      if !committed {
        attempts := 2;
        committed := store.Save(Snapshot(), retry);
      }
      processors.NotifyOfNewCommand(queueIndex);
      thrown := None;
    }
  }

  /** The UpdateMyListStats command never faults, whatever `BubbleExceptions` says. */
  lemma UpdateMyListStatsProcessCompletes(code: int, fault: Option<string>)
    ensures UpdateMyListStatsCommand(code).Process(fault) == ProcessRun([Info(UpdateMyListStats.ProcessMessage)], None)
  {
  }

  // ---------------------------------------------------------- XML payloads

  /** An XML node: its name, its `InnerText`, and its child nodes. */
  datatype XmlNode = XmlNode(name: string, innerText: string, children: seq<XmlNode>)

  /** How `TryGetProperty` compares names: `ToLowerInvariant()` with every '_' removed. */
  function NormalName(name: string): string {
    Remove(Lower(name), '_')
  }

  /** `FirstOrDefault` on names: the position of the first node whose name matches. */
  function FirstNamed(nodes: seq<XmlNode>, name: string): (r: Option<nat>)
    ensures r.Some? ==> r.value < |nodes| && NormalName(nodes[r.value].name) == NormalName(name)
    ensures r.Some? ==> forall j :: 0 <= j < r.value ==> NormalName(nodes[j].name) != NormalName(name)
    ensures r.None? <==> forall j :: 0 <= j < |nodes| ==> NormalName(nodes[j].name) != NormalName(name)
  {
    if nodes == [] then None
    else if NormalName(nodes[0].name) == NormalName(name) then Some(0)
    else match FirstNamed(nodes[1..], name)
      case None => None
      case Some(k) => Some(k + 1)
  }

  /** The trimmed text of `parent`'s first child called `propertyName`; "" when there is none. */
  function PropertyText(parent: XmlNode, propertyName: string): (r: string)
    ensures r != [] ==> !IsWhiteSpace(r[0]) && !IsWhiteSpace(r[|r| - 1])
  {
    match FirstNamed(parent.children, propertyName)
    case None => ""
    case Some(i) => Trim(parent.children[i].innerText)
  }

  /** The first non-empty string, in order; "" when there is none. */
  function FirstNonEmpty(values: seq<string>): (r: string)
    ensures r == "" <==> forall i :: 0 <= i < |values| ==> values[i] == ""
    ensures r != "" ==> r in values
  {
    if values == [] then ""
    else if values[0] != "" then values[0]
    else
      var rest := FirstNonEmpty(values[1..]);
      assert forall i :: 1 <= i < |values| ==> values[i] == values[1..][i - 1];
      rest
  }

  /** When every earlier value is empty and value `k` is not, value `k` is the answer. */
  lemma {:induction false} FirstNonEmptyPicks(values: seq<string>, k: nat)
    requires k < |values| && values[k] != ""
    requires forall j :: 0 <= j < k ==> values[j] == ""
    ensures FirstNonEmpty(values) == values[k]
    decreases k
  {
    if k > 0 {
      FirstNonEmptyPicks(values[1..], k - 1);
    }
  }

  /** The `PropertyText` of each name, in order. */
  function PropertyTexts(parent: XmlNode, propertyNames: seq<string>): (r: seq<string>)
    ensures |r| == |propertyNames|
    ensures forall i :: 0 <= i < |propertyNames| ==> r[i] == PropertyText(parent, propertyNames[i])
  {
    seq(|propertyNames|, i requires 0 <= i < |propertyNames| => PropertyText(parent, propertyNames[i]))
  }

  /** The first non-empty property of `parent` among `propertyNames`. */
  function FirstProperty(parent: XmlNode, propertyNames: seq<string>): string {
    FirstNonEmpty(PropertyTexts(parent, propertyNames))
  }

  /** The node of `doc` (null when None) called `keyName`, then its first non-empty property. */
  function KeyProperty(doc: Option<seq<XmlNode>>, keyName: string, propertyNames: seq<string>): string {
    if doc.None? then ""
    else match FirstNamed(doc.value, keyName)
      case None => ""
      case Some(p) => FirstProperty(doc.value[p], propertyNames)
  }

  /** The `KeyProperty` of each key, in order. */
  function KeyProperties(doc: Option<seq<XmlNode>>, keyNames: seq<string>, propertyNames: seq<string>): (r: seq<string>)
    ensures |r| == |keyNames|
    ensures forall i :: 0 <= i < |keyNames| ==> r[i] == KeyProperty(doc, keyNames[i], propertyNames)
  {
    seq(|keyNames|, i requires 0 <= i < |keyNames| => KeyProperty(doc, keyNames[i], propertyNames))
  }

  /** The first key, in order, whose node has a non-empty property. */
  function FirstKeyProperty(doc: Option<seq<XmlNode>>, keyNames: seq<string>, propertyNames: seq<string>): string {
    FirstNonEmpty(KeyProperties(doc, keyNames, propertyNames))
  }

  /**
   * `TryGetProperty(doc, keyName, propertyName)`: the trimmed text of the
   * property under the first node named `keyName`; "" when the document is
   * null, the key or the property is absent, or the text is blank.
   */
  function TryGetProperty(doc: Option<seq<XmlNode>>, keyName: string, propertyName: string): (r: string)
    ensures r != [] ==> !IsWhiteSpace(r[0]) && !IsWhiteSpace(r[|r| - 1])
    ensures doc.None? ==> r == ""
    ensures doc.Some? && FirstNamed(doc.value, keyName).None? ==> r == ""
  {
    if doc.None? then ""
    else match FirstNamed(doc.value, keyName)
      case None => ""
      case Some(p) => PropertyText(doc.value[p], propertyName)
  }

  /** The loop over the property names that the two list overloads share. */
  method FirstPropertyOf(parent: XmlNode, propertyNames: seq<string>) returns (r: string)
    ensures r == FirstProperty(parent, propertyNames)
  {
    ghost var texts := PropertyTexts(parent, propertyNames);
    var k := 0;
    while k < |propertyNames|
      invariant 0 <= k <= |propertyNames|
      invariant forall j :: 0 <= j < k ==> texts[j] == ""
    {
      var prop := PropertyText(parent, propertyNames[k]);
      if prop != "" {
        FirstNonEmptyPicks(texts, k);
        return prop;
      }
      k := k + 1;
    }
    return "";
  }

  /** `TryGetProperty(doc, keyName, params propertyNames)`. */
  method TryGetPropertyOf(doc: Option<seq<XmlNode>>, keyName: string, propertyNames: seq<string>) returns (r: string)
    ensures r == KeyProperty(doc, keyName, propertyNames)
  {
    if doc.None? {
      return "";
    }
    var p := FirstNamed(doc.value, keyName);
    if p.None? {
      return "";
    }
    r := FirstPropertyOf(doc.value[p.value], propertyNames);
  }

  /** `TryGetProperty(doc, keyNames, params propertyNames)`: the loop over the keys. */
  method TryGetPropertyOfAny(doc: Option<seq<XmlNode>>, keyNames: seq<string>, propertyNames: seq<string>)
    returns (r: string)
    ensures r == FirstKeyProperty(doc, keyNames, propertyNames)
  {
    ghost var values := KeyProperties(doc, keyNames, propertyNames);
    var i := 0;
    while i < |keyNames|
      invariant 0 <= i <= |keyNames|
      invariant FirstNonEmpty(values[i..]) == FirstNonEmpty(values)
    {
      var prop := TryGetPropertyOf(doc, keyNames[i], propertyNames);
      assert values[i] == prop;
      if prop != "" {
        return prop;
      }
      assert values[i..][1..] == values[i + 1..];
      i := i + 1;
    }
    assert values[i..] == [];
    return "";
  }

  /** The three overloads agree on a single key and a single property name. */
  lemma OverloadsAgree(doc: Option<seq<XmlNode>>, keyName: string, propertyName: string)
    ensures TryGetProperty(doc, keyName, propertyName) == KeyProperty(doc, keyName, [propertyName])
    ensures KeyProperty(doc, keyName, [propertyName]) == FirstKeyProperty(doc, [keyName], [propertyName])
  {
    assert [propertyName][1..] == [];
    assert [keyName][1..] == [];
  }

  /** Names match whatever their letter case and underscores: only the normalised names matter. */
  lemma {:induction false} NamesMatchLoosely(doc: Option<seq<XmlNode>>, k1: string, k2: string, p1: string, p2: string)
    requires NormalName(k1) == NormalName(k2) && NormalName(p1) == NormalName(p2)
    ensures TryGetProperty(doc, k1, p1) == TryGetProperty(doc, k2, p2)
  {
    if doc.Some? {
      SameNameSameNode(doc.value, k1, k2);
      var p := FirstNamed(doc.value, k1);
      if p.Some? {
        SameNameSameNode(doc.value[p.value].children, p1, p2);
      }
    }
  }

  lemma {:induction false} SameNameSameNode(nodes: seq<XmlNode>, n1: string, n2: string)
    requires NormalName(n1) == NormalName(n2)
    ensures FirstNamed(nodes, n1) == FirstNamed(nodes, n2)
    decreases |nodes|
  {
    if nodes != [] {
      SameNameSameNode(nodes[1..], n1, n2);
    }
  }

  /** "Anime_ID" and "animeid" name the same node. */
  lemma UnderscoreAndCaseIgnored()
    ensures NormalName("Anime_ID") == NormalName("animeid")
  {
    var a, b := Lower("Anime_ID"), Lower("animeid");
    assert a == "anime" + "_id";
    assert b == "anime" + "id";
    RemoveAbsent("anime", '_');
    RemoveAbsent("id", '_');
    assert Remove("_id", '_') == Remove("id", '_');
    RemoveAppend("anime", "_id", '_');
    RemoveAppend("anime", "id", '_');
  }
}
