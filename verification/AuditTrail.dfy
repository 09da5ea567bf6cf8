/**
 * Record before response: the audit wrapper around an arbitrary inner handler, and the append-only log file, where an
 * append may stop halfway and leave part of a line behind. Requests overlap: the wrapper holds no lock across its
 * steps, so between any two of them other requests may take theirs.
 */
module AuditTrail {
  import opened Basics
  import opened Text

  datatype Record = Record(requestId: string, action: string, resource: string, outcome: string, errorCode: string)

  /** JSON for records, and the error code that a JSON response body carries. */
  datatype Json = Json(encode: Record -> string, decode: string -> Option<Record>, errorCodeOf: string -> string)

  ghost predicate JsonLaw(j: Json) {
    forall r :: j.decode(j.encode(r)) == Some(r) && '\n' !in j.encode(r)
  }

  const SUCCESS := "success"
  const FAILURE := "failure"

  datatype Target = Target(action: string, resource: string)

  datatype Response = Response(status: nat, body: string, auditFailure: bool)

  const AUDIT_FAILURE := Response(500, "", true)

  /** A refusal that says the audit record is unavailable. */
  ghost predicate IsAuditFailure(response: Response) {
    response.auditFailure && response.status == 500 && response.body == ""
  }

  /** What the log says of a request: a failure exactly from status 400 on, and then with the error code of its body. */
  ghost predicate Describes(json: Json, record: Record, target: Target, requestId: string, status: nat, body: string) {
    && record.requestId == requestId && record.action == target.action && record.resource == target.resource
    && record.outcome == (if status >= 400 then "failure" else "success")
    && record.errorCode == (if status >= 400 then json.errorCodeOf(body) else "")
  }

  /** The record of a request that was answered with this status and body. */
  function RecordOf(json: Json, target: Target, requestId: string, status: nat, body: string): (r: Record)
    ensures Describes(json, r, target, requestId, status, body)
  {
    Record(requestId, target.action, target.resource, if status >= 400 then FAILURE else SUCCESS,
           if status >= 400 then json.errorCodeOf(body) else "")
  }

  // ---- What happens to requests ----

  /** A step of one request; call tells requests apart. */
  datatype Event =
    | LogOpened(call: nat)
    | LogRefused(call: nat)
    | HandlerStarted(call: nat)
    | HandlerEnded(call: nat, target: Target, requestId: string, status: nat, body: string)
    | Recorded(call: nat, record: Record, before: string)
    | AppendFailed(call: nat)
    | Delivered(call: nat, response: Response)

  /** The steps of one request among those of all. */
  ghost function Own(events: seq<Event>, call: nat): seq<Event> {
    if events == [] then []
    else
      var n := |events| - 1;
      if events[n].call == call then Own(events[..n], call) + [events[n]] else Own(events[..n], call)
  }

  /** Step i of one request is due after the steps before it. */
  ghost predicate Due(json: Json, steps: seq<Event>, i: nat)
    requires i < |steps|
  {
    match steps[i]
    case LogOpened(_) => i == 0
    case LogRefused(_) => i == 0
    case HandlerStarted(_) => i == 1 && steps[0].LogOpened?
    case HandlerEnded(_, _, _, _, _) => i == 2 && steps[1].HandlerStarted?
    case Recorded(_, record, _) =>
      i == 3 && steps[2].HandlerEnded?
      && Describes(json, record, steps[2].target, steps[2].requestId, steps[2].status, steps[2].body)
    case AppendFailed(_) => i == 3 && steps[2].HandlerEnded?
    case Delivered(_, response) =>
      if response.auditFailure then
        IsAuditFailure(response) && (i == 0 || (i == 1 && steps[0].LogRefused?) || (i == 4 && steps[3].AppendFailed?))
      else i == 4 && steps[3].Recorded? && steps[2].HandlerEnded? && response == Response(steps[2].status, steps[2].body, false)
  }

  /** The steps of one request come in the order of the wrapper. */
  ghost predicate InOrder(json: Json, steps: seq<Event>) {
    forall i | 0 <= i < |steps| :: Due(json, steps, i)
  }

  ghost predicate AllInOrder(json: Json, events: seq<Event>) {
    forall call: nat :: InOrder(json, Own(events, call))
  }

  /** Every acknowledged record is in the file where it was appended. */
  ghost predicate RecordsInFile(json: Json, contents: string, events: seq<Event>) {
    forall i | 0 <= i < |events| && events[i].Recorded? ::
      events[i].before + json.encode(events[i].record) + "\n" <= contents
  }

  lemma OwnMore(events: seq<Event>, e: Event, call: nat)
    ensures Own(events + [e], call) == if e.call == call then Own(events, call) + [e] else Own(events, call)
  {
    assert (events + [e])[..|events|] == events;
  }

  lemma {:induction false} OwnMoreOf(events: seq<Event>, more: seq<Event>, call: nat)
    ensures Own(events + more, call) == Own(events, call) + Own(more, call)
  {
    if more == [] {
      assert events + more == events;
    } else {
      var n := |more| - 1;
      OwnMoreOf(events, more[..n], call);
      assert events + more == events + more[..n] + [more[n]];
      OwnMore(events + more[..n], more[n], call);
    }
  }

  lemma {:induction false} NoneOwn(more: seq<Event>, call: nat)
    requires forall i | 0 <= i < |more| :: more[i].call != call
    ensures Own(more, call) == []
  {
    if more != [] {
      NoneOwn(more[..|more| - 1], call);
    }
  }

  lemma InOrderMore(json: Json, steps: seq<Event>, e: Event)
    requires InOrder(json, steps) && Due(json, steps + [e], |steps|)
    ensures InOrder(json, steps + [e])
  {
    var more := steps + [e];
    forall i | 0 <= i < |more|
      ensures Due(json, more, i)
    {
      if i < |steps| {
        assert Due(json, steps, i);
      }
    }
  }

  /** A step that is due for its own request keeps every request in order. */
  lemma StepKeepsOrder(json: Json, events: seq<Event>, e: Event)
    requires AllInOrder(json, events) && Due(json, Own(events, e.call) + [e], |Own(events, e.call)|)
    ensures AllInOrder(json, events + [e])
  {
    forall call: nat
      ensures InOrder(json, Own(events + [e], call))
    {
      OwnMore(events, e, call);
      assert InOrder(json, Own(events, call));
      if call == e.call {
        InOrderMore(json, Own(events, call), e);
      }
    }
  }

  lemma RecordsStay(json: Json, contents: string, longer: string, events: seq<Event>, e: Event)
    requires RecordsInFile(json, contents, events) && contents <= longer
    requires e.Recorded? ==> e.before + json.encode(e.record) + "\n" <= longer
    ensures RecordsInFile(json, longer, events + [e])
  {
    var more := events + [e];
    forall i | 0 <= i < |more| && more[i].Recorded?
      ensures more[i].before + json.encode(more[i].record) + "\n" <= longer
    {
      if i < |events| {
        assert more[i] == events[i];
      }
    }
  }

  // ---- The log file ----

  /** The log that all requests share, and, for the proof only, the steps they took so far. */
  class AuditLog {
    const json: Json
    var contents: string
    ghost var events: seq<Event>

    constructor (json: Json)
      ensures this.json == json && contents == "" && events == []
    {
      this.json := json;
      contents := "";
      events := [];
    }

    ghost predicate Valid()
      reads this
    {
      AllInOrder(json, events) && RecordsInFile(json, contents, events)
    }

    /** One step of a request, due after its earlier ones. */
    ghost method Note(e: Event)
      requires Valid() && Due(json, Own(events, e.call) + [e], |Own(events, e.call)|) && !e.Recorded?
      modifies this`events
      ensures Valid() && events == old(events) + [e] && Own(events, e.call) == Own(old(events), e.call) + [e]
    {
      StepKeepsOrder(json, events, e);
      RecordsStay(json, contents, contents, events, e);
      OwnMore(events, e, e.call);
      events := events + [e];
    }

    /** Opens and closes the file under the lock of the log; only a success is noted as one. */
    method Ready(ghost call: nat) returns (ok: bool)
      requires Valid() && Own(events, call) == []
      modifies this`events
      ensures Valid() && Own(events, call) == [if ok then LogOpened(call) else LogRefused(call)]
      ensures events == old(events) + [if ok then LogOpened(call) else LogRefused(call)]
    {
      ok := Attempt();
      Note(if ok then LogOpened(call) else LogRefused(call));
    }

    /**
     * Writes one line at the end of the file. Success means written and synced; a failure may leave the file as it was, a
     * part of the line, or the whole line. What was there before is never changed.
     */
    method Write(line: string) returns (ok: bool, ghost written: nat)
      modifies this`contents
      ensures written <= |line| && contents == old(contents) + line[..written] && (ok ==> written == |line|)
    {
      written := 0;
      ok := Attempt();
      if !ok {
        assert contents == contents + line[..0];
        return;
      }
      var n: int := *;
      if 0 <= n < |line| {
        contents := contents + line[..n];
        return false, n;
      }
      assert line[..|line|] == line;
      contents := contents + line;
      ok := Attempt();
      written := |line|;
    }

    /** Appends one record under the lock of the log; only a success is noted as one. */
    method Append(record: Record, ghost call: nat) returns (ok: bool)
      requires Valid()
      requires Due(json, Own(events, call) + [AppendFailed(call)], |Own(events, call)|)
      requires Due(json, Own(events, call) + [Recorded(call, record, contents)], |Own(events, call)|)
      modifies this
      ensures Valid()
      ensures ok ==> contents == old(contents) + json.encode(record) + "\n"
      ensures !ok ==> exists n :: 0 <= n <= |json.encode(record)| + 1 && contents == old(contents) + (json.encode(record) + "\n")[..n]
      ensures events == old(events) + [if ok then Recorded(call, record, old(contents)) else AppendFailed(call)]
      ensures Own(events, call) == Own(old(events), call) + [if ok then Recorded(call, record, old(contents)) else AppendFailed(call)]
    {
      ghost var before := contents;
      var line := json.encode(record) + "\n";
      ghost var written;
      ok, written := Write(line);
      ghost var e := if ok then Recorded(call, record, before) else AppendFailed(call);
      if ok {
        assert line[..|line|] == line;
        assert before + line == before + json.encode(record) + "\n";
      }
      RecordsStay(json, before, contents, events, e);
      StepKeepsOrder(json, events, e);
      OwnMore(events, e, call);
      events := events + [e];
    }

    /** Other requests go on: any number of their steps, and what they append. */
    method OthersGoOn(ghost call: nat)
      requires Valid()
      modifies this
      ensures Valid() && old(contents) <= contents && old(events) <= events
      ensures Own(events, call) == Own(old(events), call)
    {
      var text: string := *;
      ghost var grown := contents + text;
      assert MayHappen(json, grown, events, [], call) by {
        assert events + [] == events;
      }
      ghost var more :| MayHappen(json, grown, events, more, call);
      assert MayHappen(json, grown, events, more, call);
      OwnMoreOf(events, more, call);
      NoneOwn(more, call);
      contents := contents + text;
      events := events + more;
    }
  }

  /** Steps of other requests that keep everything in order. */
  ghost predicate MayHappen(json: Json, contents: string, events: seq<Event>, more: seq<Event>, call: nat) {
    && (forall i | 0 <= i < |more| :: more[i].call != call)
    && AllInOrder(json, events + more) && RecordsInFile(json, contents, events + more)
  }

  // ---- The captured response ----

  datatype WriterCall = WriteHeader(status: nat) | Write(data: string)

  /** The status a response keeps: the first one set, a write without one setting 200. */
  function StatusAfter(calls: seq<WriterCall>): nat {
    if calls == [] then 0
    else
      var n := |calls| - 1;
      var before := StatusAfter(calls[..n]);
      if before != 0 then before else if calls[n].WriteHeader? then calls[n].status else 200
  }

  function BodyAfter(calls: seq<WriterCall>): string {
    if calls == [] then ""
    else
      var n := |calls| - 1;
      BodyAfter(calls[..n]) + if calls[n].Write? then calls[n].data else ""
  }

  class BufferedResponse {
    var status: nat
    var body: string

    constructor ()
      ensures status == 0 && body == ""
    {
      status, body := 0, "";
    }

    method Call(call: WriterCall)
      modifies this
      ensures status == if old(status) != 0 then old(status) else if call.WriteHeader? then call.status else 200
      ensures body == old(body) + if call.Write? then call.data else ""
    {
      match call
      case WriteHeader(s) =>
        if status == 0 {
          status := s;
        }
      case Write(data) =>
        if status == 0 {
          status := 200;
        }
        body := body + data;
    }
  }

  /** A call that fixes the status of a response that has none yet. */
  predicate FixesStatus(call: WriterCall) {
    call.Write? || call.status != 0
  }

  /** Without such a call the response leaves with status 200. */
  lemma {:induction false} NoStatusFixed(calls: seq<WriterCall>)
    requires forall k | 0 <= k < |calls| :: !FixesStatus(calls[k])
    ensures StatusAfter(calls) == 0 && FinalStatus(calls) == 200
  {
    if calls != [] {
      NoStatusFixed(calls[..|calls| - 1]);
    }
  }

  /** Otherwise it leaves with what the first one fixes: its own status, or 200 when it is a write. */
  lemma {:induction false} FirstStatusWins(calls: seq<WriterCall>, i: nat)
    requires i < |calls| && FixesStatus(calls[i]) && forall k | 0 <= k < i :: !FixesStatus(calls[k])
    ensures StatusAfter(calls) == if calls[i].Write? then 200 else calls[i].status
    ensures FinalStatus(calls) == if calls[i].Write? then 200 else calls[i].status
  {
    var n := |calls| - 1;
    if i < n {
      FirstStatusWins(calls[..n], i);
    } else {
      NoStatusFixed(calls[..n]);
    }
  }

  lemma BodyMore(calls: seq<WriterCall>, call: WriterCall)
    ensures BodyAfter(calls + [call]) == BodyAfter(calls) + if call.Write? then call.data else ""
  {
    assert (calls + [call])[..|calls|] == calls;
  }

  lemma Regrouped<T>(a: seq<T>, b: seq<T>, c: seq<T>)
    ensures a + b + c == a + (b + c)
  {
  }

  /** The body is what was written, in order. */
  lemma {:induction false} BodyInOrder(before: seq<WriterCall>, after: seq<WriterCall>)
    ensures BodyAfter(before + after) == BodyAfter(before) + BodyAfter(after)
  {
    if after == [] {
      assert before + after == before;
    } else {
      var n := |after| - 1;
      BodyInOrder(before, after[..n]);
      Regrouped(before, after[..n], [after[n]]);
      assert after == after[..n] + [after[n]];
      BodyMore(before + after[..n], after[n]);
      BodyMore(after[..n], after[n]);
      Regrouped(BodyAfter(before), BodyAfter(after[..n]), if after[n].Write? then after[n].data else "");
    }
  }

  /** The status a captured response leaves with. */
  function FinalStatus(calls: seq<WriterCall>): nat {
    if StatusAfter(calls) == 0 then 200 else StatusAfter(calls)
  }

  // ---- The wrapper ----

  /** The steps of a request up to the end of its handler. */
  function RunSteps(call: nat, target: Target, requestId: string, status: nat, body: string): seq<Event> {
    [LogOpened(call), HandlerStarted(call), HandlerEnded(call, target, requestId, status, body)]
  }

  /** All steps of one request, by what the log did. */
  ghost predicate Complete(json: Json, steps: seq<Event>, call: nat, target: Target, requestId: Option<string>, writes: seq<WriterCall>,
                           response: Response) {
    if requestId.None? then steps == [Delivered(call, response)] && IsAuditFailure(response)
    else
      var status, body := FinalStatus(writes), BodyAfter(writes);
      var ran := RunSteps(call, target, requestId.value, status, body);
      if response.auditFailure then
        && IsAuditFailure(response)
        && (steps == [LogRefused(call)] + [Delivered(call, response)]
            || steps == ran + [AppendFailed(call)] + [Delivered(call, response)])
      else
        && response == Response(status, body, false)
        && |steps| == 5 && steps[3].Recorded? && steps[3].call == call
        && Describes(json, steps[3].record, target, requestId.value, status, body)
        && steps == ran + [steps[3]] + [Delivered(call, response)]
  }

  lemma AppendIsDue(json: Json, call: nat, target: Target, requestId: string, status: nat, body: string, before: string)
    ensures Due(json, RunSteps(call, target, requestId, status, body) + [AppendFailed(call)], 3)
    ensures Due(json, RunSteps(call, target, requestId, status, body)
                      + [Recorded(call, RecordOf(json, target, requestId, status, body), before)], 3)
  {
  }

  lemma DeliveryIsDue(json: Json, call: nat, target: Target, requestId: string, status: nat, body: string, before: string)
    ensures var ran := RunSteps(call, target, requestId, status, body);
            && Due(json, ran + [AppendFailed(call)] + [Delivered(call, AUDIT_FAILURE)], 4)
            && Due(json, ran + [Recorded(call, RecordOf(json, target, requestId, status, body), before)]
                         + [Delivered(call, Response(status, body, false))], 4)
  {
  }

  /** Runs the inner handler into the buffer; what it writes is arbitrary, and other requests go on meanwhile. */
  method RunInner(log: AuditLog, ghost call: nat, target: Target, requestId: string, writes: seq<WriterCall>)
    returns (status: nat, body: string)
    requires log.Valid() && Own(log.events, call) == [LogOpened(call)]
    modifies log
    ensures log.Valid() && old(log.contents) <= log.contents && old(log.events) <= log.events
    ensures status == FinalStatus(writes) && body == BodyAfter(writes)
    ensures Own(log.events, call) == RunSteps(call, target, requestId, status, body)
  {
    log.Note(HandlerStarted(call));
    var capture := new BufferedResponse();
    for i := 0 to |writes|
      invariant fresh(capture) && capture.status == StatusAfter(writes[..i]) && capture.body == BodyAfter(writes[..i])
      invariant log.Valid() && old(log.contents) <= log.contents && old(log.events) <= log.events
      invariant Own(log.events, call) == [LogOpened(call), HandlerStarted(call)]
    {
      assert writes[..i + 1][..i] == writes[..i];
      log.OthersGoOn(call);
      capture.Call(writes[i]);
    }
    assert writes[..|writes|] == writes;
    status := if capture.status == 0 then 200 else capture.status;
    body := capture.body;
    log.Note(HandlerEnded(call, target, requestId, status, body));
  }

  /** Appends the record and delivers: the inner response when the record is on file, the audit failure otherwise. */
  method RecordAndDeliver(log: AuditLog, ghost call: nat, target: Target, requestId: string, status: nat, body: string)
    returns (response: Response, ghost before: string)
    requires log.Valid() && Own(log.events, call) == RunSteps(call, target, requestId, status, body)
    modifies log
    ensures log.Valid() && old(log.contents) <= log.contents && old(log.events) <= log.events
    ensures var ran := RunSteps(call, target, requestId, status, body);
            var record := Recorded(call, RecordOf(log.json, target, requestId, status, body), before);
            if response.auditFailure
            then response == AUDIT_FAILURE && Own(log.events, call) == ran + [AppendFailed(call)] + [Delivered(call, response)]
            else response == Response(status, body, false) && Own(log.events, call) == ran + [record] + [Delivered(call, response)]
  {
    log.OthersGoOn(call);
    before := log.contents;
    AppendIsDue(log.json, call, target, requestId, status, body, before);
    DeliveryIsDue(log.json, call, target, requestId, status, body, before);
    var ok := log.Append(RecordOf(log.json, target, requestId, status, body), call);
    log.OthersGoOn(call);
    response := if ok then Response(status, body, false) else AUDIT_FAILURE;
    log.Note(Delivered(call, response));
  }

  lemma RefusalIsDue(json: Json, call: nat)
    ensures Due(json, [Delivered(call, AUDIT_FAILURE)], 0)
    ensures Due(json, [LogRefused(call)] + [Delivered(call, AUDIT_FAILURE)], 1)
  {
  }

  /** Generates no identifier, or cannot open the log: the audit failure leaves and nothing runs. */
  method Refuse(log: AuditLog, ghost call: nat) returns (response: Response)
    requires log.Valid() && (Own(log.events, call) == [] || Own(log.events, call) == [LogRefused(call)])
    modifies log`events
    ensures log.Valid() && old(log.events) <= log.events && response == AUDIT_FAILURE
    ensures Own(log.events, call) == Own(old(log.events), call) + [Delivered(call, response)]
  {
    RefusalIsDue(log.json, call);
    assert [] + [Delivered(call, AUDIT_FAILURE)] == [Delivered(call, AUDIT_FAILURE)];
    response := AUDIT_FAILURE;
    log.Note(Delivered(call, response));
  }

  /** The log could be opened: the handler runs, its record is appended, and the response leaves. */
  method Proceed(log: AuditLog, ghost call: nat, target: Target, requestId: string, writes: seq<WriterCall>) returns (response: Response)
    requires log.Valid() && Own(log.events, call) == [LogOpened(call)]
    modifies log
    ensures log.Valid() && old(log.contents) <= log.contents && old(log.events) <= log.events
    ensures Complete(log.json, Own(log.events, call), call, target, Some(requestId), writes, response)
  {
    var status, body := RunInner(log, call, target, requestId, writes);
    ghost var before;
    response, before := RecordAndDeliver(log, call, target, requestId, status, body);
  }

  /** A request that got its identifier. */
  method HandleIdentified(log: AuditLog, ghost call: nat, target: Target, requestId: string, writes: seq<WriterCall>)
    returns (response: Response)
    requires log.Valid() && Own(log.events, call) == []
    modifies log
    ensures log.Valid() && old(log.contents) <= log.contents && old(log.events) <= log.events
    ensures Complete(log.json, Own(log.events, call), call, target, Some(requestId), writes, response)
  {
    var ok := log.Ready(call);
    log.OthersGoOn(call);
    if ok {
      response := Proceed(log, call, target, requestId, writes);
    } else {
      response := Refuse(log, call);
    }
  }

  /**
   * One audited request among others. The inner handler starts only after the log could be opened for this request; its
   * response leaves only after the record of this request was appended and synced, and otherwise the audit failure leaves.
   */
  method Handle(log: AuditLog, ghost call: nat, target: Target, requestId: Option<string>, writes: seq<WriterCall>)
    returns (response: Response)
    requires log.Valid() && Own(log.events, call) == []
    modifies log
    ensures log.Valid() && old(log.contents) <= log.contents && old(log.events) <= log.events
    ensures Complete(log.json, Own(log.events, call), call, target, requestId, writes, response)
  {
    log.OthersGoOn(call);
    if requestId.None? {
      response := Refuse(log, call);
      assert [] + [Delivered(call, response)] == [Delivered(call, response)];
      return;
    }
    response := HandleIdentified(log, call, target, requestId.value, writes);
  }

  // ---- What holds of all requests together ----

  /** Event i of all is step j of its own request. */
  ghost predicate IsStep(events: seq<Event>, i: nat, call: nat, j: nat) {
    i < |events| && j < |Own(events, call)| && events[i] == Own(events, call)[j] && |Own(events[..i], call)| == j
  }

  /** Every step of a request is an event, and the steps come in the order of the events. */
  lemma {:induction false} StepIsEvent(events: seq<Event>, call: nat, j: nat) returns (i: nat)
    requires j < |Own(events, call)|
    ensures IsStep(events, i, call, j)
  {
    var n := |events| - 1;
    var before := events[..n];
    if j < |Own(before, call)| {
      i := StepIsEvent(before, call, j);
      assert before[..i] == events[..i];
    } else {
      i := n;
    }
  }

  lemma {:induction false} OwnGrows(events: seq<Event>, i: nat, call: nat)
    requires i <= |events|
    ensures Own(events[..i], call) <= Own(events, call)
    decreases |events| - i
  {
    if i < |events| {
      OwnGrows(events, i + 1, call);
      assert events[..i + 1][..i] == events[..i];
    } else {
      assert events[..i] == events;
    }
  }

  lemma OwnCountGrows(events: seq<Event>, a: nat, b: nat, call: nat)
    requires a <= b <= |events|
    ensures |Own(events[..a], call)| <= |Own(events[..b], call)|
  {
    OwnGrows(events[..b], a, call);
    assert events[..b][..a] == events[..a];
  }

  lemma StepsInOrder(events: seq<Event>, a: nat, b: nat, call: nat, j: nat, k: nat)
    requires IsStep(events, a, call, j) && IsStep(events, b, call, k) && j < k
    ensures a < b
  {
    if b <= a {
      OwnCountGrows(events, b, a, call);
    }
  }

  lemma EventIsStep(events: seq<Event>, i: nat)
    requires i < |events|
    ensures IsStep(events, i, events[i].call, |Own(events[..i], events[i].call)|)
  {
    var call := events[i].call;
    assert events[..i + 1] == events[..i] + [events[i]];
    OwnMore(events[..i], events[i], call);
    OwnGrows(events, i + 1, call);
  }

  /** Events a, b, c, d, in this order and all before event i, are what the response delivered at i rests on. */
  ghost predicate RestsOn(json: Json, events: seq<Event>, i: nat, a: nat, b: nat, c: nat, d: nat) {
    && a < b < c < d < i < |events| && events[i].Delivered?
    && var call := events[i].call;
       && events[a] == LogOpened(call) && events[b] == HandlerStarted(call)
       && events[c].HandlerEnded? && events[c].call == call
       && events[i].response == Response(events[c].status, events[c].body, false)
       && events[d].Recorded? && events[d].call == call
       && Describes(json, events[d].record, events[c].target, events[c].requestId, events[c].status, events[c].body)
  }

  /**
   * However requests overlap: every delivered response other than an audit failure was preceded by the opening of the
   * log, the run of the handler and the acknowledged record, all of the same request, and the record with its outcome is
   * in the file.
   */
  lemma DeliveredIsOnFile(json: Json, contents: string, events: seq<Event>, i: nat)
    returns (a: nat, b: nat, c: nat, d: nat)
    requires AllInOrder(json, events) && RecordsInFile(json, contents, events)
    requires i < |events| && events[i].Delivered? && !events[i].response.auditFailure
    ensures RestsOn(json, events, i, a, b, c, d)
    ensures var record, response := events[d].record, events[i].response;
            && (record.outcome == "failure" <==> response.status >= 400) && (record.outcome == "success" <==> response.status < 400)
            && record.errorCode == (if response.status >= 400 then json.errorCodeOf(response.body) else "")
            && record.requestId == events[c].requestId
            && record.action == events[c].target.action && record.resource == events[c].target.resource
    ensures events[d].before + json.encode(events[d].record) + "\n" <= contents
  {
    var call := events[i].call;
    EventIsStep(events, i);
    var steps := Own(events, call);
    var j := |Own(events[..i], call)|;
    assert InOrder(json, steps);
    assert Due(json, steps, j);
    assert Due(json, steps, 3) && Due(json, steps, 2) && Due(json, steps, 1) && Due(json, steps, 0);
    a := StepIsEvent(events, call, 0);
    b := StepIsEvent(events, call, 1);
    c := StepIsEvent(events, call, 2);
    d := StepIsEvent(events, call, 3);
    StepsInOrder(events, a, b, call, 0, 1);
    StepsInOrder(events, b, c, call, 1, 2);
    StepsInOrder(events, c, d, call, 2, 3);
    StepsInOrder(events, d, i, call, 3, j);
    OwnCalls(events, call);
  }

  /** However requests overlap: an audit failure has status 500, and its own request could not open or not append. */
  lemma AuditFailureHasReason(json: Json, events: seq<Event>, i: nat) returns (a: nat)
    requires AllInOrder(json, events) && i < |events| && events[i].Delivered? && events[i].response.auditFailure
    ensures events[i].response.status == 500
    ensures Own(events[..i], events[i].call) == []
            || (a < i && (events[a] == LogRefused(events[i].call) || events[a] == AppendFailed(events[i].call)))
  {
    var call := events[i].call;
    EventIsStep(events, i);
    var steps := Own(events, call);
    var j := |Own(events[..i], call)|;
    assert InOrder(json, steps) && Due(json, steps, j);
    a := 0;
    if j > 0 {
      a := StepIsEvent(events, call, j - 1);
      StepsInOrder(events, a, i, call, j - 1, j);
      OwnCalls(events, call);
    }
  }

  lemma {:induction false} OwnCalls(events: seq<Event>, call: nat)
    ensures forall j | 0 <= j < |Own(events, call)| :: Own(events, call)[j].call == call
  {
    if events != [] {
      OwnCalls(events[..|events| - 1], call);
    }
  }

  /** However requests overlap: a handler that started was preceded by the opening of the log for its own request. */
  lemma StartedAfterOpening(json: Json, events: seq<Event>, i: nat) returns (a: nat)
    requires AllInOrder(json, events) && i < |events| && events[i].HandlerStarted?
    ensures a < i && events[a] == LogOpened(events[i].call)
  {
    var call := events[i].call;
    EventIsStep(events, i);
    var j := |Own(events[..i], call)|;
    assert InOrder(json, Own(events, call)) && Due(json, Own(events, call), j);
    assert Due(json, Own(events, call), 0);
    a := StepIsEvent(events, call, 0);
    StepsInOrder(events, a, i, call, 0, j);
    OwnCalls(events, call);
  }

  // ---- Reading the log ----

  function Encoded(json: Json, records: seq<Record>): seq<string> {
    seq(|records|, i requires 0 <= i < |records| => json.encode(records[i]))
  }

  /** The part of a text after its last line feed. */
  function Tail(s: string): string {
    var lines := Split(s, '\n');
    lines[|lines| - 1]
  }

  /** The line of the file in which the record appended after before ends up. */
  ghost function LineOf(contents: string, before: string): string
    requires |Split(before, '\n')| <= |Split(contents, '\n')|
  {
    Split(contents, '\n')[|Split(before, '\n')| - 1]
  }

  /**
   * However the log grows later, an acknowledged record is the end of one line of the file, and it is that whole line
   * exactly when the file ended at a line boundary, that is, when no earlier append had stopped inside a line.
   */
  lemma RecordIsLineIff(json: Json, before: string, record: Record, contents: string)
    requires JsonLaw(json) && before + json.encode(record) + "\n" <= contents
    ensures |Split(before, '\n')| <= |Split(contents, '\n')|
    ensures LineOf(contents, before) == Tail(before) + json.encode(record)
    ensures LineOf(contents, before) == json.encode(record) <==> Tail(before) == ""
    ensures Tail(before) == "" ==> json.decode(LineOf(contents, before)) == Some(record)
  {
    var line := json.encode(record);
    var after := contents[|before| + |line| + 1..];
    assert contents == (before + line) + ['\n'] + after;
    SplitOfConcat(before + line, after, '\n');
    SplitExtended(before, line);
  }

  lemma {:induction false} SplitExtended(before: string, line: string)
    requires '\n' !in line
    ensures var a := Split(before, '\n'); var b := Split(before + line, '\n');
            |a| == |b| && b[|b| - 1] == a[|a| - 1] + line
    decreases |before|
  {
    if before == "" {
      assert before + line == line;
      SplitWithoutSeparator(line, '\n');
    } else {
      assert (before + line)[1..] == before[1..] + line;
      SplitExtended(before[1..], line);
    }
  }

  /** A log in which every append completed reads back, line by line, as exactly the records in their order. */
  lemma IntactLogReadsBack(json: Json, records: seq<Record>)
    requires JsonLaw(json)
    ensures var lines := Split(Terminated(Encoded(json, records)), '\n');
            && |lines| == |records| + 1 && lines[|records|] == ""
            && forall i | 0 <= i < |records| :: json.decode(lines[i]) == Some(records[i])
  {
    var lines := Encoded(json, records) + [""];
    TerminatedIsJoin(Encoded(json, records));
    assert Plain(lines, '\n');
    SplitOfJoin(lines, '\n');
  }

  /**
   * The boundary is lost by any append that stopped inside its line: the next record is then glued to the remains and
   * is no line of its own, although its response was delivered.
   */
  lemma TornAppendSpoilsNext(json: Json, before: string, torn: Record, n: nat, record: Record)
    requires JsonLaw(json) && 0 < n <= |json.encode(torn)|
    ensures Tail(before + (json.encode(torn) + "\n")[..n]) != ""
    ensures var file := before + (json.encode(torn) + "\n")[..n];
            |Split(file, '\n')| <= |Split(file + json.encode(record) + "\n", '\n')|
            && LineOf(file + json.encode(record) + "\n", file) != json.encode(record)
  {
    var part := (json.encode(torn) + "\n")[..n];
    assert part == json.encode(torn)[..n];
    SplitExtended(before, part);
    RecordIsLineIff(json, before + part, record, before + part + json.encode(record) + "\n");
  }
}
