/** The end of a process: the runtime result goes through the audit drain and the metrics
    shutdown. */
module Shutdown {
  import opened Text
  import opened AuditRecovery
  import opened JsonValues
  import Decimal

  datatype IoResult = Ok | Err(text: string)

  datatype Record = Record(
    userId: int, action: string, entityType: string, entityId: Option<int>, entityName: Option<string>,
    details: Option<string>, ipAddress: Option<string>, userAgent: Option<string>, createdAt: string)

  /** What is saved: counts, failure classes and every unconfirmed record. */
  datatype Report = Report(
    queued: nat, directPending: nat, batchFailureRecords: nat,
    batchFailureClass: Option<string>, directFailureClass: Option<string>, records: seq<Record>)

  // ---- the saved text ------------------------------------------------------------

  function TextOrNull(t: Option<string>): Value { if t.Some? then Str(t.value) else Null }

  function NumberOrNull(n: Option<int>): Value { if n.Some? then Number(n.value) else Null }

  /** One record; members stand in the order of their names. */
  function RecordValue(r: Record): Value {
    Object(
      Field("action", Str(r.action),
      Field("created_at", Str(r.createdAt),
      Field("details", TextOrNull(r.details),
      Field("entity_id", NumberOrNull(r.entityId),
      Field("entity_name", TextOrNull(r.entityName),
      Field("entity_type", Str(r.entityType),
      Field("ip_address", TextOrNull(r.ipAddress),
      Field("user_agent", TextOrNull(r.userAgent),
      Field("user_id", Number(r.userId), NoField))))))))))
  }

  function RecordValues(records: seq<Record>): Values {
    if records == [] then Nil else Cons(RecordValue(records[0]), RecordValues(records[1..]))
  }

  /** The recovery file's content. */
  function Payload(r: Report): Value {
    Object(
      Field("batch_failure_class", TextOrNull(r.batchFailureClass),
      Field("batch_failure_records", Number(r.batchFailureRecords),
      Field("direct_failure_class", TextOrNull(r.directFailureClass),
      Field("direct_pending", Number(r.directPending),
      Field("queued", Number(r.queued),
      Field("records", List(RecordValues(r.records)),
      Field("requires_database_reconciliation", Bool(true),
      Field("version", Number(1), NoField)))))))))
  }

  function PayloadText(r: Report): string { Render(Payload(r)) }

  lemma TextOrNullUnique(a: Option<string>, b: Option<string>)
    ensures TextOrNull(a) == TextOrNull(b) ==> a == b
  {
  }

  lemma RecordUnique(a: Record, b: Record)
    ensures RecordValue(a) == RecordValue(b) ==> a == b
  {
    hide TextOrNull;
    TextOrNullUnique(a.details, b.details);
    TextOrNullUnique(a.entityName, b.entityName);
    TextOrNullUnique(a.ipAddress, b.ipAddress);
    TextOrNullUnique(a.userAgent, b.userAgent);
  }

  lemma {:induction false} RecordsUnique(a: seq<Record>, b: seq<Record>)
    ensures RecordValues(a) == RecordValues(b) ==> a == b
    decreases |a|
  {
    hide RecordValue;
    if a != [] && b != [] {
      RecordUnique(a[0], b[0]);
      RecordsUnique(a[1..], b[1..]);
      assert a == [a[0]] + a[1..] && b == [b[0]] + b[1..];
    }
  }

  /** The saved text determines the whole report: every count, class and record, in order. */
  lemma PayloadDetermines(a: Report, b: Report)
    ensures PayloadText(a) == PayloadText(b) <==> a == b
  {
    hide Render, TextOrNull, RecordValues;
    RenderUnique(Payload(a), Payload(b));
    TextOrNullUnique(a.batchFailureClass, b.batchFailureClass);
    TextOrNullUnique(a.directFailureClass, b.directFailureClass);
    RecordsUnique(a.records, b.records);
  }

  /** The value of the member with the given name. */
  function Member(fields: Fields, key: string): Option<Value> {
    match fields
    case NoField => None
    case Field(k, v, rest) => if k == key then Some(v) else Member(rest, key)
  }

  function Elements(items: Values): seq<Value> {
    match items
    case Nil => []
    case Cons(head, tail) => [head] + Elements(tail)
  }

  lemma {:induction false} RecordsInOrder(records: seq<Record>)
    ensures var items := Elements(RecordValues(records));
            |items| == |records| && forall i :: 0 <= i < |records| ==> items[i] == RecordValue(records[i])
    decreases |records|
  {
    hide RecordValue;
    if records != [] {
      RecordsInOrder(records[1..]);
    }
  }

  /** Which member of the saved object holds what. */
  lemma PayloadMembers(r: Report)
    ensures var m := Payload(r);
            && m.Object?
            && Member(m.fields, "version") == Some(Number(1))
            && Member(m.fields, "requires_database_reconciliation") == Some(Bool(true))
            && Member(m.fields, "queued") == Some(Number(r.queued))
            && Member(m.fields, "direct_pending") == Some(Number(r.directPending))
            && Member(m.fields, "batch_failure_records") == Some(Number(r.batchFailureRecords))
            && Member(m.fields, "batch_failure_class") == Some(TextOrNull(r.batchFailureClass))
            && Member(m.fields, "direct_failure_class") == Some(TextOrNull(r.directFailureClass))
    ensures var list := Member(Payload(r).fields, "records");
            && list.Some? && list.value.List?
            && |Elements(list.value.items)| == |r.records|
            && forall i :: 0 <= i < |r.records| ==> Elements(list.value.items)[i] == RecordValue(r.records[i])
  {
    hide RecordValue, RecordValues, TextOrNull, Member;
    RecordsInOrder(r.records);
    var f := Payload(r).fields;
    MemberStep(f);
    MemberStep(f.rest);
    MemberStep(f.rest.rest);
    MemberStep(f.rest.rest.rest);
    MemberStep(f.rest.rest.rest.rest);
    MemberStep(f.rest.rest.rest.rest.rest);
    MemberStep(f.rest.rest.rest.rest.rest.rest);
    MemberStep(f.rest.rest.rest.rest.rest.rest.rest);
  }

  lemma {:induction false} MemberStep(f: Fields)
    requires f.Field?
    ensures forall key :: Member(f, key) == if f.key == key then Some(f.value) else Member(f.rest, key)
  {
  }

  /** Which member of a saved record holds what. */
  lemma RecordMembers(r: Record)
    ensures var m := RecordValue(r);
            && m.Object?
            && Member(m.fields, "user_id") == Some(Number(r.userId))
            && Member(m.fields, "action") == Some(Str(r.action))
            && Member(m.fields, "entity_type") == Some(Str(r.entityType))
            && Member(m.fields, "entity_id") == Some(if r.entityId.Some? then Number(r.entityId.value) else Null)
            && Member(m.fields, "entity_name") == Some(if r.entityName.Some? then Str(r.entityName.value) else Null)
            && Member(m.fields, "details") == Some(if r.details.Some? then Str(r.details.value) else Null)
            && Member(m.fields, "ip_address") == Some(if r.ipAddress.Some? then Str(r.ipAddress.value) else Null)
            && Member(m.fields, "user_agent") == Some(if r.userAgent.Some? then Str(r.userAgent.value) else Null)
            && Member(m.fields, "created_at") == Some(Str(r.createdAt))
  {
    hide Member;
    var f := RecordValue(r).fields;
    MemberStep(f);
    MemberStep(f.rest);
    MemberStep(f.rest.rest);
    MemberStep(f.rest.rest.rest);
    MemberStep(f.rest.rest.rest.rest);
    MemberStep(f.rest.rest.rest.rest.rest);
    MemberStep(f.rest.rest.rest.rest.rest.rest);
    MemberStep(f.rest.rest.rest.rest.rest.rest.rest);
    MemberStep(f.rest.rest.rest.rest.rest.rest.rest.rest);
  }

  /** The stopped audit writer. */
  class AuditWriter {
    var report: Report

    constructor (r: Report)
      ensures report == r
    {
      report := r;
    }
  }

  function Remaining(r: Report): nat { r.queued + r.directPending }

  function Original(result: IoResult): string {
    if result.Err? then result.text else "audit drain failed"
  }

  function SavedText(original: string, remaining: nat, path: string): string {
    original + "; " + Decimal.Print(remaining) + " unconfirmed audit records saved to " + path + " for reconciliation"
  }

  function LostText(original: string, remaining: nat, error: string): string {
    original + "; failed to preserve " + Decimal.Print(remaining) + " unconfirmed audit records: " + error
  }

  function PathText(id: nat): string {
    "data/audit-recovery/audit-" + Decimal.Print(id) + ".json"
  }

  /** The two messages about the same original error are never equal. */
  lemma SavedIsNotLost(original: string, n: nat, path: string, error: string)
    ensures SavedText(original, n, path) != LostText(original, n, error)
  {
    hide Decimal.Print;
    var k := |original| + 2;
    var digits := Decimal.Print(n);
    assert SavedText(original, n, path)[k] == digits[0];
    assert LostText(original, n, error)[k] == 'f';
  }

  /** `finish_audit`: `error` is the I/O error of a failed attempt. */
  method FinishAudit(result: IoResult, writer: AuditWriter, disk: Disk, id: nat,
                     f: Faults, error: string) returns (r: IoResult)
    modifies disk
    ensures writer.report.queued == 0 && writer.report.directPending == 0 ==>
              r == result && disk.files == old(disk.files)
    ensures writer.report.queued > 0 || writer.report.directPending > 0 ==>
              var remaining := writer.report.queued + writer.report.directPending;
              if Succeeds(old(disk.files), id, f)
              then r == Err(SavedText(Original(result), remaining, PathText(id)))
                   && disk.files == old(disk.files)[Published(id) := PayloadText(writer.report)]
              else r == Err(LostText(Original(result), remaining, error))
                   && OnlyLeftover(old(disk.files), disk.files, id, f)
  {
    hide SavedText, LostText, PathText, OnlyLeftover, Succeeds, PayloadText;
    var remaining := Remaining(writer.report);
    if remaining == 0 {
      Unchanged(disk.files, id, f);
      return result;
    }
    var path, actions := PreserveUnconfirmed(disk, id, PayloadText(writer.report), f);
    if path.Some? {
      return Err(SavedText(Original(result), remaining, PathText(id)));
    }
    return Err(LostText(Original(result), remaining, error));
  }

  lemma Unchanged(files: Files, id: nat, f: Faults)
    ensures OnlyLeftover(files, files, id, f)
  {
  }

  /** `finish_metrics`: a failed metrics shutdown counts only if nothing failed before. */
  function FinishMetrics(result: IoResult, provider: Option<IoResult>): IoResult {
    match provider
    case None => result
    case Some(shutdown) => if result.Ok? then shutdown else result
  }

  /** The whole chain: it succeeds exactly when the runtime did, no record stayed unconfirmed
      and a metrics provider, if any, shut down; an original error stays at the front of the
      final text; a text that reports the records as saved means that the file is complete
      with all of them; the writer keeps its records whatever happens. */
  method FinishProcess(result: IoResult, writer: AuditWriter, disk: Disk, id: nat,
                       f: Faults, error: string, provider: Option<IoResult>) returns (r: IoResult)
    modifies disk
    ensures r.Ok? <==>
            && result.Ok? && (provider == None || provider == Some(Ok))
            && writer.report.queued == 0 && writer.report.directPending == 0
    ensures result.Err? ==> r.Err? && result.text <= r.text
    ensures writer.report.queued > 0 || writer.report.directPending > 0 ==>
              var original := if result.Err? then result.text else "audit drain failed";
              var number := Decimal.Print(writer.report.queued + writer.report.directPending);
              if Succeeds(old(disk.files), id, f)
              then && r == Err(original + "; " + number + " unconfirmed audit records saved to "
                               + ("data/audit-recovery/audit-" + Decimal.Print(id) + ".json") + " for reconciliation")
                   && disk.files == old(disk.files)[Published(id) := PayloadText(writer.report)]
              else && r == Err(original + "; failed to preserve " + number + " unconfirmed audit records: " + error)
                   && OnlyLeftover(old(disk.files), disk.files, id, f)
    ensures && (writer.report.queued > 0 || writer.report.directPending > 0)
            && r == Err(SavedText(Original(result), Remaining(writer.report), PathText(id)))
            ==> && Published(id) in disk.files
                && forall other: Report :: PayloadText(other) == disk.files[Published(id)] <==> other == writer.report
    ensures writer.report.queued == 0 && writer.report.directPending == 0 ==>
              && disk.files == old(disk.files)
              && r == if result.Ok? && provider.Some? then provider.value else result
    ensures writer.report == old(writer.report)
  {
    hide PayloadText, Decimal.Print, OnlyLeftover, Succeeds;
    forall other: Report ensures PayloadText(other) == PayloadText(writer.report) ==> other == writer.report {
      PayloadDetermines(other, writer.report);
    }
    var drained := FinishAudit(result, writer, disk, id, f, error);
    SavedIsNotLost(Original(result), Remaining(writer.report), PathText(id), error);
    r := FinishMetrics(drained, provider);
  }
}
