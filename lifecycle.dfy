/** The effect of each `update_one`/`delete_one` the store operations issue,
    as a pure function of the table of tasks, and the invariants that
    every sequence of such operations keeps. */
module Lifecycle {

  import opened Wrappers
  import opened Calendar
  import opened Tasks
  import Stamp

  const ACCEPT := "accept"
  const DENY := "deny"

  const APPROVAL_PREFIX := "Extensión aprobada. Nueva fecha: "
  const DENIAL_PREFIX := "Extensión denegada. Razón: "
  const IMPOSSIBILITY_DENIAL_PREFIX := "Solicitud de imposibilidad denegada. Razón: "
  const MODIFIED_BY_ADMIN := "Tarea modificada por el administrador"
  const UPDATED_BY_ADMIN := "Tarea actualizada por el administrador"

  /** One call of a store mutation. Each `DateTime` argument is the value
      of one `datetime.now()` call, in the order the source makes them. */
  datatype Op =
    | AddComment(id: TaskId, texto: string, commentedAt: DateTime, updatedAt: DateTime)
    | MarkAsCompleted(id: TaskId, updatedAt: DateTime)
    | RequestExtension(id: TaskId, razon: string, requestedAt: DateTime, updatedAt: DateTime)
    | MarkAsImpossible(id: TaskId, razon: string, updatedAt: DateTime)
    | ApproveExtension(id: TaskId, fechaHora: DateTime, updatedAt: DateTime, commentedAt: DateTime)
    | DenyExtension(id: TaskId, razon: string, updatedAt: DateTime, commentedAt: DateTime)
    | HandleImpossibleTask(id: TaskId, action: string, reason: Option<string>,
                           newName: Option<string>, newDescription: Option<string>,
                           updatedAt: DateTime, commentedAt: DateTime)
    | UpdateTask(id: TaskId, nombre: string, descripcion: string, fechaHora: DateTime,
                 asignadoA: string, estado: string, updatedAt: DateTime, commentedAt: DateTime)
    | DeleteTask(id: TaskId)

  /** New `fecha_hora` values are built with `datetime.combine`. */
  predicate ValidOp(op: Op) {
    (op.ApproveExtension? ==> ValidDateTime(op.fechaHora)) &&
    (op.UpdateTask? ==> ValidDateTime(op.fechaHora))
  }

  predicate AllValid(ops: seq<Op>) {
    forall i :: 0 <= i < |ops| ==> ValidOp(ops[i])
  }

  /** Python truthiness of an optional string argument. */
  predicate Truthy(s: Option<string>) {
    s.Some? && s.value != ""
  }

  /** `str(x)` inside an f-string, for a string argument defaulting to None. */
  function PyStr(s: Option<string>): string {
    match s
    case None => "None"
    case Some(v) => v
  }

  predicate EndsWith(s: string, suffix: string) {
    |suffix| <= |s| && s[|s| - |suffix|..] == suffix
  }

  function ApprovalText(fechaHora: DateTime): string
    requires ValidDateTime(fechaHora)
  {
    APPROVAL_PREFIX + Stamp.Format(fechaHora)
  }

  /** The approval comment cites the new due date, readable back to the minute. */
  lemma ApprovalCitesNewDate(fechaHora: DateTime)
    requires ValidDateTime(fechaHora)
    ensures var text := ApprovalText(fechaHora);
      |text| == |APPROVAL_PREFIX| + 16 && text[..|APPROVAL_PREFIX|] == APPROVAL_PREFIX &&
      Stamp.Parse(text[|APPROVAL_PREFIX|..]) == Some((fechaHora.date, fechaHora.time.hour, fechaHora.time.minute))
  {
    Stamp.FormatRoundTrip(fechaHora);
    var text := ApprovalText(fechaHora);
    assert text[|APPROVAL_PREFIX|..] == Stamp.Format(fechaHora);
  }

  /** `handle_impossible_task`'s accept branch edits only when both new
      texts are given and non-empty; otherwise it deletes. */
  predicate AcceptEdits(op: Op)
    requires op.HandleImpossibleTask?
  {
    op.action == ACCEPT && Truthy(op.newName) && Truthy(op.newDescription)
  }

  /** The operations that issue a `delete_one`. */
  predicate Deletes(op: Op) {
    op.DeleteTask? || (op.HandleImpossibleTask? && op.action == ACCEPT && !AcceptEdits(op))
  }

  function Push(t: Task, texto: string, fecha: DateTime): seq<Comment> {
    t.comentarios + [Comment(texto, fecha)]
  }

  /** The document an `update_one` of `op` leaves behind: its `$set` fields
      overwritten and its `$push` comment appended. The creation stamp is
      never set, comments are only appended, and every status it sets
      (other than an `update_task` to a third status) comes with its side field. */
  function Transition(t: Task, op: Op): (r: Task)
    requires ValidOp(op)
    ensures r.fechaCreacion == t.fechaCreacion
    ensures IsPrefix(t.comentarios, r.comentarios) && |r.comentarios| <= |t.comentarios| + 1
    ensures AdminSafe(op) && Coupled(t) ==> Coupled(r)
    ensures WellFormed(t) ==> WellFormed(r)
  {
    match op
    case AddComment(_, texto, commentedAt, updatedAt) =>
      t.(comentarios := Push(t, texto, commentedAt), ultimaActualizacion := updatedAt)
    case MarkAsCompleted(_, updatedAt) =>
      t.(estado := COMPLETADA, ultimaActualizacion := updatedAt)
    case RequestExtension(_, razon, requestedAt, updatedAt) =>
      t.(estado := EXTENSION_SOLICITADA,
         solicitudExtension := Some(ExtensionRequest(requestedAt, razon, PENDIENTE)),
         ultimaActualizacion := updatedAt)
    case MarkAsImpossible(_, razon, updatedAt) =>
      t.(estado := IMPOSIBLE, razonImposible := Some(razon), ultimaActualizacion := updatedAt)
    case ApproveExtension(_, fechaHora, updatedAt, commentedAt) =>
      t.(fechaHora := fechaHora, estado := PENDIENTE, ultimaActualizacion := updatedAt,
         solicitudExtension := None, comentarios := Push(t, ApprovalText(fechaHora), commentedAt))
    case DenyExtension(_, razon, updatedAt, commentedAt) =>
      t.(estado := PENDIENTE, ultimaActualizacion := updatedAt, solicitudExtension := None,
         comentarios := Push(t, DENIAL_PREFIX + razon, commentedAt))
    case HandleImpossibleTask(_, action, reason, newName, newDescription, updatedAt, commentedAt) =>
      if AcceptEdits(op) then
        t.(nombre := newName.value, descripcion := newDescription.value, estado := PENDIENTE,
           ultimaActualizacion := updatedAt, razonImposible := None,
           comentarios := Push(t, MODIFIED_BY_ADMIN, commentedAt))
      else if action == DENY then
        t.(estado := PENDIENTE, ultimaActualizacion := updatedAt, razonImposible := None,
           comentarios := Push(t, IMPOSSIBILITY_DENIAL_PREFIX + PyStr(reason), commentedAt))
      else t
    case UpdateTask(_, nombre, descripcion, fechaHora, asignadoA, estado, updatedAt, commentedAt) =>
      t.(nombre := nombre, descripcion := descripcion, fechaHora := fechaHora, asignadoA := asignadoA,
         estado := estado, ultimaActualizacion := updatedAt,
         comentarios := Push(t, UPDATED_BY_ADMIN, commentedAt))
    case DeleteTask(_) => t
  }

  /** The table after `op`. A filter `{"_id": id}` that matches nothing
      changes nothing; otherwise only that document is updated or deleted,
      and no document is ever added. */
  function Apply(table: Table, op: Op): (r: Table)
    requires ValidOp(op)
    ensures r.Keys <= table.Keys
    ensures op.id in table ==> (op.id in r <==> !Deletes(op))
    ensures forall other :: other != op.id && other in table ==> other in r && r[other] == table[other]
  {
    if op.id !in table then table
    else if Deletes(op) then table - {op.id}
    else table[op.id := Transition(table[op.id], op)]
  }

  /** The operations applied in order. */
  function Run(table: Table, ops: seq<Op>): Table
    requires AllValid(ops)
  {
    if ops == [] then table else Run(Apply(table, ops[0]), ops[1..])
  }

  // ---------------------------------------------------------------------
  // One operation

  /** A surviving document keeps its comments in order and gains at most
      one, at the end; its creation stamp never changes. */
  lemma ApplyAppendsComments(table: Table, op: Op, id: TaskId)
    requires ValidOp(op)
    requires id in Apply(table, op)
    ensures id in table
    ensures var before, after := table[id].comentarios, Apply(table, op)[id].comentarios;
      IsPrefix(before, after) && |after| <= |before| + 1
    ensures Apply(table, op)[id].fechaCreacion == table[id].fechaCreacion
  {
  }

  /** `update_task` given one of the two statuses the admin edit form offers, `pendiente` and `completada`. */
  predicate AdminSafe(op: Op) {
    op.UpdateTask? ==> op.estado == PENDIENTE || op.estado == COMPLETADA
  }

  lemma ApplyKeepsCoupling(table: Table, op: Op)
    requires ValidOp(op) && AdminSafe(op)
    requires AllCoupled(table)
    ensures AllCoupled(Apply(table, op))
  {
    if op.id in table && !Deletes(op) {
      var t := Transition(table[op.id], op);
      assert Coupled(t);
    }
  }

  lemma ApplyKeepsWellFormed(table: Table, op: Op)
    requires ValidOp(op)
    requires forall id :: id in table ==> WellFormed(table[id])
    ensures var after := Apply(table, op); forall id :: id in after ==> WellFormed(after[id])
  {
  }

  // ---------------------------------------------------------------------
  // Any sequence of operations

  predicate AllAdminSafe(ops: seq<Op>) {
    forall i :: 0 <= i < |ops| ==> AdminSafe(ops[i])
  }

  /** No sequence of store calls in which `update_task` is given only the
      statuses its edit form offers can break the coupling. */
  lemma {:induction false} RunKeepsCoupling(table: Table, ops: seq<Op>)
    requires AllValid(ops) && AllAdminSafe(ops)
    requires AllCoupled(table)
    ensures AllCoupled(Run(table, ops))
  {
    if ops != [] {
      ApplyKeepsCoupling(table, ops[0]);
      RunKeepsCoupling(Apply(table, ops[0]), ops[1..]);
    }
  }

  /** Comments are append-only: over any run, a task that survives keeps
      its earlier comments as a prefix and gains at most one per call. */
  lemma {:induction false} RunAppendsComments(table: Table, ops: seq<Op>, id: TaskId)
    requires AllValid(ops)
    requires id in Run(table, ops)
    ensures id in table
    ensures var before, after := table[id].comentarios, Run(table, ops)[id].comentarios;
      IsPrefix(before, after) && |after| <= |before| + |ops|
  {
    if ops != [] {
      var mid := Apply(table, ops[0]);
      RunAppendsComments(mid, ops[1..], id);
      ApplyAppendsComments(table, ops[0], id);
      var before, middle, after := table[id].comentarios, mid[id].comentarios, Run(table, ops)[id].comentarios;
      assert middle == after[..|middle|];
      assert after[..|before|] == middle[..|before|];
    }
  }

  /** A deleted task stays deleted: no later call brings its id back. */
  lemma {:induction false} RunNeverAddsIds(table: Table, ops: seq<Op>)
    requires AllValid(ops)
    ensures Run(table, ops).Keys <= table.Keys
  {
    if ops != [] {
      RunNeverAddsIds(Apply(table, ops[0]), ops[1..]);
    }
  }

  // ---------------------------------------------------------------------
  // What the code does not promise

  /** Completing a task whose extension is pending keeps the request: the
      coupling holds in one direction only. */
  lemma CompletingKeepsExtensionRequest(table: Table, id: TaskId, reason: string,
                                        requestedAt: DateTime, at1: DateTime, at2: DateTime)
    requires id in table
    ensures var after := Run(table, [RequestExtension(id, reason, requestedAt, at1), MarkAsCompleted(id, at2)]);
      id in after && after[id].estado == COMPLETADA &&
      after[id].solicitudExtension == Some(ExtensionRequest(requestedAt, reason, PENDIENTE))
  {
    var ops := [RequestExtension(id, reason, requestedAt, at1), MarkAsCompleted(id, at2)];
    var mid := Apply(table, ops[0]);
    assert Run(table, ops) == Run(mid, ops[1..]) == Apply(mid, ops[1]);
  }

  /** `update_task` itself does not check the status it is given: setting
      "imposible" on a task without a reason breaks the coupling. */
  lemma AdminEditCanBreakCoupling(table: Table, id: TaskId, fechaHora: DateTime, at: DateTime)
    requires id in table && table[id].razonImposible == None
    requires ValidDateTime(fechaHora)
    ensures var t := table[id];
      !Coupled(Apply(table, UpdateTask(id, t.nombre, t.descripcion, fechaHora, t.asignadoA, IMPOSIBLE, at, at))[id])
  {
  }

  /** Denying an impossibility report leaves a pending extension request in
      place, so a pending task may still carry one. */
  lemma ImpossibilityDenialKeepsExtensionRequest(table: Table, id: TaskId, reason: Option<string>, at: DateTime)
    requires id in table
    ensures var after := Apply(table, HandleImpossibleTask(id, DENY, reason, None, None, at, at));
      id in after && after[id].estado == PENDIENTE &&
      after[id].solicitudExtension == table[id].solicitudExtension
  {
  }

  // ---------------------------------------------------------------------
  // Scenarios

  /** Request an extension, then deny it: it is pending again, has
      no request, and its last comment ends with the denial reason. */
  lemma RequestThenDeny(table: Table, id: TaskId, request: string, denial: string,
                        at1: DateTime, at2: DateTime, at3: DateTime, at4: DateTime)
    requires id in table
    ensures id in Run(table, [RequestExtension(id, request, at1, at2), DenyExtension(id, denial, at3, at4)])
    ensures var after := Run(table, [RequestExtension(id, request, at1, at2), DenyExtension(id, denial, at3, at4)]);
      var c := after[id].comentarios;
      after[id].estado == PENDIENTE && after[id].solicitudExtension == None &&
      |c| == |table[id].comentarios| + 1 &&
      EndsWith(c[|c| - 1].texto, denial)
  {
    var ops := [RequestExtension(id, request, at1, at2), DenyExtension(id, denial, at3, at4)];
    var mid := Apply(table, ops[0]);
    assert Run(table, ops) == Run(mid, ops[1..]) == Apply(mid, ops[1]);
    var text := DENIAL_PREFIX + denial;
    assert text[|text| - |denial|..] == denial;
  }

  /** Mark impossible, then accept without replacement texts: the document is gone. */
  lemma ImpossibleThenAcceptDeletes(table: Table, id: TaskId, reason: string, at1: DateTime, at2: DateTime)
    requires id in table
    ensures id !in Run(table, [MarkAsImpossible(id, reason, at1), HandleImpossibleTask(id, ACCEPT, None, None, None, at2, at2)])
  {
    var ops := [MarkAsImpossible(id, reason, at1), HandleImpossibleTask(id, ACCEPT, None, None, None, at2, at2)];
    var mid := Apply(table, ops[0]);
    assert Run(table, ops) == Run(mid, ops[1..]) == Apply(mid, ops[1]);
  }
}
