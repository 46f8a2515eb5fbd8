/** The `tasks` collection and the mutations `utils.py` performs on it. Each
    method issues the source's `insert_one`, `update_one` or `delete_one`
    on the map of documents in place; its contract ties the new table to
    `Lifecycle.Apply` of the old one and spells out what the caller sees. */
module Store {

  import opened Wrappers
  import opened Calendar
  import opened Tasks
  import opened Lifecycle

  predicate Distinct(s: seq<TaskId>) {
    forall i, j :: 0 <= i < j < |s| ==> s[i] != s[j]
  }

  /** `s` without `id`, the others kept in their order. */
  function Without(s: seq<TaskId>, id: TaskId): (r: seq<TaskId>)
    ensures forall x :: x in r <==> x in s && x != id
    ensures Distinct(s) ==> Distinct(r)
    ensures IsSubsequence(r, s)
    ensures id !in s ==> r == s
  {
    if s == [] then []
    else if s[0] == id then Without(s[1..], id)
    else
      var rest := Without(s[1..], id);
      assert Distinct(s) ==> s[0] !in s[1..];
      assert ([s[0]] + rest)[1..] == rest;
      assert id !in s ==> s == [s[0]] + s[1..];
      [s[0]] + rest
  }

  /** The store invariant on the fields' values: the natural order lists
      each stored id once, and ids come from below the counter. */
  ghost predicate Consistent(tasks: Table, order: seq<TaskId>, nextId: TaskId) {
    && Distinct(order)
    && (forall id :: id in tasks <==> id in order)
    && (forall id :: id in tasks ==> id < nextId)
    && (forall id :: id in tasks ==> WellFormed(tasks[id]))
  }

  /** Overwriting one stored document with a well-formed one keeps the invariant. */
  lemma ReplaceKeepsConsistent(tasks: Table, order: seq<TaskId>, nextId: TaskId, id: TaskId, t: Task)
    requires Consistent(tasks, order, nextId) && id in tasks && WellFormed(t)
    ensures Consistent(tasks[id := t], order, nextId)
  {
  }

  /** Removing a document, and its id from the natural order, keeps the invariant. */
  lemma RemoveKeepsConsistent(tasks: Table, order: seq<TaskId>, nextId: TaskId, id: TaskId)
    requires Consistent(tasks, order, nextId)
    ensures Consistent(tasks - {id}, Without(order, id), nextId)
  {
  }

  class TaskStore {
    /** The documents, by `_id`. */
    var tasks: Table
    /** The collection's natural order, in which an unsorted `find` returns documents. */
    var order: seq<TaskId>
    /** The next id `insert_one` hands out; ids are never reused. */
    var nextId: TaskId

    ghost predicate Valid()
      reads this
    {
      Consistent(tasks, order, nextId)
    }

    constructor ()
      ensures Valid() && tasks == map[] && order == []
    {
      tasks := map[];
      order := [];
      nextId := 0;
    }

    /** The collection as an unsorted `find` yields it. */
    function Documents(): (docs: seq<Entry>)
      reads this
      requires Valid()
      ensures |docs| == |order|
      ensures forall i :: 0 <= i < |docs| ==> docs[i].id == order[i]
      ensures forall e :: e in docs <==> e.id in tasks && tasks[e.id] == e.task
      ensures forall i, j :: 0 <= i < j < |docs| ==> docs[i].id != docs[j].id
    {
      var ord, table := order, tasks;
      var docs := seq(|ord|, i requires 0 <= i < |ord| => Entry(ord[i], table[ord[i]]));
      assert forall e: Entry :: e.id in tasks && tasks[e.id] == e.task ==> e in docs by {
        forall e: Entry | e.id in tasks && tasks[e.id] == e.task
          ensures e in docs
        {
          var i :| 0 <= i < |order| && order[i] == e.id;
          assert docs[i] == e;
        }
      }
      docs
    }

    /** `add_task`: inserts a pending task under a fresh id. */
    method AddTask(nombre: string, descripcion: string, fecha: Date, hora: Time, asignadoA: string,
                   createdAt: DateTime, updatedAt: DateTime) returns (id: TaskId)
      requires Valid() && ValidDate(fecha) && ValidTime(hora)
      modifies this
      ensures Valid()
      ensures id == old(nextId) && nextId == old(nextId) + 1
      ensures id !in old(tasks)
      ensures tasks == old(tasks)[id := NewTask(nombre, descripcion, fecha, hora, asignadoA, createdAt, updatedAt)]
      ensures order == old(order) + [id]
      ensures var t := tasks[id];
        t.nombre == nombre && t.descripcion == descripcion && t.asignadoA == asignadoA &&
        t.fechaHora == Combine(fecha, hora) && t.estado == PENDIENTE && t.comentarios == [] &&
        t.solicitudExtension == None && t.razonImposible == None &&
        t.fechaCreacion == createdAt && t.ultimaActualizacion == updatedAt
      ensures old(AllCoupled(tasks)) ==> AllCoupled(tasks)
    {
      id := nextId;
      assert id !in order;
      nextId := nextId + 1;
      tasks := tasks[id := NewTask(nombre, descripcion, fecha, hora, asignadoA, createdAt, updatedAt)];
      order := order + [id];
    }

    /** `add_comment`: appends one comment and re-stamps the document. */
    method AddComment(id: TaskId, texto: string, commentedAt: DateTime, updatedAt: DateTime)
      requires Valid()
      modifies this
      ensures Valid() && order == old(order) && nextId == old(nextId)
      ensures tasks == Apply(old(tasks), Lifecycle.AddComment(id, texto, commentedAt, updatedAt))
      ensures id in old(tasks) ==>
        tasks[id] == old(tasks[id]).(comentarios := old(tasks[id].comentarios) + [Comment(texto, commentedAt)],
                                     ultimaActualizacion := updatedAt)
      ensures old(AllCoupled(tasks)) ==> AllCoupled(tasks)
    {
      if id in tasks {
        var t := tasks[id];
        var updated := t.(comentarios := t.comentarios + [Comment(texto, commentedAt)],
                          ultimaActualizacion := updatedAt);
        ReplaceKeepsConsistent(tasks, order, nextId, id, updated);
        tasks := tasks[id := updated];
      }
    }

    /** `mark_as_completed`: sets the status whatever it was; the extension
        request and impossibility reason stay as they are. */
    method MarkAsCompleted(id: TaskId, updatedAt: DateTime)
      requires Valid()
      modifies this
      ensures Valid() && order == old(order) && nextId == old(nextId)
      ensures tasks == Apply(old(tasks), Lifecycle.MarkAsCompleted(id, updatedAt))
      ensures id in old(tasks) ==>
        tasks[id] == old(tasks[id]).(estado := COMPLETADA, ultimaActualizacion := updatedAt)
      ensures old(AllCoupled(tasks)) ==> AllCoupled(tasks)
    {
      if id in tasks {
        var updated := tasks[id].(estado := COMPLETADA, ultimaActualizacion := updatedAt);
        ReplaceKeepsConsistent(tasks, order, nextId, id, updated);
        tasks := tasks[id := updated];
      }
    }

    /** `request_extension`: sets the status and records a pending request. */
    method RequestExtension(id: TaskId, razon: string, requestedAt: DateTime, updatedAt: DateTime)
      requires Valid()
      modifies this
      ensures Valid() && order == old(order) && nextId == old(nextId)
      ensures tasks == Apply(old(tasks), Lifecycle.RequestExtension(id, razon, requestedAt, updatedAt))
      ensures id in old(tasks) ==>
        tasks[id] == old(tasks[id]).(estado := EXTENSION_SOLICITADA,
                                     solicitudExtension := Some(ExtensionRequest(requestedAt, razon, PENDIENTE)),
                                     ultimaActualizacion := updatedAt)
      ensures old(AllCoupled(tasks)) ==> AllCoupled(tasks)
    {
      if id in tasks {
        var request := ExtensionRequest(requestedAt, razon, PENDIENTE);
        var updated := tasks[id].(estado := EXTENSION_SOLICITADA, solicitudExtension := Some(request),
                                  ultimaActualizacion := updatedAt);
        ReplaceKeepsConsistent(tasks, order, nextId, id, updated);
        tasks := tasks[id := updated];
      }
    }

    /** `mark_as_impossible`: sets the status and records the reason, even an empty one. */
    method MarkAsImpossible(id: TaskId, razon: string, updatedAt: DateTime)
      requires Valid()
      modifies this
      ensures Valid() && order == old(order) && nextId == old(nextId)
      ensures tasks == Apply(old(tasks), Lifecycle.MarkAsImpossible(id, razon, updatedAt))
      ensures id in old(tasks) ==>
        tasks[id] == old(tasks[id]).(estado := IMPOSIBLE, razonImposible := Some(razon),
                                     ultimaActualizacion := updatedAt)
      ensures old(AllCoupled(tasks)) ==> AllCoupled(tasks)
    {
      if id in tasks {
        var updated := tasks[id].(estado := IMPOSIBLE, razonImposible := Some(razon),
                                  ultimaActualizacion := updatedAt);
        ReplaceKeepsConsistent(tasks, order, nextId, id, updated);
        tasks := tasks[id := updated];
      }
    }

    /** `approve_extension`: reschedules it, returns it to pending,
        drops the request and logs the new date; false if the id is unknown. */
    method ApproveExtension(id: TaskId, fecha: Date, hora: Time, updatedAt: DateTime, commentedAt: DateTime)
      returns (ok: bool)
      requires Valid() && ValidDate(fecha) && ValidTime(hora)
      modifies this
      ensures Valid() && order == old(order) && nextId == old(nextId)
      ensures ok == (id in old(tasks))
      ensures tasks == Apply(old(tasks), Lifecycle.ApproveExtension(id, Combine(fecha, hora), updatedAt, commentedAt))
      ensures ok ==>
        tasks[id] == old(tasks[id]).(fechaHora := Combine(fecha, hora), estado := PENDIENTE,
                                     solicitudExtension := None, ultimaActualizacion := updatedAt,
                                     comentarios := old(tasks[id].comentarios)
                                                    + [Comment(ApprovalText(Combine(fecha, hora)), commentedAt)])
      ensures old(AllCoupled(tasks)) ==> AllCoupled(tasks)
    {
      if id !in tasks {
        return false;
      }
      var fechaHora := Combine(fecha, hora);
      var t := tasks[id];
      var updated := t.(fechaHora := fechaHora, estado := PENDIENTE, ultimaActualizacion := updatedAt,
                        solicitudExtension := None,
                        comentarios := t.comentarios + [Comment(ApprovalText(fechaHora), commentedAt)]);
      ReplaceKeepsConsistent(tasks, order, nextId, id, updated);
      tasks := tasks[id := updated];
      ok := true;
    }

    /** `deny_extension`: returns it to pending, drops the request and
        logs the reason; false if the id is unknown. */
    method DenyExtension(id: TaskId, razon: string, updatedAt: DateTime, commentedAt: DateTime)
      returns (ok: bool)
      requires Valid()
      modifies this
      ensures Valid() && order == old(order) && nextId == old(nextId)
      ensures ok == (id in old(tasks))
      ensures tasks == Apply(old(tasks), Lifecycle.DenyExtension(id, razon, updatedAt, commentedAt))
      ensures ok ==>
        tasks[id] == old(tasks[id]).(estado := PENDIENTE, solicitudExtension := None,
                                     ultimaActualizacion := updatedAt,
                                     comentarios := old(tasks[id].comentarios)
                                                    + [Comment(DENIAL_PREFIX + razon, commentedAt)])
      ensures old(AllCoupled(tasks)) ==> AllCoupled(tasks)
    {
      ok := id in tasks;
      if ok {
        var t := tasks[id];
        var updated := t.(estado := PENDIENTE, ultimaActualizacion := updatedAt, solicitudExtension := None,
                          comentarios := t.comentarios + [Comment(DENIAL_PREFIX + razon, commentedAt)]);
        ReplaceKeepsConsistent(tasks, order, nextId, id, updated);
        tasks := tasks[id := updated];
      }
    }

    /** `handle_impossible_task`. "accept" with both new texts non-empty
        edits the document and returns it to pending; "accept" otherwise
        deletes it; "deny" returns it to pending and logs the reason, leaving
        any extension request in place; any other action does nothing. The
        answer is always true. */
    method HandleImpossibleTask(id: TaskId, action: string, reason: Option<string>,
                                newName: Option<string>, newDescription: Option<string>,
                                updatedAt: DateTime, commentedAt: DateTime)
      returns (ok: bool)
      requires Valid()
      modifies this
      ensures Valid() && nextId == old(nextId)
      ensures ok
      ensures tasks == Apply(old(tasks),
        Lifecycle.HandleImpossibleTask(id, action, reason, newName, newDescription, updatedAt, commentedAt))
      ensures action == ACCEPT && !(Truthy(newName) && Truthy(newDescription)) ==>
        id !in tasks && order == Without(old(order), id)
      ensures action == ACCEPT && Truthy(newName) && Truthy(newDescription) && id in old(tasks) ==>
        tasks[id] == old(tasks[id]).(nombre := newName.value, descripcion := newDescription.value,
                                     estado := PENDIENTE, razonImposible := None,
                                     ultimaActualizacion := updatedAt,
                                     comentarios := old(tasks[id].comentarios)
                                                    + [Comment(MODIFIED_BY_ADMIN, commentedAt)])
      ensures action == DENY && id in old(tasks) ==>
        tasks[id] == old(tasks[id]).(estado := PENDIENTE, razonImposible := None,
                                     ultimaActualizacion := updatedAt,
                                     comentarios := old(tasks[id].comentarios)
                                                    + [Comment(IMPOSSIBILITY_DENIAL_PREFIX + PyStr(reason), commentedAt)])
      ensures !(action == ACCEPT && !(Truthy(newName) && Truthy(newDescription))) ==> order == old(order)
      ensures action != ACCEPT && action != DENY ==> tasks == old(tasks)
      ensures id !in old(tasks) ==> tasks == old(tasks) && order == old(order)
      ensures old(AllCoupled(tasks)) ==> AllCoupled(tasks)
    {
      ghost var before := tasks;
      ghost var op := Lifecycle.HandleImpossibleTask(id, action, reason, newName, newDescription, updatedAt, commentedAt);
      if action == ACCEPT {
        if Truthy(newName) && Truthy(newDescription) {
          if id in tasks {
            var t := tasks[id];
            var updated := t.(nombre := newName.value, descripcion := newDescription.value,
                              estado := PENDIENTE, ultimaActualizacion := updatedAt, razonImposible := None,
                              comentarios := t.comentarios + [Comment(MODIFIED_BY_ADMIN, commentedAt)]);
            ReplaceKeepsConsistent(tasks, order, nextId, id, updated);
            tasks := tasks[id := updated];
          }
          assert tasks == Apply(before, op);
        } else {
          var _ := DeleteTask(id);
          assert tasks == Apply(before, op);
        }
      } else if action == DENY {
        if id in tasks {
          var t := tasks[id];
          var updated := t.(estado := PENDIENTE, ultimaActualizacion := updatedAt, razonImposible := None,
                            comentarios := t.comentarios
                                           + [Comment(IMPOSSIBILITY_DENIAL_PREFIX + PyStr(reason), commentedAt)]);
          ReplaceKeepsConsistent(tasks, order, nextId, id, updated);
          tasks := tasks[id := updated];
        }
        assert tasks == Apply(before, op);
      } else {
        assert Apply(before, op) == before;
      }
      if AllCoupled(before) {
        ApplyKeepsCoupling(before, op);
      }
      ok := true;
    }

    /** `update_task`: the administrator's overwrite of name, description,
        due date, assignee and status, whatever the current status; the
        extension request and impossibility reason are left as they are.
        False if the id is unknown. */
    method UpdateTask(id: TaskId, nombre: string, descripcion: string, fecha: Date, hora: Time,
                      asignadoA: string, estado: string, updatedAt: DateTime, commentedAt: DateTime)
      returns (ok: bool)
      requires Valid() && ValidDate(fecha) && ValidTime(hora)
      modifies this
      ensures Valid() && order == old(order) && nextId == old(nextId)
      ensures ok == (id in old(tasks))
      ensures tasks == Apply(old(tasks),
        Lifecycle.UpdateTask(id, nombre, descripcion, Combine(fecha, hora), asignadoA, estado, updatedAt, commentedAt))
      ensures ok ==>
        tasks[id] == old(tasks[id]).(nombre := nombre, descripcion := descripcion,
                                     fechaHora := Combine(fecha, hora), asignadoA := asignadoA,
                                     estado := estado, ultimaActualizacion := updatedAt,
                                     comentarios := old(tasks[id].comentarios)
                                                    + [Comment(UPDATED_BY_ADMIN, commentedAt)])
      ensures old(AllCoupled(tasks)) && (estado == PENDIENTE || estado == COMPLETADA) ==> AllCoupled(tasks)
    {
      ghost var before := tasks;
      ghost var op := Lifecycle.UpdateTask(id, nombre, descripcion, Combine(fecha, hora), asignadoA, estado,
                                           updatedAt, commentedAt);
      ok := id in tasks;
      if ok {
        var t := tasks[id];
        var updated := t.(nombre := nombre, descripcion := descripcion, fechaHora := Combine(fecha, hora),
                          asignadoA := asignadoA, estado := estado, ultimaActualizacion := updatedAt,
                          comentarios := t.comentarios + [Comment(UPDATED_BY_ADMIN, commentedAt)]);
        ReplaceKeepsConsistent(tasks, order, nextId, id, updated);
        tasks := tasks[id := updated];
      }
      if AllCoupled(before) && AdminSafe(op) {
        ApplyKeepsCoupling(before, op);
      }
    }

    /** `delete_task`: true iff the id was present; afterwards it is absent
        from the table and from every query. */
    method DeleteTask(id: TaskId) returns (ok: bool)
      requires Valid()
      modifies this
      ensures Valid() && nextId == old(nextId)
      ensures ok == (id in old(tasks))
      ensures tasks == Apply(old(tasks), Lifecycle.DeleteTask(id))
      ensures id !in tasks && forall e :: e in Documents() ==> e.id != id
      ensures order == Without(old(order), id) && IsSubsequence(order, old(order))
      ensures !ok ==> tasks == old(tasks) && order == old(order)
      ensures old(AllCoupled(tasks)) ==> AllCoupled(tasks)
    {
      ok := id in tasks;
      RemoveKeepsConsistent(tasks, order, nextId, id);
      tasks := tasks - {id};
      order := Without(order, id);
    }
  }

  /** Deleting twice answers true, then false, and raises nothing. */
  method DeleteTwice(store: TaskStore, id: TaskId) returns (first: bool, second: bool)
    requires store.Valid() && id in store.tasks
    modifies store
    ensures first && !second
    ensures store.Valid() && id !in store.tasks
  {
    first := store.DeleteTask(id);
    second := store.DeleteTask(id);
  }

  /** An id freed by `delete_task` is never handed out again by `add_task`. */
  method DeleteThenAdd(store: TaskStore, id: TaskId, nombre: string, descripcion: string, fecha: Date, hora: Time,
                       asignadoA: string, createdAt: DateTime, updatedAt: DateTime)
    returns (deleted: bool, newId: TaskId)
    requires store.Valid() && id in store.tasks && ValidDate(fecha) && ValidTime(hora)
    modifies store
    ensures deleted && newId != id
    ensures store.Valid() && id !in store.tasks && newId in store.tasks
  {
    deleted := store.DeleteTask(id);
    newId := store.AddTask(nombre, descripcion, fecha, hora, asignadoA, createdAt, updatedAt);
  }
}
