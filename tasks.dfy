/** Task documents of the `tasks` collection. */
module Tasks {

  import opened Wrappers
  import opened Calendar

  /** An opaque document id (the store's ObjectId). */
  type TaskId = nat

  /** The values `estado` takes in the application. */
  const PENDIENTE := "pendiente"
  const COMPLETADA := "completada"
  const IMPOSIBLE := "imposible"
  const EXTENSION_SOLICITADA := "extension_solicitada"

  datatype Comment = Comment(texto: string, fecha: DateTime)

  datatype ExtensionRequest = ExtensionRequest(fechaSolicitud: DateTime, razon: string, estado: string)

  /** A task document. `razonImposible` is None both where the field is
      absent (every task `add_task` creates) and where it holds None. */
  datatype Task = Task(
    nombre: string,
    descripcion: string,
    fechaHora: DateTime,
    asignadoA: string,
    estado: string,
    fechaCreacion: DateTime,
    ultimaActualizacion: DateTime,
    comentarios: seq<Comment>,
    solicitudExtension: Option<ExtensionRequest>,
    razonImposible: Option<string>)

  /** A document as a query returns it, with its `_id`. */
  datatype Entry = Entry(id: TaskId, task: Task)

  type Table = map<TaskId, Task>

  /** The document `add_task` inserts. */
  function NewTask(nombre: string, descripcion: string, fecha: Date, hora: Time, asignadoA: string,
                   createdAt: DateTime, updatedAt: DateTime): (t: Task)
    ensures Coupled(t)
    ensures ValidDate(fecha) && ValidTime(hora) ==> WellFormed(t)
    ensures t.estado == PENDIENTE && t.fechaHora.date == fecha && t.fechaHora.time == hora
    ensures t.comentarios == [] && t.solicitudExtension == None && t.razonImposible == None
  {
    Task(nombre, descripcion, Combine(fecha, hora), asignadoA, PENDIENTE, createdAt, updatedAt, [], None, None)
  }

  /** The one-way coupling the status operations keep between `estado` and
      the side fields: a task waiting for an extension carries its request,
      a task marked impossible carries its reason. The converse is not kept. */
  predicate Coupled(t: Task) {
    (t.estado == EXTENSION_SOLICITADA ==> t.solicitudExtension.Some?) &&
    (t.estado == IMPOSIBLE ==> t.razonImposible.Some?)
  }

  predicate AllCoupled(table: Table) {
    forall id :: id in table ==> Coupled(table[id])
  }

  /** Every stored `fecha_hora` was built by `datetime.combine` from a date
      and a time, so it is a valid datetime. */
  predicate WellFormed(t: Task) {
    ValidDateTime(t.fechaHora)
  }

  predicate IsPrefix<T(==)>(a: seq<T>, b: seq<T>) {
    |a| <= |b| && a == b[..|a|]
  }

  /** `a` is `b` with some elements left out, the rest in their order. */
  predicate IsSubsequence<T(==)>(a: seq<T>, b: seq<T>)
    decreases |b|
  {
    a == [] || (b != [] && ((a[0] == b[0] && IsSubsequence(a[1..], b[1..])) || IsSubsequence(a, b[1..])))
  }
}
