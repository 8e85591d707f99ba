/** The three tables of the clinic: `usuarios`, `servicios` and `citas`, with their
    enumerations, defaults and uniqueness constraints. */
module Models {
  import opened Strings
  import opened DateTime

  /** `Cita.estado`: `Enum('pendiente', 'confirmada', 'completada', 'cancelada')`. */
  datatype Estado = Pendiente | Confirmada | Completada | Cancelada

  /** The column default of `Cita.estado`. */
  const DefaultEstado: Estado := Pendiente

  function EstadoName(e: Estado): string {
    match e
    case Pendiente => "pendiente"
    case Confirmada => "confirmada"
    case Completada => "completada"
    case Cancelada => "cancelada"
  }

  /** The membership test `nuevo_estado in ['pendiente', 'confirmada', 'completada',
      'cancelada']`, returning the value it names. */
  function ParseEstado(s: string): (r: Option<Estado>)
    ensures r.Some? <==> s in {"pendiente", "confirmada", "completada", "cancelada"}
    ensures r.Some? ==> EstadoName(r.value) == s
  {
    if s == "pendiente" then Some(Pendiente)
    else if s == "confirmada" then Some(Confirmada)
    else if s == "completada" then Some(Completada)
    else if s == "cancelada" then Some(Cancelada)
    else None
  }

  /** Every status value is accepted under its own name, and under no other. */
  lemma ParseEstadoName(e: Estado, s: string)
    ensures ParseEstado(EstadoName(e)) == Some(e)
    ensures ParseEstado(s) == Some(e) ==> s == EstadoName(e)
  {
  }

  /** `Usuario.rol`: `Enum('admin', 'staff')`. */
  datatype Rol = Admin | Staff

  /** The column default of `Usuario.rol`. */
  const DefaultRol: Rol := Admin

  function RolName(r: Rol): string {
    match r
    case Admin => "admin"
    case Staff => "staff"
  }

  function ParseRol(s: string): (r: Option<Rol>)
    ensures r.Some? <==> s in {"admin", "staff"}
    ensures r.Some? ==> RolName(r.value) == s
  {
    if s == "admin" then Some(Admin) else if s == "staff" then Some(Staff) else None
  }

  /** A row of `usuarios`; `password` holds a bcrypt hash, never the password. */
  datatype Usuario = Usuario(id: int, nombre: string, email: string, password: string, rol: Rol)

  /** A row of `servicios`; `precio` is the `Numeric(10, 2)` price in hundredths. */
  datatype Servicio = Servicio(id: int, nombre: string, descripcion: string, precio: int, activo: bool)

  /** A row of `citas`. `servicioId` and `fechaHora` are `nullable=False`, so they are plain
      values here; `mensaje` is nullable. */
  datatype Cita = Cita(
    id: int,
    nombre: string,
    email: string,
    telefono: string,
    servicioId: int,
    fechaHora: Timestamp,
    mensaje: Option<string>,
    estado: Estado)

  /** `unique=True` on `Usuario.email`. */
  predicate UniqueEmails(us: seq<Usuario>) {
    forall i, j :: 0 <= i < j < |us| ==> us[i].email != us[j].email
  }

  function UsuarioIds(us: seq<Usuario>): set<int> {
    set i | 0 <= i < |us| :: us[i].id
  }

  function UsuarioEmails(us: seq<Usuario>): set<string> {
    set i | 0 <= i < |us| :: us[i].email
  }

  /** The primary key of `usuarios`. */
  predicate UniqueUsuarioIds(us: seq<Usuario>) {
    forall i, j :: 0 <= i < j < |us| ==> us[i].id != us[j].id
  }

  function ServicioIds(ss: seq<Servicio>): set<int> {
    set i | 0 <= i < |ss| :: ss[i].id
  }

  /** The primary key of `servicios`. */
  predicate UniqueServicioIds(ss: seq<Servicio>) {
    forall i, j :: 0 <= i < j < |ss| ==> ss[i].id != ss[j].id
  }

  /** The primary key of `citas`. */
  predicate UniqueCitaIds(cs: seq<Cita>) {
    forall i, j :: 0 <= i < j < |cs| ==> cs[i].id != cs[j].id
  }

  /** The number of users with email `e`. */
  function CountEmail(us: seq<Usuario>, e: string): nat {
    if us == [] then 0
    else CountEmail(us[..|us| - 1], e) + (if us[|us| - 1].email == e then 1 else 0)
  }

  /** Under the unique constraint an email belongs to at most one user, and to exactly one
      when it is present at all. */
  lemma {:induction false} CountEmailUnique(us: seq<Usuario>, e: string)
    requires UniqueEmails(us)
    ensures CountEmail(us, e) == if e in UsuarioEmails(us) then 1 else 0
  {
    if us != [] {
      var init := us[..|us| - 1];
      assert UniqueEmails(init);
      CountEmailUnique(init, e);
      assert UsuarioEmails(us) == UsuarioEmails(init) + {us[|us| - 1].email} by {
        forall x | x in UsuarioEmails(us) ensures x in UsuarioEmails(init) + {us[|us| - 1].email} {
          var i :| 0 <= i < |us| && us[i].email == x;
          if i < |us| - 1 { assert init[i].email == x; }
        }
        forall x | x in UsuarioEmails(init) ensures x in UsuarioEmails(us) {
          var i :| 0 <= i < |init| && init[i].email == x;
          assert us[i].email == x;
        }
      }
      if us[|us| - 1].email == e {
        assert e !in UsuarioEmails(init);
      }
    }
  }
}
