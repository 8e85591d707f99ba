/** The database the routes and the start-up seed work on: the three tables as sequences of
    rows, in insertion order, and the next id the `citas` primary key will hand out. */
module Store {
  import opened DateTime
  import opened Models

  class Database {
    var usuarios: seq<Usuario>
    var servicios: seq<Servicio>
    var citas: seq<Cita>
    var nextCitaId: int

    /** The table constraints: primary keys, the unique email, every id handed out below
        `nextCitaId`, and every stored `fecha_hora` a real `datetime`. */
    ghost predicate Valid()
      reads this
    {
      && UniqueUsuarioIds(usuarios)
      && UniqueEmails(usuarios)
      && UniqueServicioIds(servicios)
      && UniqueCitaIds(citas)
      && (forall i :: 0 <= i < |citas| ==> citas[i].id < nextCitaId)
      && (forall i :: 0 <= i < |citas| ==> DateTime.Valid(citas[i].fechaHora))
    }

    /** Freshly created, empty tables (`db.create_all()`). */
    constructor ()
      ensures Valid()
      ensures usuarios == [] && servicios == [] && citas == [] && nextCitaId == 1
    {
      usuarios, servicios, citas := [], [], [];
      nextCitaId := 1;
    }

    /** `db.session.add(cita)` followed by `db.session.commit()` for a new row of `citas`:
        the row is appended with the next key, and the key counter moves past it. */
    method InsertCita(c: Cita)
      requires Valid()
      requires c.id == nextCitaId && DateTime.Valid(c.fechaHora)
      modifies this
      ensures Valid()
      ensures citas == old(citas) + [c] && nextCitaId == old(nextCitaId) + 1
      ensures usuarios == old(usuarios) && servicios == old(servicios)
    {
      citas := citas + [c];
      nextCitaId := nextCitaId + 1;
    }

    /** `cita.estado = e` on the row at position `i`, then `db.session.commit()`. */
    method SetEstado(i: nat, e: Estado)
      requires Valid() && i < |citas|
      modifies this
      ensures Valid()
      ensures citas == old(citas)[i := old(citas)[i].(estado := e)]
      ensures usuarios == old(usuarios) && servicios == old(servicios) && nextCitaId == old(nextCitaId)
    {
      citas := citas[i := citas[i].(estado := e)];
    }

    /** The start-up seed's `db.session.commit()`: the pending users and services are stored
        together, after the existing rows; it is called only when the new rows keep every
        key and the email unique. */
    method CommitSeed(nuevosUsuarios: seq<Usuario>, nuevosServicios: seq<Servicio>)
      requires Valid()
      requires UniqueUsuarioIds(usuarios + nuevosUsuarios) && UniqueEmails(usuarios + nuevosUsuarios)
      requires UniqueServicioIds(servicios + nuevosServicios)
      modifies this
      ensures Valid()
      ensures usuarios == old(usuarios) + nuevosUsuarios && servicios == old(servicios) + nuevosServicios
      ensures citas == old(citas) && nextCitaId == old(nextCitaId)
    {
      usuarios := usuarios + nuevosUsuarios;
      servicios := servicios + nuevosServicios;
    }
  }
}
