/** The appointment routes: the public booking form with its one-hour conflict check
    (`agendar_cita`), the administrator's status change (`cambiar_estado_cita`) and the
    administrator's listing (`admin_citas`). */
module Routes {
  import opened Strings
  import opened DateTime
  import opened Models
  import opened Store

  // ---------------------------------------------------------------------------
  // Booking

  /** The posted booking form. A text field the form lacks reads as "" (`form.get(k, "")`);
      `servicio_id` is read without a default, so it may be absent. */
  datatype BookingForm = BookingForm(
    nombre: string,
    email: string,
    telefono: string,
    fechaHora: string,
    servicioId: Option<string>)

  /** Why a booking was not stored: the three messages the form shows ("Completa todos los
      campos.", "Formato de fecha incorrecto.", "Ya hay una cita agendada en esa hora..."),
      and the two exceptions the route lets escape (`OverflowError` from the block end,
      `ValueError` from `int(servicio_id)`). */
  datatype BookingError = MissingFields | BadFechaFormat | BlockOverflow | SlotTaken | BadServicioId

  datatype BookingResult = Booked(cita: Cita) | Rejected(error: BookingError)

  /** `all([nombre, email, telefono, fecha_hora, servicio_id])` after stripping: no text field
      is empty or white space only, and `servicio_id` is present and non-empty. */
  predicate FieldsPresent(f: BookingForm) {
    && !AllSpace(f.nombre)
    && !AllSpace(f.email)
    && !AllSpace(f.telefono)
    && !AllSpace(f.fechaHora)
    && f.servicioId.Some? && f.servicioId.value != ""
  }

  /** The form check, stated through `strip`: every text field strips to a non-empty value
      and `servicio_id` is present and non-empty (it is not stripped). */
  lemma FieldsPresentIff(f: BookingForm)
    ensures FieldsPresent(f) <==>
      && Strip(f.nombre) != []
      && Strip(f.email) != []
      && Strip(f.telefono) != []
      && Strip(f.fechaHora) != []
      && f.servicioId.Some? && f.servicioId.value != ""
  {
    StripEmptyIff(f.nombre);
    StripEmptyIff(f.email);
    StripEmptyIff(f.telefono);
    StripEmptyIff(f.fechaHora);
  }

  /** The conflict query `Cita.fecha_hora >= start, Cita.fecha_hora < end` finds a row. */
  function HasCitaInBlock(citas: seq<Cita>, start: Timestamp, end: Timestamp): (b: bool)
    ensures b <==> exists i :: 0 <= i < |citas| && InBlock(citas[i].fechaHora, start, end)
  {
    if citas == [] then false
    else if InBlock(citas[|citas| - 1].fechaHora, start, end) then true
    else
      var b := HasCitaInBlock(citas[..|citas| - 1], start, end);
      assert forall i :: 0 <= i < |citas| - 1 ==> citas[..|citas| - 1][i] == citas[i];
      b
  }

  /** What one booking request does to the `citas` table of `citas`, given the id the new row
      would receive. */
  function Booking(citas: seq<Cita>, f: BookingForm, newId: int): (r: BookingResult)
    ensures r == Rejected(MissingFields) <==> !FieldsPresent(f)
    ensures r == Rejected(BadFechaFormat) <==>
      FieldsPresent(f) && ParseFechaHora(Strip(f.fechaHora)).None?
    ensures r.Booked? ==>
      && r.cita.id == newId
      && r.cita.nombre == Strip(f.nombre)
      && r.cita.email == Lower(Strip(f.email))
      && r.cita.telefono == Strip(f.telefono)
      && DateTime.Valid(r.cita.fechaHora)
      && Format(r.cita.fechaHora) == Strip(f.fechaHora)
      && f.servicioId.Some? && ParseInt(f.servicioId.value) == Some(r.cita.servicioId)
      && r.cita.mensaje == None
      && r.cita.estado == DefaultEstado
    ensures r.Booked? ==>
      var start := BlockStart(r.cita.fechaHora);
      && AddHour(start).Some?
      && forall i :: 0 <= i < |citas| ==> !InBlock(citas[i].fechaHora, start, AddHour(start).value)
  {
    if !FieldsPresent(f) then Rejected(MissingFields)
    else
      match ParseFechaHora(Strip(f.fechaHora))
      case None => Rejected(BadFechaFormat)
      case Some(t) => BookingAt(citas, f, newId, t)
  }

  /** The steps of `Booking` after `fecha_hora` has parsed as `t`: block, conflict query,
      `int(servicio_id)`, new row. */
  function BookingAt(citas: seq<Cita>, f: BookingForm, newId: int, t: Timestamp): (r: BookingResult)
    requires FieldsPresent(f) && DateTime.Valid(t)
    ensures r.Rejected? ==> r.error == BlockOverflow || r.error == SlotTaken || r.error == BadServicioId
    ensures r == Rejected(BlockOverflow) <==> AddHour(BlockStart(t)).None?
    ensures r.Booked? ==>
      && ParseInt(f.servicioId.value) == Some(r.cita.servicioId)
      && r.cita == Cita(newId, Strip(f.nombre), Lower(Strip(f.email)), Strip(f.telefono),
                        r.cita.servicioId, t, None, DefaultEstado)
    ensures r.Booked? ==>
      var start := BlockStart(t);
      && AddHour(start).Some?
      && forall i :: 0 <= i < |citas| ==> !InBlock(citas[i].fechaHora, start, AddHour(start).value)
  {
    var start := BlockStart(t);
    match AddHour(start)
    case None => Rejected(BlockOverflow)
    case Some(end) =>
      if HasCitaInBlock(citas, start, end) then Rejected(SlotTaken)
      else
        match ParseInt(f.servicioId.value)
        case None => Rejected(BadServicioId)
        case Some(sid) =>
          Booked(Cita(newId, Strip(f.nombre), Lower(Strip(f.email)), Strip(f.telefono), sid, t, None, Pendiente))
  }

  /** No two citas share a clock hour. */
  predicate NoDoubleBooking(citas: seq<Cita>) {
    forall i, j :: 0 <= i < j < |citas| ==> !SameHour(citas[i].fechaHora, citas[j].fechaHora)
  }

  predicate AllValid(citas: seq<Cita>) {
    forall i :: 0 <= i < |citas| ==> DateTime.Valid(citas[i].fechaHora)
  }

  /** Over well-formed rows the conflict query is an hour test: a complete, well-formed
      request is turned away as taken exactly when some stored cita, whatever its service or
      status, lies in the same clock hour as the requested time. */
  lemma SlotTakenIffSameHour(citas: seq<Cita>, f: BookingForm, newId: int, t: Timestamp)
    requires AllValid(citas)
    requires FieldsPresent(f) && ParseFechaHora(Strip(f.fechaHora)) == Some(t)
    requires AddHour(BlockStart(t)).Some?
    ensures Booking(citas, f, newId) == Rejected(SlotTaken) <==>
      exists i :: 0 <= i < |citas| && SameHour(citas[i].fechaHora, t)
  {
    assert Booking(citas, f, newId) == BookingAt(citas, f, newId, t);
    HasCitaInBlockIffSameHour(citas, t);
  }

  /** Once the form is complete and `fecha_hora` parses as `t`, the block end overflows
      exactly when `t` lies in the last hour of year 9999. */
  lemma BlockOverflowIff(citas: seq<Cita>, f: BookingForm, newId: int, t: Timestamp)
    requires FieldsPresent(f) && ParseFechaHora(Strip(f.fechaHora)) == Some(t)
    ensures Booking(citas, f, newId) == Rejected(BlockOverflow) <==> AddHour(BlockStart(t)).None?
  {
    assert Booking(citas, f, newId) == BookingAt(citas, f, newId, t);
  }

  /** `int(servicio_id)` is reached, and fails, exactly when the block is free and
      `servicio_id` is not an integer literal. */
  lemma BadServicioIdIff(citas: seq<Cita>, f: BookingForm, newId: int, t: Timestamp)
    requires AllValid(citas)
    requires FieldsPresent(f) && ParseFechaHora(Strip(f.fechaHora)) == Some(t)
    ensures Booking(citas, f, newId) == Rejected(BadServicioId) <==>
      && AddHour(BlockStart(t)).Some?
      && !(exists i :: 0 <= i < |citas| && SameHour(citas[i].fechaHora, t))
      && ParseInt(f.servicioId.value).None?
  {
    assert Booking(citas, f, newId) == BookingAt(citas, f, newId, t);
    if AddHour(BlockStart(t)).Some? {
      HasCitaInBlockIffSameHour(citas, t);
    }
  }

  /** The conflict query over the block of `t` finds a row exactly when a row shares `t`'s
      clock hour. */
  lemma HasCitaInBlockIffSameHour(citas: seq<Cita>, t: Timestamp)
    requires AllValid(citas) && DateTime.Valid(t) && AddHour(BlockStart(t)).Some?
    ensures HasCitaInBlock(citas, BlockStart(t), AddHour(BlockStart(t)).value) <==>
      exists i :: 0 <= i < |citas| && SameHour(citas[i].fechaHora, t)
  {
    forall i | 0 <= i < |citas|
      ensures InBlock(citas[i].fechaHora, BlockStart(t), AddHour(BlockStart(t)).value)
          <==> SameHour(citas[i].fechaHora, t)
    {
      InBlockIffSameHour(citas[i].fechaHora, t);
    }
  }

  /** A booking is stored exactly when the form is complete, its time parses, the hour
      after it exists, no stored cita shares its clock hour and `servicio_id` is an integer. */
  lemma BookedIff(citas: seq<Cita>, f: BookingForm, newId: int)
    requires AllValid(citas)
    ensures Booking(citas, f, newId).Booked? <==>
      && FieldsPresent(f)
      && ParseFechaHora(Strip(f.fechaHora)).Some?
      && var t := ParseFechaHora(Strip(f.fechaHora)).value;
         && AddHour(BlockStart(t)).Some?
         && (forall i :: 0 <= i < |citas| ==> !SameHour(citas[i].fechaHora, t))
         && ParseInt(f.servicioId.value).Some?
  {
    if FieldsPresent(f) && ParseFechaHora(Strip(f.fechaHora)).Some? {
      var t := ParseFechaHora(Strip(f.fechaHora)).value;
      assert Booking(citas, f, newId) == BookingAt(citas, f, newId, t);
      if AddHour(BlockStart(t)).Some? {
        HasCitaInBlockIffSameHour(citas, t);
      }
    }
  }

  /** A booking stored next to rows of which no two share an hour leaves no two sharing an
      hour. */
  lemma BookingKeepsNoDoubleBooking(citas: seq<Cita>, f: BookingForm, newId: int)
    requires AllValid(citas) && NoDoubleBooking(citas)
    requires Booking(citas, f, newId).Booked?
    ensures NoDoubleBooking(citas + [Booking(citas, f, newId).cita])
  {
    var c := Booking(citas, f, newId).cita;
    var start := BlockStart(c.fechaHora);
    var s := citas + [c];
    forall i | 0 <= i < |citas|
      ensures !SameHour(citas[i].fechaHora, c.fechaHora)
    {
      InBlockIffSameHour(citas[i].fechaHora, c.fechaHora);
    }
    forall i, j | 0 <= i < j < |s|
      ensures !SameHour(s[i].fechaHora, s[j].fechaHora)
    {
      if j == |citas| {
        assert s[i] == citas[i] && s[j] == c;
      } else {
        assert s[i] == citas[i] && s[j] == citas[j];
      }
    }
  }

  /** `agendar_cita` on POST. The notification mail is sent after the commit and any
      exception it raises is swallowed, so `mailFails` reaches neither the table nor the
      result. */
  method AgendarCita(db: Database, f: BookingForm, mailFails: bool) returns (r: BookingResult)
    requires db.Valid()
    modifies db
    ensures db.Valid()
    ensures r == Booking(old(db.citas), f, old(db.nextCitaId))
    ensures r.Booked? ==> db.citas == old(db.citas) + [r.cita] && db.nextCitaId == old(db.nextCitaId) + 1
    ensures r.Rejected? ==> db.citas == old(db.citas) && db.nextCitaId == old(db.nextCitaId)
    ensures db.usuarios == old(db.usuarios) && db.servicios == old(db.servicios)
    ensures NoDoubleBooking(old(db.citas)) ==> NoDoubleBooking(db.citas)
  {
    ghost var spec := Booking(db.citas, f, db.nextCitaId);
    StripEmptyIff(f.nombre);
    StripEmptyIff(f.email);
    StripEmptyIff(f.telefono);
    StripEmptyIff(f.fechaHora);
    var nombre := Strip(f.nombre);
    var email := Lower(Strip(f.email));
    var telefono := Strip(f.telefono);
    var fechaHora := Strip(f.fechaHora);
    if nombre == [] || email == [] || telefono == [] || fechaHora == []
       || f.servicioId.None? || f.servicioId.value == [] {
      return Rejected(MissingFields);
    }
    assert FieldsPresent(f);
    var parsed := ParseFechaHora(fechaHora);
    if parsed.None? {
      return Rejected(BadFechaFormat);
    }
    var fechaHoraDt := parsed.value;
    assert spec == BookingAt(db.citas, f, db.nextCitaId, fechaHoraDt);
    var horaInicio := BlockStart(fechaHoraDt);
    var horaFin := AddHour(horaInicio);
    if horaFin.None? {
      return Rejected(BlockOverflow);
    }
    if HasCitaInBlock(db.citas, horaInicio, horaFin.value) {
      return Rejected(SlotTaken);
    }
    var sid := ParseInt(f.servicioId.value);
    if sid.None? {
      return Rejected(BadServicioId);
    }
    var nueva := Cita(db.nextCitaId, nombre, email, telefono, sid.value, fechaHoraDt, None, Pendiente);
    assert spec == Booked(nueva);
    if NoDoubleBooking(db.citas) {
      BookingKeepsNoDoubleBooking(db.citas, f, db.nextCitaId);
    }
    db.InsertCita(nueva);
    r := Booked(nueva);
  }

  // ---------------------------------------------------------------------------
  // Booking scenarios at the edges of an hour block

  /** The two request times of the scenarios below, as the form sends them. */
  lemma ScenarioTimes()
    ensures ParseFechaHora("2025-03-10T09:45") == Some(Timestamp(2025, 3, 10, 9, 45))
    ensures ParseFechaHora("2025-03-10T10:00") == Some(Timestamp(2025, 3, 10, 10, 0))
  {
    assert Format(Timestamp(2025, 3, 10, 9, 45)) == "2025-03-10T09:45";
    ParseFormat(Timestamp(2025, 3, 10, 9, 45));
    assert Format(Timestamp(2025, 3, 10, 10, 0)) == "2025-03-10T10:00";
    ParseFormat(Timestamp(2025, 3, 10, 10, 0));
  }

  /** 09:15 and 09:45 share the block [09:00, 10:00): a complete request for 09:45 (sent as
      "2025-03-10T09:45", see `ScenarioTimes`) is turned away next to a stored 09:15 cita,
      whatever that cita's service or status. */
  lemma QuarterPastAndQuarterToConflict(first: Cita, f: BookingForm, newId: int)
    requires first.fechaHora == Timestamp(2025, 3, 10, 9, 15)
    requires FieldsPresent(f) && ParseFechaHora(Strip(f.fechaHora)) == Some(Timestamp(2025, 3, 10, 9, 45))
    ensures Booking([first], f, newId) == Rejected(SlotTaken)
  {
    var t := Timestamp(2025, 3, 10, 9, 45);
    SlotTakenIffSameHour([first], f, newId, t);
    assert SameHour([first][0].fechaHora, t);
  }

  /** 09:59 and 10:00 lie in different blocks, because the block of 09:59 ends just before
      10:00: a complete request for 10:00 (sent as "2025-03-10T10:00") is booked next to a
      stored 09:59 cita. */
  lemma OneMinuteApartAcrossTheHour(first: Cita, f: BookingForm, newId: int)
    requires first.fechaHora == Timestamp(2025, 3, 10, 9, 59)
    requires FieldsPresent(f) && ParseFechaHora(Strip(f.fechaHora)) == Some(Timestamp(2025, 3, 10, 10, 0))
    requires ParseInt(f.servicioId.value).Some?
    ensures Booking([first], f, newId).Booked?
    ensures Booking([first], f, newId).cita.fechaHora == Timestamp(2025, 3, 10, 10, 0)
  {
    var t := Timestamp(2025, 3, 10, 10, 0);
    NoSameHourSingleton(first, t);
    BookedIff([first], f, newId);
    assert Booking([first], f, newId) == BookingAt([first], f, newId, t);
  }

  lemma NoSameHourSingleton(c: Cita, t: Timestamp)
    requires DateTime.Valid(c.fechaHora) && !SameHour(c.fechaHora, t)
    ensures AllValid([c]) && forall i :: 0 <= i < |[c]| ==> !SameHour([c][i].fechaHora, t)
  {
  }

  /** A cancelled cita blocks its hour just as a pending one does: the conflict query looks
      only at the stored times, not at the service or the status of the rows. */
  lemma BookingIgnoresServicioAndEstado(citas: seq<Cita>, others: seq<Cita>, f: BookingForm, newId: int)
    requires |citas| == |others|
    requires forall i :: 0 <= i < |citas| ==> citas[i].fechaHora == others[i].fechaHora
    ensures Booking(citas, f, newId) == Booking(others, f, newId)
  {
    if FieldsPresent(f) && ParseFechaHora(Strip(f.fechaHora)).Some? {
      var t := ParseFechaHora(Strip(f.fechaHora)).value;
      var start := BlockStart(t);
      match AddHour(start)
      case None =>
      case Some(end) =>
        assert HasCitaInBlock(citas, start, end) == HasCitaInBlock(others, start, end);
    }
  }

  // ---------------------------------------------------------------------------
  // Status change

  /** `Cita.query.get(cita_id)`: the position of the row with primary key `id`. */
  function FindCita(citas: seq<Cita>, id: int): (r: Option<nat>)
    ensures r.Some? ==> r.value < |citas| && citas[r.value].id == id
    ensures r.Some? ==> forall k :: 0 <= k < r.value ==> citas[k].id != id
    ensures r.None? <==> forall k :: 0 <= k < |citas| ==> citas[k].id != id
  {
    if citas == [] then None
    else if citas[0].id == id then Some(0)
    else
      match FindCita(citas[1..], id)
      case None => None
      case Some(k) => Some(k + 1)
  }

  /** How `cambiar_estado_cita` ends: redirected to the login page, redirected with
      "Estado inválido", the 404 of `get_or_404`, or the update to the named status. */
  datatype EstadoOutcome = LoginRequired | InvalidEstado | NotFound | Updated(estado: Estado)

  datatype EstadoChange = EstadoChange(outcome: EstadoOutcome, citas: seq<Cita>)

  /** What `cambiar_estado_cita(cita_id, nuevo_estado)` does to `citas`; `loggedIn` is
      `"usuario_id" in session`. */
  function CambioEstado(citas: seq<Cita>, loggedIn: bool, citaId: int, nuevoEstado: string): (r: EstadoChange)
    ensures r.outcome == LoginRequired <==> !loggedIn
    ensures r.outcome == InvalidEstado <==>
      loggedIn && nuevoEstado !in {"pendiente", "confirmada", "completada", "cancelada"}
    ensures r.outcome == NotFound <==>
      loggedIn && ParseEstado(nuevoEstado).Some? && forall k :: 0 <= k < |citas| ==> citas[k].id != citaId
    ensures !r.outcome.Updated? ==> r.citas == citas
    ensures r.outcome.Updated? ==>
      && EstadoName(r.outcome.estado) == nuevoEstado
      && |r.citas| == |citas|
      && exists i :: 0 <= i < |citas| && citas[i].id == citaId &&
           r.citas == citas[i := citas[i].(estado := r.outcome.estado)]
  {
    if !loggedIn then EstadoChange(LoginRequired, citas)
    else
      match ParseEstado(nuevoEstado)
      case None => EstadoChange(InvalidEstado, citas)
      case Some(e) =>
        match FindCita(citas, citaId)
        case None => EstadoChange(NotFound, citas)
        case Some(i) => EstadoChange(Updated(e), citas[i := citas[i].(estado := e)])
  }

  /** With primary keys unique, an update touches the `estado` of the row with that key and
      nothing else: every other row, and every other column of that row, is as before. */
  lemma CambioEstadoOnlyTarget(citas: seq<Cita>, loggedIn: bool, citaId: int, nuevoEstado: string)
    requires UniqueCitaIds(citas)
    requires CambioEstado(citas, loggedIn, citaId, nuevoEstado).outcome.Updated?
    ensures
      var r := CambioEstado(citas, loggedIn, citaId, nuevoEstado);
      && |r.citas| == |citas|
      && (forall k :: 0 <= k < |citas| && citas[k].id != citaId ==> r.citas[k] == citas[k])
      && (forall k :: 0 <= k < |citas| && citas[k].id == citaId ==>
            r.citas[k] == citas[k].(estado := r.outcome.estado))
  {
    var r := CambioEstado(citas, loggedIn, citaId, nuevoEstado);
    var i :| 0 <= i < |citas| && citas[i].id == citaId &&
      r.citas == citas[i := citas[i].(estado := r.outcome.estado)];
  }

  /** A status change keeps every stored time, hence keeps the no-double-booking property,
      the keys and the well-formed times. */
  lemma CambioEstadoKeepsTimes(citas: seq<Cita>, loggedIn: bool, citaId: int, nuevoEstado: string)
    ensures
      var r := CambioEstado(citas, loggedIn, citaId, nuevoEstado);
      && |r.citas| == |citas|
      && (forall k :: 0 <= k < |citas| ==> r.citas[k].fechaHora == citas[k].fechaHora && r.citas[k].id == citas[k].id)
      && (NoDoubleBooking(citas) ==> NoDoubleBooking(r.citas))
      && (UniqueCitaIds(citas) ==> UniqueCitaIds(r.citas))
      && (AllValid(citas) ==> AllValid(r.citas))
  {
  }

  /** `cambiar_estado_cita`. The row is changed in place through `db.SetEstado`; the other
      tables and the key counter are untouched. */
  method CambiarEstadoCita(db: Database, loggedIn: bool, citaId: int, nuevoEstado: string)
    returns (outcome: EstadoOutcome)
    requires db.Valid()
    modifies db
    ensures db.Valid()
    ensures EstadoChange(outcome, db.citas) == CambioEstado(old(db.citas), loggedIn, citaId, nuevoEstado)
    ensures db.usuarios == old(db.usuarios) && db.servicios == old(db.servicios)
    ensures db.nextCitaId == old(db.nextCitaId)
  {
    if !loggedIn {
      return LoginRequired;
    }
    if nuevoEstado !in ["pendiente", "confirmada", "completada", "cancelada"] {
      return InvalidEstado;
    }
    var e := ParseEstado(nuevoEstado).value;
    var found := FindCita(db.citas, citaId);
    if found.None? {
      return NotFound;
    }
    db.SetEstado(found.value, e);
    outcome := Updated(e);
  }

  // ---------------------------------------------------------------------------
  // Listing

  /** Newest first: no row is earlier than a row after it. */
  predicate NewestFirst(cs: seq<Cita>) {
    forall i, j :: 0 <= i < j < |cs| ==> !Before(cs[i].fechaHora, cs[j].fechaHora)
  }

  /** A row no later than any row of a newest-first list may head it. */
  lemma NewestFirstCons(h: Cita, cs: seq<Cita>)
    requires NewestFirst(cs)
    requires forall x :: x in cs ==> !Before(h.fechaHora, x.fechaHora)
    ensures NewestFirst([h] + cs)
  {
    var s := [h] + cs;
    forall i, j | 0 <= i < j < |s|
      ensures !Before(s[i].fechaHora, s[j].fechaHora)
    {
      assert s[j] == cs[j - 1];
      if i > 0 {
        assert s[i] == cs[i - 1];
      }
    }
  }

  /** Places `c` into a newest-first list, after the rows that are not earlier than it. */
  function InsertNewestFirst(c: Cita, cs: seq<Cita>): (r: seq<Cita>)
    requires NewestFirst(cs)
    ensures NewestFirst(r)
    ensures forall x :: x in r <==> x == c || x in cs
    ensures multiset(r) == multiset(cs) + multiset{c}
  {
    if cs == [] then [c]
    else if Before(cs[0].fechaHora, c.fechaHora) then
      assert forall x :: x in cs ==> !Before(c.fechaHora, x.fechaHora) by {
        forall x | x in cs ensures !Before(c.fechaHora, x.fechaHora) {
          var j :| 0 <= j < |cs| && cs[j] == x;
          assert !Before(cs[0].fechaHora, x.fechaHora);
          BeforeTransitive(cs[0].fechaHora, c.fechaHora, x.fechaHora);
        }
      }
      NewestFirstCons(c, cs);
      [c] + cs
    else
      assert cs == [cs[0]] + cs[1..];
      var rest := InsertNewestFirst(c, cs[1..]);
      assert forall x :: x in cs[1..] ==> !Before(cs[0].fechaHora, x.fechaHora);
      NewestFirstCons(cs[0], rest);
      [cs[0]] + rest
  }

  /** `ORDER BY fecha_hora DESC`: the rows, newest first. */
  function SortNewestFirst(cs: seq<Cita>): (r: seq<Cita>)
    ensures NewestFirst(r)
    ensures multiset(r) == multiset(cs)
  {
    if cs == [] then []
    else
      assert cs == [cs[0]] + cs[1..];
      InsertNewestFirst(cs[0], SortNewestFirst(cs[1..]))
  }

  /** `admin_citas`: `None` is the redirect to the login page; otherwise every stored cita,
      each exactly as often as it is stored, newest first. */
  function AdminCitas(citas: seq<Cita>, loggedIn: bool): (r: Option<seq<Cita>>)
    ensures r.None? <==> !loggedIn
    ensures r.Some? ==> NewestFirst(r.value) && multiset(r.value) == multiset(citas)
  {
    if loggedIn then Some(SortNewestFirst(citas)) else None
  }
}
