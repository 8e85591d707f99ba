/** Start-up helpers of the application package: the database URL rewrite
    (`_normalize_db_url`) and the idempotent seed of the service catalog and the
    administrator account (`_seed_initial_data`). */
module AppInit {
  import opened Strings
  import opened Models
  import opened Store

  // ---------------------------------------------------------------------------
  // Database URL

  /** The scheme hosted PostgreSQL providers hand out. */
  const PostgresScheme: string := "postgres://"

  /** The scheme SQLAlchemy needs to pick the psycopg2 driver. */
  const PsycopgScheme: string := "postgresql+psycopg2://"

  /** `_normalize_db_url`: a leading `postgres://` becomes `postgresql+psycopg2://` and the
      rest of the URL is kept verbatim; the empty string and every other URL are returned
      as they are. */
  function NormalizeDbUrl(url: string): (r: string)
    ensures StartsWith(url, PostgresScheme) ==>
      r == PsycopgScheme + url[|PostgresScheme|..]
    ensures !StartsWith(url, PostgresScheme) ==> r == url
    ensures url == [] ==> r == []
  {
    if url == [] then url
    else if StartsWith(url, PostgresScheme) then ReplaceFirst(url, PostgresScheme, PsycopgScheme)
    else url
  }

  /** A normalised URL is left alone by a second normalisation: the rewritten scheme no longer
      starts with `postgres://` (its ninth character is `q`, not `:`). */
  lemma NormalizeDbUrlIdempotent(url: string)
    ensures NormalizeDbUrl(NormalizeDbUrl(url)) == NormalizeDbUrl(url)
  {
    var r := NormalizeDbUrl(url);
    if StartsWith(url, PostgresScheme) {
      assert r[8] == 'q' && PostgresScheme[8] == ':';
      assert !StartsWith(r, PostgresScheme);
    }
  }

  // ---------------------------------------------------------------------------
  // The seed data

  /** `servicios_seed`, with prices in hundredths. */
  const Catalog: seq<Servicio> := [
    Servicio(1, "Terapia Física General",
      "Sesión enfocada en el tratamiento de dolor muscular, articular o lesiones físicas comunes.",
      45000, true),
    Servicio(2, "Rehabilitación Postoperatoria",
      "Tratamiento especializado posterior a cirugía ortopédica, neurológica o traumatológica.",
      60000, true),
    Servicio(3, "Terapia Deportiva",
      "Optimización de rendimiento, prevención y tratamiento de lesiones deportivas.",
      50000, true),
    Servicio(4, "Terapia Neurológica",
      "Atención a pacientes con lesiones neurológicas como parálisis, EVC, Parkinson, etc.",
      55000, true),
    Servicio(5, "Terapia Respiratoria",
      "Ejercicios y técnicas para mejorar la función pulmonar y oxigenación.",
      40000, true),
    Servicio(6, "Electroterapia prueba",
      "Aplicación de corriente eléctrica para alivio del dolor y mejora del tono muscular. prueba",
      34900, true),
    Servicio(7, "Terapia de Suelo Pélvico",
      "Evaluación y tratamiento de disfunciones urinarias, sexuales o de embarazo.",
      60000, true)
  ]

  /** The catalog is keyed by the ids 1 to 7, each once. */
  lemma CatalogKeys()
    ensures |Catalog| == 7
    ensures forall i :: 0 <= i < |Catalog| ==> Catalog[i].id == i + 1
    ensures UniqueServicioIds(Catalog)
    ensures ServicioIds(Catalog) == {1, 2, 3, 4, 5, 6, 7}
  {
    assert forall i :: 0 <= i < |Catalog| ==> Catalog[i].id == i + 1;
    forall id | id in {1, 2, 3, 4, 5, 6, 7} ensures id in ServicioIds(Catalog) {
      assert Catalog[id - 1].id == id;
    }
  }

  /** The environment variables the seed reads; `None` is an unset variable. */
  datatype Env = Env(adminEmail: Option<string>, adminNombre: Option<string>, adminPassword: Option<string>)

  function AdminEmail(env: Env): string {
    if env.adminEmail.Some? then env.adminEmail.value else "admin@fisiolife.com"
  }

  function AdminNombre(env: Env): string {
    if env.adminNombre.Some? then env.adminNombre.value else "Administrador"
  }

  /** `admin_hash_fijo`, the bcrypt hash used when `ADMIN_PASSWORD` is unset or empty. */
  const AdminFixedHash: string := "$2b$12$QJ.7mgzvs.U6S2Cv0ueh.eV.ICDxSERscj4mpJp0rULeI8cFZax0u"

  /** The stored password hash: `generatedHash` stands for
      `bcrypt.generate_password_hash(ADMIN_PASSWORD)`, whose salt is random. */
  function AdminPasswordHash(env: Env, generatedHash: string): string {
    if env.adminPassword.Some? && env.adminPassword.value != "" then generatedHash else AdminFixedHash
  }

  /** The administrator row the seed adds, always with primary key 1. */
  function AdminUsuario(env: Env, generatedHash: string): Usuario {
    Usuario(1, AdminNombre(env), AdminEmail(env), AdminPasswordHash(env, generatedHash), Admin)
  }

  /** With none of `ADMIN_EMAIL`, `ADMIN_NOMBRE`, `ADMIN_PASSWORD` set, or with only
      `ADMIN_PASSWORD` set and empty, the administrator is "Administrador"
      <admin@fisiolife.com> with the fixed hash, whatever hash bcrypt would have produced; its
      role is the column default. */
  lemma AdminDefaults(generatedHash: string)
    ensures AdminUsuario(Env(None, None, None), generatedHash)
         == Usuario(1, "Administrador", "admin@fisiolife.com", AdminFixedHash, DefaultRol)
    ensures AdminUsuario(Env(None, None, Some("")), generatedHash)
         == Usuario(1, "Administrador", "admin@fisiolife.com", AdminFixedHash, DefaultRol)
  {
  }

  /** An unset or empty `ADMIN_PASSWORD` gives the fixed hash, whatever the other variables
      say. */
  lemma AdminUnsetPasswordUsesFixedHash(email: Option<string>, nombre: Option<string>,
                                        password: Option<string>, generatedHash: string)
    requires password == None || password == Some("")
    ensures AdminUsuario(Env(email, nombre, password), generatedHash).password == AdminFixedHash
  {
  }

  /** Set variables are taken as given, and a non-empty `ADMIN_PASSWORD` is hashed afresh. */
  lemma AdminFromEnv(email: string, nombre: string, password: string, generatedHash: string)
    requires password != ""
    ensures AdminUsuario(Env(Some(email), Some(nombre), Some(password)), generatedHash)
         == Usuario(1, nombre, email, generatedHash, DefaultRol)
  {
  }

  // ---------------------------------------------------------------------------
  // Queries

  /** `Servicio.query.get(id)` finds a row. */
  function HasServicio(ss: seq<Servicio>, id: int): (b: bool)
    ensures b <==> id in ServicioIds(ss)
  {
    if ss == [] then false
    else
      var init := ss[..|ss| - 1];
      assert ServicioIds(ss) == ServicioIds(init) + {ss[|ss| - 1].id} by {
        assert forall i :: 0 <= i < |init| ==> init[i] == ss[i];
        forall x | x in ServicioIds(ss) ensures x in ServicioIds(init) + {ss[|ss| - 1].id} {
          var i :| 0 <= i < |ss| && ss[i].id == x;
          if i < |init| { assert init[i].id == x; }
        }
      }
      ss[|ss| - 1].id == id || HasServicio(init, id)
  }

  /** `Usuario.query.filter_by(email=e).first()` finds a row. */
  function HasEmail(us: seq<Usuario>, e: string): (b: bool)
    ensures b <==> e in UsuarioEmails(us)
  {
    if us == [] then false
    else
      var init := us[..|us| - 1];
      assert UsuarioEmails(us) == UsuarioEmails(init) + {us[|us| - 1].email} by {
        assert forall i :: 0 <= i < |init| ==> init[i] == us[i];
        forall x | x in UsuarioEmails(us) ensures x in UsuarioEmails(init) + {us[|us| - 1].email} {
          var i :| 0 <= i < |us| && us[i].email == x;
          if i < |init| { assert init[i].email == x; }
        }
      }
      us[|us| - 1].email == e || HasEmail(init, e)
  }

  /** Some user already holds primary key `id`. */
  function HasUsuarioId(us: seq<Usuario>, id: int): (b: bool)
    ensures b <==> id in UsuarioIds(us)
  {
    if us == [] then false
    else
      var init := us[..|us| - 1];
      assert UsuarioIds(us) == UsuarioIds(init) + {us[|us| - 1].id} by {
        assert forall i :: 0 <= i < |init| ==> init[i] == us[i];
        forall x | x in UsuarioIds(us) ensures x in UsuarioIds(init) + {us[|us| - 1].id} {
          var i :| 0 <= i < |us| && us[i].id == x;
          if i < |init| { assert init[i].id == x; }
        }
      }
      us[|us| - 1].id == id || HasUsuarioId(init, id)
  }

  /** The entries of `cat`, in order, whose id no row of `existing` holds. */
  function MissingServicios(existing: seq<Servicio>, cat: seq<Servicio>): (r: seq<Servicio>)
    ensures forall x :: x in r <==> x in cat && x.id !in ServicioIds(existing)
    ensures |r| <= |cat|
  {
    if cat == [] then []
    else
      var init := cat[..|cat| - 1];
      var last := cat[|cat| - 1];
      assert cat == init + [last];
      MissingServicios(existing, init) + (if HasServicio(existing, last.id) then [] else [last])
  }

  /** Nothing is left to add exactly when every catalog id is already taken. */
  lemma MissingServiciosEmptyIff(existing: seq<Servicio>, cat: seq<Servicio>)
    ensures MissingServicios(existing, cat) == [] <==>
      forall i :: 0 <= i < |cat| ==> cat[i].id in ServicioIds(existing)
  {
    var r := MissingServicios(existing, cat);
    if r != [] {
      assert r[0] in r;
    }
    if exists i :: 0 <= i < |cat| && cat[i].id !in ServicioIds(existing) {
      var i :| 0 <= i < |cat| && cat[i].id !in ServicioIds(existing);
      assert cat[i] in r;
    }
  }

  /** Against an empty table every entry is missing. */
  lemma {:induction false} MissingFromEmpty(cat: seq<Servicio>)
    ensures MissingServicios([], cat) == cat
  {
    if cat != [] {
      MissingFromEmpty(cat[..|cat| - 1]);
      assert cat == cat[..|cat| - 1] + [cat[|cat| - 1]];
    }
  }

  /** The missing entries of a catalog with distinct ids have distinct ids, none of which is
      held by an existing row. */
  lemma {:induction false} MissingServiciosKeys(existing: seq<Servicio>, cat: seq<Servicio>)
    requires UniqueServicioIds(existing) && UniqueServicioIds(cat)
    ensures UniqueServicioIds(existing + MissingServicios(existing, cat))
  {
    if cat != [] {
      var init := cat[..|cat| - 1];
      var last := cat[|cat| - 1];
      assert UniqueServicioIds(init);
      MissingServiciosKeys(existing, init);
      var ri := MissingServicios(existing, init);
      var base := existing + ri;
      assert MissingServicios(existing, cat) == ri + (if HasServicio(existing, last.id) then [] else [last]);
      if !HasServicio(existing, last.id) {
        var s := base + [last];
        assert existing + MissingServicios(existing, cat) == s;
        forall i | 0 <= i < |base| ensures base[i].id != last.id {
          if i < |existing| {
            assert base[i] == existing[i];
            assert existing[i].id in ServicioIds(existing);
          } else {
            assert base[i] == ri[i - |existing|];
            assert base[i] in init;
            var k :| 0 <= k < |init| && init[k] == base[i];
            assert cat[k] == base[i];
          }
        }
        forall i, j | 0 <= i < j < |s| ensures s[i].id != s[j].id {
          assert s[i] == base[i];
          if j < |base| {
            assert s[j] == base[j];
          }
        }
      } else {
        assert existing + MissingServicios(existing, cat) == base;
      }
    }
  }

  // ---------------------------------------------------------------------------
  // The seed

  /** How `_seed_initial_data` ends: the tables are not there yet, there was nothing to
      add, the additions were committed, or the commit raised `IntegrityError` because
      primary key 1 of `usuarios` is held by another user (the transaction is rolled back and
      the exception escapes). */
  datatype SeedOutcome = TablesMissing | NothingToCommit | Committed | CommitFailed

  datatype SeedResult = SeedResult(outcome: SeedOutcome, usuarios: seq<Usuario>, servicios: seq<Servicio>)

  /** The administrator row still to add: none when a user already has the admin email. */
  function PendingAdmin(usuarios: seq<Usuario>, env: Env, generatedHash: string): (r: seq<Usuario>)
    ensures r == [] <==> AdminEmail(env) in UsuarioEmails(usuarios)
    ensures r != [] ==> r == [AdminUsuario(env, generatedHash)]
  {
    if HasEmail(usuarios, AdminEmail(env)) then [] else [AdminUsuario(env, generatedHash)]
  }

  /** What `_seed_initial_data` does to the `usuarios` and `servicios` tables with the
      service list `cat` (`servicios_seed`; the application passes `Catalog`);
      `tablesExist` is the inspector's answer for both tables. */
  function Seed(cat: seq<Servicio>, usuarios: seq<Usuario>, servicios: seq<Servicio>, tablesExist: bool,
                env: Env, generatedHash: string): (r: SeedResult)
    ensures r.outcome == TablesMissing <==> !tablesExist
    ensures r.outcome != Committed ==> r.usuarios == usuarios && r.servicios == servicios
    ensures |usuarios| <= |r.usuarios| && r.usuarios[..|usuarios|] == usuarios
    ensures |servicios| <= |r.servicios| && r.servicios[..|servicios|] == servicios
    ensures forall i :: |servicios| <= i < |r.servicios| ==>
      r.servicios[i] in cat && r.servicios[i].id !in ServicioIds(servicios)
    ensures forall i :: |usuarios| <= i < |r.usuarios| ==>
      r.usuarios[i] == AdminUsuario(env, generatedHash) && AdminEmail(env) !in UsuarioEmails(usuarios)
    ensures r.outcome == CommitFailed ==>
      AdminEmail(env) !in UsuarioEmails(usuarios) && 1 in UsuarioIds(usuarios)
  {
    if !tablesExist then SeedResult(TablesMissing, usuarios, servicios)
    else
      var nuevos := MissingServicios(servicios, cat);
      var admin := PendingAdmin(usuarios, env, generatedHash);
      var needCommit := servicios == [] || nuevos != [] || admin != [];
      if !needCommit then SeedResult(NothingToCommit, usuarios, servicios)
      else if admin != [] && HasUsuarioId(usuarios, 1) then SeedResult(CommitFailed, usuarios, servicios)
      else
        assert (usuarios + admin)[..|usuarios|] == usuarios;
        assert (servicios + nuevos)[..|servicios|] == servicios;
        assert forall i :: |servicios| <= i < |servicios + nuevos| ==> (servicios + nuevos)[i] in nuevos;
        SeedResult(Committed, usuarios + admin, servicios + nuevos)
  }

  /** Once the seed has run to the end, every id of `cat` has a service and some user has
      the admin email. */
  lemma SeedCompletes(cat: seq<Servicio>, usuarios: seq<Usuario>, servicios: seq<Servicio>, tablesExist: bool,
                      env: Env, generatedHash: string)
    ensures
      var r := Seed(cat, usuarios, servicios, tablesExist, env, generatedHash);
      r.outcome == Committed || r.outcome == NothingToCommit ==>
        && (forall i :: 0 <= i < |cat| ==> cat[i].id in ServicioIds(r.servicios))
        && AdminEmail(env) in UsuarioEmails(r.usuarios)
  {
    var r := Seed(cat, usuarios, servicios, tablesExist, env, generatedHash);
    if tablesExist {
      var nuevos := MissingServicios(servicios, cat);
      MissingServiciosEmptyIff(servicios, cat);
      if r.outcome == Committed {
        assert r.servicios == servicios + nuevos;
        forall i | 0 <= i < |cat| ensures cat[i].id in ServicioIds(r.servicios) {
          if cat[i].id !in ServicioIds(servicios) {
            assert cat[i] in nuevos;
            var k :| 0 <= k < |nuevos| && nuevos[k] == cat[i];
            assert r.servicios[|servicios| + k] == cat[i];
          } else {
            var k :| 0 <= k < |servicios| && servicios[k].id == cat[i].id;
            assert r.servicios[k] == servicios[k];
          }
        }
        if AdminEmail(env) !in UsuarioEmails(usuarios) {
          assert r.usuarios[|usuarios|].email == AdminEmail(env);
        } else {
          var k :| 0 <= k < |usuarios| && usuarios[k].email == AdminEmail(env);
          assert r.usuarios[k] == usuarios[k];
        }
      }
    }
  }

  /** On an empty service table a seed that goes through stores exactly the catalog, ids 1
      to 7 in order. */
  lemma SeedOnEmptyServicios(usuarios: seq<Usuario>, env: Env, generatedHash: string)
    requires Seed(Catalog, usuarios, [], true, env, generatedHash).outcome == Committed
    ensures Seed(Catalog, usuarios, [], true, env, generatedHash).servicios == Catalog
    ensures ServicioIds(Seed(Catalog, usuarios, [], true, env, generatedHash).servicios) == {1, 2, 3, 4, 5, 6, 7}
  {
    SeedOnEmpty(Catalog, usuarios, env, generatedHash);
    CatalogKeys();
  }

  /** On an empty service table a seed that goes through stores exactly `cat`. */
  lemma SeedOnEmpty(cat: seq<Servicio>, usuarios: seq<Usuario>, env: Env, generatedHash: string)
    requires Seed(cat, usuarios, [], true, env, generatedHash).outcome == Committed
    ensures Seed(cat, usuarios, [], true, env, generatedHash).servicios == cat
  {
    MissingFromEmpty(cat);
    assert [] + cat == cat;
  }

  /** The seed keeps the primary keys and the email unique. */
  lemma SeedKeepsKeys(cat: seq<Servicio>, usuarios: seq<Usuario>, servicios: seq<Servicio>, tablesExist: bool,
                      env: Env, generatedHash: string)
    requires UniqueServicioIds(cat)
    requires UniqueUsuarioIds(usuarios) && UniqueEmails(usuarios) && UniqueServicioIds(servicios)
    ensures
      var r := Seed(cat, usuarios, servicios, tablesExist, env, generatedHash);
      UniqueUsuarioIds(r.usuarios) && UniqueEmails(r.usuarios) && UniqueServicioIds(r.servicios)
  {
    var r := Seed(cat, usuarios, servicios, tablesExist, env, generatedHash);
    if r.outcome == Committed {
      MissingServiciosKeys(servicios, cat);
      assert r.servicios == servicios + MissingServicios(servicios, cat);
      var admin := PendingAdmin(usuarios, env, generatedHash);
      assert r.usuarios == usuarios + admin;
      if admin != [] {
        forall i | 0 <= i < |usuarios| ensures usuarios[i].id != 1 && usuarios[i].email != AdminEmail(env) {
          assert usuarios[i].id in UsuarioIds(usuarios);
          assert usuarios[i].email in UsuarioEmails(usuarios);
        }
      }
    }
  }

  /** After a seed that went through, exactly one user has the admin email. */
  lemma SeedAdminExactlyOnce(cat: seq<Servicio>, usuarios: seq<Usuario>, servicios: seq<Servicio>,
                             tablesExist: bool, env: Env, generatedHash: string)
    requires UniqueServicioIds(cat)
    requires UniqueUsuarioIds(usuarios) && UniqueEmails(usuarios) && UniqueServicioIds(servicios)
    requires Seed(cat, usuarios, servicios, tablesExist, env, generatedHash).outcome in {Committed, NothingToCommit}
    ensures CountEmail(Seed(cat, usuarios, servicios, tablesExist, env, generatedHash).usuarios, AdminEmail(env)) == 1
  {
    var r := Seed(cat, usuarios, servicios, tablesExist, env, generatedHash);
    SeedCompletes(cat, usuarios, servicios, tablesExist, env, generatedHash);
    SeedKeepsKeys(cat, usuarios, servicios, tablesExist, env, generatedHash);
    CountEmailUnique(r.usuarios, AdminEmail(env));
  }

  /** Nothing is committed exactly when the service table is not empty and no service and
      no user is missing. (On an empty table the code commits even when `cat` is empty.) */
  lemma SeedNothingToCommitIff(cat: seq<Servicio>, usuarios: seq<Usuario>, servicios: seq<Servicio>,
                               env: Env, generatedHash: string)
    ensures Seed(cat, usuarios, servicios, true, env, generatedHash).outcome == NothingToCommit <==>
      && servicios != []
      && (forall i :: 0 <= i < |cat| ==> cat[i].id in ServicioIds(servicios))
      && AdminEmail(env) in UsuarioEmails(usuarios)
  {
    MissingServiciosEmptyIff(servicios, cat);
  }

  /** Seeding twice leaves the same tables as seeding once, even though the second start-up
      hashes `ADMIN_PASSWORD` with a fresh salt (`h2` rather than `h1`). */
  lemma SeedIdempotent(cat: seq<Servicio>, usuarios: seq<Usuario>, servicios: seq<Servicio>, tablesExist: bool,
                       env: Env, h1: string, h2: string)
    ensures
      var once := Seed(cat, usuarios, servicios, tablesExist, env, h1);
      var twice := Seed(cat, once.usuarios, once.servicios, tablesExist, env, h2);
      twice.usuarios == once.usuarios && twice.servicios == once.servicios
  {
    var once := Seed(cat, usuarios, servicios, tablesExist, env, h1);
    if once.outcome == Committed {
      SeedCompletes(cat, usuarios, servicios, tablesExist, env, h1);
      SeedNothingToCommitIff(cat, once.usuarios, once.servicios, env, h2);
    }
  }

  /** `_seed_initial_data` with the application's `Catalog`. */
  method SeedInitialData(db: Database, tablesExist: bool, env: Env, generatedHash: string)
    returns (outcome: SeedOutcome)
    requires db.Valid()
    modifies db
    ensures db.Valid()
    ensures SeedResult(outcome, db.usuarios, db.servicios) ==
      Seed(Catalog, old(db.usuarios), old(db.servicios), tablesExist, env, generatedHash)
    ensures db.citas == old(db.citas) && db.nextCitaId == old(db.nextCitaId)
  {
    CatalogKeys();
    outcome := SeedWith(db, Catalog, tablesExist, env, generatedHash);
  }

  /** The body of `_seed_initial_data` over the service list `cat`. The pending rows stand
      for the objects added to the session; the commit stores them all, or, when it would
      reuse user key 1, none of them. */
  method SeedWith(db: Database, cat: seq<Servicio>, tablesExist: bool, env: Env, generatedHash: string)
    returns (outcome: SeedOutcome)
    requires db.Valid() && UniqueServicioIds(cat)
    modifies db
    ensures db.Valid()
    ensures SeedResult(outcome, db.usuarios, db.servicios) ==
      Seed(cat, old(db.usuarios), old(db.servicios), tablesExist, env, generatedHash)
    ensures db.citas == old(db.citas) && db.nextCitaId == old(db.nextCitaId)
  {
    ghost var spec := Seed(cat, db.usuarios, db.servicios, tablesExist, env, generatedHash);
    if !tablesExist {
      return TablesMissing;
    }
    var nuevos, needCommit := PendingServicios(db.servicios, cat);
    var adminEmail := AdminEmail(env);
    var adminNombre := AdminNombre(env);
    var admin: seq<Usuario> := [];
    if !HasEmail(db.usuarios, adminEmail) {
      var pwdHash := if env.adminPassword.Some? && env.adminPassword.value != "" then generatedHash
                     else AdminFixedHash;
      admin := [Usuario(1, adminNombre, adminEmail, pwdHash, Admin)];
      needCommit := true;
    }
    assert admin == PendingAdmin(db.usuarios, env, generatedHash);
    assert needCommit <==> db.servicios == [] || nuevos != [] || admin != [];
    if !needCommit {
      assert spec.outcome == NothingToCommit;
      return NothingToCommit;
    }
    if admin != [] && HasUsuarioId(db.usuarios, 1) {
      assert spec.outcome == CommitFailed;
      return CommitFailed;
    }
    assert spec == SeedResult(Committed, db.usuarios + admin, db.servicios + nuevos);
    SeedKeepsKeys(cat, db.usuarios, db.servicios, tablesExist, env, generatedHash);
    db.CommitSeed(admin, nuevos);
    outcome := Committed;
  }

  /** The services part of `_seed_initial_data`: the services added to the session, and
      whether that part asks for a commit. On an empty table every entry of `cat` is added
      and a commit is asked for; otherwise only the entries whose id `query.get` does not
      find, and a commit only when there is one. */
  method PendingServicios(existing: seq<Servicio>, cat: seq<Servicio>)
    returns (nuevos: seq<Servicio>, needCommit: bool)
    ensures nuevos == MissingServicios(existing, cat)
    ensures needCommit <==> existing == [] || nuevos != []
  {
    nuevos := [];
    needCommit := false;
    if |existing| == 0 {
      for i := 0 to |cat|
        invariant nuevos == cat[..i]
      {
        nuevos := nuevos + [cat[i]];
      }
      needCommit := true;
      MissingFromEmpty(cat);
      assert existing == [] && cat[..|cat|] == cat;
    } else {
      for i := 0 to |cat|
        invariant nuevos == MissingServicios(existing, cat[..i])
        invariant needCommit <==> nuevos != []
      {
        assert cat[..i + 1][..i] == cat[..i];
        if !HasServicio(existing, cat[i].id) {
          nuevos := nuevos + [cat[i]];
          needCommit := true;
        }
      }
      assert cat[..|cat|] == cat;
    }
  }
}
