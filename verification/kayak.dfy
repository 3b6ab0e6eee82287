/** The `Kayak` controller: the user list, the reservation list, the
    authenticated user, and the two CSV files each mutation rewrites. Every
    operation is a total function from one state to the next. */
module Kayak {
  import opened Wrappers
  import opened Text
  import opened Usuarios
  import opened Reservas
  import opened Csv

  /** `usuarioActual` is an index into `usuarios`: the Java field refers to
      one of the list's own objects, and the list never shrinks or reorders.
      The two `Csv` fields hold the lines last written to `usuarios.csv` and
      `reservas.csv`. */
  datatype State = State(
    usuarios: seq<Usuario>,
    reservas: seq<Reserva>,
    usuarioActual: Option<nat>,
    usuariosCsv: seq<string>,
    reservasCsv: seq<string>)

  /** The authenticated user, if any, is one of the listed users. */
  predicate WellFormed(s: State) {
    s.usuarioActual.Some? ==> s.usuarioActual.value < |s.usuarios|
  }

  /** The user file holds the rows of the user list. */
  predicate UsuariosPersisted(s: State) {
    s.usuariosCsv == GuardarUsuarios(s.usuarios)
  }

  /** Memory and disk agree: each file holds the rows of its list, the dates
      of the reservation file rendered by `dateToString` (`Date.toString()`
      in the program as written). */
  predicate Persisted(s: State, dateToString: DateTime -> string) {
    UsuariosPersisted(s) && s.reservasCsv == GuardarReservas(s.reservas, dateToString)
  }

  /** The index of the first element satisfying `p`: `stream().filter(p).findFirst()`. */
  function FindFirst<T>(xs: seq<T>, p: T -> bool): (r: Option<nat>)
    ensures r.Some? ==> r.value < |xs| && p(xs[r.value])
    ensures r.Some? ==> forall k :: 0 <= k < r.value ==> !p(xs[k])
    ensures r.None? ==> forall k :: 0 <= k < |xs| ==> !p(xs[k])
  {
    if |xs| == 0 then None
    else if p(xs[0]) then Some(0)
    else
      match FindFirst(xs[1..], p)
      case None => None
      case Some(j) => Some(j + 1)
  }

  predicate UsernameTaken(us: seq<Usuario>, username: string) {
    exists k :: 0 <= k < |us| && us[k].username == username
  }

  // ---------------------------------------------------------------------
  // registroUsuario

  /** Which of the three branches of `registroUsuario` was taken. */
  datatype Registro = Registrado | UsuarioExistente | TipoInvalido

  predicate TipoValido(tipo: string) {
    EqualsIgnoreCase(tipo, "base") || EqualsIgnoreCase(tipo, "premium")
  }

  /** `registroUsuario`: a taken name is refused first, then a tier that is
      neither "base" nor "premium" in any letter case; both leave the state as
      it was. Otherwise the new user is appended and the user file rewritten. */
  function RegistroUsuario(s: State, username: string, password: string, tipo: string): (res: (State, Registro))
    ensures res.1 == UsuarioExistente <==> UsernameTaken(s.usuarios, username)
    ensures res.1 == TipoInvalido <==> !UsernameTaken(s.usuarios, username) && !TipoValido(tipo)
    ensures res.1 != Registrado ==> res.0 == s
    ensures res.1 == Registrado ==>
              && res.0.usuarios == s.usuarios + [Usuario(username, password, EqualsIgnoreCase(tipo, "premium"))]
              && res.0.usuariosCsv == GuardarUsuarios(res.0.usuarios)
              && res.0.reservas == s.reservas && res.0.reservasCsv == s.reservasCsv
              && res.0.usuarioActual == s.usuarioActual
    ensures UsernamesUnique(s.usuarios) ==> UsernamesUnique(res.0.usuarios)
    ensures WellFormed(s) ==> WellFormed(res.0)
    ensures UsuariosPersisted(s) ==> UsuariosPersisted(res.0)
  {
    if FindFirst(s.usuarios, (u: Usuario) => u.username == username).Some? then
      (s, UsuarioExistente)
    else if !EqualsIgnoreCase(tipo, "base") && !EqualsIgnoreCase(tipo, "premium") then
      (s, TipoInvalido)
    else
      var usuarios := s.usuarios + [Usuario(username, password, EqualsIgnoreCase(tipo, "premium"))];
      (s.(usuarios := usuarios, usuariosCsv := GuardarUsuarios(usuarios)), Registrado)
  }

  /** The tier stored by a successful registration is premium exactly when
      the tier text is "premium" in some letter case. */
  lemma RegistroTipo(s: State, username: string, password: string)
    requires !UsernameTaken(s.usuarios, username)
    ensures RegistroUsuario(s, username, password, "premium").1 == Registrado
    ensures RegistroUsuario(s, username, password, "PREMIUM").0.usuarios == s.usuarios + [Usuario(username, password, true)]
    ensures RegistroUsuario(s, username, password, "base").1 == Registrado
    ensures RegistroUsuario(s, username, password, "Base").0.usuarios == s.usuarios + [Usuario(username, password, false)]
    ensures RegistroUsuario(s, username, password, "gold").1 == TipoInvalido
  {
    assert EqualsIgnoreCase("premium", "premium");
    assert EqualsIgnoreCase("PREMIUM", "premium");
    assert EqualsIgnoreCase("base", "base");
    assert EqualsIgnoreCase("Base", "base");
    assert !EqualsIgnoreCase("gold", "base") by {
      assert ToLowerAscii("gold"[0]) != ToLowerAscii("base"[0]);
    }
  }

  // ---------------------------------------------------------------------
  // login

  /** The first listed user whose name and password both match exactly. */
  function Autenticar(us: seq<Usuario>, username: string, password: string): (r: Option<nat>)
    ensures r.Some? ==> r.value < |us| && Usuarios.Login(us[r.value], username, password)
    ensures r.Some? ==> forall k :: 0 <= k < r.value ==> !Usuarios.Login(us[k], username, password)
    ensures r.None? ==> forall k :: 0 <= k < |us| ==> !Usuarios.Login(us[k], username, password)
  {
    FindFirst(us, (u: Usuario) => Usuarios.Login(u, username, password))
  }

  /** `login`: binds the first user whose credentials match; when none does,
      the previous binding (or its absence) is kept. Nothing else changes. */
  function Login(s: State, username: string, password: string): (t: State)
    requires WellFormed(s)
    ensures WellFormed(t)
    ensures t == s.(usuarioActual := t.usuarioActual)
    ensures (exists k :: 0 <= k < |s.usuarios| && Usuarios.Login(s.usuarios[k], username, password)) ==>
              && t.usuarioActual.Some?
              && Usuarios.Login(s.usuarios[t.usuarioActual.value], username, password)
              && forall k :: 0 <= k < t.usuarioActual.value ==> !Usuarios.Login(s.usuarios[k], username, password)
    ensures (forall k :: 0 <= k < |s.usuarios| ==> !Usuarios.Login(s.usuarios[k], username, password)) ==> t == s
  {
    match Autenticar(s.usuarios, username, password)
    case Some(i) => s.(usuarioActual := Some(i))
    case None => s
  }

  /** A user appended under a name nobody else has is the first match for
      its own credentials. */
  lemma AutenticarNuevo(us: seq<Usuario>, u: Usuario)
    requires forall k :: 0 <= k < |us| ==> us[k].username != u.username
    ensures Autenticar(us + [u], u.username, u.password) == Some(|us|)
  {
    var vs := us + [u];
    assert vs[|us|] == u;
    assert forall k :: 0 <= k < |us| ==> vs[k] == us[k];
  }

  /** A user who has just registered can log in with the chosen password, and
      is then the authenticated user. */
  lemma LoginTrasRegistro(s: State, username: string, password: string, tipo: string)
    requires WellFormed(s)
    requires !UsernameTaken(s.usuarios, username) && TipoValido(tipo)
    ensures RegistroUsuario(s, username, password, tipo).1 == Registrado
    ensures Login(RegistroUsuario(s, username, password, tipo).0, username, password).usuarioActual
            == Some(|s.usuarios|)
  {
    var u := Usuario(username, password, EqualsIgnoreCase(tipo, "premium"));
    AutenticarNuevo(s.usuarios, u);
  }

  // ---------------------------------------------------------------------
  // cambiarPassword

  /** `cambiarPassword`: with nobody authenticated nothing happens. Otherwise
      the authenticated user's password is set, then so is that of the first
      listed user with the same name (the same user when names are unique),
      and the user file is rewritten. */
  function CambiarPassword(s: State, nuevaPassword: string): (t: State)
    requires WellFormed(s)
    ensures WellFormed(t)
    ensures s.usuarioActual.None? ==> t == s
    ensures t.usuarioActual == s.usuarioActual && t.reservas == s.reservas && t.reservasCsv == s.reservasCsv
    ensures |t.usuarios| == |s.usuarios|
    ensures s.usuarioActual.Some? ==>
              var i := s.usuarioActual.value;
              && t.usuarios[i] == SetPassword(s.usuarios[i], nuevaPassword)
              && t.usuariosCsv == GuardarUsuarios(t.usuarios)
              && forall k :: 0 <= k < |s.usuarios| ==>
                   || t.usuarios[k] == s.usuarios[k]
                   || (t.usuarios[k] == SetPassword(s.usuarios[k], nuevaPassword)
                       && s.usuarios[k].username == s.usuarios[i].username)
    ensures s.usuarioActual.Some? && UsernamesUnique(s.usuarios) ==>
              t.usuarios == s.usuarios[s.usuarioActual.value := SetPassword(s.usuarios[s.usuarioActual.value], nuevaPassword)]
    ensures UsernamesUnique(s.usuarios) ==> UsernamesUnique(t.usuarios)
    ensures UsuariosPersisted(s) ==> UsuariosPersisted(t)
  {
    match s.usuarioActual
    case None => s
    case Some(i) =>
      var us := s.usuarios[i := SetPassword(s.usuarios[i], nuevaPassword)];
      var name := us[i].username;
      var us' := match FindFirst(us, (u: Usuario) => u.username == name)
                 case Some(j) => us[j := SetPassword(us[j], nuevaPassword)]
                 case None => us;
      s.(usuarios := us', usuariosCsv := GuardarUsuarios(us'))
  }

  /** After a password change the authenticated user logs in with the new
      password, and the old one (if different) matches nobody. */
  lemma LoginTrasCambiarPassword(s: State, nuevaPassword: string)
    requires WellFormed(s) && UsernamesUnique(s.usuarios) && s.usuarioActual.Some?
    ensures
      var i := s.usuarioActual.value;
      var u := s.usuarios[i];
      var t := CambiarPassword(s, nuevaPassword);
      && Autenticar(t.usuarios, u.username, nuevaPassword) == Some(i)
      && (u.password != nuevaPassword ==> Autenticar(t.usuarios, u.username, u.password) == None)
  {
    var i := s.usuarioActual.value;
    var u := s.usuarios[i];
    var t := CambiarPassword(s, nuevaPassword);
    assert t.usuarios == s.usuarios[i := SetPassword(u, nuevaPassword)];
    var r := Autenticar(t.usuarios, u.username, nuevaPassword);
    assert Usuarios.Login(t.usuarios[i], u.username, nuevaPassword);
  }

  // ---------------------------------------------------------------------
  // cambiarTipoUsuario / actualizarUsuario

  /** `cambiarTipoUsuario`: with nobody authenticated nothing happens.
      Otherwise the authenticated user's tier flips (through the shared
      object, so the list sees it), and `actualizarUsuario` rewrites the user
      file from its own rows, replacing those with the same name. When a row
      of the file cannot be decoded the file is left as it was. */
  function CambiarTipoUsuario(s: State): (t: State)
    requires WellFormed(s)
    ensures WellFormed(t)
    ensures s.usuarioActual.None? ==> t == s
    ensures t.usuarioActual == s.usuarioActual && t.reservas == s.reservas && t.reservasCsv == s.reservasCsv
    ensures |t.usuarios| == |s.usuarios|
    ensures s.usuarioActual.Some? ==>
              var i := s.usuarioActual.value;
              && t.usuarios[i].isPremium == !s.usuarios[i].isPremium
              && t.usuarios[i].username == s.usuarios[i].username
              && t.usuarios[i].password == s.usuarios[i].password
              && forall k :: 0 <= k < |s.usuarios| && k != i ==> t.usuarios[k] == s.usuarios[k]
    ensures UsernamesUnique(s.usuarios) ==> UsernamesUnique(t.usuarios)
    ensures s.usuarioActual.Some? ==>
              var a := ActualizarUsuarioArchivo(s.usuariosCsv, t.usuarios[s.usuarioActual.value]);
              t.usuariosCsv == (if a.Some? then a.value else s.usuariosCsv)
  {
    match s.usuarioActual
    case None => s
    case Some(i) =>
      var toggled := SetPremium(s.usuarios[i], !s.usuarios[i].isPremium);
      var csv := match ActualizarUsuarioArchivo(s.usuariosCsv, toggled)
                 case Some(lines) => lines
                 case None => s.usuariosCsv;
      s.(usuarios := s.usuarios[i := toggled], usuariosCsv := csv)
  }

  /** With unique, comma-free names and passwords, the file rewrite of
      `actualizarUsuario` leaves the user file agreeing with memory. */
  lemma CambiarTipoUsuarioPersisted(s: State)
    requires WellFormed(s) && UsuariosPersisted(s)
    requires UsernamesUnique(s.usuarios) && AllClean(s.usuarios)
    ensures UsuariosPersisted(CambiarTipoUsuario(s))
  {
    if s.usuarioActual.Some? {
      var i := s.usuarioActual.value;
      var toggled := SetPremium(s.usuarios[i], !s.usuarios[i].isPremium);
      ActualizarUsuarioArchivoGuardado(s.usuarios, toggled);
      ReplaceByUsernameUnique(s.usuarios, i, toggled);
    }
  }

  /** Changing the tier twice restores the user list; with memory and disk in
      agreement (unique, comma-free names and passwords) it restores the whole
      state. */
  lemma CambiarTipoUsuarioDosVeces(s: State)
    requires WellFormed(s)
    ensures CambiarTipoUsuario(CambiarTipoUsuario(s)).usuarios == s.usuarios
    ensures UsuariosPersisted(s) && UsernamesUnique(s.usuarios) && AllClean(s.usuarios) ==>
              CambiarTipoUsuario(CambiarTipoUsuario(s)) == s
  {
    var t := CambiarTipoUsuario(s);
    var t2 := CambiarTipoUsuario(t);
    if s.usuarioActual.Some? {
      var i := s.usuarioActual.value;
      assert t2.usuarios[i] == s.usuarios[i];
      assert t2.usuarios == s.usuarios;
      if UsuariosPersisted(s) && UsernamesUnique(s.usuarios) && AllClean(s.usuarios) {
        CambiarTipoUsuarioPersisted(s);
        assert AllClean(t.usuarios) by {
          forall k | 0 <= k < |t.usuarios|
            ensures CleanUsuario(t.usuarios[k])
          {
            assert k != i ==> t.usuarios[k] == s.usuarios[k];
          }
        }
        CambiarTipoUsuarioPersisted(t);
      }
    }
  }

  // ---------------------------------------------------------------------
  // reservacion / guardarReservacion

  /** `reservacion`: appends one reservation built from the arguments and
      rewrites the reservation file, each date written as `dateToString`
      renders it. It checks neither the session nor that the name belongs to
      a user, so it can never be refused. */
  function Reservacion(s: State, fechaVuelo: string, tipoVuelo: bool, cantidadBoletos: int32,
                       aerolinea: string, username: string, dateToString: DateTime -> string): (t: State)
    ensures t.reservas == s.reservas + [NewReserva(fechaVuelo, tipoVuelo, cantidadBoletos, aerolinea, username)]
    ensures t.reservasCsv == GuardarReservas(t.reservas, dateToString)
    ensures t.usuarios == s.usuarios && t.usuarioActual == s.usuarioActual && t.usuariosCsv == s.usuariosCsv
    ensures WellFormed(s) ==> WellFormed(t)
    ensures UsuariosPersisted(s) ==> Persisted(t, dateToString)
  {
    var reservas := s.reservas + [NewReserva(fechaVuelo, tipoVuelo, cantidadBoletos, aerolinea, username)];
    s.(reservas := reservas, reservasCsv := GuardarReservas(reservas, dateToString))
  }

  /** With the date written in the reader's pattern, the reservation file left
      by a booking loads back as the reservation list, when every booking's
      name and airline are comma-free and the airline is not empty. */
  lemma RecargarTrasReservacion(s: State, fechaVuelo: string, tipoVuelo: bool, cantidadBoletos: int32,
                                aerolinea: string, username: string)
    requires forall k :: 0 <= k < |s.reservas| ==> CleanReserva(s.reservas[k]) && Unconfirmed(s.reservas[k])
    requires NoComma(username) && NoComma(aerolinea) && aerolinea != ""
    ensures var t := Reservacion(s, fechaVuelo, tipoVuelo, cantidadBoletos, aerolinea, username, FormatFecha);
            CargarReservas(t.reservasCsv) == Some(t.reservas)
  {
    var rs := s.reservas + [NewReserva(fechaVuelo, tipoVuelo, cantidadBoletos, aerolinea, username)];
    assert forall k :: 0 <= k < |rs| ==> CleanReserva(rs[k]) && Unconfirmed(rs[k]);
    CargarGuardarReservas(rs);
  }

  /** Written with a renderer like `Date.toString()`, whose text starts with
      a letter, the reservation file left by a booking loads back with every
      date lost. */
  lemma RecargarTrasReservacionEscrita(s: State, fechaVuelo: string, tipoVuelo: bool, cantidadBoletos: int32,
                                       aerolinea: string, username: string, dateToString: DateTime -> string)
    requires forall k :: 0 <= k < |s.reservas| ==> CleanReserva(s.reservas[k])
    requires NoComma(username) && NoComma(aerolinea) && aerolinea != ""
    requires forall d :: SinNumeroInicial(dateToString(d)) && NoComma(dateToString(d))
    ensures var t := Reservacion(s, fechaVuelo, tipoVuelo, cantidadBoletos, aerolinea, username, dateToString);
            && CargarReservas(t.reservasCsv).Some?
            && forall k :: 0 <= k < |t.reservas| ==> CargarReservas(t.reservasCsv).value[k].fechaVuelo == None
  {
    var rs := s.reservas + [NewReserva(fechaVuelo, tipoVuelo, cantidadBoletos, aerolinea, username)];
    assert forall k :: 0 <= k < |rs| ==> CleanReserva(rs[k]);
    CargarGuardarReservasEscrita(rs, dateToString);
  }

  /** `guardarReservacion`: rewrites the reservation file from memory; once
      memory and disk agree it changes nothing. */
  function GuardarReservacion(s: State, dateToString: DateTime -> string): (t: State)
    ensures t.reservasCsv == GuardarReservas(s.reservas, dateToString)
    ensures t.usuarios == s.usuarios && t.reservas == s.reservas
    ensures t.usuarioActual == s.usuarioActual && t.usuariosCsv == s.usuariosCsv
    ensures Persisted(s, dateToString) ==> t == s
  {
    s.(reservasCsv := GuardarReservas(s.reservas, dateToString))
  }

  // ---------------------------------------------------------------------
  // itinerario / generarItinerario

  /** The reservations booked under `username`, in list order. */
  function Filtrar(rs: seq<Reserva>, username: string): (fs: seq<Reserva>)
    ensures |fs| <= |rs|
    ensures forall r {:trigger multiset(fs)[r]} :: multiset(fs)[r] == if r.username == username then multiset(rs)[r] else 0
    ensures forall r :: r in fs <==> r in rs && r.username == username
    ensures forall k :: 0 <= k < |fs| ==> fs[k].username == username
    ensures (forall k :: 0 <= k < |rs| ==> rs[k].username != username) ==> fs == []
    ensures (forall k :: 0 <= k < |rs| ==> rs[k].username == username) ==> fs == rs
  {
    if |rs| == 0 then []
    else
      var rest := Filtrar(rs[1..], username);
      assert rs == [rs[0]] + rs[1..];
      assert multiset(rs) == multiset([rs[0]]) + multiset(rs[1..]);
      if rs[0].username == username then [rs[0]] + rest else rest
  }

  /** Filtering after an append is filtering before it, plus the new
      reservation when it carries the name: list order is kept. */
  lemma {:induction false} FiltrarAppend(rs: seq<Reserva>, r: Reserva, username: string)
    ensures Filtrar(rs + [r], username) == Filtrar(rs, username) + (if r.username == username then [r] else [])
  {
    if |rs| > 0 {
      assert (rs + [r])[1..] == rs[1..] + [r];
      FiltrarAppend(rs[1..], r, username);
    } else {
      assert rs + [r] == [r];
    }
  }

  /** Each reservation rendered by `show` (its `toString`) on a line of its own. */
  function Lineas(rs: seq<Reserva>, show: Reserva -> string): string {
    if |rs| == 0 then "" else show(rs[0]) + "\n" + Lineas(rs[1..], show)
  }

  lemma {:induction false} LineasAppend(rs: seq<Reserva>, r: Reserva, show: Reserva -> string)
    ensures Lineas(rs + [r], show) == Lineas(rs, show) + show(r) + "\n"
  {
    if |rs| > 0 {
      assert (rs + [r])[1..] == rs[1..] + [r];
      LineasAppend(rs[1..], r, show);
    } else {
      assert rs + [r] == [r];
    }
  }

  const SinUsuario := "No hay un usuario autenticado."

  function Encabezado(username: string): string {
    "Itinerario para " + username + ":\n"
  }

  /** `generarItinerario`: a header naming the user, then that user's
      reservations, one per line, in list order; with none, the header alone. */
  function GenerarItinerario(rs: seq<Reserva>, usuario: Usuario, show: Reserva -> string): (text: string)
    ensures (forall k :: 0 <= k < |rs| ==> rs[k].username != usuario.username) ==>
              text == Encabezado(usuario.username)
  {
    Encabezado(usuario.username) + Lineas(Filtrar(rs, usuario.username), show)
  }

  /** `itinerario`: the fixed message when nobody is authenticated, otherwise
      the authenticated user's itinerary. */
  function Itinerario(s: State, show: Reserva -> string): (text: string)
    requires WellFormed(s)
    ensures s.usuarioActual.None? ==> text == SinUsuario
    ensures s.usuarioActual.Some? ==>
              var name := s.usuarios[s.usuarioActual.value].username;
              text == Encabezado(name) + Lineas(Filtrar(s.reservas, name), show)
  {
    match s.usuarioActual
    case None => SinUsuario
    case Some(i) => GenerarItinerario(s.reservas, s.usuarios[i], show)
  }

  /** A user with no reservations gets the header alone. */
  lemma ItinerarioVacio(s: State, show: Reserva -> string)
    requires WellFormed(s) && s.usuarioActual.Some?
    requires forall k :: 0 <= k < |s.reservas| ==>
               s.reservas[k].username != s.usuarios[s.usuarioActual.value].username
    ensures Itinerario(s, show) == Encabezado(s.usuarios[s.usuarioActual.value].username)
  {
  }

  lemma AppendAssoc<T>(a: seq<T>, b: seq<T>, c: seq<T>)
    ensures a + (b + c) == (a + b) + c
  {
  }

  /** Appending a reservation adds its line to the end of a user's itinerary
      when it carries the user's name, and nothing otherwise. */
  lemma GenerarItinerarioAppend(rs: seq<Reserva>, r: Reserva, u: Usuario, show: Reserva -> string)
    ensures r.username == u.username ==>
              GenerarItinerario(rs + [r], u, show) == GenerarItinerario(rs, u, show) + show(r) + "\n"
    ensures r.username != u.username ==>
              GenerarItinerario(rs + [r], u, show) == GenerarItinerario(rs, u, show)
  {
    var header, before := Encabezado(u.username), Filtrar(rs, u.username);
    FiltrarAppend(rs, r, u.username);
    if r.username == u.username {
      LineasAppend(before, r, show);
      AppendAssoc(header, Lineas(before, show) + show(r), "\n");
      AppendAssoc(header, Lineas(before, show), show(r));
    } else {
      assert Filtrar(rs + [r], u.username) == before;
    }
  }

  /** A booking under the authenticated user's name adds exactly its own line
      at the end of the itinerary; a booking under another name, or with
      nobody authenticated, leaves the itinerary as it was. */
  lemma ItinerarioTrasReservacion(s: State, show: Reserva -> string, fechaVuelo: string, tipoVuelo: bool,
                                  cantidadBoletos: int32, aerolinea: string, username: string,
                                  dateToString: DateTime -> string)
    requires WellFormed(s)
    ensures
      var t := Reservacion(s, fechaVuelo, tipoVuelo, cantidadBoletos, aerolinea, username, dateToString);
      var r := NewReserva(fechaVuelo, tipoVuelo, cantidadBoletos, aerolinea, username);
      Itinerario(t, show) ==
        if s.usuarioActual.Some? && s.usuarios[s.usuarioActual.value].username == username
        then Itinerario(s, show) + show(r) + "\n"
        else Itinerario(s, show)
  {
    var r := NewReserva(fechaVuelo, tipoVuelo, cantidadBoletos, aerolinea, username);
    if s.usuarioActual.Some? {
      GenerarItinerarioAppend(s.reservas, r, s.usuarios[s.usuarioActual.value], show);
    }
  }
}
