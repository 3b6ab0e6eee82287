/** The comma-separated rows the controller writes to `usuarios.csv` and
    `reservas.csv`, one record per line, with no quoting of embedded commas.
    A file is modelled as its sequence of lines. */
module Csv {
  import opened Wrappers
  import opened Text
  import opened Usuarios
  import opened Reservas

  // ---------------------------------------------------------------------
  // User rows: username,password,premium|base

  function TierText(isPremium: bool): string {
    if isPremium then "premium" else "base"
  }

  /** The fields of a user that the row format cannot carry a comma in. */
  predicate CleanUsuario(u: Usuario) {
    NoComma(u.username) && NoComma(u.password)
  }

  /** The row `guardarUsuarios` writes for one user: when name and password
      hold no comma, it splits into exactly the three columns name, password
      and tier. */
  function EncodeUsuario(u: Usuario): (line: string)
    ensures CleanUsuario(u) ==> Split(line) == [u.username, u.password, TierText(u.isPremium)]
  {
    var fields := [u.username, u.password, TierText(u.isPremium)];
    if CleanUsuario(u) then
      SplitJoin(fields);
      Join(fields)
    else
      Join(fields)
  }

  /** One row read back: split on commas, at least three fields, the tier
      premium exactly when the third field is "premium" in any letter case;
      extra fields are ignored. A decoded user never holds a comma. */
  function DecodeUsuario(line: string): (r: Option<Usuario>)
    ensures r.Some? <==> |Split(line)| >= 3
    ensures r.Some? ==> CleanUsuario(r.value)
    ensures r.Some? ==> r.value.username == Split(line)[0] && r.value.password == Split(line)[1]
    ensures r.Some? ==> (r.value.isPremium <==> EqualsIgnoreCase(Split(line)[2], "premium"))
  {
    var fields := Split(line);
    if |fields| >= 3 then Some(Usuario(fields[0], fields[1], EqualsIgnoreCase(fields[2], "premium")))
    else None
  }

  predicate AllClean(us: seq<Usuario>) {
    forall k :: 0 <= k < |us| ==> CleanUsuario(us[k])
  }

  /** Writing a user row and reading it back gives the same user, name,
      password and tier, when neither name nor password holds a comma. */
  lemma DecodeEncodeUsuario(u: Usuario)
    requires CleanUsuario(u)
    ensures DecodeUsuario(EncodeUsuario(u)) == Some(u)
  {
    if u.isPremium {
      assert EqualsIgnoreCase("premium", "premium");
    }
  }

  /** A row with fewer than three fields is dropped. */
  lemma DecodeUsuarioShort(line: string)
    requires |Split(line)| < 3
    ensures DecodeUsuario(line) == None
  {
  }

  /** A user read from any row is written back as a row that reads as the
      same user: loading normalises a row once and for all. */
  lemma RecargarUsuario(line: string)
    requires DecodeUsuario(line).Some?
    ensures DecodeUsuario(EncodeUsuario(DecodeUsuario(line).value)) == DecodeUsuario(line)
  {
    DecodeEncodeUsuario(DecodeUsuario(line).value);
  }

  lemma DecodeEncodeUsuarios(us: seq<Usuario>)
    requires AllClean(us)
    ensures forall k :: 0 <= k < |us| ==> DecodeUsuario(EncodeUsuario(us[k])) == Some(us[k])
  {
    forall k | 0 <= k < |us|
      ensures DecodeUsuario(EncodeUsuario(us[k])) == Some(us[k])
    {
      DecodeEncodeUsuario(us[k]);
    }
  }

  /** `guardarUsuarios`: one row per user, in list order; when no name or
      password holds a comma, each row reads back as its user. */
  function GuardarUsuarios(us: seq<Usuario>): (lines: seq<string>)
    ensures |lines| == |us|
    ensures forall k :: 0 <= k < |us| ==> lines[k] == EncodeUsuario(us[k])
    ensures AllClean(us) ==> forall k :: 0 <= k < |us| ==> DecodeUsuario(lines[k]) == Some(us[k])
  {
    if AllClean(us) then
      DecodeEncodeUsuarios(us);
      seq(|us|, k requires 0 <= k < |us| => EncodeUsuario(us[k]))
    else
      seq(|us|, k requires 0 <= k < |us| => EncodeUsuario(us[k]))
  }

  /** `cargarUsuarios()`: every row is decoded and those with fewer than
      three fields are skipped. Each loaded user is the reading of some row,
      every readable row contributes its user, and when every row is readable
      the users are the rows' readings one for one. */
  function CargarUsuarios(lines: seq<string>): (us: seq<Usuario>)
    ensures |us| <= |lines|
    ensures forall j :: 0 <= j < |us| ==> exists k :: 0 <= k < |lines| && DecodeUsuario(lines[k]) == Some(us[j])
    ensures forall k :: 0 <= k < |lines| && DecodeUsuario(lines[k]).Some? ==> DecodeUsuario(lines[k]).value in us
    ensures (forall k :: 0 <= k < |lines| ==> DecodeUsuario(lines[k]).Some?) ==>
              |us| == |lines| && forall k :: 0 <= k < |lines| ==> DecodeUsuario(lines[k]) == Some(us[k])
  {
    KeepSome(lines, DecodeUsuario)
  }

  /** One more line in the file adds its user at the end of the loaded list
      when it is readable, and nothing otherwise: users load in file order. */
  lemma CargarUsuariosAppend(lines: seq<string>, line: string)
    ensures CargarUsuarios(lines + [line])
            == CargarUsuarios(lines) + (if DecodeUsuario(line).Some? then [DecodeUsuario(line).value] else [])
  {
    KeepSomeAppend(lines, line, DecodeUsuario);
  }

  /** Saving a list of users and loading the file back gives the same list. */
  lemma CargarGuardarUsuarios(us: seq<Usuario>)
    requires AllClean(us)
    ensures CargarUsuarios(GuardarUsuarios(us)) == us
  {
    var lines := GuardarUsuarios(us);
    var loaded := CargarUsuarios(lines);
    forall k | 0 <= k < |us|
      ensures loaded[k] == us[k]
    {
      assert DecodeUsuario(lines[k]) == Some(us[k]);
    }
  }

  /** `actualizarUsuario`, on the file: every row is decoded (a row with fewer
      than three fields raises an index exception, here `None`, and nothing is
      written), the users whose name matches `updated` are replaced by it, and
      every user is written back in the row format. */
  function ActualizarUsuarioArchivo(lines: seq<string>, updated: Usuario): (r: Option<seq<string>>)
    ensures r.Some? <==> forall k :: 0 <= k < |lines| ==> DecodeUsuario(lines[k]).Some?
    ensures r.Some? ==> |r.value| == |lines|
    ensures r.Some? ==> forall k :: 0 <= k < |lines| ==>
              var u := DecodeUsuario(lines[k]).value;
              r.value[k] == EncodeUsuario(if u.username == updated.username then updated else u)
  {
    var us :- MapAll(lines, DecodeUsuario);
    Some(GuardarUsuarios(ReplaceByUsername(us, updated)))
  }

  /** Updating the saved file of a list by name gives the saved file of the
      list updated by name in memory. */
  lemma ActualizarUsuarioArchivoGuardado(us: seq<Usuario>, updated: Usuario)
    requires AllClean(us)
    ensures ActualizarUsuarioArchivo(GuardarUsuarios(us), updated)
            == Some(GuardarUsuarios(ReplaceByUsername(us, updated)))
  {
    assert MapAll(GuardarUsuarios(us), DecodeUsuario).value == us;
  }

  // ---------------------------------------------------------------------
  // Reservation rows: username,fecha,tipo,cantidad,aerolinea

  /** The five columns of a reservation row: name, date text, class, count,
      airline. */
  function Columnas(r: Reserva, fecha: string): seq<string> {
    [r.username, fecha, BoolToString(r.tipoVuelo), IntToString(r.cantidadBoletos as int), r.aerolinea]
  }

  /** The row of a reservation whose date column holds the text `fecha`: when
      the text fields and the date text hold no comma and the airline is not
      empty, it splits into exactly its five columns. */
  function EncodeReservaConFecha(r: Reserva, fecha: string): (line: string)
    ensures CleanReserva(r) && NoComma(fecha) ==> Split(line) == Columnas(r, fecha)
  {
    if CleanReserva(r) && NoComma(fecha) then
      IntToStringNoComma(r.cantidadBoletos as int);
      SplitJoin(Columnas(r, fecha));
      Join(Columnas(r, fecha))
    else
      Join(Columnas(r, fecha))
  }

  /** The date column as string concatenation writes a possibly-null date:
      "null", or the date rendered by `dateToString`. */
  function FechaTexto(f: Option<DateTime>, dateToString: DateTime -> string): string {
    match f
    case None => "null"
    case Some(d) => dateToString(d)
  }

  /** The row `guardarReservas` writes: the date column is the date rendered
      by `dateToString` (`Date.toString()` as written), or "null". With clean
      fields and a comma-free rendering it splits into its five columns. */
  function EncodeReservaEscrita(r: Reserva, dateToString: DateTime -> string): (line: string)
    ensures CleanReserva(r) && NoComma(FechaTexto(r.fechaVuelo, dateToString)) ==>
              Split(line) == Columnas(r, FechaTexto(r.fechaVuelo, dateToString))
  {
    EncodeReservaConFecha(r, FechaTexto(r.fechaVuelo, dateToString))
  }

  /** The row written with the date in the same `dd/MM/yyyy HH:mm` pattern the
      reader parses. */
  function EncodeReserva(r: Reserva): string {
    EncodeReservaEscrita(r, FormatFecha)
  }

  /** One row read back by `cargarReservas()`: split on commas, then the
      constructor applied to columns 1, 2, 3, 4, 0. A row with fewer than five
      fields (index exception) or a non-integer count (`NumberFormatException`)
      gives `None`. */
  function DecodeReserva(line: string): (r: Option<Reserva>)
    ensures r.Some? <==> |Split(line)| >= 5 && ParseInt(Split(line)[3]).Some?
    ensures r.Some? ==> Unconfirmed(r.value)
    ensures r.Some? ==>
              && r.value.username == Split(line)[0]
              && r.value.fechaVuelo == ParseFecha(Split(line)[1])
              && r.value.tipoVuelo == ParseBoolean(Split(line)[2])
              && r.value.cantidadBoletos == ParseInt(Split(line)[3]).value
              && r.value.aerolinea == Split(line)[4]
  {
    var fields := Split(line);
    if |fields| < 5 then None
    else
      var cantidad :- ParseInt(fields[3]);
      Some(NewReserva(fields[1], ParseBoolean(fields[2]), cantidad, fields[4], fields[0]))
  }

  /** The text fields of a reservation the row format can carry: no comma in
      name or airline, and a non-empty airline (an empty last field is dropped
      by the split). */
  predicate CleanReserva(r: Reserva) {
    NoComma(r.username) && NoComma(r.aerolinea) && r.aerolinea != ""
  }

  lemma DigitsHaveNoComma(s: string)
    requires AllDigits(s)
    ensures NoComma(s)
  {
  }

  lemma IntToStringNoComma(n: int)
    ensures NoComma(IntToString(n))
  {
    if n < 0 {
      DigitsHaveNoComma(NatToString(-n));
    } else {
      DigitsHaveNoComma(NatToString(n));
    }
  }

  /** Whatever comma-free text the date column holds, the row reads back with
      the same name, ticket class, ticket count and airline, and with the date
      that the text parses to. */
  lemma DecodeEncodeReservaConFecha(r: Reserva, fecha: string)
    requires CleanReserva(r) && NoComma(fecha)
    ensures DecodeReserva(EncodeReservaConFecha(r, fecha))
            == Some(NewReserva(fecha, r.tipoVuelo, r.cantidadBoletos, r.aerolinea, r.username))
  {
    ParseIntToString(r.cantidadBoletos);
    ParseBooleanToString(r.tipoVuelo);
  }

  /** A reservation with an empty airline writes a row that cannot be read back. */
  lemma DecodeEncodeReservaSinAerolinea(r: Reserva, fecha: string)
    requires NoComma(r.username) && r.aerolinea == "" && NoComma(fecha)
    ensures DecodeReserva(EncodeReservaConFecha(r, fecha)) == None
  {
    IntToStringNoComma(r.cantidadBoletos as int);
    SplitJoinDropsEmptyLast(Columnas(r, fecha));
  }

  lemma FormatFechaNoComma(d: DateTime)
    ensures NoComma(FormatFecha(d))
  {
    DigitsHaveNoComma(Pad(d.day, 2));
    DigitsHaveNoComma(Pad(d.month, 2));
    DigitsHaveNoComma(Pad(d.year, 4));
    DigitsHaveNoComma(Pad(d.hour, 2));
    DigitsHaveNoComma(Pad(d.minute, 2));
  }

  /** With the date written in the reader's pattern, an unconfirmed
      reservation survives the row round trip whole, date included. */
  lemma DecodeEncodeReserva(r: Reserva)
    requires CleanReserva(r) && Unconfirmed(r)
    ensures DecodeReserva(EncodeReserva(r)) == Some(r)
  {
    var fecha := FechaTexto(r.fechaVuelo, FormatFecha);
    assert ParseFecha(fecha) == r.fechaVuelo && NoComma(fecha) by {
      if r.fechaVuelo.Some? {
        FormatFechaNoComma(r.fechaVuelo.value);
        ParseFormatFecha(r.fechaVuelo.value);
      } else {
        ParseFechaLetra("null");
      }
    }
    DecodeEncodeReservaConFecha(r, fecha);
  }

  /** As written, the date does not survive: `Date.toString()` begins with the
      weekday name (and a null date is written "null"), so the reader's
      `dd/MM/yyyy HH:mm` parse fails and every reloaded reservation has a null
      date, while the other fields come back intact. */
  lemma EncodeReservaEscritaPierdeFecha(r: Reserva, dateToString: DateTime -> string)
    requires CleanReserva(r)
    requires forall d :: SinNumeroInicial(dateToString(d)) && NoComma(dateToString(d))
    ensures DecodeReserva(EncodeReservaEscrita(r, dateToString)) == Some(SinFecha(r))
  {
    var fecha := FechaTexto(r.fechaVuelo, dateToString);
    ParseFechaLetra(fecha);
    DecodeEncodeReservaConFecha(r, fecha);
  }

  lemma PadEjemplo()
    ensures Pad(1, 2) == "01" && Pad(12, 2) == "12" && Pad(2025, 4) == "2025"
    ensures Pad(10, 2) == "10" && Pad(30, 2) == "30"
  {
    PadTwo(1);
    PadTwo(12);
    PadFour(2025);
    PadTwo(10);
    PadTwo(30);
  }

  lemma FormatFechaEjemplo()
    ensures FormatFecha(DateTime(1, 12, 2025, 10, 30)) == "01/12/2025 10:30"
  {
    PadEjemplo();
  }

  /** Any booking for 1 December 2025, 10:30: the reader's pattern writes it
      "01/12/2025 10:30", but saved with the text `Date.toString()` gives for
      it (here in a CST time zone) it reloads with a null date. */
  lemma FechaPerdidaEjemplo(r: Reserva)
    requires CleanReserva(r) && r.fechaVuelo == Some(DateTime(1, 12, 2025, 10, 30))
    ensures FormatFecha(r.fechaVuelo.value) == "01/12/2025 10:30"
    ensures DecodeReserva(EncodeReservaConFecha(r, "Mon Dec 01 10:30:00 CST 2025")).Some?
    ensures DecodeReserva(EncodeReservaConFecha(r, "Mon Dec 01 10:30:00 CST 2025")).value.fechaVuelo == None
  {
    FormatFechaEjemplo();
    var text := "Mon Dec 01 10:30:00 CST 2025";
    ParseFechaLetra(text);
    DecodeEncodeReservaConFecha(r, text);
  }

  /** `guardarReservas`: one row per reservation, in list order, the date
      rendered by `dateToString`. */
  function GuardarReservas(rs: seq<Reserva>, dateToString: DateTime -> string): (lines: seq<string>)
    ensures |lines| == |rs|
    ensures forall k :: 0 <= k < |rs| ==> lines[k] == EncodeReservaEscrita(rs[k], dateToString)
  {
    seq(|rs|, k requires 0 <= k < |rs| => EncodeReservaEscrita(rs[k], dateToString))
  }

  /** `cargarReservas()`: every row decoded in order; one bad row aborts the
      whole load with an uncaught exception, here `None`. */
  function CargarReservas(lines: seq<string>): (r: Option<seq<Reserva>>)
    ensures r.Some? <==> forall k :: 0 <= k < |lines| ==> DecodeReserva(lines[k]).Some?
    ensures r.Some? ==> |r.value| == |lines|
    ensures r.Some? ==> forall k :: 0 <= k < |lines| ==> DecodeReserva(lines[k]) == Some(r.value[k])
  {
    MapAll(lines, DecodeReserva)
  }

  /** Saving a list of unconfirmed reservations with the date in the reader's
      pattern and loading the file back gives the same list. */
  lemma CargarGuardarReservas(rs: seq<Reserva>)
    requires forall k :: 0 <= k < |rs| ==> CleanReserva(rs[k]) && Unconfirmed(rs[k])
    ensures CargarReservas(GuardarReservas(rs, FormatFecha)) == Some(rs)
  {
    var lines := GuardarReservas(rs, FormatFecha);
    forall k | 0 <= k < |rs|
      ensures DecodeReserva(lines[k]) == Some(rs[k])
    {
      DecodeEncodeReserva(rs[k]);
    }
    assert CargarReservas(lines).value == rs;
  }

  /** A reservation as it comes back when its date text does not parse: null
      date, and the fields the row does not carry at their defaults. */
  function SinFecha(r: Reserva): Reserva {
    r.(fechaVuelo := None, numeroTarjeta := None, cuotas := 0,
       claseVuelo := None, numeroAsiento := None, cantidadMaletas := 0)
  }

  /** As written, saving a list and loading the file back gives every
      reservation with its date lost. */
  lemma CargarGuardarReservasEscrita(rs: seq<Reserva>, dateToString: DateTime -> string)
    requires forall k :: 0 <= k < |rs| ==> CleanReserva(rs[k])
    requires forall d :: SinNumeroInicial(dateToString(d)) && NoComma(dateToString(d))
    ensures CargarReservas(GuardarReservas(rs, dateToString)).Some?
    ensures var loaded := CargarReservas(GuardarReservas(rs, dateToString)).value;
            |loaded| == |rs| && forall k :: 0 <= k < |rs| ==> loaded[k] == SinFecha(rs[k])
  {
    var lines := GuardarReservas(rs, dateToString);
    forall k | 0 <= k < |rs|
      ensures DecodeReserva(lines[k]) == Some(SinFecha(rs[k]))
    {
      EncodeReservaEscritaPierdeFecha(rs[k], dateToString);
    }
  }
}
