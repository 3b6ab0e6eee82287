# Kayak flight booking: a Dafny model

Kayak is a small console application for booking flights. Its controller,
`Kayak`, keeps a list of users (`Usuario`: name, plain-text password,
base/premium tier), a list of bookings (`Reserva`: flight date, premium-flight
flag, ticket count, airline, the booking user's name and five confirmation
fields) and the currently authenticated user. Every change is written back to
two comma-separated files, `usuarios.csv` and `reservas.csv`.

This project models that controller as pure functions over an immutable
`Kayak.State`. The state holds both lists, the authenticated user (as an index
into the user list) and the lines last written to each file. With the files
in the state, "memory and disk agree" can be stated (`Kayak.Persisted`).
Registering, changing a password, booking and saving keep it unconditionally.
Changing the tier keeps it only when user names are unique and no name or
password holds a comma (`Kayak.CambiarTipoUsuarioPersisted`). Registration
accepts a name with a comma, and the row of such a user reads back with its
columns shifted, so the `actualizarUsuario` rewrite can then leave the user
file out of step with memory.

| definition | source | what it captures |
|---|---|---|
| `Kayak.State` | Kayak.java:13-17 | the two lists, the authenticated user as an index into the user list, and the lines of `usuarios.csv` and `reservas.csv` |
| `Kayak.WellFormed` | Kayak.java:15, 63 | the authenticated user, when there is one, is one of the listed users |
| `Kayak.UsuariosPersisted` | Kayak.java:204-213 | `usuarios.csv` holds the rows `guardarUsuarios` writes for the user list |
| `Kayak.Persisted` | Kayak.java:204-213, 317-327 | both files hold the rows their savers write for the two lists, with each date rendered by a given `dateToString` |

| file | module | what it holds |
|---|---|---|
| `wrappers.dfy` | `Wrappers` | `Option` (Java's `null` and thrown exceptions), `MapAll` (a read loop that one bad line aborts), `KeepSome` (a read loop that skips bad lines) |
| `text.dfy` | `Text` | the `java.lang` pieces used: 32-bit `int`, `Integer.parseInt`/`toString`, `Boolean.parseBoolean`/`toString`, ASCII `equalsIgnoreCase`, `String.split(",")` |
| `usuarios.dfy` | `Usuarios` | the `Usuario` record, its setters, `login`, `logout`, and replacing users by name |
| `reservas.dfy` | `Reservas` | the `dd/MM/yyyy HH:mm` date parse and format, the `Reserva` record, its constructor, setters and empty persistence methods |
| `csv.dfy` | `Csv` | row encoding and decoding for both files, the loaders, the file rewrite of `actualizarUsuario` |
| `kayak.dfy` | `Kayak` | the controller state and its operations: register, log in, change password, change tier, book, save, itinerary |

Behaviour worth knowing:

- `registroUsuario` checks for a taken name before checking the tier.
- A booking's ticket count is never validated.
- A booking's user name is not checked against the user list or the session.
- There is no logout operation on the controller.
- The confirmation fields are not written to the file.

## Model

| member | source | states |
|---|---|---|
| `Wrappers.MapAll` | Kayak.java:302-306 | a line-by-line read succeeds exactly when every line decodes; it then yields one record per line, in order, each the decoding of its line |
| `Wrappers.KeepSome` | Kayak.java:39-45 | a read loop that skips bad lines keeps at most one record per line; each kept record is the reading of some line, every readable line contributes its record, and when all lines are readable the records are their readings one for one (file order and multiplicity in general: `Wrappers.KeepSomeAppend`) |
| `Wrappers.KeepSomeAppend` | Kayak.java:39-45 | reading one more line adds its record at the end when it is readable and nothing otherwise, so records are kept once each, in line order |
| `Text.NatToString` | Kayak.java:321 | the decimal text of a count is non-empty, all digits, has a leading zero only when it is "0", and denotes the count |
| `Text.ParseInt` | Kayak.java:304 | `Integer.parseInt` succeeds exactly on an optional sign followed by at least one digit whose value fits in 32 bits, and then returns that value |
| `Text.ParseIntToString` | Kayak.java:304 | any `int` written by string concatenation parses back to the same `int` |
| `Text.ParseBooleanToString` | Kayak.java:304 | `Boolean.parseBoolean` of the written flag gives back the flag |
| `Text.Split` | Kayak.java:40 | `split(",")` gives a comma-free line back as its only field; otherwise the line is its comma-free fields joined by commas followed by nothing but commas, the last field is non-empty, and with no fields the line is all commas |
| `Text.SplitJoin` | Kayak.java:40 | splitting a comma-joined line of two or more comma-free fields whose last field is non-empty gives back exactly those fields |
| `Text.SplitJoinDropsEmptyLast` | Kayak.java:303 | when the last field is empty, `split(",")` returns fewer fields than were joined |
| `Usuarios.SetUsername` | Usuario.java:38-40 | the name becomes the argument; password and tier are kept |
| `Usuarios.SetPassword` | Usuario.java:56-58 | the password becomes the argument; name and tier are kept |
| `Usuarios.SetPremium` | Usuario.java:74-76 | the tier becomes the argument; name and password are kept |
| `Usuarios.Login` | Usuario.java:85-87 | `login` succeeds exactly when the user is the record with the given name and password, letter case included, whatever its tier |
| `Usuarios.LoginAfterSetPassword` | Usuario.java:85-87 | after `setPassword(p)`, `login` accepts the user's name with `p` and rejects it with any other password |
| `Usuarios.Logout` | Usuario.java:93-97 | logging out changes no field of the user |
| `Usuarios.ReplaceByUsername` | Kayak.java:179-182 | every user whose name equals the updated user's is replaced by it; all others keep their place and value |
| `Usuarios.ReplaceByUsernameUnique` | Kayak.java:179-181 | with unique names, replacing by name is a point update at the one index that carries the name |
| `Reservas.ParseFecha` | Reserva.java:238-245 | text that parses as a date is non-empty and starts with a digit |
| `Reservas.ParseFormatFecha` | Reserva.java:240-241 | a date formatted with `dd/MM/yyyy HH:mm` parses back to the same date |
| `Reservas.ParseFechaLetra` | Reserva.java:238-245 | text that is empty, or starts with a letter but not with "NaN" (such as "null" or the weekday name of `Date.toString()`), gives the `null` date |
| `Reservas.NewReserva` | Reserva.java:29-35 | the date is the parse of the date text (`null` on failure, the booking still being created); the other four arguments are stored verbatim; no confirmation field is set |
| `Reservas.NewReservaFecha` | Reserva.java:30 | constructing from a formatted date stores that date; constructing from unparseable text stores `null` |
| `Reservas.Set` | Reserva.java:51-197 | each setter writes its own field, which then reads back the new value, and leaves the other nine fields as they were |
| `Reservas.SetLaws` | Reserva.java:51-197 | setting a field to its current value is the identity, and setters of different fields commute |
| `Reservas.GuardarReserva` | Reserva.java:204-206 | the method body is empty: the reservation is left as it was |
| `Reservas.LeerReserva` | Reserva.java:211-213 | the method body is empty: the reservation is left as it was |
| `Reservas.CancelarReserva` | Reserva.java:234-236 | the method body is empty: cancelling alters nothing |
| `Csv.EncodeUsuario` | Kayak.java:207 | the row of a user whose name and password hold no comma splits into exactly name, password and "premium" or "base" |
| `Csv.DecodeUsuario` | Kayak.java:40-43 | a line yields a user exactly when it has at least three fields; name and password are the first two fields and hold no comma; the tier is premium exactly when the third field is "premium" in any letter case |
| `Csv.RecargarUsuario` | Kayak.java:40-43 | a user read from any line is written back as a row that reads as the same user |
| `Csv.GuardarUsuarios` | Kayak.java:204-213 | one row per user in list order; with comma-free names and passwords each row reads back as its user |
| `Csv.DecodeEncodeUsuario` | Kayak.java:40-43 | a user row written by `guardarUsuarios` reads back as the same user (name, password, tier) when name and password hold no comma |
| `Csv.DecodeUsuarioShort` | Kayak.java:41 | a line with fewer than three fields yields no user |
| `Csv.CargarUsuarios` | Kayak.java:33-52 | loading yields at most one user per line; every loaded user is the reading of some line and every readable line contributes its user; when every line is readable the users are the lines' readings, one for one and in order (file order in general: `Csv.CargarUsuariosAppend`) |
| `Csv.CargarUsuariosAppend` | Kayak.java:39-45 | one more line adds its user at the end of the loaded list when it has at least three fields and nothing otherwise: users load once each, in file order, readable or skipped line by line |
| `Csv.CargarGuardarUsuarios` | Kayak.java:204-213 | saving a list of users and loading the file back gives the same list |
| `Csv.ActualizarUsuarioArchivo` | Kayak.java:165-198 | the user file is rewritten exactly when every row decodes; it keeps its number of rows, and row k becomes the updated user's row when the user read from row k has the updated name, and the row of the user read from it otherwise |
| `Csv.ActualizarUsuarioArchivoGuardado` | Kayak.java:174-195 | rewriting a saved user file by name gives the saved file of the list updated by name in memory |
| `Csv.EncodeReservaConFecha` | Kayak.java:320-321 | with comma-free name and airline, a non-empty airline and a comma-free date text, the row splits into exactly name, date text, flight type, ticket count and airline |
| `Csv.EncodeReservaEscrita` | Kayak.java:320-321 | with comma-free name and airline, a non-empty airline and a comma-free date text (the rendered date, or "null"), the row splits into exactly name, date text, flight type, ticket count and airline |
| `Csv.DecodeReserva` | Kayak.java:303-304 | a line yields a booking exactly when it has at least five fields and the fourth is an `int`; the booking is the constructor's on columns 1, 2, 3, 4, 0: name from column 0, date parsed from column 1, flight type from column 2, count from column 3, airline from column 4, no confirmation field set |
| `Csv.GuardarReservas` | Kayak.java:317-327 | one row per booking in list order, each written with the given date renderer |
| `Csv.DecodeEncodeReservaConFecha` | Kayak.java:303-304 | whatever comma-free text the date column holds, a row reads back as the booking constructed from that text with the same name, flight type, ticket count and airline |
| `Csv.DecodeEncodeReservaSinAerolinea` | Kayak.java:303-304 | a booking with an empty airline writes a row that cannot be read back |
| `Csv.DecodeEncodeReserva` | Kayak.java:317-327 | with the date written in the reader's pattern, an unconfirmed booking survives the row round trip whole, date included |
| `Csv.EncodeReservaEscritaPierdeFecha` | Kayak.java:320-321 | with the date column written by `Date.toString()`, a reloaded booking has a `null` date, while name, flight type, count and airline survive |
| `Csv.FormatFechaEjemplo` | Reserva.java:240 | 1 December 2025, 10:30 formats as "01/12/2025 10:30" |
| `Csv.FechaPerdidaEjemplo` | Kayak.java:320 | a booking for 01/12/2025 10:30 whose date column reads "Mon Dec 01 10:30:00 CST 2025" reloads with a `null` date |
| `Csv.CargarReservas` | Kayak.java:297-311 | loading succeeds exactly when every row decodes, and then yields one booking per row, each the reading of its row |
| `Csv.CargarGuardarReservas` | Kayak.java:297-327 | saving unconfirmed, well-formed bookings with the date in the reader's pattern and loading the file back gives the same list |
| `Csv.CargarGuardarReservasEscrita` | Kayak.java:297-327 | saving well-formed bookings with a date renderer whose text starts with a letter, not with "NaN" (as `Date.toString()` does) and loading the file back gives every booking with its date `null` |
| `Kayak.FindFirst` | Kayak.java:59-61 | `filter(p).findFirst()` returns the least index whose element satisfies `p`, or nothing exactly when no element does |
| `Kayak.RegistroUsuario` | Kayak.java:77-107 | a taken name is refused, otherwise an invalid tier is refused (each exactly when its condition holds), and both leave the state unchanged; otherwise the user is appended with tier premium when the text is "premium" in any case, and the file is rewritten; name uniqueness, well-formedness and memory/disk agreement are kept |
| `Kayak.RegistroTipo` | Kayak.java:88-95 | "premium" and "PREMIUM" register a premium user, "base" and "Base" a base user, "gold" is refused |
| `Kayak.Autenticar` | Kayak.java:59-61 | the match found is the first user whose name and password both equal the input exactly; no match means no user has both |
| `Kayak.Login` | Kayak.java:57-68 | only the session binding changes; when some user matches, the first match becomes the current user; otherwise the state is unchanged |
| `Kayak.AutenticarNuevo` | Kayak.java:59-61 | a user appended under a name no listed user has is the first match for its own name and password |
| `Kayak.LoginTrasRegistro` | Kayak.java:59-63 | registering under a free name with a valid tier succeeds, and the new user then logs in with the chosen password and becomes the current user |
| `Kayak.CambiarPassword` | Kayak.java:114-139 | without a session nothing changes; otherwise the current user's password is set, only users carrying that name may change (a point update when names are unique), the file is rewritten, and uniqueness and agreement are kept |
| `Kayak.LoginTrasCambiarPassword` | Kayak.java:122-128 | with unique names, after the change the current user logs in with the new password, and the user's name with the old password (if different) matches nobody |
| `Kayak.CambiarTipoUsuario` | Kayak.java:145-158 | without a session nothing changes; otherwise the current user's tier flips, name and password kept, and no other user changes; the user file is rewritten by `Csv.ActualizarUsuarioArchivo` with the flipped user, or kept as it was when a row does not decode |
| `Kayak.CambiarTipoUsuarioPersisted` | Kayak.java:165-198 | with unique, comma-free names and passwords, the file rewrite leaves the user file agreeing with memory |
| `Kayak.CambiarTipoUsuarioDosVeces` | Kayak.java:153 | flipping the tier twice restores the user list, and the whole state when memory and disk agree |
| `Kayak.Reservacion` | Kayak.java:224-234 | the booking built by the constructor is appended at the end, the booking file is rewritten with the given date renderer, the users and session are untouched, and agreement is kept |
| `Kayak.RecargarTrasReservacion` | Kayak.java:224-234 | after a booking, the reservation file written with dates in the reader's pattern loads back as the booking list |
| `Kayak.RecargarTrasReservacionEscrita` | Kayak.java:224-234 | after a booking, the reservation file written with a renderer whose text starts with a letter other than "NaN" (as `Date.toString()` does) loads back with every date `null` |
| `Kayak.GuardarReservacion` | Kayak.java:250-253 | the booking file is rewritten from memory with the given date renderer; once memory and disk agree nothing changes |
| `Kayak.Filtrar` | Kayak.java:417-418 | the filtered list holds each booking under the name exactly as often as the list does and no other booking: all of them when all match, none when none match (list order: `Kayak.FiltrarAppend`) |
| `Kayak.FiltrarAppend` | Kayak.java:417-418 | filtering after an append is filtering before it plus the new booking when it carries the name |
| `Kayak.LineasAppend` | Kayak.java:419 | appending a booking appends its line after all earlier lines |
| `Kayak.GenerarItinerario` | Kayak.java:414-421 | a user none of whose bookings carry the name gets the header alone |
| `Kayak.Itinerario` | Kayak.java:241-244 | without a session the fixed message; otherwise a header naming the current user followed by one line per booking under that name, in list order |
| `Kayak.ItinerarioVacio` | Kayak.java:416-420 | a user with no bookings gets the header alone |
| `Kayak.GenerarItinerarioAppend` | Kayak.java:414-421 | a new booking under the user's name adds its line at the end of the itinerary; one under another name leaves it unchanged |
| `Kayak.ItinerarioTrasReservacion` | Kayak.java:224-244 | a booking under the current user's name adds exactly its own line at the end of the itinerary; any other booking, or booking without a session, leaves the itinerary as it was |

## Left out

- File I/O: `Files.exists`, readers, writers and newline framing are left out, and a file is its sequence of lines. `readLine` also ends a row at `'\n'` or `'\r'`, so the save/load round trips (`Csv.CargarGuardarUsuarios`, `Csv.CargarGuardarReservas`) hold for the program only when no name, password or airline holds a line break. The missing-file exception and caught `IOException`s are not modelled.
- Console output (`System.out.println`, `printStackTrace`) is left out; the outcome of `registroUsuario` is returned as a `Registro` value instead.
- The `Kayak` constructor and the loaders it calls, `cargarUsuarios(String)` (Kayak.java:336-368) and `cargarReservas(String)` (Kayak.java:376-412), are left out. They skip a header line and expect a different column layout from the one the controller writes, and `new Usuario(username, password)` does not exist. The loaders modelled are `cargarUsuarios()` and `cargarReservas()`, which read the layout that `guardarUsuarios` and `guardarReservas` write.
- `leerReservacion`, `guardarUsuario`, `leerUsuario` and `cargarDatos` only call the loaders and savers above (or the constructor's loaders). They do not compile as written, because checked exceptions are not handled, so they have no model of their own.
- `cambiarTipoUsuario` calls `getTipo`/`setTipo`, which `Usuario` does not have. It is modelled as the evident intent: flip `isPremium`.
- `cambiarTipoUsuario` does not catch the `IOException` of `actualizarUsuario`. The model keeps the old file when a row cannot be decoded.
- `parseFechaVuelo` (Reserva.java:220-228) passes a `Date` to `SimpleDateFormat.parse` and is never called, so it is left out.
- The interface `IReserva` declares `confirmacion`, which has no implementation, so it is left out.
- Reservas.ParseFecha: the `SimpleDateFormat` parse is modelled as digit runs with exact separators; text after the minutes is ignored. `SimpleDateFormat` also skips leading spaces and tabs before each numeric field and accepts a `-` sign on a number; the model rejects both, so text such as " 01/12/2025 10:30" or "-1/12/2025 10:30" that Java parses gives `None` here. Each number is read by `DecimalFormat`, which also reads the symbol "NaN" (as 0) and non-ASCII decimal digits; the model reads ASCII digits only, so "NaN/12/2025 10:30" and dates in other scripts' digits give `None` here. Lenient calendar roll-over (month 13, day 32, a negative day), time zones and the width rules for adjacent numeric fields are not modelled, so a date is its five parsed numbers.
- Reservas.ParseFechaLetra: states only that empty text and text starting with a letter, other than "NaN", fail to parse. Text starting with a space, tab, sign, "NaN" or a non-ASCII digit is not covered, because Java may parse it (see the line above).
- `Date.toString()` depends on the JVM's default time zone and locale. It is a parameter `dateToString` of `Csv.EncodeReservaEscrita`, `Csv.GuardarReservas`, `Kayak.Reservacion`, `Kayak.GuardarReservacion` and `Kayak.Persisted`. The lemmas about the as-written program constrain it only as much as they need: its text starts with a letter, does not start with "NaN" and contains no comma.
- Kayak.Reservacion: writes the reservation file with whatever date renderer it is given. The program as written is the instance `dateToString` = `Date.toString()`; the corrected program is the instance `Reservas.FormatFecha`. `Kayak.RecargarTrasReservacion` and `Kayak.RecargarTrasReservacionEscrita` state what each instance leaves on disk.
- Kayak.GuardarReservacion: parameterised by the date renderer in the same way as `Kayak.Reservacion`.
- `Reserva.toString()` (used by `generarItinerario`) is a parameter `show`. Its `NullPointerException` on a `null` date is not modelled.
- Text.EqualsIgnoreCase: folds ASCII letters only, where Java also folds other Unicode letters.
- Text.ParseInt: accepts ASCII digits only, where `Integer.parseInt` also accepts other Unicode decimal digits.
- `null` arguments are not modelled; every `String` argument is a `string`. The confirmation fields of `Reserva`, which start out `null`, are `Option`s.
- `cargarReservas()` appends to the in-memory list. A bad row throws an uncaught exception after the earlier rows were already appended. `Csv.CargarReservas` models the read as all-or-nothing and returns the list read, leaving the append to the caller.
- The ticket count is the source's `int`. No arithmetic is done on it, so wrap-around never arises; parsing rejects values outside the 32-bit range.

## Findings

| source | as written | input that shows it | evidently intended | confidence | as-written member | corrected member |
|---|---|---|---|---|---|---|
| Kayak.java:320 | `guardarReservas` writes the date column as `Date.toString()` (e.g. "Mon Dec 01 10:30:00 CST 2025"). The loader (Kayak.java:304 via Reserva.java:30) parses that column with `dd/MM/yyyy HH:mm`, which fails on the leading weekday, so every date is `null` after a save and reload | a booking made with the date text "01/12/2025 10:30", saved, then loaded again | write the date in the pattern the loader parses, so that saving and loading restores the booking | not executed | `Csv.EncodeReservaEscritaPierdeFecha` | `Csv.DecodeEncodeReserva` |

The row encoder `Csv.EncodeReservaEscrita` takes the date renderer as a parameter. As written, the renderer is `Date.toString()`. `Csv.FechaPerdidaEjemplo` works the example through that renderer, and `Csv.CargarGuardarReservasEscrita` shows that the whole file loses its dates. The corrected encoder, `Csv.EncodeReserva`, is the instance that writes the date with `Reservas.FormatFecha`. `Csv.CargarGuardarReservas` proves the whole-file round trip for it. `Kayak.Reservacion`, `Kayak.GuardarReservacion` and `Kayak.Persisted` take the renderer too. `Kayak.RecargarTrasReservacion` (corrected) and `Kayak.RecargarTrasReservacionEscrita` (as written) state the two outcomes at the controller level.
