/** The `Reserva` record: five booking fields set by the constructor, five
    confirmation fields left unset until someone calls their setters, and the
    `dd/MM/yyyy HH:mm` flight-date text format. */
module Reservas {
  import opened Wrappers
  import opened Text

  /** A flight date as the pattern `dd/MM/yyyy HH:mm` reads it: the five
      numbers as written. */
  datatype DateTime = DateTime(day: nat, month: nat, year: nat, hour: nat, minute: nat)

  // ---------------------------------------------------------------------
  // Parsing and formatting the date text

  /** Length of the run of digits that starts `s`. */
  function DigitRun(s: string): (n: nat)
    ensures n <= |s| && AllDigits(s[..n])
    ensures n < |s| ==> !IsDigit(s[n])
  {
    if |s| == 0 || !IsDigit(s[0]) then 0
    else
      var m := DigitRun(s[1..]);
      assert s[..m + 1] == [s[0]] + s[1..][..m];
      m + 1
  }

  /** A numeric field: the longest run of digits at the front (at least one)
      and the text after it. */
  function Number(s: string): Option<(nat, string)> {
    var n := DigitRun(s);
    if n == 0 then None else Some((DigitsValue(s[..n]), s[n..]))
  }

  /** A literal separator character. */
  function Literal(s: string, c: char): Option<string> {
    if |s| > 0 && s[0] == c then Some(s[1..]) else None
  }

  /** A numeric field followed by its separator `sep`. */
  function NumberThen(s: string, sep: char): Option<(nat, string)> {
    var n :- Number(s);
    var rest :- Literal(n.1, sep);
    Some((n.0, rest))
  }

  /** `parseFecha`: reads `day/month/year hour:minute`; any text that does not
      have that shape gives `None`, the `null` date. */
  function ParseFecha(s: string): (r: Option<DateTime>)
    ensures r.Some? ==> |s| > 0 && IsDigit(s[0])
  {
    var day :- NumberThen(s, '/');
    var month :- NumberThen(day.1, '/');
    var year :- NumberThen(month.1, ' ');
    var hour :- NumberThen(year.1, ':');
    var minute :- Number(hour.1);
    Some(DateTime(day.0, month.0, year.0, hour.0, minute.0))
  }

  /** `n` in decimal, left-padded with zeros to at least `width` digits. */
  function Pad(n: nat, width: nat): (s: string)
    ensures |s| > 0 && AllDigits(s) && DigitsValue(s) == n
    decreases width
  {
    var digits := NatToString(n);
    if |digits| >= width then digits
    else
      var rest := Pad(n, width - 1);
      LeadingZero(rest);
      "0" + rest
  }

  /** The date in the pattern `dd/MM/yyyy HH:mm`, as `SimpleDateFormat.format` writes it. */
  function FormatFecha(d: DateTime): string {
    Pad(d.day, 2) + ("/" + (Pad(d.month, 2) + ("/" + (Pad(d.year, 4) + (" " + (Pad(d.hour, 2) + (":" + Pad(d.minute, 2))))))))
  }

  /** A number below 100 is written with exactly two digits, zero-padded. */
  lemma PadTwo(n: nat)
    requires n < 100
    ensures Pad(n, 2) == [DigitChar(n / 10), DigitChar(n % 10)]
  {
    if n < 10 {
      assert NatToString(n) == [DigitChar(n)];
      assert Pad(n, 1) == [DigitChar(n)];
    } else {
      assert NatToString(n / 10) == [DigitChar(n / 10)];
    }
  }

  /** A four-digit year is written as its four digits. */
  lemma PadFour(n: nat)
    requires 1000 <= n < 10000
    ensures Pad(n, 4) == [DigitChar(n / 1000), DigitChar(n / 100 % 10), DigitChar(n / 10 % 10), DigitChar(n % 10)]
  {
    assert n / 10 / 10 == n / 100 && n / 100 / 10 == n / 1000;
    assert NatToString(n / 1000) == [DigitChar(n / 1000)];
    assert NatToString(n / 100) == [DigitChar(n / 1000), DigitChar(n / 100 % 10)];
    assert NatToString(n / 10) == [DigitChar(n / 1000), DigitChar(n / 100 % 10), DigitChar(n / 10 % 10)];
  }

  /** A digit run followed by a non-digit (or nothing) is read as exactly that number. */
  lemma {:induction false} DigitRunOf(digits: string, rest: string)
    requires AllDigits(digits)
    requires |rest| > 0 ==> !IsDigit(rest[0])
    ensures DigitRun(digits + rest) == |digits|
  {
    if |digits| > 0 {
      assert (digits + rest)[1..] == digits[1..] + rest;
      DigitRunOf(digits[1..], rest);
    }
  }

  lemma NumberOf(digits: string, rest: string)
    requires |digits| > 0 && AllDigits(digits)
    requires |rest| > 0 ==> !IsDigit(rest[0])
    ensures Number(digits + rest) == Some((DigitsValue(digits), rest))
  {
    DigitRunOf(digits, rest);
    assert (digits + rest)[..|digits|] == digits;
    assert (digits + rest)[|digits|..] == rest;
  }

  /** A text made only of digits is read whole, leaving nothing after it. */
  lemma {:induction false} NumberAll(digits: string)
    requires |digits| > 0 && AllDigits(digits)
    ensures Number(digits) == Some((DigitsValue(digits), ""))
  {
    DigitRunAll(digits);
    assert digits[..|digits|] == digits;
    assert digits[|digits|..] == "";
  }

  lemma {:induction false} DigitRunAll(digits: string)
    requires AllDigits(digits)
    ensures DigitRun(digits) == |digits|
  {
    if |digits| > 0 {
      DigitRunAll(digits[1..]);
    }
  }

  lemma NumberThenOf(digits: string, sep: char, rest: string)
    requires |digits| > 0 && AllDigits(digits) && !IsDigit(sep)
    ensures NumberThen(digits + ([sep] + rest), sep) == Some((DigitsValue(digits), rest))
  {
    NumberOf(digits, [sep] + rest);
    assert ([sep] + rest)[1..] == rest;
  }

  /** The date parse as five steps: four numbers each with its separator,
      then the minutes. */
  lemma ParseFechaPasos(s: string, t1: string, t2: string, t3: string, t4: string, t5: string,
                        day: nat, month: nat, year: nat, hour: nat, minute: nat)
    ensures && NumberThen(s, '/') == Some((day, t1))
            && NumberThen(t1, '/') == Some((month, t2))
            && NumberThen(t2, ' ') == Some((year, t3))
            && NumberThen(t3, ':') == Some((hour, t4))
            && Number(t4) == Some((minute, t5))
            ==> ParseFecha(s) == Some(DateTime(day, month, year, hour, minute))
  {
  }

  /** Formatting a date and parsing the text back gives the same date. */
  lemma ParseFormatFecha(d: DateTime)
    ensures ParseFecha(FormatFecha(d)) == Some(d)
  {
    var dd, mm, yy, hh, mi := Pad(d.day, 2), Pad(d.month, 2), Pad(d.year, 4), Pad(d.hour, 2), Pad(d.minute, 2);
    var t3 := hh + (":" + mi);
    var t2 := yy + (" " + t3);
    var t1 := mm + ("/" + t2);
    NumberThenOf(dd, '/', t1);
    NumberThenOf(mm, '/', t2);
    NumberThenOf(yy, ' ', t3);
    NumberThenOf(hh, ':', mi);
    NumberAll(mi);
    ParseFechaPasos(FormatFecha(d), t1, t2, t3, mi, "", d.day, d.month, d.year, d.hour, d.minute);
  }

  /** Text no numeric field can be read from at its start: it begins with a
      letter, but not with "NaN", which `DecimalFormat` reads as a number. */
  predicate SinNumeroInicial(s: string) {
    |s| > 0 && IsLetter(s[0]) && !(|s| >= 3 && s[..3] == "NaN")
  }

  /** Empty text, and text that starts with a letter other than the "NaN"
      symbol (such as "null", or the weekday name `Date.toString` begins
      with), never parses as a date. */
  lemma ParseFechaLetra(s: string)
    requires |s| == 0 || SinNumeroInicial(s)
    ensures ParseFecha(s) == None
  {
  }

  // ---------------------------------------------------------------------
  // The record

  datatype Reserva = Reserva(
    fechaVuelo: Option<DateTime>,
    tipoVuelo: bool,
    cantidadBoletos: int32,
    aerolinea: string,
    username: string,
    numeroTarjeta: Option<string>,
    cuotas: int32,
    claseVuelo: Option<string>,
    numeroAsiento: Option<string>,
    cantidadMaletas: int32)

  /** No confirmation field has been set: the strings are `null` and the counts 0. */
  predicate Unconfirmed(r: Reserva) {
    && r.numeroTarjeta.None?
    && r.cuotas == 0
    && r.claseVuelo.None?
    && r.numeroAsiento.None?
    && r.cantidadMaletas == 0
  }

  /** The constructor: the date text goes through `parseFecha`, whose failure
      leaves a `null` date instead of rejecting the booking; the other four
      arguments are stored as given and the confirmation fields stay unset. */
  function NewReserva(fechaVueloStr: string, tipoVuelo: bool, cantidadBoletos: int32,
                      aerolinea: string, username: string): (r: Reserva)
    ensures r.fechaVuelo == ParseFecha(fechaVueloStr)
    ensures r.tipoVuelo == tipoVuelo && r.cantidadBoletos == cantidadBoletos
    ensures r.aerolinea == aerolinea && r.username == username
    ensures Unconfirmed(r)
  {
    Reserva(ParseFecha(fechaVueloStr), tipoVuelo, cantidadBoletos, aerolinea, username,
            None, 0, None, None, 0)
  }

  /** Constructing from the formatted text of a date stores that date; from
      text that is not a date, the null date. */
  lemma NewReservaFecha(d: DateTime, bad: string, tipoVuelo: bool, cantidadBoletos: int32,
                        aerolinea: string, username: string)
    requires ParseFecha(bad).None?
    ensures NewReserva(FormatFecha(d), tipoVuelo, cantidadBoletos, aerolinea, username).fechaVuelo == Some(d)
    ensures NewReserva(bad, tipoVuelo, cantidadBoletos, aerolinea, username).fechaVuelo == None
  {
    ParseFormatFecha(d);
  }

  // ---------------------------------------------------------------------
  // Setters

  /** The ten fields a setter can write. */
  datatype Field =
    | FechaVuelo | TipoVuelo | CantidadBoletos | Aerolinea | Username
    | NumeroTarjeta | Cuotas | ClaseVuelo | NumeroAsiento | CantidadMaletas

  /** A field's content, whatever its Java type. */
  datatype Value =
    | DateValue(date: Option<DateTime>)
    | BoolValue(b: bool)
    | IntValue(i: int32)
    | StringValue(s: string)
    | NullableValue(o: Option<string>)

  /** The getter of each field. */
  function Get(r: Reserva, f: Field): Value {
    match f
    case FechaVuelo => DateValue(r.fechaVuelo)
    case TipoVuelo => BoolValue(r.tipoVuelo)
    case CantidadBoletos => IntValue(r.cantidadBoletos)
    case Aerolinea => StringValue(r.aerolinea)
    case Username => StringValue(r.username)
    case NumeroTarjeta => NullableValue(r.numeroTarjeta)
    case Cuotas => IntValue(r.cuotas)
    case ClaseVuelo => NullableValue(r.claseVuelo)
    case NumeroAsiento => NullableValue(r.numeroAsiento)
    case CantidadMaletas => IntValue(r.cantidadMaletas)
  }

  /** The Java type of the setter's parameter matches the field. */
  predicate Fits(f: Field, v: Value) {
    match f
    case FechaVuelo => v.DateValue?
    case TipoVuelo => v.BoolValue?
    case CantidadBoletos | Cuotas | CantidadMaletas => v.IntValue?
    case Aerolinea | Username => v.StringValue?
    case NumeroTarjeta | ClaseVuelo | NumeroAsiento => v.NullableValue?
  }

  /** The setter of field `f` (`setNumeroTarjeta`, `setCuotas`, ...): the field
      then reads back the new value and every other field reads as before. */
  function Set(r: Reserva, f: Field, v: Value): (r': Reserva)
    requires Fits(f, v)
    ensures Get(r', f) == v
    ensures forall g :: g != f ==> Get(r', g) == Get(r, g)
  {
    match f
    case FechaVuelo => r.(fechaVuelo := v.date)
    case TipoVuelo => r.(tipoVuelo := v.b)
    case CantidadBoletos => r.(cantidadBoletos := v.i)
    case Aerolinea => r.(aerolinea := v.s)
    case Username => r.(username := v.s)
    case NumeroTarjeta => r.(numeroTarjeta := v.o)
    case Cuotas => r.(cuotas := v.i)
    case ClaseVuelo => r.(claseVuelo := v.o)
    case NumeroAsiento => r.(numeroAsiento := v.o)
    case CantidadMaletas => r.(cantidadMaletas := v.i)
  }

  /** Setting a field to what it already holds changes nothing, and setters of
      two different fields commute. */
  lemma SetLaws(r: Reserva, f: Field, g: Field, v: Value, w: Value)
    requires Fits(f, v) && Fits(g, w)
    ensures Set(r, f, Get(r, f)) == r
    ensures f != g ==> Set(Set(r, f, v), g, w) == Set(Set(r, g, w), f, v)
  {
  }

  // ---------------------------------------------------------------------
  // Persistence stubs of the record

  /** `guardarReserva` has an empty body: the reservation is unchanged. */
  function GuardarReserva(r: Reserva): (r': Reserva)
    ensures r' == r
  {
    r
  }

  /** `leerReserva` has an empty body: the reservation is unchanged. */
  function LeerReserva(r: Reserva): (r': Reserva)
    ensures r' == r
  {
    r
  }

  /** `cancelarReserva` has an empty body: the reservation is not cancelled or
      altered in any way. */
  function CancelarReserva(r: Reserva): (r': Reserva)
    ensures r' == r
  {
    r
  }
}
