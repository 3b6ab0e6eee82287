/** The pieces of `java.lang` the booking controller leans on, written out over
    `seq<char>`: the 32-bit `int`, decimal rendering and parsing of integers
    and booleans, `equalsIgnoreCase`, and `String.split(",")` with its rule of
    dropping trailing empty fields. */
module Text {
  import opened Wrappers

  /** Java's `int`. */
  newtype int32 = x: int | -0x8000_0000 <= x < 0x8000_0000

  predicate IsDigit(c: char) {
    '0' <= c <= '9'
  }

  /** An ASCII letter. */
  predicate IsLetter(c: char) {
    'a' <= c <= 'z' || 'A' <= c <= 'Z'
  }

  predicate AllDigits(s: string) {
    forall i :: 0 <= i < |s| ==> IsDigit(s[i])
  }

  function DigitValue(c: char): nat
    requires IsDigit(c)
  {
    c as int - '0' as int
  }

  function DigitChar(d: nat): (c: char)
    requires d < 10
    ensures IsDigit(c) && DigitValue(c) == d
  {
    ('0' as int + d) as char
  }

  /** The number a run of decimal digits denotes, most significant digit first. */
  function DigitsValue(s: string): nat
    requires AllDigits(s)
  {
    if |s| == 0 then 0 else DigitsValue(s[..|s| - 1]) * 10 + DigitValue(s[|s| - 1])
  }

  /** Leading zeros do not change the value of a digit run. */
  lemma {:induction false} LeadingZero(s: string)
    requires AllDigits(s)
    ensures AllDigits("0" + s)
    ensures DigitsValue("0" + s) == DigitsValue(s)
  {
    if |s| > 0 {
      assert ("0" + s)[..|s|] == "0" + s[..|s| - 1];
      LeadingZero(s[..|s| - 1]);
    }
  }

  /** Decimal digits of `n` with no leading zero: `Integer.toString` of a non-negative value. */
  function NatToString(n: nat): (s: string)
    ensures |s| > 0 && AllDigits(s) && DigitsValue(s) == n
    ensures |s| == 1 || s[0] != '0'
  {
    if n < 10 then [DigitChar(n)]
    else
      var prefix := NatToString(n / 10);
      var s := prefix + [DigitChar(n % 10)];
      assert s[..|s| - 1] == prefix;
      s
  }

  /** `Integer.toString(int)`. */
  function IntToString(n: int): string {
    if n < 0 then "-" + NatToString(-n) else NatToString(n)
  }

  /** The digits after an optional leading sign. */
  function Unsigned(s: string): string {
    if |s| > 0 && (s[0] == '-' || s[0] == '+') then s[1..] else s
  }

  /** The decimal integer syntax `Integer.parseInt` accepts: an optional sign
      followed by at least one digit. */
  predicate IsDecimal(s: string) {
    |Unsigned(s)| > 0 && AllDigits(Unsigned(s))
  }

  /** The integer a decimal text denotes, unbounded. */
  function DecimalValue(s: string): int
    requires IsDecimal(s)
  {
    if s[0] == '-' then -(DigitsValue(Unsigned(s)) as int) else DigitsValue(Unsigned(s))
  }

  /** `Integer.parseInt(s)`: succeeds exactly on decimal text whose value fits
      in an `int`, and then gives that value; anything else is the
      `NumberFormatException`, here `None`. */
  function ParseInt(s: string): (r: Option<int32>)
    ensures r.Some? <==> IsDecimal(s) && -0x8000_0000 <= DecimalValue(s) < 0x8000_0000
    ensures r.Some? ==> r.value as int == DecimalValue(s)
  {
    if |s| == 0 then None
    else
      var unsigned := if s[0] == '-' || s[0] == '+' then s[1..] else s;
      if |unsigned| == 0 || !AllDigits(unsigned) then None
      else
        var v: int := if s[0] == '-' then -(DigitsValue(unsigned) as int) else DigitsValue(unsigned);
        if -0x8000_0000 <= v < 0x8000_0000 then Some(v as int32) else None
  }

  /** Writing an `int` in decimal and parsing it back gives the same `int`. */
  lemma ParseIntToString(n: int32)
    ensures ParseInt(IntToString(n as int)) == Some(n)
  {
    var s := IntToString(n as int);
    if n < 0 {
      assert s[1..] == NatToString(-(n as int));
    } else {
      assert s[0] != '-' && s[0] != '+';
    }
  }

  /** `Boolean.toString(boolean)`. */
  function BoolToString(b: bool): string {
    if b then "true" else "false"
  }

  function ToLowerAscii(c: char): char {
    if 'A' <= c <= 'Z' then (c as int + 32) as char else c
  }

  /** `String.equalsIgnoreCase`, folding the ASCII letters. */
  predicate EqualsIgnoreCase(a: string, b: string) {
    |a| == |b| && forall i :: 0 <= i < |a| ==> ToLowerAscii(a[i]) == ToLowerAscii(b[i])
  }

  /** `Boolean.parseBoolean`: true exactly for "true" in any letter case; never fails. */
  function ParseBoolean(s: string): bool {
    EqualsIgnoreCase(s, "true")
  }

  lemma ParseBooleanToString(b: bool)
    ensures ParseBoolean(BoolToString(b)) == b
  {
    if b {
      assert EqualsIgnoreCase("true", "true");
    }
  }

  // ---------------------------------------------------------------------
  // String.split(",")

  /** Position of the first occurrence of `c` in `s`. */
  function IndexOf(s: string, c: char): (i: nat)
    requires c in s
    ensures i < |s| && s[i] == c && c !in s[..i]
  {
    if s[0] == c then 0
    else
      var j := IndexOf(s[1..], c);
      assert s[..j + 1] == [s[0]] + s[1..][..j];
      j + 1
  }

  /** `s` cut at every comma, empty pieces included. */
  function Pieces(s: string): (ps: seq<string>)
    ensures |ps| > 0
    ensures forall k :: 0 <= k < |ps| ==> ',' !in ps[k]
    decreases |s|
  {
    if ',' in s then
      var i := IndexOf(s, ',');
      [s[..i]] + Pieces(s[i + 1..])
    else
      [s]
  }

  /** The fields joined with a comma between neighbours. */
  function Join(fields: seq<string>): string
    requires |fields| > 0
  {
    if |fields| == 1 then fields[0] else fields[0] + "," + Join(fields[1..])
  }

  predicate NoComma(s: string) {
    ',' !in s
  }

  /** Cutting a comma-joined line at its commas gives back the fields, provided
      no field holds a comma of its own. */
  lemma {:induction false} PiecesJoin(fields: seq<string>)
    requires |fields| > 0
    requires forall k :: 0 <= k < |fields| ==> NoComma(fields[k])
    ensures Pieces(Join(fields)) == fields
  {
    if |fields| > 1 {
      var head := fields[0];
      var rest := Join(fields[1..]);
      var s := head + "," + rest;
      assert s[|head|] == ',';
      var i := IndexOf(s, ',');
      assert s[..|head|] == head;
      assert i == |head|;
      assert s[i + 1..] == rest;
      PiecesJoin(fields[1..]);
      assert Pieces(s) == [head] + fields[1..];
    }
  }

  /** The pieces with every trailing empty string removed. */
  function DropTrailingEmpty(ps: seq<string>): (r: seq<string>)
    ensures |r| <= |ps| && r == ps[..|r|]
    ensures |r| > 0 ==> r[|r| - 1] != ""
    ensures forall k :: |r| <= k < |ps| ==> ps[k] == ""
  {
    if |ps| == 0 then []
    else if ps[|ps| - 1] == "" then DropTrailingEmpty(ps[..|ps| - 1])
    else ps
  }

  /** `n` commas. */
  function Commas(n: nat): string {
    seq(n, _ => ',')
  }

  lemma CommaThenCommas(n: nat)
    ensures "," + Commas(n) == Commas(n + 1)
  {
    assert forall k :: 0 <= k < n + 1 ==> ("," + Commas(n))[k] == Commas(n + 1)[k];
  }

  /** Joining the pieces of a line at its commas gives the line back. */
  lemma {:induction false} JoinPieces(s: string)
    ensures Join(Pieces(s)) == s
    decreases |s|
  {
    if ',' in s {
      var i := IndexOf(s, ',');
      var rest := Pieces(s[i + 1..]);
      JoinPieces(s[i + 1..]);
      assert Pieces(s) == [s[..i]] + rest;
      assert ([s[..i]] + rest)[1..] == rest;
      assert s == s[..i] + "," + s[i + 1..];
    }
  }

  /** Empty fields joined are only the commas between them. */
  lemma {:induction false} JoinEmpties(ps: seq<string>)
    requires |ps| > 0
    requires forall k :: 0 <= k < |ps| ==> ps[k] == ""
    ensures Join(ps) == Commas(|ps| - 1)
  {
    if |ps| > 1 {
      JoinEmpties(ps[1..]);
      CommaThenCommas(|ps| - 2);
      assert Join(ps) == "" + "," + Join(ps[1..]);
    }
  }

  /** Trailing empty fields add only their separating commas to a joined line. */
  lemma {:induction false} JoinTrailingEmpty(ps: seq<string>, m: nat)
    requires 1 <= m <= |ps|
    requires forall k :: m <= k < |ps| ==> ps[k] == ""
    ensures Join(ps) == Join(ps[..m]) + Commas(|ps| - m)
  {
    if m == |ps| {
      assert ps[..m] == ps;
      assert Commas(0) == "";
    } else if m == 1 {
      JoinEmpties(ps[1..]);
      CommaThenCommas(|ps| - 2);
      assert ps[..1] == [ps[0]];
      assert ps[0] + "," + Commas(|ps| - 2) == ps[0] + ("," + Commas(|ps| - 2));
    } else {
      JoinTrailingEmpty(ps[1..], m - 1);
      assert ps[..m][1..] == ps[1..][..m - 1];
      var tail := Join(ps[1..][..m - 1]);
      assert Join(ps) == ps[0] + "," + (tail + Commas(|ps| - m));
      assert Join(ps[..m]) == ps[0] + "," + tail;
    }
  }

  /** `String.split(",")` with Java's rules: a line without a comma is one
      field (even when empty); otherwise the line is cut at every comma and
      trailing empty fields are removed. So a line is its fields joined by
      commas followed by nothing but commas, and the last field, if any, is
      not empty. */
  function Split(s: string): (fields: seq<string>)
    ensures forall k :: 0 <= k < |fields| ==> NoComma(fields[k])
    ensures ',' !in s ==> fields == [s]
    ensures ',' in s && |fields| > 0 ==> fields[|fields| - 1] != ""
    ensures |fields| > 0 ==> |Join(fields)| <= |s| && s == Join(fields) + Commas(|s| - |Join(fields)|)
    ensures |fields| == 0 ==> s == Commas(|s|)
  {
    if ',' in s then
      var ps := Pieces(s);
      var fields := DropTrailingEmpty(ps);
      JoinPieces(s);
      if |fields| > 0 then
        JoinTrailingEmpty(ps, |fields|);
        fields
      else
        JoinEmpties(ps);
        fields
    else
      [s]
  }

  /** Splitting a joined line of two or more comma-free fields gives the fields
      back when the last one is not empty. */
  lemma SplitJoin(fields: seq<string>)
    requires |fields| >= 2
    requires forall k :: 0 <= k < |fields| ==> NoComma(fields[k])
    requires fields[|fields| - 1] != ""
    ensures Split(Join(fields)) == fields
  {
    assert Join(fields)[|fields[0]|] == ',';
    PiecesJoin(fields);
  }

  /** A trailing empty field is lost: splitting gives one field fewer. */
  lemma SplitJoinDropsEmptyLast(fields: seq<string>)
    requires |fields| >= 2
    requires forall k :: 0 <= k < |fields| ==> NoComma(fields[k])
    requires fields[|fields| - 1] == ""
    ensures |Split(Join(fields))| < |fields|
  {
    assert Join(fields)[|fields[0]|] == ',';
    PiecesJoin(fields);
  }
}
