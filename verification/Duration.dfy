/** Durations as haproxy prints them ("13h54m", "2s", "<NEVER>"), read back into seconds. */
module Duration {
  import opened Prelude

  datatype Unit = Days | Hours | Minutes | Seconds | Millis

  function Text(u: Unit): string {
    match u
    case Days => "d"
    case Hours => "h"
    case Minutes => "m"
    case Seconds => "s"
    case Millis => "ms"
  }

  function Scale(u: Unit): real {
    match u
    case Days => 86400.0
    case Hours => 3600.0
    case Minutes => 60.0
    case Seconds => 1.0
    case Millis => 0.001
  }

  /** A number, as its digits, and a unit. */
  datatype Part = Part(digits: string, unit: Unit)

  predicate Digit(c: char) {
    '0' <= c <= '9'
  }

  predicate Proper(p: Part) {
    p.digits != "" && forall i :: 0 <= i < |p.digits| ==> Digit(p.digits[i])
  }

  predicate AllProper(parts: seq<Part>) {
    forall i :: 0 <= i < |parts| ==> Proper(parts[i])
  }

  // ---------------------------------------------------------------- the regular expression

  /** Length of the run of digits at the start. */
  function Run(s: string): (n: nat)
    ensures n <= |s| && (forall i :: 0 <= i < n ==> Digit(s[i])) && (n < |s| ==> !Digit(s[n]))
  {
    if s == "" || !Digit(s[0]) then 0
    else
      var m := Run(s[1..]);
      assert forall i :: 0 < i < 1 + m ==> s[i] == s[1..][i - 1];
      1 + m
  }

  /** The alternatives ms, d, h, m, s at the start, in this order. */
  function UnitAt(s: string): Option<Unit> {
    if s == "" then None
    else if s[0] == 'm' && |s| > 1 && s[1] == 's' then Some(Millis)
    else if s[0] == 'd' then Some(Days)
    else if s[0] == 'h' then Some(Hours)
    else if s[0] == 'm' then Some(Minutes)
    else if s[0] == 's' then Some(Seconds)
    else None
  }

  lemma UnitFits(s: string)
    ensures UnitAt(s).Some? ==> |Text(UnitAt(s).value)| <= |s| && s[..|Text(UnitAt(s).value)|] == Text(UnitAt(s).value)
  {
  }

  /** All matches from left to right; where none starts, one character is skipped. */
  function FindAll(s: string): (parts: seq<Part>)
    ensures AllProper(parts)
    decreases |s|
  {
    if s == "" then []
    else
      var n := Run(s);
      var u := UnitAt(s[n..]);
      if n > 0 && u.Some? then
        UnitFits(s[n..]);
        [Part(s[..n], u.value)] + FindAll(s[n + |Text(u.value)|..])
      else FindAll(s[1..])
  }

  function Join(parts: seq<Part>): string {
    if parts == [] then "" else parts[0].digits + Text(parts[0].unit) + Join(parts[1..])
  }

  function Value(digits: string): nat
    requires forall i :: 0 <= i < |digits| ==> Digit(digits[i])
  {
    if digits == "" then 0 else
      assert Digit(digits[|digits| - 1]);
      10 * Value(digits[..|digits| - 1]) + (digits[|digits| - 1] as int - '0' as int)
  }

  function Total(parts: seq<Part>): real
    requires AllProper(parts)
  {
    if parts == [] then 0.0 else Value(parts[0].digits) as real * Scale(parts[0].unit) + Total(parts[1..])
  }

  /** None unless the matches make up the whole string. */
  function DurationS(s: string): Option<real> {
    var parts := FindAll(s);
    if parts == [] || Join(parts) != s then None else Some(Total(parts))
  }

  // ---------------------------------------------------------------- reading what was printed

  /** What follows a part starts with a digit or is empty, so `m` is not taken for `ms`. */
  lemma {:induction false} JoinStart(parts: seq<Part>)
    requires AllProper(parts)
    ensures Join(parts) != "" ==> Digit(Join(parts)[0])
  {
    if parts != [] {
      assert Proper(parts[0]);
      assert Join(parts)[0] == parts[0].digits[0];
    }
  }

  lemma ReadsUnit(u: Unit, rest: string)
    requires rest != "" ==> Digit(rest[0])
    ensures UnitAt(Text(u) + rest) == Some(u) && !Digit((Text(u) + rest)[0])
  {
    var t := Text(u) + rest;
    assert |t| > 1 && u != Millis ==> t[1] == rest[0];
  }

  lemma {:induction false} ReadsDigits(digits: string, rest: string)
    requires (forall i :: 0 <= i < |digits| ==> Digit(digits[i])) && rest != "" && !Digit(rest[0])
    ensures Run(digits + rest) == |digits|
  {
    if digits == "" {
      assert digits + rest == rest;
    } else {
      ReadsDigits(digits[1..], rest);
      assert (digits + rest)[1..] == digits[1..] + rest;
    }
  }

  lemma ReadsPart(p: Part, rest: string)
    requires Proper(p) && (rest != "" ==> Digit(rest[0]))
    ensures FindAll(p.digits + Text(p.unit) + rest) == [p] + FindAll(rest)
  {
    var tail := Text(p.unit) + rest;
    var s := p.digits + tail;
    assert s == p.digits + Text(p.unit) + rest;
    ReadsUnit(p.unit, rest);
    ReadsDigits(p.digits, tail);
    assert s[|p.digits|..] == tail && s[..|p.digits|] == p.digits;
    assert s[|p.digits| + |Text(p.unit)|..] == rest;
  }

  /** The matches of a printed duration are its parts. */
  lemma {:induction false} FindsParts(parts: seq<Part>)
    requires AllProper(parts)
    ensures FindAll(Join(parts)) == parts
  {
    if parts != [] {
      FindsParts(parts[1..]);
      assert Proper(parts[0]);
      FindsCons(parts[0], parts[1..]);
      assert Join(parts) == parts[0].digits + Text(parts[0].unit) + Join(parts[1..]);
      assert parts == [parts[0]] + parts[1..];
    }
  }

  lemma FindsCons(p: Part, rest: seq<Part>)
    requires Proper(p) && AllProper(rest) && FindAll(Join(rest)) == rest
    ensures FindAll(p.digits + Text(p.unit) + Join(rest)) == [p] + rest
  {
    JoinStart(rest);
    ReadsPart(p, Join(rest));
  }

  /** Reading inverts printing, for every nonempty list of parts. */
  lemma ReadsPrinted(parts: seq<Part>)
    requires AllProper(parts) && parts != []
    ensures DurationS(Join(parts)) == Some(Total(parts))
  {
    FindsParts(parts);
  }

  /** A string is accepted exactly when it is a nonempty concatenation of parts, and then with their sum. */
  lemma AcceptedIff(s: string)
    ensures DurationS(s).Some? <==> exists parts :: AllProper(parts) && parts != [] && Join(parts) == s
    ensures forall parts :: AllProper(parts) && parts != [] && Join(parts) == s ==> DurationS(s) == Some(Total(parts))
  {
    if DurationS(s).Some? {
      assert Join(FindAll(s)) == s;
    }
    forall parts | AllProper(parts) && parts != [] && Join(parts) == s
      ensures DurationS(s) == Some(Total(parts))
    {
      ReadsPrinted(parts);
    }
  }

  /** Two lists of parts that print alike are equal, `m` and `ms` notwithstanding. */
  lemma PrintsUniquely(a: seq<Part>, b: seq<Part>)
    requires AllProper(a) && AllProper(b) && Join(a) == Join(b)
    ensures a == b
  {
    FindsParts(a);
    FindsParts(b);
  }

  // ---------------------------------------------------------------- what the numbers mean

  /** A number in decimal notation. */
  function Decimal(n: nat): string {
    var last := ['0' + (n % 10) as char];
    if n < 10 then last else Decimal(n / 10) + last
  }

  lemma DigitChar(k: nat)
    requires k < 10
    ensures var c := '0' + k as char; Digit(c) && c as int - '0' as int == k
  {
  }

  lemma ValueSnoc(digits: string, c: char)
    requires (forall i :: 0 <= i < |digits| ==> Digit(digits[i])) && Digit(c)
    ensures forall i :: 0 <= i < |digits + [c]| ==> Digit((digits + [c])[i])
    ensures Value(digits + [c]) == 10 * Value(digits) + (c as int - '0' as int)
  {
    var d := digits + [c];
    assert d[..|d| - 1] == digits && d[|d| - 1] == c;
  }

  lemma {:induction false} DecimalValue(n: nat)
    ensures Decimal(n) != "" && (forall i :: 0 <= i < |Decimal(n)| ==> Digit(Decimal(n)[i])) && Value(Decimal(n)) == n
  {
    var c := '0' + (n % 10) as char;
    DigitChar(n % 10);
    if n < 10 {
      ValueSnoc("", c);
      assert "" + [c] == Decimal(n);
    } else {
      DecimalValue(n / 10);
      ValueSnoc(Decimal(n / 10), c);
    }
  }

  /** Numbers with units, spelled out as haproxy does. */
  ghost function Spelled(ns: seq<(nat, Unit)>): string {
    if ns == [] then ""
    else
      var unit :=
        match ns[0].1
        case Days => "d"
        case Hours => "h"
        case Minutes => "m"
        case Seconds => "s"
        case Millis => "ms";
      Decimal(ns[0].0) + unit + Spelled(ns[1..])
  }

  ghost function UnitSeconds(n: nat, u: Unit): real {
    match u
    case Days => 24.0 * 60.0 * 60.0 * n as real
    case Hours => 60.0 * 60.0 * n as real
    case Minutes => 60.0 * n as real
    case Seconds => n as real
    case Millis => n as real / 1000.0
  }

  /** How many seconds they are. */
  ghost function InSeconds(ns: seq<(nat, Unit)>): real {
    if ns == [] then 0.0 else UnitSeconds(ns[0].0, ns[0].1) + InSeconds(ns[1..])
  }

  ghost function Parts(ns: seq<(nat, Unit)>): seq<Part> {
    if ns == [] then [] else [Part(Decimal(ns[0].0), ns[0].1)] + Parts(ns[1..])
  }

  lemma {:induction false} PartsSpell(ns: seq<(nat, Unit)>)
    ensures Join(Parts(ns)) == Spelled(ns)
  {
    if ns != [] {
      PartsSpell(ns[1..]);
      assert Parts(ns)[1..] == Parts(ns[1..]);
    }
  }

  lemma ProperCons(p: Part, rest: seq<Part>)
    requires Proper(p) && AllProper(rest)
    ensures AllProper([p] + rest)
  {
  }

  lemma TotalCons(p: Part, rest: seq<Part>)
    requires Proper(p) && AllProper(rest) && AllProper([p] + rest)
    ensures Total([p] + rest) == Value(p.digits) as real * Scale(p.unit) + Total(rest)
  {
    assert ([p] + rest)[1..] == rest;
  }

  lemma ScaleSeconds(n: nat, u: Unit)
    ensures n as real * Scale(u) == UnitSeconds(n, u)
  {
  }

  lemma {:induction false} PartsTotal(ns: seq<(nat, Unit)>)
    ensures AllProper(Parts(ns)) && Total(Parts(ns)) == InSeconds(ns)
  {
    if ns != [] {
      PartsTotal(ns[1..]);
      DecimalValue(ns[0].0);
      var p := Part(Decimal(ns[0].0), ns[0].1);
      ProperCons(p, Parts(ns[1..]));
      TotalCons(p, Parts(ns[1..]));
      ScaleSeconds(ns[0].0, ns[0].1);
    }
  }

  /** Numbers with units are read as so many seconds. */
  lemma ReadsSeconds(ns: seq<(nat, Unit)>)
    requires ns != []
    ensures DurationS(Spelled(ns)) == Some(InSeconds(ns))
  {
    PartsSpell(ns);
    PartsTotal(ns);
    ReadsPrinted(Parts(ns));
  }
}
