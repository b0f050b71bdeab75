/** The text form of instruction dependency traces: the printer of
    decode_inst_dep_trace.py, the parser of encode_inst_dep_trace.py, and what
    survives the round trip. */
module DepTrace {

  import opened Wrappers

  datatype RecordType = INVALID | LOAD | STORE | COMP

  /** InstDepRecord. */
  datatype Record = Record(seqNum: nat, ty: RecordType, pAddr: Option<nat>, size: Option<nat>, flags: Option<nat>,
                           robDep: seq<nat>, compDelay: nat, regDep: seq<nat>,
                           weight: Option<nat>, pc: Option<nat>, vAddr: Option<nat>, asid: Option<nat>)

  // ----- strings

  function Digit(d: nat): char
    requires d < 10
  {
    ['0', '1', '2', '3', '4', '5', '6', '7', '8', '9'][d]
  }

  function DigitValue(c: char): Option<nat> {
    if '0' <= c <= '9' then Some(c as int - '0' as int) else None
  }

  /** '%s' of a number. */
  function Dec(n: nat): string {
    if n < 10 then [Digit(n)] else Dec(n / 10) + [Digit(n % 10)]
  }

  /** Digits, with single underscores allowed between them. */
  function NatOf(s: string): Option<nat> {
    if s == [] then None
    else match DigitValue(s[|s| - 1])
      case None => None
      case Some(d) =>
        if |s| == 1 then Some(d)
        else match NatOf(if s[|s| - 2] == '_' then s[..|s| - 2] else s[..|s| - 1])
          case None => None
          case Some(v) => Some(10 * v + d)
  }

  /** int(), for a field that holds no negative number: white space around, one
      sign, and the digits. */
  function IntOf(s: string): Option<nat> {
    var t := Strip(s);
    if t == [] then None
    else if t[0] == '+' then NatOf(t[1..])
    else if t[0] == '-' then (if NatOf(t[1..]) == Some(0) then Some(0) else None)
    else NatOf(t)
  }

  /** White space within ASCII. */
  predicate Space(c: char) {
    c == ' ' || 9 <= c as int <= 13 || 0x1c <= c as int <= 0x1f
  }

  /** str.strip() */
  function Strip(s: string): string {
    if s == [] then []
    else if Space(s[0]) then Strip(s[1..])
    else if Space(s[|s| - 1]) then Strip(s[..|s| - 1])
    else s
  }

  /** str.split(c) */
  function Split(s: string, c: char): (parts: seq<string>)
    ensures parts != []
  {
    if s == [] then [""]
    else
      var rest := Split(s[1..], c);
      if s[0] == c then [""] + rest else [[s[0]] + rest[0]] + rest[1..]
  }

  /** The strings of `parts` with `c` between them. */
  function Join(parts: seq<string>, c: char): string
    requires parts != []
  {
    if |parts| == 1 then parts[0] else parts[0] + [c] + Join(parts[1..], c)
  }

  // ----- printer

  function TypeName(ty: RecordType): string {
    match ty
    case INVALID => "INVALID"
    case LOAD => "LOAD"
    case STORE => "STORE"
    case COMP => "COMP"
  }

  function GetOr(o: Option<nat>, d: nat): nat { if o.Some? then o.value else d }

  function Present(o: Option<nat>): seq<nat> { if o.Some? then [o.value] else [] }

  function Decs(ns: seq<nat>): (ss: seq<string>)
    ensures |ss| == |ns| && forall i :: 0 <= i < |ns| ==> ss[i] == Dec(ns[i])
  {
    if ns == [] then [] else [Dec(ns[0])] + Decs(ns[1..])
  }

  function Tail(r: Record): (ns: seq<nat>)
    ensures ns != []
  {
    Present(r.pAddr) + Present(r.size) + Present(r.flags) + [r.compDelay]
  }

  function InfoFields(r: Record): (fs: seq<string>)
    ensures |fs| >= 5
  {
    [Dec(r.seqNum), Dec(GetOr(r.pc, 0)), Dec(GetOr(r.weight, 1)), TypeName(r.ty)] + Decs(Tail(r))
  }

  /** One line of the text trace, without its newline. */
  function Line(r: Record): string {
    Join([Join(InfoFields(r), ','), Join([""] + Decs(r.robDep), ','), Join([""] + Decs(r.regDep), ',')], ':')
  }

  function PrintAll(rs: seq<Record>): string {
    if rs == [] then "" else Line(rs[0]) + "\n" + PrintAll(rs[1..])
  }

  // ----- parser

  /** A list of numbers; empty items are skipped. */
  function Numbers(items: seq<string>): Option<seq<nat>> {
    if items == [] then Some([])
    else if items[0] == "" then Numbers(items[1..])
    else match IntOf(items[0])
      case None => None
      case Some(n) =>
        match Numbers(items[1..])
        case None => None
        case Some(ns) => Some([n] + ns)
  }

  function TypeOf(name: string): Option<RecordType> {
    if name == "INVALID" then Some(INVALID)
    else if name == "LOAD" then Some(LOAD)
    else if name == "STORE" then Some(STORE)
    else if name == "COMP" then Some(COMP)
    else None
  }

  /** The comma-separated first part of a line; None stands for any error. */
  function ParseInfo(fs: seq<string>): Option<Record> {
    if |fs| < 4 then None
    else
      var a, b, c, ty := IntOf(fs[0]), IntOf(fs[1]), IntOf(fs[2]), TypeOf(fs[3]);
      if a == None || b == None || c == None || ty == None || ty == Some(INVALID) then None
      else
        var r := Record(a.value, ty.value, None, None, None, [], 0, [], Some(c.value), Some(b.value), None, None);
        if ty.value == COMP then
          if |fs| < 5 then None
          else match IntOf(fs[4])
            case None => None
            case Some(d) => Some(r.(compDelay := d))
        else if |fs| < 8 then None
        else
          var p, z, f, d := IntOf(fs[4]), IntOf(fs[5]), IntOf(fs[6]), IntOf(fs[7]);
          if p == None || z == None || f == None || d == None then None
          else Some(r.(pAddr := p, size := z, flags := f, compDelay := d.value))
  }

  function ParseLine(line: string): Option<Record> {
    var parts := Split(Strip(line), ':');
    if |parts| != 3 then None
    else match ParseInfo(Split(parts[0], ','))
      case None => None
      case Some(r) =>
        match Numbers(Split(Strip(parts[1]), ','))
        case None => None
        case Some(rob) =>
          match Numbers(Split(parts[2], ','))
          case None => None
          case Some(reg) => Some(r.(robDep := rob, regDep := reg))
  }

  /** Index after the first newline, or the end. */
  function LineEnd(s: string): (n: nat)
    requires s != []
    ensures 0 < n <= |s|
  {
    if s[0] == '\n' || |s| == 1 then 1 else 1 + LineEnd(s[1..])
  }

  function ParseAll(text: string): Option<seq<Record>> {
    if text == "" then Some([])
    else
      var n := LineEnd(text);
      match ParseLine(text[..n])
      case None => None
      case Some(r) =>
        match ParseAll(text[n..])
        case None => None
        case Some(rs) => Some([r] + rs)
  }

  // ----- numbers

  lemma DigitParses(d: nat)
    requires d < 10
    ensures DigitValue(Digit(d)) == Some(d)
  {
  }

  lemma NatOfSnoc(s: string, v: nat, d: nat)
    requires s != [] && NatOf(s) == Some(v) && d < 10
    ensures NatOf(s + [Digit(d)]) == Some(10 * v + d)
  {
    DigitParses(d);
    var t := s + [Digit(d)];
    assert t[..|t| - 1] == s && t[|t| - 1] == Digit(d) && t[|t| - 2] == s[|s| - 1] != '_';
  }

  lemma {:induction false} DecIsNat(n: nat)
    ensures NatOf(Dec(n)) == Some(n)
  {
    if n < 10 {
      DigitParses(n);
    } else {
      DecIsNat(n / 10);
      NatOfSnoc(Dec(n / 10), n / 10, n % 10);
    }
  }

  predicate Digits(s: string) { forall i :: 0 <= i < |s| ==> '0' <= s[i] <= '9' }

  lemma {:induction false} DecDigits(n: nat)
    ensures Dec(n) != "" && Digits(Dec(n))
  {
    if n >= 10 { DecDigits(n / 10); }
  }

  lemma DecParses(n: nat)
    ensures IntOf(Dec(n)) == Some(n)
  {
    var s := Dec(n);
    DecDigits(n);
    DecIsNat(n);
    assert '0' <= s[0] <= '9' && '0' <= s[|s| - 1] <= '9';
    assert Strip(s) == s;
  }

  /** Digits and underscores, beginning and ending with a digit, without two
      underscores in a row: what int() takes for a number. */
  ghost predicate Numeral(s: string) {
    && s != [] && '0' <= s[0] <= '9' && '0' <= s[|s| - 1] <= '9'
    && (forall i :: 0 <= i < |s| ==> '0' <= s[i] <= '9' || s[i] == '_')
    && (forall i :: 0 <= i < |s| - 1 ==> s[i] != '_' || s[i + 1] != '_')
  }

  /** The number that the digits of a string stand for. */
  function DigitsValue(s: string): nat {
    if s == [] then 0
    else match DigitValue(s[|s| - 1])
      case None => DigitsValue(s[..|s| - 1])
      case Some(d) => 10 * DigitsValue(s[..|s| - 1]) + d
  }

  /** What is left of a numeral without its last digit. */
  function Front(s: string): string
    requires |s| > 1
  {
    if s[|s| - 2] == '_' then s[..|s| - 2] else s[..|s| - 1]
  }

  lemma NumeralFront(s: string)
    requires |s| > 1 && '0' <= s[|s| - 1] <= '9'
    ensures Numeral(s) <==> Numeral(Front(s))
  {
    var n, f := |s|, Front(s);
    if s[n - 2] == '_' {
      assert forall i :: 0 <= i < n - 2 ==> f[i] == s[i];
      if Numeral(s) { assert s[n - 3] != '_'; }
    } else {
      assert forall i :: 0 <= i < n - 1 ==> f[i] == s[i];
    }
  }

  lemma ValueFront(s: string, d: nat)
    requires |s| > 1 && DigitValue(s[|s| - 1]) == Some(d)
    ensures DigitsValue(s) == 10 * DigitsValue(Front(s)) + d
  {
    var n := |s|;
    if s[n - 2] == '_' {
      var t := s[..n - 1];
      assert t[|t| - 1] == '_' && t[..|t| - 1] == s[..n - 2];
    }
  }

  /** The parser of numbers accepts exactly the numerals, and reads their digits. */
  lemma {:induction false} NatOfExactly(s: string)
    ensures NatOf(s).Some? <==> Numeral(s)
    ensures NatOf(s).Some? ==> NatOf(s).value == DigitsValue(s)
  {
    if s != [] && '0' <= s[|s| - 1] <= '9' {
      if |s| == 1 {
        assert s[..0] == [];
      } else {
        NumeralFront(s);
        NatOfExactly(Front(s));
        ValueFront(s, DigitValue(s[|s| - 1]).value);
      }
    }
  }

  predicate AllSpace(s: string) { forall i :: 0 <= i < |s| ==> Space(s[i]) }

  ghost predicate Surrounds(s: string, a: string, t: string, b: string) {
    s == a + t + b && AllSpace(a) && AllSpace(b)
  }

  lemma SurroundsFirst(s: string, a: string, t: string, b: string)
    requires s != [] && Space(s[0]) && Surrounds(s[1..], a, t, b)
    ensures Surrounds(s, [s[0]] + a, t, b)
  {
    assert s == [s[0]] + s[1..];
    assert [s[0]] + (a + t + b) == [s[0]] + a + t + b;
  }

  lemma SurroundsLast(s: string, a: string, t: string, b: string)
    requires s != [] && Space(s[|s| - 1]) && Surrounds(s[..|s| - 1], a, t, b)
    ensures Surrounds(s, a, t, b + [s[|s| - 1]])
  {
    var l := s[|s| - 1];
    assert s == s[..|s| - 1] + [l];
    assert a + t + b + [l] == a + t + (b + [l]);
  }

  /** Stripping takes white space off both ends, and all of it. */
  lemma {:induction false} StripExactly(s: string) returns (a: string, b: string)
    ensures Surrounds(s, a, Strip(s), b)
    ensures var t := Strip(s); t != [] ==> !Space(t[0]) && !Space(t[|t| - 1])
    decreases |s|
  {
    a, b := [], [];
    if s == [] {
    } else if Space(s[0]) {
      a, b := StripExactly(s[1..]);
      SurroundsFirst(s, a, Strip(s), b);
      a := [s[0]] + a;
    } else if Space(s[|s| - 1]) {
      a, b := StripExactly(s[..|s| - 1]);
      SurroundsLast(s, a, Strip(s), b);
      b := b + [s[|s| - 1]];
    } else {
      assert [] + s + [] == s;
    }
  }

  lemma {:induction false} StripSurrounded(a: string, t: string, b: string)
    requires AllSpace(a) && AllSpace(b) && t != [] && !Space(t[0]) && !Space(t[|t| - 1])
    ensures Strip(a + t + b) == t
    decreases |a| + |b|
  {
    var s := a + t + b;
    if a != [] {
      assert s[0] == a[0] && s[1..] == a[1..] + t + b;
      StripSurrounded(a[1..], t, b);
    } else if b != [] {
      assert s[0] == t[0] && s[|s| - 1] == b[|b| - 1] && s[..|s| - 1] == a + t + b[..|b| - 1];
      StripSurrounded(a, t, b[..|b| - 1]);
    } else {
      assert s == t;
    }
  }

  /** The string is a numeral with at most one sign in front and white space
      around, and stands for `v`. */
  ghost predicate Spelled(s: string, a: string, sign: string, body: string, b: string, v: nat) {
    && Surrounds(s, a, sign + body, b)
    && sign in {"", "+", "-"} && Numeral(body) && v == DigitsValue(body) && (sign == "-" ==> v == 0)
  }

  /** The model of int() for a field without negative numbers yields `v` exactly
      for the strings that spell it. */
  lemma IntOfExactly(s: string, v: nat)
    ensures IntOf(s) == Some(v) <==> exists a, sign, body, b :: Spelled(s, a, sign, body, b, v)
  {
    if IntOf(s) == Some(v) {
      var a, sign, body, b := ReadSpelled(s, v);
    }
    if exists a, sign, body, b :: Spelled(s, a, sign, body, b, v) {
      var a, sign, body, b :| Spelled(s, a, sign, body, b, v);
      SpelledRead(s, a, sign, body, b, v);
    }
  }

  lemma ReadSpelled(s: string, v: nat) returns (a: string, sign: string, body: string, b: string)
    requires IntOf(s) == Some(v)
    ensures Spelled(s, a, sign, body, b, v)
  {
    a, b := StripExactly(s);
    var t := Strip(s);
    if t[0] == '+' || t[0] == '-' {
      sign, body := [t[0]], t[1..];
    } else {
      sign, body := "", t;
    }
    assert t == sign + body;
    NatOfExactly(body);
  }

  lemma SpelledRead(s: string, a: string, sign: string, body: string, b: string, v: nat)
    requires Spelled(s, a, sign, body, b, v)
    ensures IntOf(s) == Some(v)
  {
    var t := sign + body;
    assert t[|t| - 1] == body[|body| - 1];
    StripSurrounded(a, t, b);
    NatOfExactly(body);
    if sign == "" {
      assert t == body;
    } else {
      assert t[0] == sign[0] && t[1..] == body;
    }
  }

  // ----- splitting undoes joining

  lemma {:induction false} SplitPlain(s: string, c: char)
    requires c !in s
    ensures Split(s, c) == [s]
  {
    if s != [] {
      SplitPlain(s[1..], c);
      assert [s[0]] + s[1..] == s;
    }
  }

  lemma {:induction false} SplitAppend(a: string, c: char, rest: string)
    requires c !in a
    ensures Split(a + [c] + rest, c) == [a] + Split(rest, c)
  {
    if a == [] {
      assert (a + [c] + rest)[1..] == rest;
      assert a == "";
    } else {
      SplitAppend(a[1..], c, rest);
      assert (a + [c] + rest)[1..] == a[1..] + [c] + rest;
      assert [a[0]] + a[1..] == a;
    }
  }

  lemma {:induction false} SplitJoin(parts: seq<string>, c: char)
    requires parts != [] && forall i :: 0 <= i < |parts| ==> c !in parts[i]
    ensures Split(Join(parts, c), c) == parts
  {
    if |parts| == 1 {
      SplitPlain(parts[0], c);
    } else {
      SplitJoin(parts[1..], c);
      SplitAppend(parts[0], c, Join(parts[1..], c));
    }
  }

  lemma {:induction false} JoinChars(parts: seq<string>, c: char, x: char)
    requires parts != [] && x in Join(parts, c)
    ensures x == c || exists i :: 0 <= i < |parts| && x in parts[i]
  {
    if |parts| > 1 {
      if x !in parts[0] && x != c {
        assert x in Join(parts[1..], c);
        JoinChars(parts[1..], c, x);
        var i :| 0 <= i < |parts[1..]| && x in parts[1..][i];
        assert x in parts[i + 1];
      }
    }
  }

  // ----- the characters of a line

  /** Digits and capital letters: what fields are made of. */
  predicate Plain(s: string) { forall c :: c in s ==> '0' <= c <= '9' || 'A' <= c <= 'Z' }

  lemma DecPlain(n: nat)
    ensures Plain(Dec(n)) && Dec(n) != ""
  {
    DecDigits(n);
  }

  lemma FieldsPlain(r: Record)
    ensures forall i :: 0 <= i < |InfoFields(r)| ==> Plain(InfoFields(r)[i])
  {
    var fs := InfoFields(r);
    forall i | 0 <= i < |fs| ensures Plain(fs[i]) {
      DecPlain(r.seqNum);
      DecPlain(GetOr(r.pc, 0));
      DecPlain(GetOr(r.weight, 1));
      if i >= 4 { DecPlain(Tail(r)[i - 4]); }
    }
  }

  lemma DepsPlain(ns: seq<nat>)
    ensures forall i :: 0 <= i < |ns| + 1 ==> Plain(([""] + Decs(ns))[i])
  {
    var ss := [""] + Decs(ns);
    assert Plain("");
    forall i | 0 <= i < |ns| + 1 ensures Plain(ss[i]) {
      if i > 0 {
        DecPlain(ns[i - 1]);
        assert ss[i] == Decs(ns)[i - 1] == Dec(ns[i - 1]);
      }
    }
  }

  /** Joined fields: no colon, no white space. */
  predicate OnLine(s: string) { forall c :: c in s ==> c != ':' && !Space(c) }

  lemma JoinOnLine(parts: seq<string>)
    requires parts != [] && forall i :: 0 <= i < |parts| ==> Plain(parts[i])
    ensures OnLine(Join(parts, ','))
    ensures Split(Join(parts, ','), ',') == parts
  {
    forall c | c in Join(parts, ',') ensures c != ':' && !Space(c) {
      JoinChars(parts, ',', c);
    }
    SplitJoin(parts, ',');
  }

  /** The three parts of a line. */
  function Parts(r: Record): seq<string> {
    [Join(InfoFields(r), ','), Join([""] + Decs(r.robDep), ','), Join([""] + Decs(r.regDep), ',')]
  }

  lemma PartsOnLine(r: Record)
    ensures OnLine(Parts(r)[0]) && OnLine(Parts(r)[1]) && OnLine(Parts(r)[2])
    ensures Split(Parts(r)[0], ',') == InfoFields(r)
    ensures Split(Parts(r)[1], ',') == [""] + Decs(r.robDep)
    ensures Split(Parts(r)[2], ',') == [""] + Decs(r.regDep)
  {
    FieldsPlain(r);
    DepsPlain(r.robDep);
    DepsPlain(r.regDep);
    JoinOnLine(InfoFields(r));
    JoinOnLine([""] + Decs(r.robDep));
    JoinOnLine([""] + Decs(r.regDep));
  }

  predicate NoSpace(s: string) { forall c :: c in s ==> !Space(c) }

  lemma LineSplits(r: Record)
    ensures NoSpace(Line(r)) && Split(Line(r), ':') == Parts(r)
  {
    PartsOnLine(r);
    forall c | c in Line(r) ensures !Space(c) {
      JoinChars(Parts(r), ':', c);
    }
    SplitJoin(Parts(r), ':');
  }

  /** The line of a record: three parts between colons.  The first has sequence
      number, pc, weight, type, then address, size and flags as far as present,
      then the delay; the others have the dependencies, each after a comma. */
  lemma LineFormat(r: Record)
    ensures var parts := Split(Line(r), ':');
            && |parts| == 3
            && Split(parts[1], ',') == [""] + Decs(r.robDep) && Split(parts[2], ',') == [""] + Decs(r.regDep)
            && var fs := Split(parts[0], ',');
            && |fs| == 5 + |Present(r.pAddr)| + |Present(r.size)| + |Present(r.flags)|
            && fs[0] == Dec(r.seqNum)
            && fs[1] == (if r.pc.Some? then Dec(r.pc.value) else "0")
            && fs[2] == (if r.weight.Some? then Dec(r.weight.value) else "1")
            && fs[3] == TypeName(r.ty)
            && (r.pAddr.Some? ==> fs[4] == Dec(r.pAddr.value))
            && (r.size.Some? ==> fs[if r.pAddr.Some? then 5 else 4] == Dec(r.size.value))
            && (r.flags.Some? ==> fs[|fs| - 2] == Dec(r.flags.value))
            && fs[|fs| - 1] == Dec(r.compDelay)
  {
    LineSplits(r);
    PartsOnLine(r);
    var t := Tail(r);
    forall i | 0 <= i < |t| ensures InfoFields(r)[4 + i] == Dec(t[i]) {}
  }

  lemma StripLine(s: string)
    requires NoSpace(s)
    ensures Strip(s) == s && Strip(s + "\n") == s
  {
    if s != [] {
      assert (s + "\n")[..|s|] == s;
      assert (s + "\n")[0] in s && s[|s| - 1] in s;
    } else {
      assert (s + "\n")[1..] == [];
    }
  }

  // ----- reading back

  lemma {:induction false} NumbersOfDecs(ns: seq<nat>)
    ensures Numbers(Decs(ns)) == Some(ns)
  {
    if ns != [] {
      DecParses(ns[0]);
      DecPlain(ns[0]);
      NumbersOfDecs(ns[1..]);
      assert [ns[0]] + ns[1..] == ns;
    }
  }

  lemma DepsRead(ns: seq<nat>)
    ensures Numbers([""] + Decs(ns)) == Some(ns)
  {
    NumbersOfDecs(ns);
    assert ([""] + Decs(ns))[1..] == Decs(ns);
  }

  /** What the parser makes of a printed record: an error for INVALID, and for
      loads and stores that lack a field; for COMP the first number after the
      type is taken for the delay. */
  function Reread(r: Record): Option<Record> {
    var base := Record(r.seqNum, r.ty, None, None, None, r.robDep, Tail(r)[0], r.regDep,
                       Some(GetOr(r.weight, 1)), Some(GetOr(r.pc, 0)), None, None);
    if r.ty == INVALID then None
    else if r.ty == COMP then Some(base)
    else if r.pAddr == None || r.size == None || r.flags == None then None
    else Some(base.(pAddr := r.pAddr, size := r.size, flags := r.flags, compDelay := r.compDelay))
  }

  lemma TailParses(r: Record, i: nat)
    requires i < |Tail(r)|
    ensures |InfoFields(r)| == 4 + |Tail(r)| && IntOf(InfoFields(r)[4 + i]) == Some(Tail(r)[i])
  {
    DecParses(Tail(r)[i]);
  }

  lemma FullTailParses(r: Record)
    requires r.pAddr.Some? && r.size.Some? && r.flags.Some?
    ensures var fs := InfoFields(r);
            |fs| == 8 && IntOf(fs[4]) == r.pAddr && IntOf(fs[5]) == r.size && IntOf(fs[6]) == r.flags
            && IntOf(fs[7]) == Some(r.compDelay)
  {
    assert Tail(r) == [r.pAddr.value, r.size.value, r.flags.value, r.compDelay];
    TailParses(r, 0);
    TailParses(r, 1);
    TailParses(r, 2);
    TailParses(r, 3);
  }

  lemma HeadParses(r: Record)
    ensures var fs := InfoFields(r);
            && IntOf(fs[0]) == Some(r.seqNum) && IntOf(fs[1]) == Some(GetOr(r.pc, 0))
            && IntOf(fs[2]) == Some(GetOr(r.weight, 1)) && TypeOf(fs[3]) == Some(r.ty)
  {
    DecParses(r.seqNum);
    DecParses(GetOr(r.pc, 0));
    DecParses(GetOr(r.weight, 1));
    assert TypeOf(TypeName(r.ty)) == Some(r.ty);
  }

  lemma InfoParses(r: Record)
    ensures var p := ParseInfo(InfoFields(r));
            match Reread(r)
            case None => p == None
            case Some(x) => p == Some(x.(robDep := [], regDep := []))
  {
    HeadParses(r);
    TailParses(r, 0);
    if r.pAddr.Some? && r.size.Some? && r.flags.Some? {
      FullTailParses(r);
    } else {
      assert |Tail(r)| < 4;
    }
  }

  /** Printing a record and parsing the line, for every record. */
  lemma LineRereads(r: Record)
    ensures ParseLine(Line(r) + "\n") == Reread(r)
  {
    LineSplits(r);
    StripLine(Line(r));
    PartsOnLine(r);
    assert NoSpace(Parts(r)[1]);
    StripLine(Parts(r)[1]);
    InfoParses(r);
    DepsRead(r.robDep);
    DepsRead(r.regDep);
  }

  /** The record with the defaults the printer fills in. */
  function Defaults(r: Record): Record {
    r.(pc := Some(GetOr(r.pc, 0)), weight := Some(GetOr(r.weight, 1)))
  }

  /** Address, size and flags are present exactly on loads and stores; the text
      form has no place for virtual address and address space. */
  predicate Printable(r: Record) {
    && r.ty != INVALID && r.vAddr == None && r.asid == None
    && (if r.ty == COMP then r.pAddr == None && r.size == None && r.flags == None
        else r.pAddr.Some? && r.size.Some? && r.flags.Some?)
  }

  /** Main result for one record: the text form gives the record back, defaults
      filled in, exactly for the printable records. */
  lemma RoundTripExactly(r: Record)
    ensures ParseLine(Line(r) + "\n") == Some(Defaults(r)) <==> Printable(r)
  {
    LineRereads(r);
  }

  /** A COMP record with an address: the address is read as the delay. */
  lemma CompMisread()
    ensures var r := Record(1, COMP, Some(7), None, None, [], 3, [], None, None, None, None);
            ParseLine(Line(r) + "\n") == Some(Defaults(r).(pAddr := None, compDelay := 7))
  {
    var r := Record(1, COMP, Some(7), None, None, [], 3, [], None, None, None, None);
    LineRereads(r);
    assert Tail(r) == [7, 3];
  }

  // ----- lines the printer never wrote

  function Count(s: string, c: char): nat {
    if s == [] then 0 else (if s[0] == c then 1 else 0) + Count(s[1..], c)
  }

  lemma {:induction false} SplitCounts(s: string, c: char)
    ensures |Split(s, c)| == 1 + Count(s, c)
  {
    if s != [] { SplitCounts(s[1..], c); }
  }

  /** Whatever line the parser accepts has two colons, and what it makes of it is
      a printable record with all defaults filled in. */
  lemma ParsedPrintable(line: string)
    requires ParseLine(line).Some?
    ensures Count(Strip(line), ':') == 2
    ensures var r := ParseLine(line).value; Printable(r) && Defaults(r) == r
  {
    SplitCounts(Strip(line), ':');
  }

  /** So printing is a normal form: the printed line reads back as the record the
      original line was read as. */
  lemma NormalForm(line: string)
    requires ParseLine(line).Some?
    ensures ParseLine(Line(ParseLine(line).value) + "\n") == ParseLine(line)
  {
    ParsedPrintable(line);
    RoundTripExactly(ParseLine(line).value);
  }

  // ----- whole traces

  function AllDefaults(rs: seq<Record>): seq<Record> {
    if rs == [] then [] else [Defaults(rs[0])] + AllDefaults(rs[1..])
  }

  lemma {:induction false} FirstLine(s: string, rest: string)
    requires '\n' !in s
    ensures LineEnd(s + "\n" + rest) == |s| + 1
  {
    if s != [] {
      FirstLine(s[1..], rest);
      assert (s + "\n" + rest)[1..] == s[1..] + "\n" + rest;
      assert s[0] in s;
    }
  }

  lemma ParseFirst(line: string, rest: string)
    requires '\n' !in line
    ensures ParseAll(line + "\n" + rest) ==
            var (r, rs) := (ParseLine(line + "\n"), ParseAll(rest));
            if r == None || rs == None then None else Some([r.value] + rs.value)
  {
    var text := line + "\n" + rest;
    FirstLine(line, rest);
    assert text[..|line| + 1] == line + "\n" && text[|line| + 1..] == rest;
  }

  /** The first record comes back, and so do the others. */
  lemma TraceStep(r: Record, rs: seq<Record>)
    ensures ParseAll(PrintAll([r] + rs)) == Some(AllDefaults([r] + rs)) <==>
            Printable(r) && ParseAll(PrintAll(rs)) == Some(AllDefaults(rs))
  {
    LineSplits(r);
    assert ([r] + rs)[1..] == rs;
    ParseFirst(Line(r), PrintAll(rs));
    RoundTripExactly(r);
    if ParseAll(PrintAll([r] + rs)) == Some(AllDefaults([r] + rs)) {
      HeadAndTail(ParseLine(Line(r) + "\n").value, ParseAll(PrintAll(rs)).value, Defaults(r), AllDefaults(rs));
    }
  }

  /** A whole trace comes back exactly when each of its records does. */
  lemma {:induction false} TraceRoundTrip(rs: seq<Record>)
    ensures ParseAll(PrintAll(rs)) == Some(AllDefaults(rs)) <==> forall i :: 0 <= i < |rs| ==> Printable(rs[i])
  {
    if rs != [] {
      assert rs == [rs[0]] + rs[1..];
      TraceStep(rs[0], rs[1..]);
      TraceRoundTrip(rs[1..]);
      AllPrintable(rs);
    }
  }

  lemma AllPrintable(rs: seq<Record>)
    requires rs != []
    ensures (forall i :: 0 <= i < |rs| ==> Printable(rs[i])) <==>
            Printable(rs[0]) && forall i :: 0 <= i < |rs[1..]| ==> Printable(rs[1..][i])
  {
    assert forall i :: 1 <= i < |rs| ==> rs[i] == rs[1..][i - 1];
  }

  lemma HeadAndTail(a: Record, s: seq<Record>, b: Record, t: seq<Record>)
    requires [a] + s == [b] + t
    ensures a == b && s == t
  {
    assert a == ([a] + s)[0] && s == ([a] + s)[1..] && t == ([b] + t)[1..];
  }

  // ----- the loops of the two programs

  lemma {:induction false} JoinSnoc(parts: seq<string>, x: string, c: char)
    requires parts != []
    ensures Join(parts + [x], c) == Join(parts, c) + [c] + x
  {
    if |parts| == 1 {
      assert (parts + [x])[1..] == [x];
    } else {
      JoinSnoc(parts[1..], x, c);
      assert (parts + [x])[1..] == parts[1..] + [x];
    }
  }

  lemma DecsSnoc(first: seq<string>, ns: seq<nat>, i: nat)
    requires i < |ns|
    ensures first + Decs(ns[..i]) + [Dec(ns[i])] == first + Decs(ns[..i + 1])
  {
    var a, b := Decs(ns[..i + 1]), Decs(ns[..i]) + [Dec(ns[i])];
    forall k | 0 <= k <= i ensures a[k] == b[k] {
      assert a[k] == Dec(ns[..i + 1][k]) == Dec(ns[k]);
    }
    assert a == b;
    assert first + Decs(ns[..i]) + [Dec(ns[i])] == first + b;
  }

  /** Writing ",%s" for each number of a list. */
  method WriteList(first: seq<string>, ns: seq<nat>) returns (out: string)
    requires first != []
    ensures out == Join(first + Decs(ns), ',')
  {
    out := Join(first, ',');
    assert first + Decs([]) == first;
    var i := 0;
    while i < |ns|
      invariant 0 <= i <= |ns|
      invariant out == Join(first + Decs(ns[..i]), ',')
    {
      JoinSnoc(first + Decs(ns[..i]), Dec(ns[i]), ',');
      DecsSnoc(first, ns, i);
      out := out + "," + Dec(ns[i]);
      i := i + 1;
    }
    assert ns[..i] == ns;
  }

  /** One pass of the printer's loop. */
  method WriteRecord(r: Record) returns (out: string)
    ensures out == Line(r) + "\n"
  {
    var head := [Dec(r.seqNum), Dec(GetOr(r.pc, 0)), Dec(GetOr(r.weight, 1)), TypeName(r.ty)];
    var info := WriteList(head, Tail(r));
    var rob := WriteList([""], r.robDep);
    var reg := WriteList([""], r.regDep);
    out := info + ":" + rob + ":" + reg + "\n";
    JoinSnoc([info], rob, ':');
    JoinSnoc([info, rob], reg, ':');
    assert [info] + [rob] == [info, rob] && [info, rob] + [reg] == [info, rob, reg];
    assert Parts(r) == [info, rob, reg];
  }

  lemma PrintStep(out: string, rs: seq<Record>, i: nat)
    requires i < |rs|
    ensures out + PrintAll(rs[i..]) == out + (Line(rs[i]) + "\n") + PrintAll(rs[i + 1..])
  {
    assert rs[i..][0] == rs[i] && rs[i..][1..] == rs[i + 1..];
  }

  method WriteTrace(rs: seq<Record>) returns (out: string)
    ensures out == PrintAll(rs)
  {
    out := "";
    var i := 0;
    assert rs[0..] == rs;
    while i < |rs|
      invariant 0 <= i <= |rs| && out + PrintAll(rs[i..]) == PrintAll(rs)
    {
      var line := WriteRecord(rs[i]);
      PrintStep(out, rs, i);
      out := out + line;
      i := i + 1;
    }
    assert PrintAll(rs[i..]) == "";
  }

  /** A result that continues what has been read so far. */
  ghost function After<T>(done: seq<T>, rest: Option<seq<T>>): Option<seq<T>> {
    if rest == None then None else Some(done + rest.value)
  }

  lemma AfterStep<T>(done: seq<T>, x: T, rest: Option<seq<T>>)
    ensures After(done, if rest == None then None else Some([x] + rest.value)) == After(done + [x], rest)
    ensures After([], rest) == rest
  {
    if rest.Some? {
      assert [] + rest.value == rest.value;
      assert done + ([x] + rest.value) == done + [x] + rest.value;
    }
  }

  /** Appending each non-empty item of a list to a repeated field. */
  method ReadNumbers(items: seq<string>) returns (r: Option<seq<nat>>)
    ensures r == Numbers(items)
  {
    var ns: seq<nat> := [];
    var i := 0;
    assert items[0..] == items;
    AfterStep(ns, 0, Numbers(items));
    while i < |items|
      invariant 0 <= i <= |items|
      invariant Numbers(items) == After(ns, Numbers(items[i..]))
    {
      assert items[i..][0] == items[i] && items[i..][1..] == items[i + 1..];
      if items[i] != "" {
        var n := IntOf(items[i]);
        if n == None { return None; }
        AfterStep(ns, n.value, Numbers(items[i + 1..]));
        ns := ns + [n.value];
      }
      i := i + 1;
    }
    assert ns + [] == ns;
    return Some(ns);
  }

  method ReadLine(line: string) returns (r: Option<Record>)
    ensures r == ParseLine(line)
  {
    var parts := Split(Strip(line), ':');
    if |parts| != 3 { return None; }
    var rec := ParseInfo(Split(parts[0], ','));
    if rec == None { return None; }
    var rob := ReadNumbers(Split(Strip(parts[1]), ','));
    if rob == None { return None; }
    var reg := ReadNumbers(Split(parts[2], ','));
    if reg == None { return None; }
    return Some(rec.value.(robDep := rob.value, regDep := reg.value));
  }

  lemma ParseStep(rs: seq<Record>, rest: string)
    requires rest != ""
    ensures var n := LineEnd(rest);
            After(rs, ParseAll(rest)) ==
            match ParseLine(rest[..n])
            case None => None
            case Some(r) => After(rs + [r], ParseAll(rest[n..]))
  {
    var n := LineEnd(rest);
    match ParseLine(rest[..n])
    case None =>
    case Some(r) => AfterStep(rs, r, ParseAll(rest[n..]));
  }

  method ReadTrace(text: string) returns (r: Option<seq<Record>>)
    ensures r == ParseAll(text)
  {
    var rest := text;
    var rs: seq<Record> := [];
    assert After([], ParseAll(text)) == ParseAll(text) by {
      if ParseAll(text).Some? { assert [] + ParseAll(text).value == ParseAll(text).value; }
    }
    while rest != ""
      invariant ParseAll(text) == After(rs, ParseAll(rest))
      decreases |rest|
    {
      ParseStep(rs, rest);
      var n := LineEnd(rest);
      var rec := ReadLine(rest[..n]);
      if rec == None { return None; }
      rs := rs + [rec.value];
      rest := rest[n..];
    }
    assert rs + [] == rs;
    return Some(rs);
  }
}
