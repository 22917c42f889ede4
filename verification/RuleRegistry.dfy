/**
 * The text protocol that registers rules: the line mkrule writes
 * (fred_framework/interceptor_shell/operations.c) and the parser in the kernel
 * (fred_framework/proc_registry.c).
 */
module RuleRegistry {
  import opened Basics

  /** The three protocols mkrule knows, by their IP protocol number. */
  datatype Protocol = UDP | NETAGG | APPAGG

  function NumberOf(p: Protocol): nat {
    match p
    case UDP => 17
    case NETAGG => 144
    case APPAGG => 143
  }

  type address = x: int | 0 <= x < 0x1_0000_0000
  type port = x: int | 0 <= x < 0x1_0000

  /** What a rule asks for; ports and addresses in network byte order. */
  datatype Request = Request(
    name: string, protocol: Option<Protocol>,
    daddr: Option<address>, saddr: Option<address>, dport: Option<port>, sport: Option<port>)

  /** What the kernel makes of a line; a field is present when its FILTER_BY bit is set. */
  datatype Specs = Specs(
    name: string, protocol: Option<int>,
    daddr: Option<int>, saddr: Option<int>, dport: Option<int>, sport: Option<int>)

  // ---- decimal numbers ----

  function Digit(d: nat): char
    requires d < 10
  {
    ("0123456789")[d]
  }

  function Decimal(n: nat): (s: string)
    ensures s != []
  {
    if n < 10 then [Digit(n)] else Decimal(n / 10) + [Digit(n % 10)]
  }

  /** `sprintf("%d")` */
  function Signed(n: int): (s: string)
    ensures s != []
  {
    if n < 0 then "-" + Decimal(-n) else Decimal(n)
  }

  predicate IsDigit(c: char) { '0' <= c <= '9' }

  function DigitPrefix(s: string): (k: nat)
    ensures k <= |s|
    ensures (forall c :: c in s ==> IsDigit(c)) ==> k == |s|
  {
    if s == [] || !IsDigit(s[0]) then 0 else 1 + DigitPrefix(s[1..])
  }

  function DigitsValue(s: string): nat {
    if s == [] then 0
    else 10 * DigitsValue(s[..|s| - 1]) + if IsDigit(s[|s| - 1]) then (s[|s| - 1] - '0') as int else 0
  }

  /** simple_strtol in base ten: an optional sign and the digits that follow. */
  function Strtol(s: string): int {
    if s != [] && s[0] == '-' then 0 - DigitsValue(s[1..][..DigitPrefix(s[1..])])
    else DigitsValue(s[..DigitPrefix(s)])
  }

  lemma {:induction false} DecimalRoundTrip(n: nat)
    ensures DigitsValue(Decimal(n)) == n
    ensures forall c :: c in Decimal(n) ==> IsDigit(c)
  {
    var s := Decimal(n);
    assert IsDigit(Digit(n % 10)) && (Digit(n % 10) - '0') as int == n % 10;
    if n >= 10 {
      DecimalRoundTrip(n / 10);
      assert s[..|s| - 1] == Decimal(n / 10);
    } else {
      assert s[..0] == [];
    }
  }

  predicate Stops(c: char) { c == ':' || c == '\0' }

  /** Free of colons and zeroes. */
  predicate Plain(f: string) { forall c :: c in f ==> !Stops(c) }

  lemma StrtolOf(d: string)
    requires d != [] && forall c :: c in d ==> IsDigit(c)
    ensures Strtol(d) == DigitsValue(d) && Strtol("-" + d) == 0 - DigitsValue(d)
    ensures Plain(d) && Plain("-" + d)
  {
    assert d[0] in d;
    assert d[..|d|] == d && ("-" + d)[1..] == d;
  }

  lemma SignedRoundTrip(n: int)
    ensures Strtol(Signed(n)) == n && Plain(Signed(n))
  {
    var m := if n < 0 then -n else n;
    DecimalRoundTrip(m);
    StrtolOf(Decimal(m));
  }

  function Power10(k: nat): nat { if k == 0 then 1 else 10 * Power10(k - 1) }

  lemma {:induction false} DecimalLength(n: nat, k: nat)
    requires k > 0 && n < Power10(k)
    ensures |Decimal(n)| <= k
    decreases k
  {
    if n >= 10 {
      DecimalLength(n / 10, k - 1);
    }
  }

  lemma SignedLength(n: int)
    ensures 0 <= n < 1000 ==> |Signed(n)| <= 3
    ensures 0 <= n < 0x1_0000 ==> |Signed(n)| <= 5
    ensures -0x8000_0000 <= n < 0x8000_0000 ==> |Signed(n)| <= 11
  {
    assert Power10(3) == 1000;
    assert Power10(5) == 100 * Power10(3);
    assert Power10(7) == 100 * Power10(5) && Power10(10) == 1000 * Power10(7);
    var d := if n < 0 then -n else n;
    if d < 1000 {
      DecimalLength(d, 3);
    } else if d < 100_000 {
      DecimalLength(d, 5);
    } else if d <= 0x8000_0000 {
      DecimalLength(d, 10);
    }
  }

  // ---- the line ----

  function ToSigned(a: address): int { if a < 0x8000_0000 then a as int else a - 0x1_0000_0000 }

  function AddressText(a: Option<address>): string {
    if a.None? then "" else Signed(ToSigned(a.value))
  }

  function PortText(p: Option<port>): string {
    if p.None? then "" else Signed(p.value)
  }

  function ProtocolText(p: Option<Protocol>): string {
    if p.None? then "" else Signed(NumberOf(p.value))
  }

  /** The fields behind the name, empty where none is given. */
  function Texts(r: Request): (f: seq<string>)
    ensures |f| == 5
  {
    [ProtocolText(r.protocol), AddressText(r.daddr), AddressText(r.saddr), PortText(r.dport), PortText(r.sport)]
  }

  function Joined(f: seq<string>): string
    requires f != []
  {
    if |f| == 1 then f[0] else f[0] + ":" + Joined(f[1..])
  }

  /** write_to_proc: the text for a registration. */
  function Line(r: Request): string { "R:" + (r.name + ":" + Joined(Texts(r))) }

  // ---- the kernel's buffer ----

  /** The size of the buffer on both sides, `buffer` and MAX_REGISTRY_LINE. */
  const LINE_SIZE: nat := 800

  /** Whether a scan ends before the end of the buffer. */
  predicate Ends(s: string) { exists c :: c in s && Stops(c) }

  /** The text up to the first colon or zero. */
  function Head(s: string): string {
    if s == [] || Stops(s[0]) then [] else [s[0]] + Head(s[1..])
  }

  /** What follows the first colon or zero. */
  function Tail(s: string): string {
    if s == [] then [] else if Stops(s[0]) then s[1..] else Tail(s[1..])
  }

  /** The fields one after the other, each with its terminator in an array one larger than its room. */
  function Fields(s: string, rooms: seq<nat>): (r: Option<seq<string>>)
    ensures r.Some? ==> |r.value| == |rooms|
    decreases |rooms|, s
  {
    if rooms == [] then Some([])
    else if !Ends(s) || |Head(s)| > rooms[0] then None
    else
      match Fields(Tail(s), rooms[1..])
      case None => None
      case Some(more) => Some([Head(s)] + more)
  }

  /** A field that is not empty sets its bit and its value. */
  function FieldValue(f: string, modulus: nat): Option<int>
    requires modulus > 0
  {
    if f == [] then None else Some(Strtol(f) % modulus)
  }

  function SpecsOf(name: string, f: seq<string>): Specs
    requires |f| == 5
  {
    Specs(name, FieldValue(f[0], 0x100), FieldValue(f[1], 0x1_0000_0000), FieldValue(f[2], 0x1_0000_0000),
      FieldValue(f[3], 0x1_0000), FieldValue(f[4], 0x1_0000))
  }

  /** What parse_request does: `Overrun` if it leaves the buffer or the array of a field. */
  datatype Parsed = Rule(specs: Specs) | NoName | Overrun

  /** Room for the digits in `proto_s`, `addr_s` twice and `port_s` twice. */
  const ROOMS: seq<nat> := [3, 15, 15, 5, 5]

  function Parse(req: string): Parsed
    requires |req| >= 2
  {
    var s := req[2..];
    if !Ends(s) then Overrun
    else if Head(s) == [] then NoName
    else
      match Fields(Tail(s), ROOMS)
      case None => Overrun
      case Some(f) => Rule(SpecsOf(Head(s), f))
  }

  function Zeroes(n: nat): string { seq(n, _ => '\0') }

  /** What the kernel makes of a text: it may overrun the buffer before it is sent. */
  function OnBuffer(line: string): Parsed
    requires |line| >= 2
  {
    if |line| > LINE_SIZE then Overrun else Parse(line + Zeroes(LINE_SIZE - |line|))
  }

  function Received(r: Request): Parsed { OnBuffer(Line(r)) }

  // ---- reading the line back ----

  lemma ToSignedMod(a: address)
    ensures -0x8000_0000 <= ToSigned(a) < 0x8000_0000 && ToSigned(a) % 0x1_0000_0000 == a
  {
  }

  lemma AddressField(a: Option<address>)
    ensures Plain(AddressText(a)) && |AddressText(a)| <= 11
    ensures FieldValue(AddressText(a), 0x1_0000_0000) == if a.None? then None else Some(a.value as int)
  {
    if a.Some? {
      SignedRoundTrip(ToSigned(a.value));
      SignedLength(ToSigned(a.value));
      ToSignedMod(a.value);
    }
  }

  lemma PortField(p: Option<port>)
    ensures Plain(PortText(p)) && |PortText(p)| <= 5
    ensures FieldValue(PortText(p), 0x1_0000) == if p.None? then None else Some(p.value as int)
  {
    if p.Some? {
      SignedRoundTrip(p.value);
      SignedLength(p.value);
    }
  }

  lemma ProtocolField(p: Option<Protocol>)
    ensures Plain(ProtocolText(p)) && |ProtocolText(p)| <= 3
    ensures FieldValue(ProtocolText(p), 0x100) == if p.None? then None else Some(NumberOf(p.value))
  {
    if p.Some? {
      SignedRoundTrip(NumberOf(p.value));
      SignedLength(NumberOf(p.value));
    }
  }

  lemma {:induction false} FieldCut(f: string, stop: char, rest: string)
    requires Plain(f) && Stops(stop)
    ensures Ends(f + [stop] + rest)
    ensures Head(f + [stop] + rest) == f && Tail(f + [stop] + rest) == rest
  {
    var s := f + [stop] + rest;
    assert s[|f|] == stop;
    if f != [] {
      assert s[1..] == f[1..] + [stop] + rest;
      FieldCut(f[1..], stop, rest);
    } else {
      assert s[1..] == rest;
    }
  }

  lemma {:induction false} HeadIsPlain(s: string)
    ensures Plain(Head(s))
  {
    if s != [] && !Stops(s[0]) {
      HeadIsPlain(s[1..]);
    }
  }

  /** What the kernel should read from the line for a request. */
  function Expected(r: Request): Specs {
    Specs(
      r.name,
      if r.protocol.None? then None else Some(NumberOf(r.protocol.value)),
      if r.daddr.None? then None else Some(r.daddr.value as int),
      if r.saddr.None? then None else Some(r.saddr.value as int),
      if r.dport.None? then None else Some(r.dport.value as int),
      if r.sport.None? then None else Some(r.sport.value as int))
  }

  predicate AllFit(f: seq<string>, rooms: seq<nat>) {
    |f| == |rooms| && forall i :: 0 <= i < |f| ==> Plain(f[i]) && |f[i]| <= rooms[i]
  }

  /** Joined fields are read back one by one, and the last one needs a zero behind it. */
  lemma {:induction false} FieldsOfJoined(f: seq<string>, rooms: seq<nat>, n: nat)
    requires f != [] && AllFit(f, rooms)
    ensures Fields(Joined(f) + Zeroes(n), rooms) == if n == 0 then None else Some(f)
    decreases |f|
  {
    var s := Joined(f) + Zeroes(n);
    if |f| > 1 {
      var rest := Joined(f[1..]) + Zeroes(n);
      assert s == f[0] + [':'] + rest;
      FieldCut(f[0], ':', rest);
      FieldsOfJoined(f[1..], rooms[1..], n);
      assert f == [f[0]] + f[1..];
    } else if n > 0 {
      assert s == f[0] + ['\0'] + Zeroes(n - 1);
      FieldCut(f[0], '\0', Zeroes(n - 1));
      assert rooms[1..] == [] && Fields(Zeroes(n - 1), rooms[1..]) == Some([]);
      assert f == [f[0]] + [];
    } else {
      assert s == f[0];
    }
  }

  lemma {:induction false} FieldsFit(f: seq<string>, rooms: seq<nat>, n: nat)
    requires f != [] && |f| == |rooms| && n > 0 && forall i :: 0 <= i < |f| ==> Plain(f[i])
    ensures Fields(Joined(f) + Zeroes(n), rooms).Some? <==> AllFit(f, rooms)
    decreases |f|
  {
    var s := Joined(f) + Zeroes(n);
    if |f| > 1 {
      var rest := Joined(f[1..]) + Zeroes(n);
      assert s == f[0] + [':'] + rest;
      FieldCut(f[0], ':', rest);
      FieldsFit(f[1..], rooms[1..], n);
      assert AllFit(f, rooms) <==> |f[0]| <= rooms[0] && AllFit(f[1..], rooms[1..]);
    } else {
      assert s == f[0] + ['\0'] + Zeroes(n - 1);
      FieldCut(f[0], '\0', Zeroes(n - 1));
      assert rooms[1..] == [] && Fields(Zeroes(n - 1), rooms[1..]) == Some([]);
    }
  }

  /** The parser stays within its arrays exactly for numbers of 3, 15, 15, 5 and 5 characters. */
  lemma FieldLimits(f: seq<string>, n: nat)
    requires |f| == 5 && n > 0 && forall i :: 0 <= i < 5 ==> Plain(f[i])
    ensures Fields(Joined(f) + Zeroes(n), ROOMS).Some?
            <==> |f[0]| <= 3 && |f[1]| <= 15 && |f[2]| <= 15 && |f[3]| <= 5 && |f[4]| <= 5
  {
    FieldsFit(f, ROOMS, n);
  }

  /** Every field of a line fits its array in the kernel. */
  lemma TextsFit(r: Request)
    ensures AllFit(Texts(r), ROOMS)
    ensures SpecsOf(r.name, Texts(r)) == Expected(r)
  {
    ProtocolField(r.protocol);
    AddressField(r.daddr);
    AddressField(r.saddr);
    PortField(r.dport);
    PortField(r.sport);
  }

  lemma ParsesLine(r: Request, n: nat)
    requires r.name != [] && Plain(r.name)
    ensures Parse(Line(r) + Zeroes(n)) == if n == 0 then Overrun else Rule(Expected(r))
  {
    var rest := Joined(Texts(r)) + Zeroes(n);
    assert (Line(r) + Zeroes(n))[2..] == r.name + [':'] + rest;
    FieldCut(r.name, ':', rest);
    TextsFit(r);
    FieldsOfJoined(Texts(r), ROOMS, n);
  }

  /** No buffer is read as a rule whose name is empty or has a colon or a zero. */
  lemma NameIsPlain(req: string, specs: Specs)
    requires |req| >= 2 && (specs.name == [] || !Plain(specs.name))
    ensures Parse(req) != Rule(specs)
  {
    HeadIsPlain(req[2..]);
  }

  lemma Fits(line: string, p: Parsed)
    requires |line| >= 2
    requires |line| <= LINE_SIZE ==>
               Parse(line + Zeroes(LINE_SIZE - |line|)) == if LINE_SIZE == |line| then Overrun else p
    ensures OnBuffer(line) == if |line| < LINE_SIZE then p else Overrun
  {
  }

  lemma GoodName(r: Request)
    requires r.name != [] && Plain(r.name)
    ensures Received(r) == if |Line(r)| < LINE_SIZE then Rule(Expected(r)) else Overrun
  {
    var line := Line(r);
    if |line| <= LINE_SIZE {
      ParsesLine(r, LINE_SIZE - |line|);
    }
    Fits(line, Rule(Expected(r)));
  }

  lemma BadName(r: Request)
    requires r.name == [] || !Plain(r.name)
    ensures Received(r) != Rule(Expected(r))
  {
    if |Line(r)| <= LINE_SIZE {
      NameIsPlain(Line(r) + Zeroes(LINE_SIZE - |Line(r)|), Expected(r));
    }
  }

  /**
   * The kernel reads back exactly what mkrule wrote, each field with its value if and
   * only if it was given, exactly when the name is not empty, has no colon, and leaves
   * a zero at the end of the buffer.
   */
  lemma ParseInvertsLine(r: Request)
    ensures Received(r) == Rule(Expected(r)) <==> r.name != [] && Plain(r.name) && |Line(r)| < LINE_SIZE
  {
    if r.name != [] && Plain(r.name) {
      GoodName(r);
    } else {
      BadName(r);
    }
  }

  /** A rule that asks for nothing: the name, two characters before it and five colons. */
  function Bare(name: string): Request { Request(name, None, None, None, None, None) }

  lemma BareLength(name: string)
    ensures |Line(Bare(name))| == |name| + 7
  {
    assert Texts(Bare(name)) == ["", "", "", "", ""];
    assert Joined([""]) == "" && Joined(["", ""]) == ":" && Joined(["", "", ""]) == "::";
    assert Joined(["", "", "", ""]) == ":::";
  }

  /** The longest name for such a rule has 792 characters. */
  lemma LongestName(name: string)
    requires name != [] && Plain(name)
    ensures Received(Bare(name)) == if |name| <= 792 then Rule(Expected(Bare(name))) else Overrun
  {
    BareLength(name);
    GoodName(Bare(name));
  }

  // ---- the scanning code ----

  /**
   * The scan for one field, up to a colon or a zero, and what lies behind it; no result
   * if it leaves the buffer.
   */
  method Scan(s: string) returns (r: Option<(string, string)>)
    ensures r == if Ends(s) then Some((Head(s), Tail(s))) else None
  {
    var field, next := [], s;
    while next != [] && !Stops(next[0])
      invariant field + Head(next) == Head(s) && Tail(next) == Tail(s)
      invariant Ends(next) <==> Ends(s)
      decreases |next|
    {
      field := field + [next[0]];
      assert next == [next[0]] + next[1..];
      next := next[1..];
    }
    if next == [] {
      return None;
    }
    assert next[0] in next && field + [] == field;
    return Some((field, next[1..]));
  }

  /** Copies a field into an array with `room` characters before its terminator. */
  method NextField(s: string, room: nat) returns (r: Option<(string, string)>)
    ensures r == if Ends(s) && |Head(s)| <= room then Some((Head(s), Tail(s))) else None
  {
    r := Scan(s);
    if r.Some? && |r.value.0| > room {
      r := None;
    }
  }

  function Behind(texts: seq<string>, more: Option<seq<string>>): Option<seq<string>> {
    match more
    case None => None
    case Some(f) => Some(texts + f)
  }

  lemma NextBehind(texts: seq<string>, next: string, more: Option<seq<string>>)
    ensures Behind(texts + [next], more) == Behind(texts, Behind([next], more))
    ensures Behind([], more) == more
  {
    if more.Some? {
      assert (texts + [next]) + more.value == texts + ([next] + more.value);
      assert [] + more.value == more.value;
    }
  }

  /** parse_request for a buffer that starts with 'R'. */
  method ParseRequest(req: string) returns (r: Parsed)
    requires |req| >= 2
    ensures r == Parse(req)
  {
    var scanned := Scan(req[2..]);
    if scanned.None? {
      return Overrun;
    }
    var (name, rest) := scanned.value;
    if name == [] {
      return NoName;
    }
    var texts: seq<string> := [];
    assert ROOMS[0..] == ROOMS;
    NextBehind([], "", Fields(rest, ROOMS));
    for i := 0 to 5
      invariant |texts| == i
      invariant Fields(Tail(req[2..]), ROOMS) == Behind(texts, Fields(rest, ROOMS[i..]))
    {
      var field := NextField(rest, ROOMS[i]);
      assert ROOMS[i..][1..] == ROOMS[i + 1..];
      if field.None? {
        return Overrun;
      }
      NextBehind(texts, field.value.0, Fields(field.value.1, ROOMS[i + 1..]));
      texts := texts + [field.value.0];
      rest := field.value.1;
    }
    return Rule(SpecsOf(name, texts));
  }

  /** A line with a protocol, both addresses and one port, character by character. */
  lemma LineExample(r: Request)
    requires r == Request("dns", Some(UDP), Some(7), Some(0xFFFF_FFFF), Some(53), None)
    ensures Line(r) == "R:dns:17:7:-1:53:"
  {
    assert Signed(17) == "17" && Signed(7) == "7" && Signed(-1) == "-1" && Signed(53) == "53";
    var f := Texts(r);
    assert f == ["17", "7", "-1", "53", ""];
  }
}
