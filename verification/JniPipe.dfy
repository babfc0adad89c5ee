/**
 The pipe between the main controller and its Java interface, of JNI/jnimw.cc: packets are written as
 characters into a pipe and read back one at a time.
 */
module JniPipe {
  import opened Options

  // ---------------------------------------------------------------- decimal numbers

  function DigitChar(n: nat): (c: char)
    requires n < 10
    ensures '0' <= c <= '9' && c as int - 48 == n
  {
    (48 + n) as char
  }

  function Decimal(n: nat): (s: string)
    ensures s != ""
  {
    if n < 10 then [DigitChar(n)] else Decimal(n / 10) + [DigitChar(n % 10)]
  }

  predicate AllDigits(s: string) {
    forall i :: 0 <= i < |s| ==> '0' <= s[i] <= '9'
  }

  function Number(s: string): nat
    requires AllDigits(s)
  {
    if s == "" then 0 else 10 * Number(s[..|s| - 1]) + (s[|s| - 1] as int - 48)
  }

  lemma {:induction false} NumberOfDecimal(n: nat)
    ensures AllDigits(Decimal(n)) && Number(Decimal(n)) == n
  {
    if n < 10 {
      assert Decimal(n)[..0] == "";
    } else {
      NumberOfDecimal(n / 10);
      assert Decimal(n)[..|Decimal(n)| - 1] == Decimal(n / 10);
    }
  }

  function Times10(x: nat, k: nat): nat {
    if k == 0 then x else 10 * Times10(x, k - 1)
  }

  /** A number below a power of ten has no more digits than that. */
  lemma {:induction false} DecimalLength(n: nat, k: nat)
    requires 0 < k && n < Times10(1, k)
    ensures |Decimal(n)| <= k
  {
    if n >= 10 {
      assert k > 1;
      DecimalLength(n / 10, k - 1);
    }
  }

  lemma {:induction false} LeadingZeros(z: nat, s: string)
    requires AllDigits(s)
    ensures AllDigits(Zeros(z) + s) && Number(Zeros(z) + s) == Number(s)
  {
    if s == "" {
      if z > 0 {
        LeadingZeros(z - 1, s);
        assert (Zeros(z) + s)[..z - 1] == Zeros(z - 1) + s;
      }
    } else {
      var t := s[..|s| - 1];
      LeadingZeros(z, t);
      assert (Zeros(z) + s)[..z + |s| - 1] == Zeros(z) + t;
    }
  }

  function Zeros(z: nat): string {
    seq(z, _ => '0')
  }

  /** `strreverse` */
  method Reverse(a: array<char>, begin: nat, end: nat)
    requires begin <= end < a.Length
    modifies a
    ensures forall k :: begin <= k <= end ==> a[k] == old(a[begin + end - k])
    ensures forall k :: 0 <= k < a.Length && !(begin <= k <= end) ==> a[k] == old(a[k])
  {
    var i, j := begin, end;
    while j > i
      invariant begin <= i <= j + 1 <= end + 1 && i + j == begin + end
      invariant forall k :: begin <= k < i || j < k <= end ==> a[k] == old(a[begin + end - k])
      invariant forall k :: 0 <= k < a.Length && (i <= k <= j || k < begin || end < k) ==> a[k] == old(a[k])
    {
      a[i], a[j] := a[j], a[i];
      i, j := i + 1, j - 1;
    }
  }

  /** The loop of `itoa` */
  method PutBackwards(value: nat, str: array<char>) returns (n: nat)
    requires |Backwards(value)| < str.Length
    modifies str
    ensures n == |Backwards(value)| && str[..n] == Backwards(value)
  {
    hide Backwards;
    var v := value;
    n := 0;
    assert str[..0] + Backwards(v) == Backwards(v);
    while true
      invariant n < |Backwards(value)| && Backwards(value) == str[..n] + Backwards(v)
      decreases v
    {
      BackwardsStep(str[..n], v);
      str[n] := DigitChar(v % 10);
      n := n + 1;
      assert str[..n] == str[..n - 1] + [DigitChar(v % 10)];
      v := v / 10;
      if v == 0 {
        break;
      }
    }
  }

  /** `itoa`; there must be room for the terminator. */
  method Itoa(value: nat, str: array<char>) returns (n: nat)
    requires |Decimal(value)| < str.Length
    modifies str
    ensures n == |Decimal(value)| && str[..n] == Decimal(value) && str[n] == '\0'
  {
    hide Decimal, Backwards;
    BackwardsExactly(value);
    n := PutBackwards(value, str);
    str[n] := '\0';
    ghost var digits := str[..n];
    Reverse(str, 0, n - 1);
    assert forall k :: 0 <= k < n ==> str[k] == digits[n - 1 - k];
  }

  /** The digits from the last one on. */
  function Backwards(n: nat): (s: string)
    ensures s != ""
  {
    [DigitChar(n % 10)] + if n < 10 then "" else Backwards(n / 10)
  }

  lemma BackwardsStep(done: string, v: nat)
    ensures done + Backwards(v) == (done + [DigitChar(v % 10)]) + if v / 10 == 0 then "" else Backwards(v / 10)
  {
  }

  lemma {:induction false} BackwardsExactly(n: nat)
    ensures |Backwards(n)| == |Decimal(n)|
    ensures forall k :: 0 <= k < |Decimal(n)| ==> Decimal(n)[k] == Backwards(n)[|Decimal(n)| - 1 - k]
  {
    if n >= 10 {
      BackwardsExactly(n / 10);
    }
  }

  // ---------------------------------------------------------------- packets

  /** What is written: the state of the main controller, or an error or a notification. */
  datatype Packet = Status(state: nat) | Message(id: char, body: string)

  /** States have two digits, bodies five digits' worth of characters. */
  predicate WellFormed(p: Packet) {
    match p
    case Status(state) => state < 100
    case Message(id, body) => id != 'S' && |body| < 100000
  }

  /** The five digits of a length. */
  function Length5(n: nat): (s: string)
    requires n < 100000
    ensures |s| == 5
  {
    LengthFits(n);
    Zeros(5 - |Decimal(n)|) + Decimal(n)
  }

  lemma LengthFits(n: nat)
    requires n < 100000
    ensures |Decimal(n)| <= 5
  {
    assert Times10(1, 5) == 10 * Times10(1, 4) == 100 * Times10(1, 3) == 1000 * Times10(1, 2);
    DecimalLength(n, 5);
  }

  function Encode(p: Packet): (s: string)
    requires WellFormed(p)
    ensures |s| >= 6
  {
    match p
    case Status(state) => ['S', DigitChar(state / 10), DigitChar(state % 10), '0', '0', '0']
    case Message(id, body) => [id] + Length5(|body|) + body
  }

  predicate AllWellFormed(q: seq<Packet>) {
    forall i :: 0 <= i < |q| ==> WellFormed(q[i])
  }

  function EncodeAll(q: seq<Packet>): string
    requires AllWellFormed(q)
  {
    if q == [] then "" else Encode(q[0]) + EncodeAll(q[1..])
  }

  lemma {:induction false} EncodeAllSnoc(q: seq<Packet>, p: Packet)
    requires AllWellFormed(q) && WellFormed(p)
    ensures EncodeAll(q + [p]) == EncodeAll(q) + Encode(p)
  {
    hide Encode;
    if q == [] {
      assert q + [p] == [p] && [p][1..] == [];
      assert EncodeAll([p]) == Encode(p) + "";
    } else {
      EncodeAllSnoc(q[1..], p);
      assert (q + [p])[1..] == q[1..] + [p];
    }
  }

  /** The length that the reader makes of a header. */
  function HeaderLength(h: string): int
    requires |h| == 6
  {
    (h[1] as int - 48) * 10000 + (h[2] as int - 48) * 1000 + (h[3] as int - 48) * 100 +
    (h[4] as int - 48) * 10 + (h[5] as int - 48)
  }

  lemma NumberOfFive(s: string)
    requires |s| == 5 && AllDigits(s)
    ensures Number(s) == (s[0] as int - 48) * 10000 + (s[1] as int - 48) * 1000 + (s[2] as int - 48) * 100 +
                         (s[3] as int - 48) * 10 + (s[4] as int - 48)
  {
    hide Number, AllDigits;
    NumberOfThree(s);
    NumberStep(s, 3);
    NumberStep(s, 4);
    assert s[..5] == s;
  }

  lemma NumberOfThree(s: string)
    requires |s| >= 3 && AllDigits(s)
    ensures Number(s[..3]) == (s[0] as int - 48) * 100 + (s[1] as int - 48) * 10 + (s[2] as int - 48)
  {
    hide Number;
    NumberStep(s, 0);
    NumberStep(s, 1);
    NumberStep(s, 2);
  }

  lemma NumberStep(s: string, k: nat)
    requires k < |s| && AllDigits(s)
    ensures AllDigits(s[..k]) && Number(s[..k + 1]) == 10 * Number(s[..k]) + (s[k] as int - 48)
    ensures Number(s[..0]) == 0
  {
    assert s[..k + 1][..k] == s[..k];
  }

  /** The reader finds the length that the writer put there. */
  lemma HeaderRoundTrip(id: char, n: nat)
    requires n < 100000
    ensures HeaderLength([id] + Length5(n)) == n
  {
    hide Decimal, Number, Zeros;
    var s := Length5(n);
    LengthFits(n);
    NumberOfDecimal(n);
    LeadingZeros(5 - |Decimal(n)|, Decimal(n));
    NumberOfFive(s);
    var h := [id] + s;
    assert h[1] == s[0] && h[2] == s[1] && h[3] == s[2] && h[4] == s[3] && h[5] == s[4];
  }

  /** `create_packet_header` */
  method CreatePacketHeader(sourceLength: nat, id: char) returns (header: string)
    requires sourceLength < 100000
    ensures header == [id] + Length5(sourceLength)
  {
    hide Decimal;
    LengthFits(sourceLength);
    var dest := new char[7];
    dest[0], dest[6] := id, '\0';
    var packetSize := new char[6];
    var j := Itoa(sourceLength, packetSize);
    for i := 1 to 6
      invariant dest[0] == id && packetSize[..j] == Decimal(sourceLength)
      invariant forall k :: 1 <= k < i ==> dest[k] == '0'
    {
      dest[i] := '0';
    }
    for i := 0 to j
      invariant dest[0] == id && packetSize[..j] == Decimal(sourceLength)
      invariant forall k :: 1 <= k < 6 - i ==> dest[k] == '0'
      invariant forall k :: 6 - i <= k < 6 ==> dest[k] == packetSize[j - 6 + k]
    {
      dest[5 - i] := packetSize[j - i - 1];
    }
    header := dest[..6];
    HeaderIs(header, id, packetSize[..j]);
  }

  lemma HeaderIs(header: string, id: char, digits: string)
    requires |header| == 6 && |digits| <= 5 && header[0] == id
    requires forall k :: 1 <= k < 6 - |digits| ==> header[k] == '0'
    requires forall k :: 6 - |digits| <= k < 6 ==> header[k] == digits[|digits| - 6 + k]
    ensures header == [id] + (Zeros(5 - |digits|) + digits)
  {
  }

  // ---------------------------------------------------------------- escaped fields

  predicate Special(c: char) {
    c == '|' || c == '\\'
  }

  /** Bars and backslashes escaped. */
  function Stuffed(s: string): string {
    if s == "" then "" else Stuffed(s[..|s| - 1]) + Escaped(s[|s| - 1])
  }

  function Escaped(c: char): string {
    if Special(c) then ['\\', c] else [c]
  }

  predicate AllSpecial(s: string) {
    forall i :: 0 <= i < |s| ==> Special(s[i])
  }

  /** Twice the length is always enough for the escaped characters; some of it is left unless all are escaped. */
  lemma {:induction false} StuffedLength(s: string)
    ensures |Stuffed(s)| <= 2 * |s| && (|Stuffed(s)| == 2 * |s| <==> AllSpecial(s))
  {
    if s != "" {
      var n := |s| - 1;
      StuffedLength(s[..n]);
      assert AllSpecial(s) <==> AllSpecial(s[..n]) && Special(s[n]);
    }
  }

  /** `stuffer`, and whether there is room for the terminator in what it allocates. */
  method Stuffer(msg: string) returns (stuffed: string, fits: bool)
    ensures stuffed == Stuffed(msg)
    ensures fits <==> exists i :: 0 <= i < |msg| && !Special(msg[i])
  {
    hide AllSpecial, Stuffed;
    var msgStuffed := new char[|msg| * 2];
    var i, j := 0, 0;
    NothingStuffed(msg);
    while i < |msg|
      invariant i <= |msg| && j <= 2 * i && msgStuffed[..j] == Stuffed(msg[..i])
    {
      StuffedStep(msg, i);
      if msg[i] != '|' && msg[i] != '\\' {
        msgStuffed[j] := msg[i];
        j := j + 1;
        assert msgStuffed[..j] == msgStuffed[..j - 1] + [msg[i]];
      } else {
        msgStuffed[j] := '\\';
        j := j + 1;
        msgStuffed[j] := msg[i];
        j := j + 1;
        assert msgStuffed[..j] == msgStuffed[..j - 2] + ['\\', msg[i]];
      }
      i := i + 1;
    }
    assert msg[..|msg|] == msg;
    StuffedLength(msg);
    NotAllSpecial(msg);
    stuffed := msgStuffed[..j];
    fits := j < msgStuffed.Length;
    if fits {
      msgStuffed[j] := '\0';
    }
  }

  lemma NothingStuffed(msg: string)
    ensures Stuffed(msg[..0]) == ""
  {
  }

  lemma StuffedStep(msg: string, i: nat)
    requires i < |msg|
    ensures Stuffed(msg[..i + 1]) == Stuffed(msg[..i]) + Escaped(msg[i])
  {
    assert msg[..i + 1][..i] == msg[..i];
  }

  lemma NotAllSpecial(s: string)
    ensures !AllSpecial(s) <==> exists i :: 0 <= i < |s| && !Special(s[i])
  {
  }

  /** The fields of a body: separated by bars, with escaped characters taken as they are. */
  function Fields(s: string, field: string): seq<string>
    decreases |s|
  {
    if s == "" then [field]
    else if s[0] == '\\' && |s| >= 2 then Fields(s[2..], field + [s[1]])
    else if s[0] == '|' then [field] + Fields(s[1..], "")
    else Fields(s[1..], field + [s[0]])
  }

  /** Reading stuffed characters gives back the original ones, whatever comes after them. */
  lemma {:induction false} FieldsOfStuffed(msg: string, rest: string, field: string)
    ensures Fields(Stuffed(msg) + rest, field) == Fields(rest, field + msg)
  {
    if msg == "" {
      assert Stuffed(msg) + rest == rest && field + msg == field;
    } else {
      var n := |msg| - 1;
      var c := msg[n];
      var escaped := Escaped(c);
      FieldsOfStuffed(msg[..n], escaped + rest, field);
      assert Stuffed(msg) + rest == Stuffed(msg[..n]) + (escaped + rest);
      assert field + msg == (field + msg[..n]) + [c];
      FieldsOfOne(c, rest, field + msg[..n]);
    }
  }

  lemma FieldsOfOne(c: char, rest: string, field: string)
    ensures Fields(Escaped(c) + rest, field) == Fields(rest, field + [c])
  {
    var s := Escaped(c) + rest;
    assert s[|Escaped(c)|..] == rest;
  }

  /** Fields put together as `error` and `notify` do. */
  function Joined(fields: seq<string>): string
    requires fields != []
  {
    if |fields| == 1 then Stuffed(fields[0]) else Stuffed(fields[0]) + "|" + Joined(fields[1..])
  }

  lemma FieldEnds(rest: string, field: string)
    ensures Fields("", field) == [field] && Fields("|" + rest, field) == [field] + Fields(rest, "")
  {
    assert ("|" + rest)[1..] == rest;
  }

  /** Whatever is in them, the fields of a body can be told apart. */
  lemma {:induction false} FieldsOfJoined(fields: seq<string>)
    requires fields != []
    ensures Fields(Joined(fields), "") == fields
  {
    hide Stuffed, Fields;
    var f := fields[0];
    assert "" + f == f;
    if |fields| == 1 {
      FieldsOfStuffed(f, "", "");
      FieldEnds("", f);
      assert Stuffed(f) + "" == Stuffed(f);
    } else {
      var rest := Joined(fields[1..]);
      FieldsOfJoined(fields[1..]);
      FieldsOfStuffed(f, "|" + rest, "");
      FieldEnds(rest, f);
      assert Stuffed(f) + ("|" + rest) == Joined(fields);
    }
  }

  /** A signed number as `%d` prints it. */
  function Signed(n: int): string {
    if n < 0 then "-" + Decimal(-n) else Decimal(n)
  }

  function ErrorBody(severity: int, msg: string): string {
    Signed(severity) + "|" + Stuffed(msg)
  }

  function NotifyBody(sec: int, usec: int, source: string, severity: int, msg: string): string {
    Signed(sec) + "|" + Signed(usec) + "|" + Stuffed(source) + "|" + Signed(severity) + "|" + Stuffed(msg)
  }

  lemma {:induction false} StuffedPlain(s: string)
    requires forall i :: 0 <= i < |s| ==> !Special(s[i])
    ensures Stuffed(s) == s
  {
    if s != "" {
      StuffedPlain(s[..|s| - 1]);
    }
  }

  lemma StuffedSigned(n: int)
    ensures Stuffed(Signed(n)) == Signed(n)
  {
    hide Decimal, Stuffed;
    NumberOfDecimal(if n < 0 then -n else n);
    StuffedPlain(Signed(n));
  }

  /** The fields of an error and of a notification can be read back. */
  lemma BodiesReadBack(sec: int, usec: int, source: string, severity: int, msg: string)
    ensures Fields(ErrorBody(severity, msg), "") == [Signed(severity), msg]
    ensures Fields(NotifyBody(sec, usec, source, severity, msg), "") ==
            [Signed(sec), Signed(usec), source, Signed(severity), msg]
  {
    hide Stuffed, Fields, Signed;
    StuffedSigned(sec);
    StuffedSigned(usec);
    StuffedSigned(severity);
    var two := [Signed(severity), msg];
    FieldsOfJoined(two);
    assert two[1..] == [msg];
    assert ErrorBody(severity, msg) == Joined(two);
    NotifyIsJoined(sec, usec, source, severity, msg);
    FieldsOfJoined([Signed(sec), Signed(usec), source, Signed(severity), msg]);
  }

  lemma NotifyIsJoined(sec: int, usec: int, source: string, severity: int, msg: string)
    requires Stuffed(Signed(sec)) == Signed(sec) && Stuffed(Signed(usec)) == Signed(usec)
    requires Stuffed(Signed(severity)) == Signed(severity)
    ensures NotifyBody(sec, usec, source, severity, msg) ==
            Joined([Signed(sec), Signed(usec), source, Signed(severity), msg])
  {
    hide Stuffed, Signed;
    var two := [Signed(severity), msg];
    var three := [source] + two;
    var four := [Signed(usec)] + three;
    var five := [Signed(sec)] + four;
    assert two[1..] == [msg] && three[1..] == two && four[1..] == three && five[1..] == four;
    assert five == [Signed(sec), Signed(usec), source, Signed(severity), msg];
    assert Joined(two) == Signed(severity) + "|" + Stuffed(msg);
    assert Joined(three) == Stuffed(source) + "|" + Joined(two);
    assert Joined(four) == Signed(usec) + "|" + Joined(three);
    assert Joined(five) == Signed(sec) + "|" + Joined(four);
  }

  // ---------------------------------------------------------------- the packet queue

  /** `mc_state_enum` has fifteen values. */
  const STATES := 15

  /** Steps that exclude each other; a read waits until there is something to read. */
  datatype Step =
    | StatusChange(state: nat)
    | Error(severity: int, msg: string)
    | Notify(sec: int, usec: int, source: string, severity: int, msg: string)
    | Read

  predicate Possible(step: Step) {
    match step
    case StatusChange(state) => state < STATES
    case Error(severity, msg) => |ErrorBody(severity, msg)| < 100000
    case Notify(sec, usec, source, severity, msg) => |NotifyBody(sec, usec, source, severity, msg)| < 100000
    case Read => true
  }

  /** The pipe as a queue of packets: those that wait, those that were read and all that were written. */
  datatype Queue = Queue(waiting: seq<Packet>, pending: bool, last: nat, taken: seq<Packet>, sent: seq<Packet>) {
    function Put(p: Packet): Queue {
      this.(waiting := waiting + [p], sent := sent + [p])
    }
  }

  const EMPTY := Queue([], false, 0, [], [])

  function Next(q: Queue, step: Step): Queue {
    match step
    case StatusChange(state) =>
      (if q.last != state || !q.pending then q.Put(Status(state)) else q).(pending := true, last := state)
    case Error(severity, msg) => q.Put(Message('E', ErrorBody(severity, msg)))
    case Notify(sec, usec, source, severity, msg) =>
      q.Put(Message('N', NotifyBody(sec, usec, source, severity, msg)))
    case Read =>
      if q.waiting == [] then q
      else q.(waiting := q.waiting[1..], taken := q.taken + [q.waiting[0]],
              pending := q.pending && !q.waiting[0].Status?)
  }

  function After(steps: seq<Step>): Queue {
    if steps == [] then EMPTY else Next(After(steps[..|steps| - 1]), steps[|steps| - 1])
  }

  /** The state in the last status packet. */
  function LastStatus(q: seq<Packet>): Option<nat> {
    if q == [] then None
    else if q[|q| - 1].Status? then Some(q[|q| - 1].state)
    else LastStatus(q[..|q| - 1])
  }

  lemma {:induction false} LastStatusTail(q: seq<Packet>)
    requires q != [] && !q[0].Status?
    ensures LastStatus(q[1..]) == LastStatus(q)
  {
    var n := |q| - 1;
    if n > 0 {
      assert q[1..][n - 1] == q[n] && q[1..][..n - 1] == q[..n][1..];
      if !q[n].Status? {
        LastStatusTail(q[..n]);
      }
    }
  }

  ghost predicate Sound(q: Queue) {
    q.taken + q.waiting == q.sent && AllWellFormed(q.waiting) && q.last < STATES &&
    (q.pending ==> LastStatus(q.waiting) == Some(q.last))
  }

  lemma NextIsSound(q: Queue, step: Step)
    requires Sound(q) && Possible(step)
    ensures Sound(Next(q, step))
  {
    hide ErrorBody, NotifyBody;
    if step.Read? {
      if q.waiting != [] {
        if !q.waiting[0].Status? {
          LastStatusTail(q.waiting);
        }
        assert q.taken + [q.waiting[0]] + q.waiting[1..] == q.taken + q.waiting;
      }
    } else {
      var r := Next(q, step);
      if r.waiting != q.waiting {
        var p := r.waiting[|q.waiting|];
        assert r.waiting[..|q.waiting|] == q.waiting;
        assert q.taken + (q.waiting + [p]) == q.taken + q.waiting + [p];
      }
    }
  }

  /**
   After every sequence of steps: what was read is exactly what was written first, the rest is waiting,
   and a status message that is pending is waiting and the last one has the last state.
   */
  lemma {:induction false} AfterIsSound(steps: seq<Step>)
    requires forall i :: 0 <= i < |steps| ==> Possible(steps[i])
    ensures Sound(After(steps))
  {
    if steps != [] {
      AfterIsSound(steps[..|steps| - 1]);
      NextIsSound(After(steps[..|steps| - 1]), steps[|steps| - 1]);
    }
  }

  // ---------------------------------------------------------------- what a reader makes of it

  /** What the other side is told. */
  datatype Info =
    | McState(state: nat)
    | ErrorReport(severity: int, msg: string)
    | Notification(sec: int, usec: int, source: string, severity: int, msg: string)

  /** A number with an optional sign. */
  function ParseInt(s: string): Option<int> {
    if s != "" && s[0] == '-' && AllDigits(s[1..]) then
      Some(0 - Number(s[1..]))
    else if AllDigits(s) then Some(Number(s))
    else None
  }

  /** A status has two digits after its letter; other packets have five for the length of their fields. */
  function Parse(packet: string): Option<Info> {
    if |packet| < 6 then None
    else if packet[0] == 'S' then
      if AllDigits(packet[1..3]) then Some(McState(Number(packet[1..3]))) else None
    else if !AllDigits(packet[1..6]) || Number(packet[1..6]) != |packet| - 6 then None
    else ParseFields(packet[0], Fields(packet[6..], ""))
  }

  function ParseFields(id: char, fields: seq<string>): Option<Info> {
    if id == 'E' && |fields| == 2 then
      var severity := ParseInt(fields[0]);
      if severity.Some? then Some(ErrorReport(severity.value, fields[1])) else None
    else if id == 'N' && |fields| == 5 then
      var sec, usec, severity := ParseInt(fields[0]), ParseInt(fields[1]), ParseInt(fields[3]);
      if sec.Some? && usec.Some? && severity.Some? then
        Some(Notification(sec.value, usec.value, fields[2], severity.value, fields[4]))
      else None
    else None
  }

  lemma ParseSigned(n: int)
    ensures ParseInt(Signed(n)) == Some(n)
  {
    hide Decimal, Number;
    NumberOfDecimal(if n < 0 then -n else n);
    assert n < 0 ==> Signed(n)[1..] == Decimal(-n);
  }

  /** The digits of a status are those of the state, and of any other packet those of its length. */
  lemma ParsedDigits(p: Packet)
    requires WellFormed(p)
    ensures p.Status? ==> AllDigits(Encode(p)[1..3]) && Number(Encode(p)[1..3]) == p.state
    ensures p.Message? ==> AllDigits(Encode(p)[1..6]) && Number(Encode(p)[1..6]) == |p.body|
    ensures p.Message? ==> Encode(p)[6..] == p.body && |Encode(p)| == 6 + |p.body|
  {
    hide Length5, Number;
    if p.Status? {
      var s := Encode(p)[1..3];
      assert s == [DigitChar(p.state / 10), DigitChar(p.state % 10)];
      NumberStep(s, 0);
      NumberStep(s, 1);
      assert s[..2] == s;
    } else {
      assert Encode(p)[1..6] == Length5(|p.body|);
      LengthIs(|p.body|);
    }
  }

  lemma LengthIs(n: nat)
    requires n < 100000
    ensures AllDigits(Length5(n)) && Number(Length5(n)) == n
  {
    hide Decimal, Number, Zeros;
    LengthFits(n);
    NumberOfDecimal(n);
    LeadingZeros(5 - |Decimal(n)|, Decimal(n));
  }

  /** What a packet says to a reader. */
  ghost predicate Says(p: Packet, info: Info) {
    WellFormed(p) && Parse(Encode(p)) == Some(info)
  }

  /** Status, errors and notifications are recovered as they were. */
  lemma StatusSays(state: nat)
    requires state < 100
    ensures Says(Status(state), McState(state))
  {
    hide Number, AllDigits;
    ParsedDigits(Status(state));
  }

  lemma ErrorSays(severity: int, msg: string)
    requires |ErrorBody(severity, msg)| < 100000
    ensures Says(Message('E', ErrorBody(severity, msg)), ErrorReport(severity, msg))
  {
    hide Number, AllDigits, Fields, Signed, ErrorBody, Length5, ParseInt;
    ParsedDigits(Message('E', ErrorBody(severity, msg)));
    BodiesReadBack(0, 0, "", severity, msg);
    ParseSigned(severity);
  }

  lemma NotifySays(sec: int, usec: int, source: string, severity: int, msg: string)
    requires |NotifyBody(sec, usec, source, severity, msg)| < 100000
    ensures Says(Message('N', NotifyBody(sec, usec, source, severity, msg)),
                 Notification(sec, usec, source, severity, msg))
  {
    hide Number, AllDigits, Fields, Signed, NotifyBody, Length5, ParseInt;
    ParsedDigits(Message('N', NotifyBody(sec, usec, source, severity, msg)));
    BodiesReadBack(sec, usec, source, severity, msg);
    ParseSigned(sec);
    ParseSigned(usec);
    ParseSigned(severity);
  }

  lemma SaysKind(p: Packet, info: Info)
    requires Says(p, info)
    ensures p.Status? <==> info.McState?
  {
    hide Number, AllDigits, Fields, Length5;
    assert p.Message? ==> Encode(p)[0] == p.id;
  }

  // ---------------------------------------------------------------- what is told, and what is heard

  /** How many of the first `n` are states. */
  function StatesIn(infos: seq<Info>, n: nat): nat {
    if n == 0 then 0 else StatesIn(infos, n - 1) + if n <= |infos| && infos[n - 1].McState? then 1 else 0
  }

  /** Everything that is told in a run: a state only if it has not just been told. */
  ghost function Told(steps: seq<Step>): seq<Info>
    decreases |steps|, 0
  {
    if steps == [] then [] else Told(steps[..|steps| - 1]) + News(steps[..|steps| - 1], steps[|steps| - 1])
  }

  /** What one more step tells. */
  ghost function News(steps: seq<Step>, step: Step): seq<Info>
    decreases |steps|, 5
  {
    match step
    case StatusChange(state) => if JustTold(steps, state) then [] else [McState(state)]
    case Error(severity, msg) => [ErrorReport(severity, msg)]
    case Notify(sec, usec, source, severity, msg) => [Notification(sec, usec, source, severity, msg)]
    case Read => []
  }

  /** How much of it is heard: each read hears one thing, if there is any. */
  ghost function Heard(steps: seq<Step>): nat
    decreases |steps|, 1
  {
    if steps == [] then 0
    else
      var init := steps[..|steps| - 1];
      if steps[|steps| - 1].Read? && Heard(init) < |Told(init)| then Heard(init) + 1 else Heard(init)
  }

  ghost function StatesHeard(steps: seq<Step>): nat
    decreases |steps|, 2
  {
    StatesIn(Told(steps), Heard(steps))
  }

  /** The last change was at `k`, to this state, and no state has been heard since. */
  ghost predicate JustToldAt(steps: seq<Step>, state: nat, k: nat)
    requires k < |steps|
    decreases |steps|, 3
  {
    steps[k] == StatusChange(state) && (forall j :: k < j < |steps| ==> !steps[j].StatusChange?) &&
    StatesHeard(steps) == StatesHeard(steps[..k])
  }

  ghost predicate JustTold(steps: seq<Step>, state: nat)
    decreases |steps|, 4
  {
    exists k: nat :: k < |steps| && JustToldAt(steps, state, k)
  }

  lemma StatesInPrefix(a: seq<Info>, b: seq<Info>, n: nat)
    requires a <= b && n <= |a|
    ensures StatesIn(a, n) == StatesIn(b, n)
  {
  }

  /** The queue holds packets that say what is told, and those taken are what is heard. */
  ghost predicate Tells(q: Queue, steps: seq<Step>) {
    && |q.sent| == |Told(steps)| && |q.taken| == Heard(steps) && q.taken + q.waiting == q.sent
    && (forall i :: 0 <= i < |q.sent| ==> Says(q.sent[i], Told(steps)[i]))
  }

  lemma PutTells(q: Queue, steps: seq<Step>, more: seq<Step>, p: Packet, info: Info)
    requires Tells(q, steps) && Says(p, info) && Told(more) == Told(steps) + [info] && Heard(more) == Heard(steps)
    ensures Tells(q.Put(p), more)
  {
    hide Says, Told, Heard;
    assert q.taken + (q.waiting + [p]) == q.sent + [p];
  }

  lemma SameTells(q: Queue, r: Queue, steps: seq<Step>, more: seq<Step>)
    requires Tells(q, steps) && r.sent == q.sent && r.taken == q.taken && r.waiting == q.waiting
    requires Told(more) == Told(steps) && Heard(more) == Heard(steps)
    ensures Tells(r, more)
  {
    hide Says, Told, Heard;
  }

  lemma TakeTells(q: Queue, steps: seq<Step>, more: seq<Step>)
    requires Tells(q, steps) && q.waiting != [] && Told(more) == Told(steps) && Heard(more) == Heard(steps) + 1
    ensures Tells(q.(waiting := q.waiting[1..], taken := q.taken + [q.waiting[0]]), more)
  {
    hide Says, Told, Heard;
    assert (q.taken + [q.waiting[0]]) + q.waiting[1..] == q.taken + q.waiting;
  }

  lemma ToldNext(steps: seq<Step>, step: Step)
    ensures Told(steps + [step]) == Told(steps) + News(steps, step)
  {
    hide JustTold;
    assert (steps + [step])[..|steps|] == steps;
    assert Told(steps) + [] == Told(steps);
  }

  lemma TellsNext(q: Queue, steps: seq<Step>, step: Step)
    requires Tells(q, steps) && Possible(step)
    requires forall state :: q.pending && q.last == state <==> JustTold(steps, state)
    ensures Tells(Next(q, step), steps + [step]) && Heard(steps) <= |Told(steps)| && Told(steps) <= Told(steps + [step])
  {
    hide Says, Told, Heard, JustTold, Tells, ErrorBody, NotifyBody;
    var more, r := steps + [step], Next(q, step);
    ToldNext(steps, step);
    HeardNext(steps, step);
    TellsEnough(q, steps);
    assert Told(steps) + [] == Told(steps);
    match step
    case StatusChange(state) =>
      assert q.pending && q.last == state <==> JustTold(steps, state);
      if JustTold(steps, state) {
        SameTells(q, r, steps, more);
      } else {
        StatusSays(state);
        PutTells(q, steps, more, Status(state), McState(state));
        SameTells(q.Put(Status(state)), r, more, more);
      }
    case Error(severity, msg) =>
      ErrorSays(severity, msg);
      PutTells(q, steps, more, Message('E', ErrorBody(severity, msg)), ErrorReport(severity, msg));
    case Notify(sec, usec, source, severity, msg) =>
      NotifySays(sec, usec, source, severity, msg);
      PutTells(q, steps, more, Message('N', NotifyBody(sec, usec, source, severity, msg)),
               Notification(sec, usec, source, severity, msg));
    case Read =>
      if q.waiting == [] {
        SameTells(q, r, steps, more);
      } else {
        TakeTells(q, steps, more);
        SameTells(q.(waiting := q.waiting[1..], taken := q.taken + [q.waiting[0]]), r, more, more);
      }
  }

  /** One more step hears a state exactly when it reads a status. */
  lemma StatesHeardNext(q: Queue, steps: seq<Step>, step: Step)
    requires Tells(q, steps) && Heard(steps) <= |Told(steps)| && Told(steps) <= Told(steps + [step])
    ensures StatesHeard(steps + [step]) ==
            StatesHeard(steps) + if step.Read? && q.waiting != [] && q.waiting[0].Status? then 1 else 0
  {
    hide Says, Told, Heard, StatesIn;
    var more, n := steps + [step], Heard(steps);
    HeardNext(steps, step);
    StatesInPrefix(Told(steps), Told(more), n);
    if q.waiting != [] {
      assert q.sent[n] == q.waiting[0];
      SaysKind(q.sent[n], Told(steps)[n]);
      StatesInStep(Told(more), n);
    }
  }

  lemma HeardNext(steps: seq<Step>, step: Step)
    ensures Heard(steps + [step]) == Heard(steps) + if step.Read? && Heard(steps) < |Told(steps)| then 1 else 0
  {
    hide Told;
    assert (steps + [step])[..|steps|] == steps;
  }

  lemma StatesInStep(infos: seq<Info>, n: nat)
    requires n < |infos|
    ensures StatesIn(infos, n + 1) == StatesIn(infos, n) + if infos[n].McState? then 1 else 0
  {
  }

  /** A state has just been told exactly when its message is pending. */
  lemma PendingNext(q: Queue, steps: seq<Step>, step: Step, state: nat)
    requires q.pending && q.last == state <==> JustTold(steps, state)
    requires StatesHeard(steps + [step]) ==
             StatesHeard(steps) + if step.Read? && q.waiting != [] && q.waiting[0].Status? then 1 else 0
    requires forall k :: 0 <= k <= |steps| ==> StatesHeard(steps[..k]) <= StatesHeard(steps)
    ensures Next(q, step).pending && Next(q, step).last == state <==> JustTold(steps + [step], state)
  {
    hide StatesHeard, ErrorBody, NotifyBody;
    var more, n := steps + [step], |steps|;
    assert more[..n] == steps;
    assert forall k :: 0 <= k < n ==> more[k] == steps[k] && more[..k] == steps[..k];
    if step.StatusChange? {
      assert JustToldAt(more, step.state, n);
      assert forall k :: 0 <= k < n ==> !JustToldAt(more, state, k);
    } else {
      assert !JustToldAt(more, state, n);
      if step.Read? && q.waiting != [] && q.waiting[0].Status? {
        assert forall k :: 0 <= k < n ==> !JustToldAt(more, state, k);
      } else {
        assert forall k :: 0 <= k < n ==> (JustToldAt(more, state, k) <==> JustToldAt(steps, state, k));
      }
    }
  }

  /** In every run the queue tells what is told, and a status is pending exactly when its state has just been told. */
  lemma {:induction false} AfterTells(steps: seq<Step>)
    requires forall i :: 0 <= i < |steps| ==> Possible(steps[i])
    ensures Tells(After(steps), steps) && Heard(steps) <= |Told(steps)|
    ensures forall state :: After(steps).pending && After(steps).last == state <==> JustTold(steps, state)
    ensures forall k :: 0 <= k <= |steps| ==> StatesHeard(steps[..k]) <= StatesHeard(steps)
  {
    hide Tells, StatesHeard, Next, Possible;
    if steps == [] {
      NothingTold();
      assert steps[..0] == steps;
    } else {
      var n := |steps| - 1;
      var init, step := steps[..n], steps[n];
      AfterTells(init);
      assert init + [step] == steps;
      TellsNext(After(init), init, step);
      TellsEnough(After(steps), steps);
      StatesHeardNext(After(init), init, step);
      forall state ensures After(steps).pending && After(steps).last == state <==> JustTold(steps, state) {
        PendingNext(After(init), init, step, state);
      }
      forall k | 0 <= k <= |steps| ensures StatesHeard(steps[..k]) <= StatesHeard(steps) {
        if k <= n {
          assert init[..k] == steps[..k];
        } else {
          assert steps[..k] == steps;
        }
      }
    }
  }

  lemma NothingTold()
    ensures Tells(EMPTY, []) && forall state :: !JustTold([], state)
  {
  }

  lemma TellsEnough(q: Queue, steps: seq<Step>)
    requires Tells(q, steps)
    ensures Heard(steps) <= |Told(steps)| && (Heard(steps) < |Told(steps)| <==> q.waiting != [])
  {
    hide Says, Told, Heard;
  }

  // ---------------------------------------------------------------- the pipe

  class Jnimw {
    var content: string
    var pipeSize: int
    var hasStatusMessagePending: bool
    var lastMcState: nat
    ghost var queue: Queue

    ghost predicate Valid()
      reads this
    {
      Sound(queue) && content == EncodeAll(queue.waiting) && pipeSize == |content| &&
      hasStatusMessagePending == queue.pending && lastMcState == queue.last
    }

    constructor ()
      ensures Valid() && queue == EMPTY
    {
      content, pipeSize, hasStatusMessagePending, lastMcState, queue := "", 0, false, 0, EMPTY;
    }

    /** `write_pipe` of a packet */
    method WritePipe(buf: string, ghost p: Packet)
      requires AllWellFormed(queue.waiting) && content == EncodeAll(queue.waiting) && pipeSize == |content|
      requires WellFormed(p) && buf == Encode(p)
      modifies `content, `pipeSize, `queue
      ensures queue == old(queue).Put(p) && AllWellFormed(queue.waiting) && content == old(content) + buf
      ensures content == EncodeAll(queue.waiting) && pipeSize == |content|
    {
      EncodeAllSnoc(queue.waiting, p);
      content := content + buf;
      pipeSize := pipeSize + |buf|;
      queue := queue.Put(p);
    }

    /** `status_change` */
    method StatusChange(mcState: nat)
      requires Valid() && mcState < STATES
      modifies this
      ensures Valid() && queue == Next(old(queue), Step.StatusChange(mcState))
      ensures content == old(content) +
        if old(hasStatusMessagePending) && old(lastMcState) == mcState then ""
        else "S" + [DigitChar(mcState / 10)] + [DigitChar(mcState % 10)] + "000"
      ensures hasStatusMessagePending && lastMcState == mcState
    {
      hide EncodeAll, LastStatus;
      assert content + "" == content;
      NextIsSound(queue, Step.StatusChange(mcState));
      if lastMcState != mcState || !hasStatusMessagePending {
        var str := ['S', DigitChar(mcState / 10), DigitChar(mcState % 10), '0', '0', '0'];
        WritePipe(str, Status(mcState));
      }
      hasStatusMessagePending := true;
      lastMcState := mcState;
      queue := queue.(pending := true, last := mcState);
    }

    /** `error`, and whether what is escaped fits into its buffer */
    method Error(severity: int, msg: string) returns (fits: bool)
      requires Valid() && Possible(Step.Error(severity, msg))
      modifies this
      ensures Valid() && queue == Next(old(queue), Step.Error(severity, msg))
      ensures fits <==> !AllSpecial(msg)
    {
      hide EncodeAll, LastStatus, Signed, Length5;
      NextIsSound(queue, Step.Error(severity, msg));
      var stuffed;
      stuffed, fits := Stuffer(msg);
      var tmp := Signed(severity) + "|" + stuffed;
      var header := CreatePacketHeader(|tmp|, 'E');
      WritePipe(header + tmp, Message('E', tmp));
    }

    /** `notify`, and whether what is escaped fits into its buffers */
    method Notify(sec: int, usec: int, source: string, severity: int, msg: string) returns (fits: bool)
      requires Valid() && Possible(Step.Notify(sec, usec, source, severity, msg))
      modifies this
      ensures Valid() && queue == Next(old(queue), Step.Notify(sec, usec, source, severity, msg))
      ensures fits <==> !AllSpecial(source) && !AllSpecial(msg)
    {
      hide EncodeAll, LastStatus, Signed, Length5;
      NextIsSound(queue, Step.Notify(sec, usec, source, severity, msg));
      var sourceStuffed, sourceFits := Stuffer(source);
      var msgStuffed, msgFits := Stuffer(msg);
      fits := sourceFits && msgFits;
      var tmp := Signed(sec) + "|" + Signed(usec) + "|" + sourceStuffed + "|" + Signed(severity) + "|" + msgStuffed;
      var header := CreatePacketHeader(|tmp|, 'N');
      WritePipe(header + tmp, Message('N', tmp));
    }

    /** `read`: up to `n` characters */
    method TakeChars(n: nat) returns (s: string)
      modifies `content
      ensures |s| == if n <= |old(content)| then n else |old(content)|
      ensures s == old(content)[..|s|] && content == old(content)[|s|..]
    {
      var k := if n <= |content| then n else |content|;
      s := content[..k];
      content := content[k..];
    }

    /** `read_pipe`, once there is something to read */
    method ReadPipe() returns (packet: string)
      requires Valid() && queue.waiting != []
      modifies this
      ensures Valid() && queue == Next(old(queue), Step.Read) && packet == Encode(old(queue).waiting[0])
      ensures hasStatusMessagePending == (old(hasStatusMessagePending) && packet[0] != 'S')
    {
      hide Sound, Encode, EncodeAll, HeaderLength;
      NextIsSound(queue, Step.Read);
      WaitingIsSound(queue);
      ghost var p, rest := queue.waiting[0], EncodeAll(queue.waiting[1..]);
      queue := Next(queue, Step.Read);
      packet := TakeChars(6);
      pipeSize := pipeSize - |packet|;
      FrontOfPacket(p, rest);
      if packet[0] == 'S' {
        hasStatusMessagePending := false;
        return;
      }
      var packetSize := HeaderLength(packet);
      var body := TakeChars(packetSize);
      pipeSize := pipeSize - |body|;
      packet := packet + body;
    }
  }

  lemma WaitingIsSound(q: Queue)
    requires Sound(q) && q.waiting != []
    ensures AllWellFormed(q.waiting) && EncodeAll(q.waiting) == Encode(q.waiting[0]) + EncodeAll(q.waiting[1..])
  {
  }

  /** What the two reads of a packet find. */
  lemma FrontOfPacket(p: Packet, rest: string)
    requires WellFormed(p)
    ensures var s := Encode(p) + rest;
      s[0] == Encode(p)[0] && (s[0] == 'S' <==> p.Status?) &&
      (p.Status? ==> s[..6] == Encode(p) && s[6..] == rest) &&
      (p.Message? ==> HeaderLength(s[..6]) == |p.body| && s[6..] == p.body + rest &&
                      s[..6] + p.body == Encode(p) && (p.body + rest)[..|p.body|] == p.body && (p.body + rest)[|p.body|..] == rest)
  {
    hide Length5;
    var s := Encode(p) + rest;
    if p.Message? {
      HeaderRoundTrip(p.id, |p.body|);
      assert s[..6] == [p.id] + Length5(|p.body|);
    }
  }

  function Encoded(q: seq<Packet>): seq<string>
    requires AllWellFormed(q)
  {
    seq(|q|, i requires 0 <= i < |q| => Encode(q[i]))
  }

  /** Every run of the pipe is one of the queue: each read returns the oldest packet that was not read. */
  method Run(steps: seq<Step>) returns (jnimw: Jnimw, received: seq<string>)
    requires forall i :: 0 <= i < |steps| ==> Possible(steps[i])
    ensures fresh(jnimw) && jnimw.Valid() && jnimw.queue == After(steps)
    ensures AllWellFormed(After(steps).taken) && received == Encoded(After(steps).taken)
    ensures |received| == Heard(steps) <= |Told(steps)|
    ensures forall i :: 0 <= i < |received| ==> Parse(received[i]) == Some(Told(steps)[i])
  {
    hide Encode, Sound, ErrorBody, NotifyBody, EncodeAll, Told, Heard, Tells, Parse, JustTold, StatesHeard;
    jnimw := new Jnimw();
    received := [];
    assert steps[..0] == [];
    for i := 0 to |steps|
      invariant fresh(jnimw) && jnimw.Valid() && jnimw.queue == After(steps[..i])
      invariant AllWellFormed(jnimw.queue.taken) && received == Encoded(jnimw.queue.taken)
    {
      assert steps[..i + 1][..i] == steps[..i];
      match steps[i] {
        case StatusChange(state) => jnimw.StatusChange(state);
        case Error(severity, msg) => var _ := jnimw.Error(severity, msg);
        case Notify(sec, usec, source, severity, msg) => var _ := jnimw.Notify(sec, usec, source, severity, msg);
        case Read =>
          if jnimw.pipeSize > 0 {
            WaitingExactly(jnimw.queue);
            var packet := jnimw.ReadPipe();
            received := received + [packet];
          } else {
            WaitingExactly(jnimw.queue);
          }
      }
    }
    assert steps[..|steps|] == steps;
    AfterTells(steps);
    ReceivedIsTold(After(steps), steps);
  }

  lemma ReceivedIsTold(q: Queue, steps: seq<Step>)
    requires Tells(q, steps) && AllWellFormed(q.taken)
    ensures |q.taken| == Heard(steps) <= |Told(steps)|
    ensures forall i :: 0 <= i < |q.taken| ==> Parse(Encode(q.taken[i])) == Some(Told(steps)[i])
  {
    hide Encode, Parse;
    assert forall i :: 0 <= i < |q.taken| ==> q.taken[i] == q.sent[i];
  }

  /** There is something in the pipe exactly when a packet waits. */
  lemma WaitingExactly(q: Queue)
    requires Sound(q)
    ensures AllWellFormed(q.waiting) && (q.waiting == [] <==> |EncodeAll(q.waiting)| == 0)
  {
  }
}
