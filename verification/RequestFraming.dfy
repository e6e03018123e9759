/** The smart socket that reads a service request from a client: four hex digits
    of length, then the service name, in whatever chunks the client's fd yields. */
module RequestFraming {
  import opened Bytes
  import opened Sockets

  const BAD := 0xffff_ffff

  const ZERO: byte := 48       // '0'
  const LOWER_A: byte := 97    // 'a'
  const UPPER_A: byte := 65    // 'A'

  /** The value of a hexadecimal digit, or 16. */
  function DigitValue(c: byte): (v: nat)
    ensures v <= 16
  {
    if ZERO <= c <= 57 then (c - ZERO) as nat
    else if LOWER_A <= c <= 102 then (c - LOWER_A) as nat + 10
    else if UPPER_A <= c <= 70 then (c - UPPER_A) as nat + 10
    else 16
  }

  /** The digit that printf's %x prints. */
  function HexDigit(v: nat): byte
    requires v < 16
  {
    if v < 10 then ZERO + v as byte else LOWER_A + (v - 10) as byte
  }

  /** The four characters of %04x for a number that fits in them. */
  function Hex4(n: nat): (r: bytes)
    requires n < 0x1_0000
    ensures |r| == 4
  {
    [HexDigit(n / 4096), HexDigit(n / 256 % 16), HexDigit(n / 16 % 16), HexDigit(n % 16)]
  }

  /** unhex, continued from the value `n` of the digits read so far; the shift
      is that of a 32-bit number. */
  function UnhexFrom(n: nat, s: bytes): nat
    decreases |s|
  {
    if s == [] then n
    else if DigitValue(s[0]) == 16 then BAD
    else UnhexFrom(n * 16 % 0x1_0000_0000 + DigitValue(s[0]), s[1..])
  }

  method Unhex(s: bytes) returns (n: nat)
    ensures n == UnhexFrom(0, s)
  {
    n := 0;
    var i := 0;
    while i < |s|
      invariant 0 <= i <= |s|
      invariant UnhexFrom(n, s[i..]) == UnhexFrom(0, s)
    {
      assert s[i..][0] == s[i] && s[i..][1..] == s[i + 1..];
      if DigitValue(s[i]) == 16 {
        return BAD;
      }
      n := n * 16 % 0x1_0000_0000 + DigitValue(s[i]);
      i := i + 1;
    }
  }

  lemma DigitRoundTrip(v: nat)
    requires v < 16
    ensures DigitValue(HexDigit(v)) == v
  {
    assert v == 0 || v == 1 || v == 2 || v == 3 || v == 4 || v == 5 || v == 6 || v == 7
        || v == 8 || v == 9 || v == 10 || v == 11 || v == 12 || v == 13 || v == 14 || v == 15;
  }

  lemma UnhexStep(n: nat, v: nat, rest: bytes)
    requires v < 16 && n < 0x1000_0000
    ensures UnhexFrom(n, [HexDigit(v)] + rest) == UnhexFrom(n * 16 + v, rest)
  {
    DigitRoundTrip(v);
    hide HexDigit, DigitValue;
    assert ([HexDigit(v)] + rest)[1..] == rest;
  }

  lemma HexParts(n: nat)
    requires n < 0x1_0000
    ensures n / 4096 * 16 + n / 256 % 16 == n / 256
    ensures n / 256 * 16 + n / 16 % 16 == n / 16
    ensures n / 16 * 16 + n % 16 == n
  {
  }

  lemma UnhexNone(n: nat)
    ensures UnhexFrom(n, []) == n
  {
  }

  lemma UnhexDigits(a: nat, b: nat, c: nat, d: nat, ab: nat, abc: nat, n: nat)
    requires a < 16 && b < 16 && c < 16 && d < 16
    requires ab == a * 16 + b && abc == ab * 16 + c && n == abc * 16 + d
    ensures UnhexFrom(0, [HexDigit(a)] + ([HexDigit(b)] + ([HexDigit(c)] + ([HexDigit(d)] + [])))) == n
  {
    hide UnhexFrom, HexDigit;
    UnhexNone(n);
    UnhexStep(0, a, [HexDigit(b)] + ([HexDigit(c)] + ([HexDigit(d)] + [])));
    UnhexStep(a, b, [HexDigit(c)] + ([HexDigit(d)] + []));
    UnhexStep(ab, c, [HexDigit(d)] + []);
    UnhexStep(abc, d, []);
  }

  /** unhex inverts %04x. */
  lemma UnhexInverts(n: nat)
    requires n < 0x1_0000
    ensures UnhexFrom(0, Hex4(n)) == n
  {
    hide UnhexFrom, HexDigit;
    HexParts(n);
    var a, b, c, d := n / 4096, n / 256 % 16, n / 16 % 16, n % 16;
    UnhexDigits(a, b, c, d, n / 256, n / 16, n);
    assert Hex4(n) == [HexDigit(a)] + ([HexDigit(b)] + ([HexDigit(c)] + ([HexDigit(d)] + [])));
  }

  /** The character is a hexadecimal digit, of either case, for the value. */
  predicate DigitFor(c: byte, v: nat) {
    (v < 10 && c as nat == 48 + v) || (10 <= v < 16 && (c as nat == 97 + v - 10 || c as nat == 65 + v - 10))
  }

  lemma DigitValueExactly(c: byte, v: nat)
    requires v < 16
    ensures DigitValue(c) == v <==> DigitFor(c, v)
  {
  }

  lemma AnyDigitFor(c: byte)
    ensures DigitValue(c) < 16 ==> DigitFor(c, DigitValue(c))
  {
  }

  /** The four characters are the digits of a number. */
  predicate Spells(s: bytes, n: nat)
    requires |s| == 4
  {
    && DigitFor(s[0], n / 4096) && DigitFor(s[1], n / 256 % 16)
    && DigitFor(s[2], n / 16 % 16) && DigitFor(s[3], n % 16)
  }

  /** Four digits, one after another; a character that is none spoils all. */
  lemma UnhexFour(s: bytes)
    requires |s| == 4
    ensures var a, b, c, d := DigitValue(s[0]), DigitValue(s[1]), DigitValue(s[2]), DigitValue(s[3]);
            UnhexFrom(0, s) ==
              if a < 16 && b < 16 && c < 16 && d < 16 then ((a * 16 + b) * 16 + c) * 16 + d else BAD
  {
    hide DigitValue;
    var s1, s2, s3 := s[1..], s[2..], s[3..];
    assert s1[0] == s[1] && s1[1..] == s2 && s2[0] == s[2] && s2[1..] == s3 && s3[0] == s[3] && s3[1..] == [];
    UnhexOne(0, s);
    if DigitValue(s[0]) < 16 {
      var a := DigitValue(s[0]);
      UnhexOne(a, s1);
      if DigitValue(s[1]) < 16 {
        var ab := a * 16 + DigitValue(s[1]);
        UnhexOne(ab, s2);
        if DigitValue(s[2]) < 16 {
          var abc := ab * 16 + DigitValue(s[2]);
          UnhexOne(abc, s3);
          UnhexNone(abc * 16 + DigitValue(s[3]));
        }
      }
    }
    hide UnhexFrom;
  }

  lemma UnhexOne(n: nat, s: bytes)
    requires s != [] && n < 0x1000_0000
    ensures UnhexFrom(n, s) == if DigitValue(s[0]) < 16 then UnhexFrom(n * 16 + DigitValue(s[0]), s[1..]) else BAD
  {
    hide DigitValue;
  }

  /** unhex of four characters gives a number if and only if they are its digits, each
      of either case. */
  lemma UnhexExactly(s: bytes, n: nat)
    requires |s| == 4 && n < 0x1_0000
    ensures UnhexFrom(0, s) == n <==> Spells(s, n)
  {
    hide DigitValue, UnhexFrom, DigitFor;
    UnhexFour(s);
    var a, b, c, d := DigitValue(s[0]), DigitValue(s[1]), DigitValue(s[2]), DigitValue(s[3]);
    DigitValueExactly(s[0], n / 4096);
    DigitValueExactly(s[1], n / 256 % 16);
    DigitValueExactly(s[2], n / 16 % 16);
    DigitValueExactly(s[3], n % 16);
    if a < 16 && b < 16 && c < 16 && d < 16 {
      Nibbles(a, b, c, d);
    }
    HexParts(n);
  }

  lemma Nibbles(a: nat, b: nat, c: nat, d: nat)
    requires a < 16 && b < 16 && c < 16 && d < 16
    ensures var n := ((a * 16 + b) * 16 + c) * 16 + d;
            n < 0x1_0000 && n / 4096 == a && n / 256 % 16 == b && n / 16 % 16 == c && n % 16 == d
  {
  }

  // ------------------------------------------------------------ requests

  /** What a client sends for a service. */
  function Request(service: bytes): bytes
    requires 1 <= |service| <= 1024
  {
    Hex4(|service|) + service
  }

  /** What the bytes received so far amount to. */
  datatype Verdict = Incomplete | Malformed | Complete(service: bytes)

  function Judge(received: bytes): Verdict {
    if |received| < 4 then Incomplete
    else
      var len := UnhexFrom(0, received[..4]);
      if len < 1 || len > 1024 then Malformed
      else if len + 4 > |received| then Incomplete
      else Complete(CString(received[4..4 + len]))
  }

  /** A smart socket: whether it holds a packet, the bytes in that packet, the
      services it has dispatched, and whether it still awaits requests. */
  datatype Smart = Smart(holds: bool, received: bytes, dispatched: seq<bytes>, waiting: bool)

  const Fresh := Smart(false, [], [], true)

  /** What becomes of a dispatched service: it only chooses a transport, the client
      is bound to a service socket of the host, the request is over (handled at
      once, unknown, or without a device), or it is passed on to the device. */
  datatype Answer = ChoosesTransport | HostSocket | Over | PassedOn

  /** smart_socket_enqueue.  After a service that does not just choose a transport
      the smart socket is gone. */
  function Accept(s: Smart, chunk: bytes, answer: bytes -> Answer): Smart {
    if !s.waiting then s
    else if s.holds && |s.received| + |chunk| > MAX_PAYLOAD then s.(waiting := false)
    else
      var all := if s.holds then s.received + chunk else chunk;
      match Judge(all)
      case Incomplete => s.(holds := true, received := all)
      case Malformed => s.(holds := true, received := all, waiting := false)
      case Complete(service) =>
        var done := s.(holds := true, dispatched := s.dispatched + [service]);
        if answer(service).ChoosesTransport? then done.(received := [])
        else done.(received := all, waiting := false)
  }

  function AcceptAll(s: Smart, chunks: seq<bytes>, answer: bytes -> Answer): Smart
    decreases |chunks|
  {
    if chunks == [] then s
    else AcceptAll(Accept(s, chunks[0], answer), chunks[1..], answer)
  }

  class SmartSocket {
    var packet: bytes
    var holds: bool
    var waiting: bool
    ghost var dispatched: seq<bytes>

    ghost function State(): Smart
      reads this
    {
      Smart(holds, packet, dispatched, waiting)
    }

    constructor ()
      ensures State() == Fresh
    {
      packet, holds, waiting, dispatched := [], false, true, [];
    }

    /** 0: more is wanted, the transport was chosen, or the client has its service
        socket; 1: the request was passed on; -1: the smart socket has closed its
        peer with itself. */
    method Enqueue(chunk: bytes, answer: bytes -> Answer) returns (ret: int)
      requires waiting
      modifies this
      ensures State() == Accept(old(State()), chunk, answer)
      ensures ret == if waiting then 0
                     else if dispatched == old(dispatched) then -1
                     else match answer(dispatched[|dispatched| - 1])
                          case HostSocket => 0
                          case PassedOn => 1
                          case _ => -1
    {
      hide UnhexFrom, CString;
      if !holds {
        holds, packet := true, chunk;
      } else {
        if |packet| + |chunk| > MAX_PAYLOAD {
          waiting := false;
          return -1;
        }
        packet := packet + chunk;
      }
      if |packet| < 4 {
        return 0;
      }
      var len := Unhex(packet[..4]);
      if len < 1 || len > 1024 {
        waiting := false;
        return -1;
      }
      if len + 4 > |packet| {
        return 0;
      }
      var service := CString(packet[4..4 + len]);
      dispatched := dispatched + [service];
      var a := answer(service);
      if a == ChoosesTransport {
        packet := [];
        return 0;
      }
      waiting := false;
      ret := if a == HostSocket then 0 else if a == PassedOn then 1 else -1;
    }
  }

  /** A proper beginning of a request is no request yet, and the whole is. */
  lemma JudgeRequest(service: bytes, k: nat)
    requires 1 <= |service| <= 1024 && 0 !in service && k <= |Request(service)|
    ensures k < |Request(service)| ==> Judge(Request(service)[..k]) == Incomplete
    ensures Judge(Request(service)) == Complete(service)
  {
    var r := Request(service);
    UnhexInverts(|service|);
    assert r[..4] == Hex4(|service|) && r[4..4 + |service|] == service;
    assert k >= 4 ==> r[..k][..4] == r[..4];
    hide UnhexFrom, Hex4, CString;
  }

  /** A smart socket that has received nothing of the request it waits for. */
  predicate Clean(s: Smart) {
    s.waiting && s.received == []
  }

  /** The state after the whole of a request. */
  ghost predicate Answered(s: Smart, s': Smart, service: bytes, answer: bytes -> Answer) {
    && s'.dispatched == s.dispatched + [service]
    && s'.waiting == answer(service).ChoosesTransport?
    && (answer(service).ChoosesTransport? ==> Clean(s'))
  }

  /** The chunks complete a request: no dispatch before the last, then this one. */
  ghost predicate Framed(s: Smart, chunks: seq<bytes>, service: bytes, answer: bytes -> Answer) {
    && Answered(s, AcceptAll(s, chunks, answer), service, answer)
    && (forall i :: 0 <= i < |chunks| ==> AcceptAll(s, chunks[..i], answer).dispatched == s.dispatched)
  }

  /** The socket holds the first `k` bytes of a request. */
  ghost predicate Partial(s: Smart, service: bytes, k: nat)
    requires 1 <= |service| <= 1024
  {
    k < |Request(service)| && s.waiting && s.received == Request(service)[..k] && (!s.holds ==> k == 0)
  }

  lemma PartialStep(s: Smart, service: bytes, k: nat, chunk: bytes, answer: bytes -> Answer)
    requires 1 <= |service| <= 1024 && 0 !in service && Partial(s, service, k)
    requires k + |chunk| <= |Request(service)| && Request(service)[k..][..|chunk|] == chunk
    ensures var s1 := Accept(s, chunk, answer);
            if k + |chunk| == |Request(service)| then Answered(s, s1, service, answer)
            else Partial(s1, service, k + |chunk|) && s1.dispatched == s.dispatched
  {
    var r, j := Request(service), k + |chunk|;
    assert |r| <= 1028;
    hide Judge, Request;
    JudgeRequest(service, j);
    assert r[..k] + chunk == r[..j];
    assert (if s.holds then s.received + chunk else chunk) == r[..j];
    assert j == |r| ==> r[..j] == r;
  }

  lemma FramedStep(s: Smart, chunks: seq<bytes>, service: bytes, answer: bytes -> Answer)
    requires chunks != []
    requires var s1 := Accept(s, chunks[0], answer);
             s1.dispatched == s.dispatched && Framed(s1, chunks[1..], service, answer)
    ensures Framed(s, chunks, service, answer)
  {
    hide Accept;
    forall i | 0 <= i < |chunks|
      ensures AcceptAll(s, chunks[..i], answer).dispatched == s.dispatched
    {
      if i > 0 {
        assert chunks[..i][0] == chunks[0] && chunks[..i][1..] == chunks[1..][..i - 1];
      }
    }
  }

  lemma {:induction false} FragmentsOfRequest(s: Smart, k: nat, chunks: seq<bytes>, service: bytes,
                                              answer: bytes -> Answer)
    requires 1 <= |service| <= 1024 && 0 !in service && Partial(s, service, k)
    requires Request(service)[k..] == Flat(chunks) && [] !in chunks
    ensures Framed(s, chunks, service, answer)
    decreases |chunks|
  {
    hide Accept, Framed, Partial;
    FirstFragment(s, k, chunks, service, answer);
    var j := k + |chunks[0]|;
    if j == |Request(service)| {
      LastFragment(s, chunks, service, answer);
    } else {
      FragmentsOfRequest(Accept(s, chunks[0], answer), j, chunks[1..], service, answer);
      FramedStep(s, chunks, service, answer);
    }
  }

  lemma FirstFragment(s: Smart, k: nat, chunks: seq<bytes>, service: bytes, answer: bytes -> Answer)
    requires 1 <= |service| <= 1024 && 0 !in service && Partial(s, service, k)
    requires Request(service)[k..] == Flat(chunks) && [] !in chunks
    ensures chunks != [] && k + |chunks[0]| <= |Request(service)|
    ensures Request(service)[k + |chunks[0]|..] == Flat(chunks[1..])
    ensures var s1 := Accept(s, chunks[0], answer);
            if k + |chunks[0]| == |Request(service)| then Answered(s, s1, service, answer) && chunks[1..] == []
            else Partial(s1, service, k + |chunks[0]|) && s1.dispatched == s.dispatched
  {
    var r := Request(service);
    hide Request, Accept;
    assert |r[k..]| > 0 && chunks != [];
    var chunk, rest := chunks[0], chunks[1..];
    assert r[k..] == chunk + Flat(rest);
    PartialStep(s, service, k, chunk, answer);
    hide Partial, Answered;
    assert r[k + |chunk|..] == r[k..][|chunk|..] == Flat(rest);
    if k + |chunk| == |r| {
      FlatEmpty(rest);
    }
  }

  lemma LastFragment(s: Smart, chunks: seq<bytes>, service: bytes, answer: bytes -> Answer)
    requires chunks != [] && chunks[1..] == []
    requires Answered(s, Accept(s, chunks[0], answer), service, answer)
    ensures Framed(s, chunks, service, answer)
  {
    hide Accept, Answered;
    assert chunks[..0] == [];
    assert AcceptAll(Accept(s, chunks[0], answer), chunks[1..], answer) == Accept(s, chunks[0], answer);
  }

  lemma FlatEmpty(chunks: seq<bytes>)
    requires Flat(chunks) == [] && [] !in chunks
    ensures chunks == []
  {
  }

  /** Framing does not depend on fragmentation: however a request is cut into
      nonempty chunks, nothing is dispatched before its last chunk and exactly
      the requested service is dispatched then. */
  lemma FramingIsIndependentOfChunks(s: Smart, service: bytes, chunks: seq<bytes>, answer: bytes -> Answer)
    requires Clean(s) && 1 <= |service| <= 1024 && 0 !in service
    requires Flat(chunks) == Request(service) && [] !in chunks
    ensures Framed(s, chunks, service, answer)
  {
    assert Request(service)[0..] == Request(service) && Request(service)[..0] == [];
    hide Framed;
    FragmentsOfRequest(s, 0, chunks, service, answer);
  }

  /** A client that waits for the answer to each request before it sends the next. */
  function Converse(s: Smart, conversation: seq<seq<bytes>>, answer: bytes -> Answer): Smart
    decreases |conversation|
  {
    if conversation == [] then s
    else Converse(AcceptAll(s, conversation[0], answer), conversation[1..], answer)
  }

  /** One service per dialogue turn, each sent as its request in nonempty chunks. */
  ghost predicate Spoken(services: seq<bytes>, conversation: seq<seq<bytes>>) {
    && |services| == |conversation|
    && (forall i :: 0 <= i < |services| ==> 1 <= |services[i]| <= 1024 && 0 !in services[i])
    && (forall i :: 0 <= i < |services| ==>
          Flat(conversation[i]) == Request(services[i]) && [] !in conversation[i])
  }

  /** Every request after a transport request starts clean. */
  lemma {:induction false} LockStepRequests(s: Smart, services: seq<bytes>, conversation: seq<seq<bytes>>,
                                            answer: bytes -> Answer)
    requires Clean(s) && Spoken(services, conversation)
    requires forall i :: 0 <= i < |services| - 1 ==> answer(services[i]).ChoosesTransport?
    ensures Converse(s, conversation, answer).dispatched == s.dispatched + services
    decreases |services|
  {
    hide AcceptAll, Request;
    if services == [] {
      assert s.dispatched + services == s.dispatched;
    } else {
      FramingIsIndependentOfChunks(s, services[0], conversation[0], answer);
      assert Spoken(services[1..], conversation[1..]);
      var s1 := AcceptAll(s, conversation[0], answer);
      assert |conversation| == |services|;
      assert Answered(s, s1, services[0], answer);
      assert s.dispatched + services == (s.dispatched + [services[0]]) + services[1..];
      hide Spoken, Framed;
      if |services| == 1 {
        assert conversation[1..] == [] && services[1..] == [];
        assert Converse(s1, conversation[1..], answer) == s1;
        assert s1.dispatched + [] == s1.dispatched;
      } else {
        LockStepRequests(s1, services[1..], conversation[1..], answer);
      }
    }
  }

  // -------------------------------------------- requests sent without waiting

  ghost predicate Proper(services: seq<bytes>) {
    forall i :: 0 <= i < |services| ==> 1 <= |services[i]| <= 1024 && 0 !in services[i]
  }

  /** Requests one after another. */
  function Stream(services: seq<bytes>): bytes
    requires Proper(services)
  {
    if services == [] then [] else Request(services[0]) + Stream(services[1..])
  }

  /** Where the request of service `i` begins in the stream. */
  function Start(services: seq<bytes>, i: nat): nat
    requires Proper(services) && i <= |services|
  {
    |Stream(services[..i])|
  }

  function Sent(chunks: seq<bytes>, j: nat): nat
    requires j <= |chunks|
  {
    |Flat(chunks[..j])|
  }

  /** Chunk `j` holds the end of a request and more, when `k` bytes came before. */
  ghost predicate Straddles(k: nat, chunks: seq<bytes>, services: seq<bytes>, j: nat, i: nat)
    requires Proper(services)
  {
    j < |chunks| && i <= |services| && k + Sent(chunks, j) < Start(services, i) < k + Sent(chunks, j + 1)
  }

  /** Some chunk runs past the end of a request. */
  ghost predicate RunsOver(k: nat, chunks: seq<bytes>, services: seq<bytes>)
    requires Proper(services)
  {
    exists j: nat, i: nat :: Straddles(k, chunks, services, j, i)
  }

  lemma SentStep(chunks: seq<bytes>, j: nat)
    requires j < |chunks|
    ensures Sent(chunks, 0) == 0 && Sent(chunks, j + 1) == |chunks[0]| + Sent(chunks[1..], j)
  {
    assert chunks[..0] == [];
    assert chunks[..j + 1][0] == chunks[0] && chunks[..j + 1][1..] == chunks[1..][..j];
  }

  lemma StartStep(services: seq<bytes>, i: nat)
    requires Proper(services) && i < |services|
    ensures Start(services, 0) == 0
    ensures Start(services, i + 1) == |Request(services[0])| + Start(services[1..], i)
  {
    hide Request;
    assert services[..0] == [];
    assert services[..i + 1][0] == services[0] && services[..i + 1][1..] == services[1..][..i];
  }

  /** The first `k` bytes of the request at the head are there already. */
  ghost predicate Within(k: nat, services: seq<bytes>) {
    Proper(services) && services != [] && k < |Request(services[0])|
  }

  lemma Overrun(k: nat, chunks: seq<bytes>, services: seq<bytes>)
    requires Within(k, services) && chunks != [] && k + |chunks[0]| > |Request(services[0])|
    ensures RunsOver(k, chunks, services)
  {
    hide Request;
    SentStep(chunks, 0);
    StartStep(services, 0);
    assert Start(services[1..], 0) == 0 && Sent(chunks[1..], 0) == 0 by {
      assert services[1..][..0] == [] && chunks[1..][..0] == [];
    }
    assert Straddles(k, chunks, services, 0, 1);
  }

  lemma NoOverrunWithin(k: nat, chunks: seq<bytes>, services: seq<bytes>)
    requires Within(k, services) && chunks != [] && k + |chunks[0]| < |Request(services[0])|
    ensures RunsOver(k, chunks, services) <==> RunsOver(k + |chunks[0]|, chunks[1..], services)
  {
    hide Request, Sent, Start;
    forall j: nat, i: nat | Straddles(k, chunks, services, j, i)
      ensures RunsOver(k + |chunks[0]|, chunks[1..], services)
    {
      SentStep(chunks, j);
      if i > 0 { StartStep(services, i - 1); } else { StartStep(services, 0); }
      if j > 0 {
        SentStep(chunks, j - 1);
        assert Straddles(k + |chunks[0]|, chunks[1..], services, j - 1, i);
      } else {
        SentNone(chunks[1..]);
      }
    }
    var k', rest := k + |chunks[0]|, chunks[1..];
    forall j: nat, i: nat | Straddles(k', rest, services, j, i)
      ensures RunsOver(k, chunks, services)
    {
      SentStep(chunks, j);
      SentStep(chunks, j + 1);
      assert Straddles(k, chunks, services, j + 1, i);
    }
  }

  lemma SentNone(chunks: seq<bytes>)
    ensures Sent(chunks, 0) == 0
  {
    assert chunks[..0] == [];
  }

  lemma NoOverrunAtEnd(k: nat, chunks: seq<bytes>, services: seq<bytes>)
    requires Within(k, services) && chunks != [] && k + |chunks[0]| == |Request(services[0])|
    ensures RunsOver(k, chunks, services) <==> RunsOver(0, chunks[1..], services[1..])
  {
    hide Request, Sent, Start;
    forall j: nat, i: nat | Straddles(k, chunks, services, j, i)
      ensures RunsOver(0, chunks[1..], services[1..])
    {
      SentStep(chunks, j);
      if i > 0 { StartStep(services, i - 1); } else { StartStep(services, 0); }
      if j > 0 {
        SentStep(chunks, j - 1);
        assert Straddles(0, chunks[1..], services[1..], j - 1, i - 1);
      } else {
        SentNone(chunks[1..]);
      }
    }
    forall j: nat, i: nat | Straddles(0, chunks[1..], services[1..], j, i)
      ensures RunsOver(k, chunks, services)
    {
      SentStep(chunks, j);
      SentStep(chunks, j + 1);
      StartStep(services, i);
      assert Straddles(k, chunks, services, j + 1, i + 1);
    }
  }

  // What a smart socket can dispatch is bounded by what it has received.

  function Cost(services: seq<bytes>): nat {
    if services == [] then 0 else 4 + |services[0]| + Cost(services[1..])
  }

  lemma {:induction false} CostAppend(a: seq<bytes>, b: seq<bytes>)
    ensures Cost(a + b) == Cost(a) + Cost(b)
  {
    if a == [] {
      assert a + b == b;
    } else {
      assert (a + b)[1..] == a[1..] + b;
      CostAppend(a[1..], b);
    }
  }

  lemma {:induction false} CostIsLength(services: seq<bytes>)
    requires Proper(services)
    ensures Cost(services) == |Stream(services)|
  {
    if services != [] {
      CostIsLength(services[1..]);
    }
  }

  function Held(s: Smart): nat {
    if s.waiting then |s.received| else 0
  }

  lemma {:induction false} CStringIsShorter(s: bytes)
    ensures |CString(s)| <= |s|
  {
    if s != [] && s[0] != 0 {
      CStringIsShorter(s[1..]);
    }
  }

  lemma CostOfOne(services: seq<bytes>, service: bytes)
    ensures Cost(services + [service]) == Cost(services) + 4 + |service|
  {
    CostAppend(services, [service]);
    assert [service][1..] == [];
  }

  lemma AcceptBudget(s: Smart, chunk: bytes, answer: bytes -> Answer)
    ensures var s1 := Accept(s, chunk, answer);
            Cost(s1.dispatched) + Held(s1) <= Cost(s.dispatched) + Held(s) + |chunk|
  {
    hide Cost, UnhexFrom, CString;
    var all := if s.holds then s.received + chunk else chunk;
    if |all| >= 4 {
      var len := UnhexFrom(0, all[..4]);
      if 1 <= len && len + 4 <= |all| {
        CStringIsShorter(all[4..4 + len]);
        CostOfOne(s.dispatched, CString(all[4..4 + len]));
      }
    }
  }

  lemma {:induction false} Budget(s: Smart, chunks: seq<bytes>, answer: bytes -> Answer)
    ensures Cost(AcceptAll(s, chunks, answer).dispatched) <= Cost(s.dispatched) + Held(s) + |Flat(chunks)|
    decreases |chunks|
  {
    if chunks != [] {
      hide Accept, Held, Cost;
      AcceptBudget(s, chunks[0], answer);
      Budget(Accept(s, chunks[0], answer), chunks[1..], answer);
    }
  }

  /** A request and whatever stands behind it. */
  lemma JudgeOverrun(service: bytes, all: bytes)
    requires 1 <= |service| <= 1024 && 0 !in service
    requires |all| >= |Request(service)| && all[..|Request(service)|] == Request(service)
    ensures Judge(all) == Complete(service)
  {
    var r := Request(service);
    assert |r| == 4 + |service| && r[..4] == Hex4(|service|) && r[4..] == service;
    hide CString, UnhexFrom, Hex4, Request;
    UnhexInverts(|service|);
    assert all[..4] == all[..|r|][..4] && all[4..|r|] == all[..|r|][4..];
  }

  /** A chunk that holds the rest of a request and more: the request may be
      dispatched, but nothing of the rest is kept. */
  lemma OverrunStep(s: Smart, service: bytes, k: nat, chunk: bytes, answer: bytes -> Answer)
    requires 1 <= |service| <= 1024 && 0 !in service && Partial(s, service, k)
    requires k + |chunk| > |Request(service)| && (Request(service)[..k] + chunk)[..|Request(service)|] == Request(service)
    ensures var s1 := Accept(s, chunk, answer);
            Cost(s1.dispatched) <= Cost(s.dispatched) + 4 + |service| && Held(s1) == 0
  {
    hide Judge, Request, Cost;
    var all := Request(service)[..k] + chunk;
    JudgeOverrun(service, all);
    assert (if s.holds then s.received + chunk else chunk) == all;
    CostOfOne(s.dispatched, service);
  }

  lemma {:induction false} GoneStays(s: Smart, chunks: seq<bytes>, answer: bytes -> Answer)
    requires !s.waiting
    ensures AcceptAll(s, chunks, answer) == s
    decreases |chunks|
  {
    if chunks != [] {
      GoneStays(s, chunks[1..], answer);
    }
  }

  /** All of these but the last only choose a transport. */
  ghost predicate ChooseTransports(services: seq<bytes>, answer: bytes -> Answer) {
    forall i :: 0 <= i < |services| - 1 ==> answer(services[i]).ChoosesTransport?
  }

  /** `s` has the first `k` bytes of the stream, and the chunks are the rest. */
  ghost predicate Underway(s: Smart, k: nat, chunks: seq<bytes>, services: seq<bytes>) {
    && Within(k, services) && Partial(s, services[0], k)
    && Flat(chunks) == Stream(services)[k..] && [] !in chunks
  }

  lemma UnderwayFacts(s: Smart, k: nat, chunks: seq<bytes>, services: seq<bytes>)
    requires Underway(s, k, chunks, services)
    ensures Within(k, services) && Partial(s, services[0], k) && [] !in chunks
    ensures chunks != [] && Flat(chunks) == chunks[0] + Flat(chunks[1..])
    ensures 1 <= |services[0]| <= 1024 && 0 !in services[0] && Proper(services[1..])
    ensures var r, c := Request(services[0]), chunks[0];
            && |r| == 4 + |services[0]|
            && (k + |c| <= |r| ==> r[k..][..|c|] == c)
            && (k + |c| < |r| ==> Flat(chunks[1..]) == Stream(services)[k + |c|..])
            && (k + |c| == |r| ==> Flat(chunks[1..]) == Stream(services[1..]))
            && (k + |c| > |r| ==> (r[..k] + c)[..|r|] == r)
            && |Flat(chunks[1..])| + |c| + k == |Stream(services)|
  {
    var st, r := Stream(services), Request(services[0]);
    assert st == r + Stream(services[1..]) && |r| == 4 + |services[0]|;
    assert Partial(s, services[0], k);
    hide Request, Stream;
    assert chunks != [] by { assert |st[k..]| > 0; }
    CutStream(r, Stream(services[1..]), k, chunks[0], Flat(chunks[1..]));
  }

  /** The two ways of cutting a request `r` followed by `later` at byte `k` and after
      the next chunk. */
  lemma CutStream(r: bytes, later: bytes, k: nat, c: bytes, rest: bytes)
    requires k < |r| && (r + later)[k..] == c + rest
    ensures k + |c| <= |r| ==> r[k..][..|c|] == c
    ensures k + |c| < |r| ==> rest == (r + later)[k + |c|..]
    ensures k + |c| == |r| ==> rest == later
    ensures k + |c| > |r| ==> (r[..k] + c)[..|r|] == r
    ensures |rest| + |c| + k == |r + later|
  {
    var st, j := r + later, k + |c|;
    assert |st[k..]| == |st| - k == |c| + |rest|;
    assert c == (c + rest)[..|c|] == st[k..][..|c|] == st[k..j];
    assert rest == (c + rest)[|c|..] == st[k..][|c|..] == st[j..];
    assert r == st[..|r|] && later == st[|r|..];
    if j <= |r| { assert r[k..][..|c|] == r[k..j] == st[k..j]; }
    if j > |r| { assert st[..k] + st[k..j] == st[..j] && st[..j][..|r|] == st[..|r|] && r[..k] == st[..k]; }
  }

  lemma {:induction false} DispatchedExactly(s: Smart, k: nat, chunks: seq<bytes>, services: seq<bytes>, answer: bytes -> Answer)
    requires Underway(s, k, chunks, services)
    ensures AcceptAll(s, chunks, answer).dispatched == s.dispatched + services
       <==> !RunsOver(k, chunks, services) && ChooseTransports(services, answer)
    decreases |chunks|, 0
  {
    hide Underway, Accept, Request, RunsOver, Partial, ChooseTransports, Stream, Answered, Cost, Held;
    UnderwayFacts(s, k, chunks, services);
    var c, rest, service := chunks[0], chunks[1..], services[0];
    var j, n := k + |c|, |Request(service)|;
    var s1 := Accept(s, c, answer);
    if j > n {
      OverrunStep(s, service, k, c, answer);
      Overrun(k, chunks, services);
      Budget(s1, rest, answer);
      CostAppend(s.dispatched, services);
      CostIsLength(services);
    } else {
      PartialStep(s, service, k, c, answer);
      if j < n {
        NoOverrunWithin(k, chunks, services);
        assert Underway(s1, j, rest, services) by { StillUnderway(s1, k, j, chunks, services); }
        DispatchedExactly(s1, j, rest, services, answer);
      } else {
        NoOverrunAtEnd(k, chunks, services);
        NextRequest(s, s1, rest, services, answer);
      }
    }
  }

  lemma StillUnderway(s1: Smart, k: nat, j: nat, chunks: seq<bytes>, services: seq<bytes>)
    requires Proper(services) && services != [] && chunks != [] && j < |Request(services[0])|
    requires Partial(s1, services[0], j) && Flat(chunks[1..]) == Stream(services)[j..] && [] !in chunks
    ensures Underway(s1, j, chunks[1..], services)
  {
    hide Request, Stream, Partial;
  }

  lemma {:induction false} NextRequest(s: Smart, s1: Smart, rest: seq<bytes>, services: seq<bytes>, answer: bytes -> Answer)
    requires Proper(services) && services != [] && Answered(s, s1, services[0], answer)
    requires Flat(rest) == Stream(services[1..]) && [] !in rest
    ensures AcceptAll(s1, rest, answer).dispatched == s.dispatched + services
       <==> !RunsOver(0, rest, services[1..]) && ChooseTransports(services, answer)
    decreases |rest|, 1
  {
    hide Request, Accept, RunsOver, ChooseTransports, Stream;
    var more := services[1..];
    OneMore(s.dispatched, services);
    ChooseRest(services, answer);
    if more == [] {
      NoStream();
      FlatEmpty(rest);
      NothingRunsOver(rest, more);
      NothingToChoose(answer);
      assert s1.dispatched + [] == s1.dispatched;
    } else if s1.waiting {
      BeginsClean(s1, rest, more);
      DispatchedExactly(s1, 0, rest, more, answer);
    } else {
      GoneStays(s1, rest, answer);
      assert |s1.dispatched| != |s1.dispatched + more|;
    }
  }

  lemma NoStream()
    ensures Stream([]) == []
  {
  }

  lemma OneMore(dispatched: seq<bytes>, services: seq<bytes>)
    requires services != []
    ensures dispatched + services == (dispatched + [services[0]]) + services[1..]
  {
  }

  lemma ChooseRest(services: seq<bytes>, answer: bytes -> Answer)
    requires services != []
    ensures ChooseTransports(services, answer) <==>
            ChooseTransports(services[1..], answer) && (|services| > 1 ==> answer(services[0]).ChoosesTransport?)
  {
    var more := services[1..];
    assert forall i :: 0 <= i < |more| ==> more[i] == services[i + 1];
    assert forall i :: 0 < i < |services| ==> services[i] == more[i - 1];
  }

  lemma NothingRunsOver(chunks: seq<bytes>, services: seq<bytes>)
    requires chunks == [] && Proper(services)
    ensures !RunsOver(0, chunks, services)
  {
    hide Start, Sent;
  }

  lemma BeginsClean(s: Smart, chunks: seq<bytes>, services: seq<bytes>)
    requires Clean(s) && Proper(services) && services != [] && Flat(chunks) == Stream(services) && [] !in chunks
    ensures Underway(s, 0, chunks, services)
  {
    assert Request(services[0])[..0] == [] && Stream(services)[0..] == Stream(services);
  }

  /** A client that does not wait: however a stream of requests is cut into nonempty
      chunks, all of them are dispatched if and only if no chunk runs past the end
      of a request and all but the last only choose a transport. */
  lemma StreamDispatchedExactly(s: Smart, services: seq<bytes>, chunks: seq<bytes>, answer: bytes -> Answer)
    requires Clean(s) && Proper(services) && Flat(chunks) == Stream(services) && [] !in chunks
    ensures AcceptAll(s, chunks, answer).dispatched == s.dispatched + services
       <==> !RunsOver(0, chunks, services) && ChooseTransports(services, answer)
  {
    hide Accept, RunsOver, ChooseTransports, Request;
    if services == [] {
      FlatEmpty(chunks);
      NothingRunsOver(chunks, services);
      assert s.dispatched + services == s.dispatched;
      assert ChooseTransports(services, answer) by { NothingToChoose(answer); }
    } else {
      BeginsClean(s, chunks, services);
      DispatchedExactly(s, 0, chunks, services, answer);
    }
  }

  lemma NothingToChoose(answer: bytes -> Answer)
    ensures ChooseTransports([], answer)
  {
  }

  /** What is left after such a chunk: the request that it completes is dispatched
      and everything behind it is dropped, a whole request or part of one. */
  lemma RestOfChunkIsLost(s: Smart, first: bytes, behind: bytes, answer: bytes -> Answer)
    requires Clean(s) && 1 <= |first| <= 1024 && 0 !in first
    requires |Request(first) + behind| <= MAX_PAYLOAD && answer(first).ChoosesTransport?
    ensures Accept(s, Request(first) + behind, answer)
         == s.(holds := true, dispatched := s.dispatched + [first])
  {
    hide Judge, Request;
    var all := Request(first) + behind;
    assert all[..|Request(first)|] == Request(first);
    JudgeOverrun(first, all);
    assert s.received + all == all;
  }

  /** A socket that still waits for the header of a request. */
  predicate AwaitsHeader(s: Smart) {
    s.waiting && |s.received| < 4 && (!s.holds ==> s.received == [])
  }

  /** Any other request is refused as soon as its header is complete, in whatever
      chunks the header arrives and whatever follows. */
  lemma {:induction false} BadHeaderFails(s: Smart, chunks: seq<bytes>, answer: bytes -> Answer)
    requires AwaitsHeader(s)
    requires var all := s.received + Flat(chunks);
             |all| >= 4 && var n := UnhexFrom(0, all[..4]); n < 1 || n > 1024
    ensures !AcceptAll(s, chunks, answer).waiting
    ensures AcceptAll(s, chunks, answer).dispatched == s.dispatched
    decreases |chunks|
  {
    var all := s.received + Flat(chunks);
    var now := s.received + chunks[0];
    assert all == now + Flat(chunks[1..]);
    assert (if s.holds then s.received + chunks[0] else chunks[0]) == now;
    var s1 := Accept(s, chunks[0], answer);
    hide UnhexFrom, CString;
    if |now| >= 4 {
      assert all[..4] == now[..4];
      GoneStays(s1, chunks[1..], answer);
    } else {
      assert AwaitsHeader(s1) && s1.received == now;
      BadHeaderFails(s1, chunks[1..], answer);
    }
  }
}
