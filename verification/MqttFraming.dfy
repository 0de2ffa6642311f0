/** Packet framing of the gateway's MQTT client: the remaining-length code (section 2.2.3 of MQTT Version 3.1.1),
    reading packets from a socket that delivers arbitrary pieces, and packet identifiers.
 */
module MqttFraming {
  import opened Common

  type Byte = x: int | 0 <= x < 256

  // ---------------------------------------------------------------- remaining length

  function Encoded(n: nat): (s: seq<Byte>)
    ensures s != []
  {
    if n < 128 then [n] else [n % 128 + 128] + Encoded(n / 128)
  }

  /** `_encode_remaining_length`. */
  method EncodeRemainingLength(length: nat) returns (out: seq<Byte>)
    ensures out == Encoded(length)
  {
    out := [];
    var rest := length;
    while true
      invariant out + Encoded(rest) == Encoded(length)
      decreases rest
    {
      var byte := rest % 128;
      var next := rest / 128;
      if next > 0 {
        byte := byte + 128;
      }
      ghost var before := out;
      out := out + [byte];
      if next == 0 {
        return;
      }
      assert before + ([byte] + Encoded(next)) == out + Encoded(next);
      rest := next;
    }
  }

  /** The value of a length and the bytes it takes, low group first. */
  function Decoded(s: seq<Byte>): (r: Option<(nat, nat)>)
    ensures r.Some? ==> 0 < r.value.1 <= |s|
  {
    if s == [] then None
    else if s[0] < 128 then Some((s[0], 1))
    else
      match Decoded(s[1..])
      case None => None
      case Some(v) => Some((s[0] % 128 + 128 * v.0, v.1 + 1))
  }

  /** Decoding undoes encoding for every number, whatever follows. */
  lemma {:induction false} DecodesEncoded(n: nat, rest: seq<Byte>)
    ensures Decoded(Encoded(n) + rest) == Some((n, |Encoded(n)|))
  {
    if n >= 128 {
      DecodesEncoded(n / 128, rest);
      assert (Encoded(n) + rest)[1..] == Encoded(n / 128) + rest;
    }
  }

  /** Encoding undoes decoding exactly when the length carries no superfluous zero group at its end. */
  lemma {:induction false} EncodesDecodedIff(s: seq<Byte>)
    requires Decoded(s).Some? && Decoded(s).value.1 == |s|
    ensures Encoded(Decoded(s).value.0) == s <==> |s| == 1 || s[|s| - 1] != 0
    ensures Decoded(s).value.0 == 0 ==> s[|s| - 1] == 0
  {
    if s[0] >= 128 {
      var rest := s[1..];
      EncodesDecodedIff(rest);
      var n := Decoded(rest).value.0;
      GroupOnTop(s[0] % 128, n);
      if n > 0 {
        assert [s[0]] + rest == s;
        assert [s[0]] + Encoded(n) == s <==> Encoded(n) == rest by {
          assert ([s[0]] + Encoded(n))[1..] == Encoded(n);
        }
        if |rest| == 1 {
          NonZeroEnd(rest);
        }
      }
    }
  }

  lemma GroupOnTop(low: nat, n: nat)
    requires low < 128
    ensures (low + 128 * n) % 128 == low && (low + 128 * n) / 128 == n
  {
  }

  /** A one-byte length of a positive number does not end in zero. */
  lemma NonZeroEnd(s: seq<Byte>)
    requires Decoded(s).Some? && Decoded(s).value.1 == |s| == 1 && Decoded(s).value.0 > 0
    ensures s[0] != 0
  {
  }

  function Power128(k: nat): nat {
    if k == 0 then 1 else 128 * Power128(k - 1)
  }

  /** The code takes at most `k` bytes exactly below the `k`-th power of 128. */
  lemma {:induction false} LengthIff(n: nat, k: nat)
    requires k > 0
    ensures |Encoded(n)| <= k <==> n < Power128(k)
    decreases k
  {
    if k == 1 {
      assert Power128(1) == 128;
    } else {
      PowerPositive(k - 1);
      if n >= 128 {
        LengthIff(n / 128, k - 1);
      }
    }
  }

  lemma {:induction false} PowerPositive(k: nat)
    ensures Power128(k) >= 1
  {
    if k > 0 {
      PowerPositive(k - 1);
    }
  }

  /** The number without its lowest `i` groups of seven bits. */
  function WithoutGroups(n: nat, i: nat): nat {
    if i == 0 then n else WithoutGroups(n / 128, i - 1)
  }

  /** Byte `i` of the code carries the `i`-th group of seven bits, lowest first, and its top bit says whether more
      follow. */
  lemma {:induction false} EncodedGroups(n: nat, i: nat)
    requires i < |Encoded(n)|
    ensures Encoded(n)[i] % 128 == WithoutGroups(n, i) % 128
    ensures Encoded(n)[i] >= 128 <==> i < |Encoded(n)| - 1
    decreases i
  {
    if n >= 128 && i > 0 {
      EncodedGroups(n / 128, i - 1);
    }
  }

  /** Four bytes, the most the standard allows, reach exactly to 268,435,455. */
  lemma FourBytesIff(n: nat)
    ensures |Encoded(n)| <= 4 <==> n <= 268_435_455
  {
    LengthIff(n, 4);
    assert Power128(4) == 268_435_456 by {
      assert Power128(2) == 128 * 128 && Power128(3) == 128 * Power128(2);
    }
  }

  // ---------------------------------------------------------------- packets

  /** What `_read_packet` returns: the type byte and the body, without the length. */
  datatype Packet = Packet(header: Byte, body: seq<Byte>)

  function Framed(p: Packet): seq<Byte> {
    [p.header] + Encoded(|p.body|) + p.body
  }

  /** The first packet of a byte stream and the bytes it takes. */
  function FirstPacket(s: seq<Byte>): (r: Option<(Packet, nat)>)
    ensures r.Some? ==> 0 < r.value.1 <= |s|
  {
    if s == [] || Decoded(s[1..]).None? then None
    else
      var (n, used) := Decoded(s[1..]).value;
      if |s| < 1 + used + n then None
      else Some((Packet(s[0], s[1 + used..1 + used + n]), 1 + used + n))
  }

  lemma FirstOfFramed(p: Packet, rest: seq<Byte>)
    ensures FirstPacket(Framed(p) + rest) == Some((p, |Framed(p)|))
    ensures (Framed(p) + rest)[|Framed(p)|..] == rest
  {
    var s := Framed(p) + rest;
    var n, used := |p.body|, |Encoded(|p.body|)|;
    assert s[1..] == Encoded(n) + (p.body + rest);
    DecodesEncoded(n, p.body + rest);
    assert s[1 + used..1 + used + n] == p.body;
  }

  function StreamOf(packets: seq<Packet>): seq<Byte> {
    if packets == [] then [] else Framed(packets[0]) + StreamOf(packets[1..])
  }

  /** All packets of a stream that ends with one. */
  function PacketsOf(s: seq<Byte>): Option<seq<Packet>>
    decreases |s|
  {
    if s == [] then Some([])
    else
      match FirstPacket(s)
      case None => None
      case Some(first) =>
        match PacketsOf(s[first.1..])
        case None => None
        case Some(rest) => Some([first.0] + rest)
  }

  /** Reading packet after packet from the frames of a list of packets gives that list, with nothing left over. */
  lemma {:induction false} ReadsBackStream(packets: seq<Packet>)
    ensures PacketsOf(StreamOf(packets)) == Some(packets)
  {
    if packets != [] {
      var first, rest := packets[0], packets[1..];
      ReadsBackStream(rest);
      FirstOfFramed(first, StreamOf(rest));
      assert packets == [first] + rest;
    }
  }

  /** So no two lists of packets share a stream. */
  lemma StreamInjective(a: seq<Packet>, b: seq<Packet>)
    requires StreamOf(a) == StreamOf(b)
    ensures a == b
  {
    ReadsBackStream(a);
    ReadsBackStream(b);
  }

  // ---------------------------------------------------------------- the socket

  datatype Received = Chunk(bytes: seq<Byte>) | Closed | TimedOut

  /** How the line behaves at one call of `recv`. */
  datatype Weather = Weather(late: bool, wanted: nat)

  datatype Line = Line(at: nat -> Weather)

  /** One call of `recv` on the bytes still to come: between one and `most` of them, or the end of the stream, or, on an
      unreliable line, a timeout. */
  function RecvOf(reliable: bool, w: Weather, most: nat, s: seq<Byte>): (r: Received)
    requires most > 0
    ensures r.TimedOut? <==> w.late && !reliable
    ensures r.Closed? ==> s == []
    ensures r.Chunk? ==> 0 < |r.bytes| <= most && r.bytes <= s
  {
    if w.late && !reliable then TimedOut
    else if s == [] then Closed
    else
      var limit := if most < |s| then most else |s|;
      Chunk(s[..if w.wanted == 0 then 1 else if w.wanted < limit then w.wanted else limit])
  }

  /** The receiving side of a connection: the bytes still to come, delivered in arbitrary pieces. */
  class Socket {
    const reliable: bool
    var pending: seq<Byte>

    constructor (reliable: bool, pending: seq<Byte>)
      ensures this.reliable == reliable && this.pending == pending
    {
      this.reliable, this.pending := reliable, pending;
    }

    method Recv(most: nat, w: Weather) returns (r: Received)
      requires most > 0
      modifies this
      ensures r == RecvOf(reliable, w, most, old(pending))
      ensures old(pending) == (if r.Chunk? then r.bytes else []) + pending
    {
      r := RecvOf(reliable, w, most, pending);
      if r.Chunk? {
        pending := pending[|r.bytes|..];
      }
    }
  }

  // ---------------------------------------------------------------- reading one packet

  datatype Outcome = Read(packet: Packet) | Nothing | Lost | Interrupted

  /** How one part of reading a packet went. */
  datatype Part = Done | Broken | Late

  /** The length so far, the number of the next call of `recv`, and the bytes used. */
  datatype Progress = Progress(part: Part, value: nat, call: nat, used: nat)

  /** The length with one more group of seven bits. */
  function Grown(remaining: nat, byte: Byte, multiplier: nat): nat {
    remaining + byte % 128 * multiplier
  }

  /** What the loop of `_read_packet` that collects the remaining length does; `line.at(i)` is the behaviour of the
      socket at its `i`-th call. */
  function LengthRead(reliable: bool, line: Line, i: nat, s: seq<Byte>, remaining: nat, multiplier: nat)
    : (r: Progress)
    ensures r.used <= |s|
    decreases |s|
  {
    match RecvOf(reliable, line.at(i), 1, s)
    case TimedOut => Progress(Late, remaining, i + 1, 0)
    case Closed => Progress(Broken, remaining, i + 1, 0)
    case Chunk(bytes) =>
      var value := Grown(remaining, bytes[0], multiplier);
      if bytes[0] < 128 then Progress(Done, value, i + 1, 1)
      else
        var rest := LengthRead(reliable, line, i + 1, s[1..], value, multiplier * 128);
        rest.(used := rest.used + 1)
  }

  /** What the loop that collects the body does. */
  function BodyRead(reliable: bool, line: Line, i: nat, s: seq<Byte>, remaining: nat): (r: Progress)
    ensures r.used <= |s| && r.used <= remaining && (r.part.Done? <==> r.used == remaining)
    ensures r.part.Broken? ==> r.used == |s|
    ensures r.part.Late? ==> !reliable
    decreases remaining
  {
    if remaining == 0 then Progress(Done, 0, i, 0)
    else
      match RecvOf(reliable, line.at(i), remaining, s)
      case TimedOut => Progress(Late, remaining, i + 1, 0)
      case Closed => Progress(Broken, remaining, i + 1, 0)
      case Chunk(bytes) =>
        var rest := BodyRead(reliable, line, i + 1, s[|bytes|..], remaining - |bytes|);
        rest.(used := rest.used + |bytes|)
  }

  /** What one call of `_read_packet` does: the outcome and the bytes used. */
  function PacketRead(reliable: bool, line: Line, s: seq<Byte>): (r: (Outcome, nat))
    ensures r.1 <= |s|
  {
    match RecvOf(reliable, line.at(0), 1, s)
    case TimedOut => (Nothing, 0)
    case Closed => (Lost, 0)
    case Chunk(_) =>
      var length := LengthRead(reliable, line, 1, s[1..], 0, 1);
      var start := 1 + length.used;
      if !length.part.Done? then (Broke(length.part), start)
      else
        var body := BodyRead(reliable, line, length.call, s[start..], length.value);
        if !body.part.Done? then (Broke(body.part), start + body.used)
        else (Read(Packet(s[0], s[start..start + body.used])), start + body.used)
  }

  function Broke(part: Part): Outcome {
    if part.Late? then Interrupted else Lost
  }

  lemma LengthStep(reliable: bool, line: Line, i: nat, s: seq<Byte>, remaining: nat, multiplier: nat)
    ensures var r, got := LengthRead(reliable, line, i, s, remaining, multiplier), RecvOf(reliable, line.at(i), 1, s);
            && (got.TimedOut? ==> r == Progress(Late, remaining, i + 1, 0))
            && (got.Closed? ==> r == Progress(Broken, remaining, i + 1, 0))
            && (got.Chunk? ==> s != [] && got.bytes == [s[0]])
            && (got.Chunk? && s[0] < 128 ==> r == Progress(Done, Grown(remaining, s[0], multiplier), i + 1, 1))
            && (got.Chunk? && s[0] >= 128 ==>
                  var rest := LengthRead(reliable, line, i + 1, s[1..], Grown(remaining, s[0], multiplier),
                                         multiplier * 128);
                  r == rest.(used := rest.used + 1))
  {
    hide Grown;
  }

  lemma BodyStep(reliable: bool, line: Line, i: nat, s: seq<Byte>, remaining: nat)
    requires remaining > 0
    ensures var r, got := BodyRead(reliable, line, i, s, remaining), RecvOf(reliable, line.at(i), remaining, s);
            && (got.TimedOut? ==> r == Progress(Late, remaining, i + 1, 0))
            && (got.Closed? ==> r == Progress(Broken, remaining, i + 1, 0))
            && (got.Chunk? ==>
                  var rest := BodyRead(reliable, line, i + 1, s[|got.bytes|..], remaining - |got.bytes|);
                  r == rest.(used := rest.used + |got.bytes|))
  {
    hide RecvOf;
  }

  lemma PacketStep(reliable: bool, line: Line, s: seq<Byte>)
    ensures var r, got := PacketRead(reliable, line, s), RecvOf(reliable, line.at(0), 1, s);
            && (got.TimedOut? ==> r == (Nothing, 0))
            && (got.Closed? ==> r == (Lost, 0))
            && (got.Chunk? ==>
                  && s != [] && got.bytes == [s[0]]
                  && var length := LengthRead(reliable, line, 1, s[1..], 0, 1);
                     && (!length.part.Done? ==> r == (Broke(length.part), 1 + length.used))
                     && (length.part.Done? ==>
                           var body := BodyRead(reliable, line, length.call, s[1..][length.used..], length.value);
                           && r.1 == 1 + length.used + body.used
                           && (!body.part.Done? ==> r.0 == Broke(body.part))
                           && (body.part.Done? ==>
                                 r.0 == Read(Packet(s[0], s[1..][length.used..][..body.used])))))
  {
    hide LengthRead, BodyRead, RecvOf;
    if RecvOf(reliable, line.at(0), 1, s).Chunk? {
      var length := LengthRead(reliable, line, 1, s[1..], 0, 1);
      assert s[1..][length.used..] == s[1 + length.used..];
      if length.part.Done? {
        var body := BodyRead(reliable, line, length.call, s[1 + length.used..], length.value);
        SliceOfSlice(s, length.used, body.used);
      }
    }
  }

  lemma SliceOfSlice(s: seq<Byte>, used: nat, n: nat)
    requires 1 + used + n <= |s|
    ensures s[1..][used..][..n] == s[1 + used..1 + used + n] && s[1..][used..][n..] == s[1 + used + n..]
  {
  }

  method ReadLength(sock: Socket, line: Line, from: nat) returns (part: Part, remaining: nat, calls: nat)
    modifies sock
    ensures var r := LengthRead(sock.reliable, line, from, old(sock.pending), 0, 1);
            Progress(part, remaining, calls, r.used) == r && sock.pending == old(sock.pending)[r.used..]
    ensures part.Done? ==>
              var length := Decoded(old(sock.pending));
              length.Some? && length.value.0 == remaining && sock.pending == old(sock.pending)[length.value.1..]
    ensures sock.reliable ==> (part.Done? <==> Decoded(old(sock.pending)).Some?) && !part.Late?
  {
    hide LengthRead, RecvOf, Grown, Decoded;
    ghost var all := sock.pending;
    LengthDecodes(sock.reliable, line, from, all, 0, 1);
    ghost var whole := LengthRead(sock.reliable, line, from, all, 0, 1);
    var multiplier: nat;
    remaining, multiplier, calls := 0, 1, from;
    ghost var used: nat := 0;
    while true
      invariant used <= |all| && sock.pending == all[used..]
      invariant var r := LengthRead(sock.reliable, line, calls, sock.pending, remaining, multiplier);
                whole == r.(used := r.used + used)
      decreases |sock.pending|
    {
      LengthStep(sock.reliable, line, calls, sock.pending, remaining, multiplier);
      var got := sock.Recv(1, line.at(calls));
      calls := calls + 1;
      match got {
        case TimedOut => return Late, remaining, calls;
        case Closed => return Broken, remaining, calls;
        case Chunk(_) =>
      }
      var byte := got.bytes[0];
      assert all[used..] == [byte] + sock.pending && all[used..][1..] == sock.pending;
      remaining := Grown(remaining, byte, multiplier);
      used := used + 1;
      if byte < 128 {
        return Done, remaining, calls;
      }
      multiplier := multiplier * 128;
    }
  }

  method ReadBody(sock: Socket, line: Line, from: nat, remaining: nat) returns (part: Part, body: seq<Byte>)
    modifies sock
    ensures var r := BodyRead(sock.reliable, line, from, old(sock.pending), remaining);
            && part == r.part && body == old(sock.pending)[..r.used] && sock.pending == old(sock.pending)[r.used..]
    ensures part.Done? ==> |old(sock.pending)| >= remaining && body == old(sock.pending)[..remaining]
                           && sock.pending == old(sock.pending)[remaining..]
    ensures sock.reliable ==> (part.Done? <==> |old(sock.pending)| >= remaining) && !part.Late?
  {
    hide BodyRead, RecvOf;
    ghost var all := sock.pending;
    ghost var whole := BodyRead(sock.reliable, line, from, all, remaining);
    body := [];
    var calls := from;
    while |body| < remaining
      invariant |body| <= remaining && all == body + sock.pending
      invariant var r := BodyRead(sock.reliable, line, calls, sock.pending, remaining - |body|);
                whole.part == r.part && whole.used == r.used + |body|
    {
      ghost var was := sock.pending;
      BodyStep(sock.reliable, line, calls, was, remaining - |body|);
      var got := sock.Recv(remaining - |body|, line.at(calls));
      calls := calls + 1;
      match got {
        case TimedOut => return Late, body;
        case Closed => return Broken, body;
        case Chunk(_) =>
      }
      assert was[|got.bytes|..] == sock.pending;
      body := body + got.bytes;
    }
    return Done, body;
  }

  lemma FirstByte(all: seq<Byte>, bytes: seq<Byte>, rest: seq<Byte>)
    requires |bytes| == 1 && all == bytes + rest
    ensures all[0] == bytes[0] && all[1..] == rest
  {
  }

  /** `_read_packet`. */
  method ReadPacket(sock: Socket, line: Line) returns (r: Outcome)
    modifies sock
    ensures var read := PacketRead(sock.reliable, line, old(sock.pending));
            r == read.0 && sock.pending == old(sock.pending)[read.1..]
    ensures r.Read? ==>
              var first := FirstPacket(old(sock.pending));
              first.Some? && first.value.0 == r.packet && sock.pending == old(sock.pending)[first.value.1..]
    ensures sock.reliable ==> (r.Read? <==> FirstPacket(old(sock.pending)).Some?) && (r.Read? || r.Lost?)
    ensures r.Nothing? ==> sock.pending == old(sock.pending)
  {
    hide *;
    ghost var all := sock.pending;
    ReadOutcome(sock.reliable, line, all);
    PacketStep(sock.reliable, line, all);
    var got := sock.Recv(1, line.at(0));
    match got {
      case TimedOut => return Nothing;
      case Closed => return Lost;
      case Chunk(_) =>
    }
    FirstByte(all, got.bytes, sock.pending);
    var part, remaining, calls := ReadLength(sock, line, 1);
    ghost var used := LengthRead(sock.reliable, line, 1, all[1..], 0, 1).used;
    if !part.Done? {
      SliceOfSlice(all, used, 0);
      return Broke(part);
    }
    var body;
    part, body := ReadBody(sock, line, calls, remaining);
    SliceOfSlice(all, used, |body|);
    if !part.Done? {
      return Broke(part);
    }
    return Read(Packet(got.bytes[0], body));
  }

  // ---------------------------------------------------------------- what the bytes and the line decide

  /** The length loop decodes: it needs exactly the bytes of the code and fails only on a code that is cut off or on a
      timeout. */
  lemma {:induction false} LengthDecodes(reliable: bool, line: Line, i: nat, s: seq<Byte>, remaining: nat,
                                         multiplier: nat)
    ensures var r, length := LengthRead(reliable, line, i, s, remaining, multiplier), Decoded(s);
            && (r.part.Late? ==> !reliable)
            && (length.Some? ==>
                  && !r.part.Broken? && r.used <= length.value.1 && (r.part.Done? <==> r.used == length.value.1)
                  && (r.part.Done? ==> r.value == remaining + multiplier * length.value.0 && r.call == i + r.used))
            && (length.None? ==> !r.part.Done?)
    decreases |s|
  {
    hide LengthRead, RecvOf, Decoded, Grown;
    LengthStep(reliable, line, i, s, remaining, multiplier);
    if s == [] {
      DecodedEnds(s);
    } else if RecvOf(reliable, line.at(i), 1, s).Chunk? {
      if s[0] < 128 {
        DecodedEnds(s);
        LastGroup(remaining, multiplier, s[0]);
      } else {
        DecodedGoesOn(s);
        LengthDecodes(reliable, line, i + 1, s[1..], Grown(remaining, s[0], multiplier), multiplier * 128);
        if Decoded(s[1..]).Some? {
          GroupsAdd(remaining, multiplier, s[0], Decoded(s[1..]).value.0);
        }
      }
    }
  }

  lemma DecodedEnds(s: seq<Byte>)
    requires s == [] || s[0] < 128
    ensures Decoded(s) == if s == [] then None else Some((s[0], 1))
  {
  }

  lemma DecodedGoesOn(s: seq<Byte>)
    requires s != [] && s[0] >= 128
    ensures Decoded(s[1..]).None? ==> Decoded(s) == None
    ensures Decoded(s[1..]).Some? ==>
              Decoded(s) == Some((s[0] % 128 + 128 * Decoded(s[1..]).value.0, Decoded(s[1..]).value.1 + 1))
  {
  }

  lemma LastGroup(remaining: nat, multiplier: nat, byte: Byte)
    requires byte < 128
    ensures Grown(remaining, byte, multiplier) == remaining + multiplier * byte
  {
  }

  lemma GroupsAdd(remaining: nat, multiplier: nat, byte: Byte, high: nat)
    ensures Grown(remaining, byte, multiplier) + multiplier * 128 * high
         == remaining + multiplier * (byte % 128 + 128 * high)
  {
    assert multiplier * (byte % 128 + 128 * high) == multiplier * (byte % 128) + multiplier * (128 * high);
    assert multiplier * (128 * high) == multiplier * 128 * high;
  }

  /** One call of `_read_packet`, whatever the line does. A returned packet is the first of the stream; a first byte
      that does not come in time uses nothing; and an interruption before a complete packet uses a part of it. On a line
      that does not time out the bytes alone decide, however they are cut into pieces. */
  lemma ReadOutcome(reliable: bool, line: Line, s: seq<Byte>)
    ensures var r, first := PacketRead(reliable, line, s), FirstPacket(s);
            && (r.0.Read? ==> first == Some((r.0.packet, r.1)))
            && (r.0.Nothing? <==> line.at(0).late && !reliable) && (r.0.Nothing? ==> r.1 == 0)
            && (r.0.Interrupted? ==> !reliable && r.1 > 0)
            && (first.Some? ==> !r.0.Lost? && (r.0.Interrupted? ==> r.1 < first.value.1))
  {
    hide Decoded, LengthRead, BodyRead, RecvOf;
    if RecvOf(reliable, line.at(0), 1, s).Chunk? {
      LengthDecodes(reliable, line, 1, s[1..], 0, 1);
      var length := LengthRead(reliable, line, 1, s[1..], 0, 1);
      if length.part.Done? {
        var body := BodyRead(reliable, line, length.call, s[1 + length.used..], length.value);
        assert |s[1 + length.used..]| == |s| - 1 - length.used;
      }
    }
  }

  // ---------------------------------------------------------------- reading packet after packet

  datatype Polls = Polls(packets: seq<Packet>, left: seq<Byte>)

  /** What repeated polls return, and the bytes left; whatever interrupts a read, the next one goes on from there. */
  function Polled(reliable: bool, lines: seq<Line>, s: seq<Byte>): Polls {
    if lines == [] then Polls([], s)
    else
      var read := PacketRead(reliable, lines[0], s);
      Before(Kept([], read.0), Polled(reliable, lines[1..], s[read.1..]))
  }

  function Before(packets: seq<Packet>, rest: Polls): Polls {
    Polls(packets + rest.packets, rest.left)
  }

  function Kept(packets: seq<Packet>, outcome: Outcome): seq<Packet> {
    if outcome.Read? then packets + [outcome.packet] else packets
  }

  /** `_poll_once`, once for each of the lines. */
  method PollAll(sock: Socket, lines: seq<Line>) returns (packets: seq<Packet>)
    modifies sock
    ensures Polls(packets, sock.pending) == Polled(sock.reliable, lines, old(sock.pending))
  {
    hide Polled, PacketRead, Before;
    packets := [];
    ghost var all := Polled(sock.reliable, lines, sock.pending);
    BeforeNothing(all);
    assert lines[0..] == lines;
    for i := 0 to |lines|
      invariant all == Before(packets, Polled(sock.reliable, lines[i..], sock.pending))
    {
      PollStep(sock.reliable, lines, i, sock.pending, packets);
      var r := ReadPacket(sock, lines[i]);
      if r.Read? {
        packets := packets + [r.packet];
      }
    }
    PollEnd(sock.reliable, lines, sock.pending, packets);
  }

  lemma BeforeNothing(rest: Polls)
    ensures Before([], rest) == rest
  {
  }

  lemma PollStep(reliable: bool, lines: seq<Line>, i: nat, s: seq<Byte>, packets: seq<Packet>)
    requires i < |lines|
    ensures var read := PacketRead(reliable, lines[i], s);
            Before(packets, Polled(reliable, lines[i..], s))
            == Before(Kept(packets, read.0), Polled(reliable, lines[i + 1..], s[read.1..]))
  {
    hide Polled, PacketRead;
    DropFirst(lines, i);
    PolledStep(reliable, lines[i..], s);
    var read := PacketRead(reliable, lines[i], s);
    if read.0.Read? {
      PacketsAssociate(packets, [read.0.packet], Polled(reliable, lines[i + 1..], s[read.1..]).packets);
    }
  }

  lemma DropFirst(lines: seq<Line>, i: nat)
    requires i < |lines|
    ensures lines[i..] != [] && lines[i..][0] == lines[i] && lines[i..][1..] == lines[i + 1..]
  {
  }

  lemma PacketsAssociate(a: seq<Packet>, b: seq<Packet>, c: seq<Packet>)
    ensures a + (b + c) == a + b + c
  {
  }

  lemma PollEnd(reliable: bool, lines: seq<Line>, s: seq<Byte>, packets: seq<Packet>)
    ensures Before(packets, Polled(reliable, lines[|lines|..], s)) == Polls(packets, s)
  {
    assert lines[|lines|..] == [];
  }

  /** Is no read interrupted after its first byte? */
  predicate Uninterrupted(reliable: bool, lines: seq<Line>, s: seq<Byte>) {
    if lines == [] then true
    else
      var read := PacketRead(reliable, lines[0], s);
      !read.0.Interrupted? && Uninterrupted(reliable, lines[1..], s[read.1..])
  }

  /** Are the bytes what is left of the stream behind one of its packets, or at its start? */
  ghost predicate AtBoundary(packets: seq<Packet>, s: seq<Byte>) {
    exists m: nat :: m <= |packets| && s == StreamOf(packets[m..])
  }

  /** One read from a stream of packets: either it takes the first packet, or nothing, or it is interrupted and stops
      inside the first packet. */
  lemma ReadFromStream(reliable: bool, line: Line, packets: seq<Packet>)
    ensures var s := StreamOf(packets);
            var read := PacketRead(reliable, line, s);
            && (read.0.Read? ==>
                  packets != [] && read.0.packet == packets[0] && s[read.1..] == StreamOf(packets[1..]))
            && (read.0.Nothing? || read.0.Lost? ==> s[read.1..] == s)
            && (read.0.Interrupted? ==>
                  packets != [] && |StreamOf(packets[1..])| < |s[read.1..]| < |s|)
  {
    var s := StreamOf(packets);
    ReadOutcome(reliable, line, s);
    if packets == [] {
      PacketStep(reliable, line, []);
    } else {
      FirstOfFramed(packets[0], StreamOf(packets[1..]));
    }
    hide *;
  }

  /** The exact condition for one read to stay in step with the packets: it is not interrupted after its first byte. */
  lemma InStepIff(reliable: bool, line: Line, packets: seq<Packet>)
    ensures var s := StreamOf(packets);
            var read := PacketRead(reliable, line, s);
            AtBoundary(packets, s[read.1..]) <==> !read.0.Interrupted?
  {
    hide PacketRead, StreamOf;
    ReadFromStream(reliable, line, packets);
    var s := StreamOf(packets);
    var read := PacketRead(reliable, line, s);
    assert packets[0..] == packets;
    if read.0.Interrupted? {
      forall m: nat | m <= |packets|
        ensures s[read.1..] != StreamOf(packets[m..])
      {
        if m > 0 {
          SuffixShorter(packets, m);
        }
      }
    } else if read.0.Read? {
      assert s[read.1..] == StreamOf(packets[1..]);
    } else {
      assert s[read.1..] == StreamOf(packets[0..]);
    }
  }

  lemma {:induction false} SuffixShorter(packets: seq<Packet>, m: nat)
    requires 0 < m <= |packets|
    ensures |StreamOf(packets[m..])| <= |StreamOf(packets[1..])|
    decreases m
  {
    if m > 1 {
      SuffixShorter(packets, m - 1);
      var before := packets[m - 1..];
      assert before[1..] == packets[m..];
    }
  }

  /** So polls that are never interrupted in the middle of a packet return the packets of the stream in order, without
      a gap, and leave the others. */
  lemma {:induction false} PollsInOrder(reliable: bool, lines: seq<Line>, packets: seq<Packet>)
    returns (m: nat)
    requires Uninterrupted(reliable, lines, StreamOf(packets))
    ensures m <= |packets| && Polled(reliable, lines, StreamOf(packets)) == Polls(packets[..m], StreamOf(packets[m..]))
    decreases |lines|
  {
    hide *;
    m := 0;
    if lines == [] {
      NoPolls(reliable, lines, packets);
    } else {
      var s := StreamOf(packets);
      ReadFromStream(reliable, lines[0], packets);
      UninterruptedStep(reliable, lines, s);
      if PacketRead(reliable, lines[0], s).0.Read? {
        m := PollsInOrder(reliable, lines[1..], packets[1..]);
        PollsRead(reliable, lines, packets, m);
        m := m + 1;
      } else {
        m := PollsInOrder(reliable, lines[1..], packets);
        PolledStep(reliable, lines, s);
      }
    }
  }

  lemma NoPolls(reliable: bool, lines: seq<Line>, packets: seq<Packet>)
    requires lines == []
    ensures Polled(reliable, lines, StreamOf(packets)) == Polls(packets[..0], StreamOf(packets[0..]))
  {
    assert packets[0..] == packets;
  }

  lemma PollsRead(reliable: bool, lines: seq<Line>, packets: seq<Packet>, m: nat)
    requires lines != [] && packets != [] && m < |packets|
    requires var s := StreamOf(packets);
             var read := PacketRead(reliable, lines[0], s);
             read.0 == Read(packets[0]) && s[read.1..] == StreamOf(packets[1..])
    requires Polled(reliable, lines[1..], StreamOf(packets[1..]))
          == Polls(packets[1..][..m], StreamOf(packets[1..][m..]))
    ensures Polled(reliable, lines, StreamOf(packets)) == Polls(packets[..m + 1], StreamOf(packets[m + 1..]))
  {
    hide *;
    PolledStep(reliable, lines, StreamOf(packets));
    OneFurther(packets, m + 1);
  }

  lemma OneFurther(packets: seq<Packet>, m: nat)
    requires 0 < m <= |packets|
    ensures packets[..m] == [packets[0]] + packets[1..][..m - 1] && packets[m..] == packets[1..][m - 1..]
    ensures packets == [packets[0]] + packets[1..]
  {
  }

  lemma PolledStep(reliable: bool, lines: seq<Line>, s: seq<Byte>)
    requires lines != []
    ensures var read, all := PacketRead(reliable, lines[0], s), Polled(reliable, lines, s);
            var rest := Polled(reliable, lines[1..], s[read.1..]);
            && all.left == rest.left
            && (read.0.Read? ==> all.packets == [read.0.packet] + rest.packets)
            && (!read.0.Read? ==> all.packets == rest.packets)
  {
    hide PacketRead;
  }

  lemma UninterruptedStep(reliable: bool, lines: seq<Line>, s: seq<Byte>)
    requires Uninterrupted(reliable, lines, s) && lines != []
    ensures var read := PacketRead(reliable, lines[0], s);
            !read.0.Interrupted? && Uninterrupted(reliable, lines[1..], s[read.1..])
  {
  }

  // ---------------------------------------------------------------- an interrupted read misframes

  /** A line that is late at its `n`-th call only. */
  function LateAt(n: nat): Line {
    Line(i => Weather(i == n, 0))
  }

  lemma {:induction false} LengthOnTime(line: Line, i: nat, s: seq<Byte>, remaining: nat, multiplier: nat)
    requires Decoded(s).Some? && forall j: nat | i <= j < i + Decoded(s).value.1 :: !line.at(j).late
    ensures LengthRead(false, line, i, s, remaining, multiplier).part.Done?
    decreases |s|
  {
    if s[0] >= 128 {
      LengthOnTime(line, i + 1, s[1..], Grown(remaining, s[0], multiplier), multiplier * 128);
    }
  }

  /** A read whose line is late when the body should come leaves the body in the stream. */
  lemma LeavesBody(p: Packet, rest: seq<Byte>)
    requires p.body != []
    ensures var s := Framed(p) + rest;
            var read := PacketRead(false, LateAt(1 + |Encoded(|p.body|)|), s);
            read.0.Interrupted? && s[read.1..] == p.body + rest
  {
    hide Framed, Encoded, PacketRead, LengthRead, BodyRead, RecvOf, LateAt;
    var s, start := Framed(p) + rest, 1 + |Encoded(|p.body|)|;
    FramedParts(p, rest);
    PacketStep(false, LateAt(start), s);
    OnTimeAtFirst(start, s);
    LengthBeforeBody(|p.body|, p.body + rest);
    BodyLate(start, p.body + rest, |p.body|);
  }

  lemma FramedParts(p: Packet, rest: seq<Byte>)
    ensures var s, code := Framed(p) + rest, Encoded(|p.body|);
            && s != [] && s[1..] == code + (p.body + rest)
            && s[1..][|code|..] == p.body + rest == s[1 + |code|..]
  {
    hide Encoded;
    var code := Encoded(|p.body|);
    assert Framed(p) + rest == [p.header] + (code + (p.body + rest));
  }

  lemma OnTimeAtFirst(n: nat, s: seq<Byte>)
    requires n > 0 && s != []
    ensures RecvOf(false, LateAt(n).at(0), 1, s).Chunk?
  {
  }

  lemma LengthBeforeBody(n: nat, rest: seq<Byte>)
    ensures LengthRead(false, LateAt(1 + |Encoded(n)|), 1, Encoded(n) + rest, 0, 1)
         == Progress(Done, n, 1 + |Encoded(n)|, |Encoded(n)|)
  {
    var line := LateAt(1 + |Encoded(n)|);
    DecodesEncoded(n, rest);
    hide Decoded, Encoded;
    LengthOnTime(line, 1, Encoded(n) + rest, 0, 1);
    hide *;
    LengthDecodes(false, line, 1, Encoded(n) + rest, 0, 1);
  }

  lemma BodyLate(i: nat, s: seq<Byte>, remaining: nat)
    requires remaining > 0
    ensures BodyRead(false, LateAt(i), i, s, remaining) == Progress(Late, remaining, i + 1, 0)
  {
  }

  /** Whatever the packet: if its body happens to be a stream of packets and a timeout strikes when the body should
      come, the polls after it return the packets inside the body as if the other side had sent them, and never the
      packet itself. */
  lemma InterruptedMisframes(p: Packet, inside: seq<Packet>, behind: seq<Packet>, lines: seq<Line>)
    requires p.body == StreamOf(inside) && inside != []
    requires |lines| == |inside| + |behind| && forall line <- lines :: forall i: nat :: !line.at(i).late
    ensures Polled(false, [LateAt(1 + |Encoded(|p.body|)|)] + lines, StreamOf([p] + behind))
         == Polls(inside + behind, [])
  {
    hide *;
    var first := LateAt(1 + |Encoded(|p.body|)|);
    var all := [first] + lines;
    assert all[0] == first && all[1..] == lines;
    StreamOfMore(p, behind);
    StreamNotEmpty(inside);
    LeavesBody(p, StreamOf(behind));
    PolledStep(false, all, StreamOf([p] + behind));
    StreamConcat(inside, behind);
    AllInOrder(lines, inside + behind);
  }

  lemma StreamOfMore(p: Packet, behind: seq<Packet>)
    ensures StreamOf([p] + behind) == Framed(p) + StreamOf(behind)
  {
    hide Framed;
    assert ([p] + behind)[1..] == behind;
  }

  lemma StreamNotEmpty(packets: seq<Packet>)
    requires packets != []
    ensures StreamOf(packets) != []
  {
    assert Framed(packets[0]) != [];
    hide Framed;
  }

  lemma {:induction false} StreamConcat(a: seq<Packet>, b: seq<Packet>)
    ensures StreamOf(a + b) == StreamOf(a) + StreamOf(b)
  {
    if a == [] {
      hide Framed;
      assert a + b == b;
    } else {
      StreamConcat(a[1..], b);
      hide *;
      ConcatTail(a, b);
      StreamStep(a);
      StreamStep(a + b);
      ConcatAssociates(Framed(a[0]), StreamOf(a[1..]), StreamOf(b));
    }
  }

  lemma ConcatTail(a: seq<Packet>, b: seq<Packet>)
    requires a != []
    ensures a + b != [] && (a + b)[0] == a[0] && (a + b)[1..] == a[1..] + b
  {
  }

  lemma ConcatAssociates(a: seq<Byte>, b: seq<Byte>, c: seq<Byte>)
    ensures a + (b + c) == a + b + c
  {
  }

  lemma StreamStep(packets: seq<Packet>)
    requires packets != []
    ensures StreamOf(packets) == Framed(packets[0]) + StreamOf(packets[1..])
  {
    hide Framed;
  }

  lemma {:induction false} AllInOrder(lines: seq<Line>, packets: seq<Packet>)
    requires |lines| == |packets| && forall line <- lines :: forall i: nat :: !line.at(i).late
    ensures Polled(false, lines, StreamOf(packets)) == Polls(packets, [])
    decreases |packets|
  {
    if packets == [] {
      assert lines == [];
    } else {
      hide *;
      var s, line := StreamOf(packets), lines[0];
      assert line in lines && forall l <- lines[1..] :: l in lines;
      PolledStep(false, lines, s);
      StreamReads(line, packets);
      ReadFromStream(false, line, packets);
      AllInOrder(lines[1..], packets[1..]);
      OneFurther(packets, 1);
    }
  }

  /** A line that is never late is as good as a reliable one. */
  lemma StreamReads(line: Line, packets: seq<Packet>)
    requires packets != [] && forall i: nat :: !line.at(i).late
    ensures PacketRead(false, line, StreamOf(packets)).0.Read?
  {
    var s := StreamOf(packets);
    FirstOfFramed(packets[0], StreamOf(packets[1..]));
    ReadOutcome(false, line, s);
    OnTimeReads(line, s);
    hide *;
  }

  lemma OnTimeReads(line: Line, s: seq<Byte>)
    requires forall i: nat :: !line.at(i).late
    ensures !PacketRead(false, line, s).0.Interrupted?
  {
    hide RecvOf, LengthRead, BodyRead;
    if s != [] {
      NeverLate(line, 1, s[1..], 0, 1);
      var length := LengthRead(false, line, 1, s[1..], 0, 1);
      BodyNeverLate(line, length.call, s[1 + length.used..], length.value);
    }
  }

  lemma {:induction false} NeverLate(line: Line, i: nat, s: seq<Byte>, remaining: nat, multiplier: nat)
    requires forall j: nat :: !line.at(j).late
    ensures !LengthRead(false, line, i, s, remaining, multiplier).part.Late?
    decreases |s|
  {
    if s != [] && s[0] >= 128 {
      NeverLate(line, i + 1, s[1..], Grown(remaining, s[0], multiplier), multiplier * 128);
    }
  }

  lemma {:induction false} BodyNeverLate(line: Line, i: nat, s: seq<Byte>, remaining: nat)
    requires forall j: nat :: !line.at(j).late
    ensures !BodyRead(false, line, i, s, remaining).part.Late?
    decreases remaining
  {
    if remaining > 0 && s != [] {
      var k := |RecvOf(false, line.at(i), remaining, s).bytes|;
      BodyNeverLate(line, i + 1, s[k..], remaining - k);
    }
  }

  // ---------------------------------------------------------------- packet identifiers

  class PacketIds {
    var pid: nat

    constructor ()
      ensures pid == 0
    {
      pid := 0;
    }

    method NextPid() returns (r: nat)
      modifies this
      ensures r == pid == NextOf(old(pid))
    {
      pid := pid % 65535 + 1;
      r := pid;
    }
  }

  function NextOf(pid: nat): nat {
    pid % 65535 + 1
  }

  /** The `k`-th identifier of a connection. */
  function Pid(k: nat): nat {
    if k == 0 then 0 else NextOf(Pid(k - 1))
  }

  /** The identifiers run through 1 to 65535 in rounds; `q` is the number of full rounds before the `k`-th. */
  lemma {:induction false} PidAt(k: nat) returns (q: nat)
    requires k > 0
    ensures k == 65535 * q + Pid(k) && 1 <= Pid(k) <= 65535
  {
    if k == 1 {
      q := 0;
    } else {
      q := PidAt(k - 1);
      NextInRound(Pid(k - 1));
      if Pid(k - 1) == 65535 {
        q := q + 1;
      }
    }
  }

  lemma NextInRound(pid: nat)
    requires 1 <= pid <= 65535
    ensures NextOf(pid) == if pid == 65535 then 1 else pid + 1
  {
  }

  /** Identifiers are never zero, and two of them are equal exactly when they are a multiple of 65,535 calls apart;
      so any 65,535 in a row are distinct. */
  lemma PidsEqualIff(i: nat, j: nat)
    requires 0 < i <= j
    ensures Pid(i) == Pid(j) <==> (j - i) % 65535 == 0
    ensures Pid(i) != 0
  {
    hide Pid;
    var qi := PidAt(i);
    var qj := PidAt(j);
    MultipleIff(j - i, qj - qi, Pid(j) - Pid(i));
  }

  lemma MultipleIff(n: nat, q: int, d: int)
    requires n == 65535 * q + d && -65535 < d < 65535
    ensures n % 65535 == 0 <==> d == 0
  {
  }
}
