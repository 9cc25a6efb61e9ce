/** MQTT packet framing of porttools/network_conformance.py (section 2.2.3 of MQTT 3.1.1). */
module Mqtt {
  import opened Bytes
  import opened Wrappers

  const MAX_LENGTH := 268_435_455

  // ---------- writing ----------

  /** Seven bits a byte, least significant first; all bytes but the last have the top bit set. */
  function EncodeLength(n: nat): (s: seq<byte>)
    ensures |s| >= 1
  {
    if n < 128 then [n] else [n % 128 + 128] + EncodeLength(n / 128)
  }

  method MqttEncodeRemainingLength(length: nat) returns (out: seq<byte>)
    ensures out == EncodeLength(length)
  {
    out := [];
    var n := length;
    while n >= 128
      invariant EncodeLength(length) == out + EncodeLength(n)
    {
      ghost var rest := EncodeLength(n / 128);
      assert out + ([n % 128 + 128] + rest) == (out + [n % 128 + 128]) + rest;
      out := out + [n % 128 + 128];
      n := n / 128;
    }
    out := out + [n];
  }

  function Packet(header: byte, body: seq<byte>): seq<byte> {
    [header] + EncodeLength(|body|) + body
  }

  // ---------- reading ----------

  datatype Parsed = Whole(header: byte, body: seq<byte>, rest: seq<byte>) | Cut | Invalid

  datatype Length = Length(value: nat, rest: seq<byte>) | CutLength | BadLength

  /** At most `left` more length bytes. */
  function ParseLength(s: seq<byte>, left: nat, multiplier: nat, sum: nat): Length {
    if left == 0 then BadLength
    else if s == [] then CutLength
    else
      var v := sum + s[0] % 128 * multiplier;
      if s[0] < 128 then Length(v, s[1..]) else ParseLength(s[1..], left - 1, multiplier * 128, v)
  }

  /** The first packet of what a peer sends before it closes the connection. */
  function Parse(s: seq<byte>): Parsed {
    if s == [] then Cut else
    match ParseLength(s[1..], 4, 1, 0)
    case BadLength => Invalid
    case CutLength => Cut
    case Length(n, t) => if |t| < n then Cut else Whole(s[0], t[..n], t[n..])
  }

  /** A connection; the network decides how much each receive delivers. */
  class Connection {
    var stream: seq<byte>

    constructor (sent: seq<byte>)
      ensures stream == sent
    {
      stream := sent;
    }

    /** Between one and n of the next bytes, none only at the end. */
    method Recv(n: nat, fragment: nat) returns (data: seq<byte>)
      requires n > 0
      modifies this
      ensures |data| <= n && data + stream == old(stream)
      ensures data == [] <==> old(stream) == []
    {
      var most := if |stream| < n then |stream| else n;
      var take := if fragment == 0 && most > 0 then 1 else if fragment < most then fragment else most;
      data := stream[..take];
      stream := stream[take..];
    }

    /** The loop over the length bytes. */
    method ReadLength() returns (r: Length)
      modifies this
      ensures r == ParseLength(old(stream), 4, 1, 0)
      ensures r.Length? ==> stream == r.rest
    {
      hide ParseLength;
      var multiplier: nat, remaining: nat, i := 1, 0, 0;
      while i < 4
        invariant 0 <= i <= 4
        invariant ParseLength(old(stream), 4, 1, 0) == ParseLength(stream, 4 - i, multiplier, remaining)
      {
        ghost var was := stream;
        ParseLengthStep(was, 4 - i, multiplier, remaining);
        var raw := Recv(1, 1);
        if raw == [] { return CutLength; }
        assert was[0] == raw[0] && was[1..] == stream;
        var b: int := raw[0];
        remaining := remaining + b % 128 * multiplier;
        if b < 128 { return Length(remaining, stream); }
        multiplier := multiplier * 128;
        i := i + 1;
      }
      ParseLengthEnd(stream, multiplier, remaining);
      r := BadLength;
    }

    /** The payload loop; nothing if the stream ends before `remaining` bytes. */
    method ReadPayload(remaining: nat, fragments: nat -> nat) returns (r: Option<seq<byte>>)
      modifies this
      ensures r == if remaining <= |old(stream)| then Some(old(stream)[..remaining]) else None
      ensures r.Some? ==> stream == old(stream)[remaining..]
    {
      ghost var s := stream;
      var payload := [];
      while |payload| < remaining
        invariant |payload| <= remaining && payload + stream == s
      {
        ghost var before := payload;
        var chunk := Recv(remaining - |payload|, fragments(|payload|));
        if chunk == [] {
          assert before + [] == before;
          return None;
        }
        payload := payload + chunk;
        assert before + (chunk + stream) == payload + stream;
      }
      assert s[..remaining] == payload && s[remaining..] == stream;
      r := Some(payload);
    }

    /** mqtt_read_packet, for any way `fragments` of cutting the payload into receives. */
    method MqttReadPacket(fragments: nat -> nat) returns (p: Parsed)
      modifies this
      ensures p == Parse(old(stream))
      ensures p.Whole? ==> stream == p.rest
    {
      ghost var s := stream;
      var first := Recv(1, 1);
      if first == [] { return Cut; }
      assert s[0] == first[0] && s[1..] == stream;
      var length := ReadLength();
      match length
      case BadLength => return Invalid;
      case CutLength => return Cut;
      case Length(remaining, _) =>
        var payload := ReadPayload(remaining, fragments);
        if payload.None? { return Cut; }
        p := Whole(first[0], payload.value, stream);
    }
  }

  lemma ParseLengthStep(s: seq<byte>, left: nat, multiplier: nat, sum: nat)
    requires left > 0
    ensures ParseLength(s, left, multiplier, sum)
         == if s == [] then CutLength
            else if s[0] < 128 then Length(sum + s[0] as int % 128 * multiplier, s[1..])
            else ParseLength(s[1..], left - 1, multiplier * 128, sum + s[0] as int % 128 * multiplier)
  {
  }

  lemma ParseLengthEnd(s: seq<byte>, multiplier: nat, sum: nat)
    ensures ParseLength(s, 0, multiplier, sum) == BadLength
  {
  }

  // ---------- framing ----------

  function Pow128(k: nat): nat {
    if k == 0 then 1 else 128 * Pow128(k - 1)
  }

  /** The length is written in the fewest bytes that hold it. */
  lemma {:induction false} LengthIsMinimal(n: nat)
    ensures n < Pow128(|EncodeLength(n)|)
    ensures n > 0 ==> Pow128(|EncodeLength(n)| - 1) <= n
    decreases n
  {
    if n >= 128 {
      LengthIsMinimal(n / 128);
    }
  }

  lemma PowersOf128()
    ensures Pow128(1) == 128 && Pow128(2) == 16_384 && Pow128(3) == 2_097_152 && Pow128(4) == MAX_LENGTH + 1
  {
    assert Pow128(0) == 1;
  }

  lemma {:induction false} PowGrows(j: nat, k: nat)
    requires j <= k
    ensures Pow128(j) <= Pow128(k)
    decreases k
  {
    if j < k {
      PowGrows(j, k - 1);
    }
  }

  /** The number that base-128 digits stand for, the least significant first. */
  function DigitSum(s: seq<byte>): nat {
    if s == [] then 0 else s[0] % 128 + 128 * DigitSum(s[1..])
  }

  /** The bytes are the base-128 digits of n, least significant first; exactly the last one is below 128. */
  lemma {:induction false} LengthDigits(n: nat)
    ensures DigitSum(EncodeLength(n)) == n
    ensures forall k :: 0 <= k < |EncodeLength(n)| ==> (EncodeLength(n)[k] < 128 <==> k == |EncodeLength(n)| - 1)
    decreases n
  {
    if n < 128 {
      assert EncodeLength(n)[1..] == [];
    } else {
      LengthDigits(n / 128);
      assert EncodeLength(n)[1..] == EncodeLength(n / 128);
    }
  }

  /** Whole packets byte by byte: a header and nothing behind it, and the length of 321 bytes. */
  lemma PacketExamples(body: seq<byte>)
    requires |body| == 321
    ensures Packet(0xC0, []) == [0xC0, 0]
    ensures Packet(0x30, body) == [0x30, 0xC1, 2] + body
  {
    assert EncodeLength(321) == [0xC1] + EncodeLength(2);
  }

  lemma LengthFitsIff(n: nat)
    ensures |EncodeLength(n)| <= 4 <==> n <= MAX_LENGTH
  {
    LengthIsMinimal(n);
    PowersOf128();
    if |EncodeLength(n)| <= 4 {
      PowGrows(|EncodeLength(n)|, 4);
    } else {
      PowGrows(4, |EncodeLength(n)| - 1);
    }
  }

  lemma {:induction false} ParseUndoesEncode(n: nat, rest: seq<byte>, left: nat, multiplier: nat, sum: nat)
    ensures ParseLength(EncodeLength(n) + rest, left, multiplier, sum)
         == if |EncodeLength(n)| <= left then Length(sum + n * multiplier, rest) else BadLength
    decreases n
  {
    var s := EncodeLength(n) + rest;
    if left > 0 {
      if n < 128 {
        assert s[1..] == rest;
      } else {
        var v := sum + n % 128 * multiplier;
        assert s[1..] == EncodeLength(n / 128) + rest;
        assert s[0] % 128 == n % 128;
        ParseUndoesEncode(n / 128, rest, left - 1, multiplier * 128, v);
        Digits(n, multiplier);
      }
    }
  }

  lemma Digits(n: nat, m: nat)
    ensures n % 128 * m + n / 128 * (m * 128) == n * m
  {
    var q, r := n / 128, n % 128;
    assert n == q * 128 + r;
    assert q * (m * 128) == (q * 128) * m;
    assert n * m == (q * 128) * m + r * m;
  }

  /** A packet with anything behind it is read back exactly when its body is short enough. */
  lemma PacketRoundTrip(header: byte, body: seq<byte>, rest: seq<byte>)
    ensures Parse(Packet(header, body) + rest)
         == if |body| <= MAX_LENGTH then Whole(header, body, rest) else Invalid
  {
    var s := Packet(header, body) + rest;
    assert s[1..] == EncodeLength(|body|) + (body + rest);
    ParseUndoesEncode(|body|, body + rest, 4, 1, 0);
    LengthFitsIff(|body|);
    assert (body + rest)[..|body|] == body && (body + rest)[|body|..] == rest;
  }

  lemma {:induction false} CutLengthIsCut(n: nat, k: nat, left: nat, multiplier: nat, sum: nat)
    requires k < |EncodeLength(n)| <= left
    ensures ParseLength(EncodeLength(n)[..k], left, multiplier, sum) == CutLength
    decreases n
  {
    if k > 0 {
      var s := EncodeLength(n);
      assert s[..k][1..] == EncodeLength(n / 128)[..k - 1];
      CutLengthIsCut(n / 128, k - 1, left - 1, multiplier * 128, sum + n % 128 * multiplier);
    }
  }

  /** A connection that closes anywhere inside a packet gives no packet, and no error. */
  lemma CutPacketIsCut(header: byte, body: seq<byte>, k: nat)
    requires |body| <= MAX_LENGTH && k < |Packet(header, body)|
    ensures Parse(Packet(header, body)[..k]) == Cut
  {
    var e := EncodeLength(|body|);
    var s := Packet(header, body)[..k];
    LengthFitsIff(|body|);
    if k > 0 {
      if k - 1 < |e| {
        assert s[1..] == e[..k - 1];
        CutLengthIsCut(|body|, k - 1, 4, 1, 0);
      } else {
        var t := body[..k - 1 - |e|];
        assert s[1..] == e + t;
        ParseUndoesEncode(|body|, t, 4, 1, 0);
      }
    }
  }

  datatype Message = Message(header: byte, body: seq<byte>)

  function Packets(ms: seq<Message>): seq<byte> {
    if ms == [] then [] else Packet(ms[0].header, ms[0].body) + Packets(ms[1..])
  }

  /** Packets read one after the other until none is left. */
  function ReadAll(s: seq<byte>): (seq<Message>, Parsed)
    decreases |s|
  {
    var p := Parse(s);
    if p.Whole? then
      ParseShortens(s);
      var (more, end) := ReadAll(p.rest);
      ([Message(p.header, p.body)] + more, end)
    else ([], p)
  }

  lemma {:induction false} LengthRestIsShort(s: seq<byte>, left: nat, multiplier: nat, sum: nat)
    ensures var r := ParseLength(s, left, multiplier, sum); r.Length? ==> |r.rest| < |s|
    decreases left
  {
    if left > 0 && s != [] && s[0] >= 128 {
      LengthRestIsShort(s[1..], left - 1, multiplier * 128, sum + s[0] % 128 * multiplier);
    }
  }

  lemma ParseShortens(s: seq<byte>)
    ensures Parse(s).Whole? ==> |Parse(s).rest| < |s|
  {
    if s != [] {
      LengthRestIsShort(s[1..], 4, 1, 0);
    }
  }

  /** A concatenation of packets is read back as the same messages, then the end of the stream. */
  lemma {:induction false} PacketsRoundTrip(ms: seq<Message>)
    requires forall k :: 0 <= k < |ms| ==> |ms[k].body| <= MAX_LENGTH
    ensures ReadAll(Packets(ms)) == (ms, Cut)
    decreases |ms|
  {
    if ms != [] {
      hide Parse, Packet;
      PacketRoundTrip(ms[0].header, ms[0].body, Packets(ms[1..]));
      PacketsRoundTrip(ms[1..]);
      assert [ms[0]] + ms[1..] == ms;
    } else {
      assert Packets(ms) == [];
    }
  }
}
