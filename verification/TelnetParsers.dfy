/** The telnet parsers at work: fields changed byte by byte, an index loop, and buffered reads. */
module TelnetParsers {
  import opened Bytes
  import opened Wrappers
  import opened Telnet
  import opened TelnetStrip

  class TelnetClient {
    var state: State
    var sb: seq<byte>
    var inbuf: seq<byte>
    var sent: seq<Reply>
    var log: Log

    constructor ()
      ensures View() == Client(Plain, [], [], [], Log({}, {}, {}, {}))
    {
      state, sb, inbuf, sent, log := Plain, [], [], [], Log({}, {}, {}, {});
    }

    ghost function View(): Client
      reads this
    {
      Client(state, sb, inbuf, sent, log)
    }

    method RecordRx(cmd: byte, opt: byte)
      modifies `log
      ensures log == Record(old(log), cmd, opt)
    {
      if cmd == WILL {
        log := log.(will := log.will + {opt});
        log := log.(wont := log.wont - {opt});
      }
      if cmd == WONT {
        log := log.(wont := log.wont + {opt});
        log := log.(will := log.will - {opt});
      }
      if cmd == DO {
        log := log.(do := log.do + {opt});
        log := log.(dont := log.dont - {opt});
      }
      if cmd == DONT {
        log := log.(dont := log.dont + {opt});
        log := log.(do := log.do - {opt});
      }
    }

    method SendIac(cmd: byte, opt: byte)
      modifies `sent
      ensures sent == old(sent) + [Reply(cmd, opt)]
    {
      sent := sent + [Reply(cmd, opt)];
    }

    method RespondTo(cmd: byte, opt: byte)
      requires IsVerb(cmd)
      modifies `sent
      ensures sent == old(sent) + [Respond(cmd, opt)]
    {
      if cmd == WILL {
        if opt in {OPT_ECHO, OPT_SUPPRESS_GA} {
          SendIac(DO, opt);
        } else {
          SendIac(DONT, opt);
        }
      } else if cmd == WONT {
        SendIac(DONT, opt);
      } else if cmd == DO {
        if opt in {OPT_SUPPRESS_GA} {
          SendIac(WILL, opt);
        } else {
          SendIac(WONT, opt);
        }
      } else if cmd == DONT {
        SendIac(WONT, opt);
      }
    }

    method FeedByte(b: byte)
      requires ValidClient(View())
      modifies this
      ensures View() == Step(old(View()), b)
    {
      hide Record, Respond;
      match state
      case Plain =>
        if b == IAC {
          state := SawIac;
        } else {
          inbuf := inbuf + [b];
        }
      case SawIac =>
        if b == IAC {
          inbuf := inbuf + [IAC];
          state := Plain;
        } else if b == SB {
          state := InSb;
          sb := [];
        } else if b in {WILL, WONT, DO, DONT} {
          state := SawVerb(b);
        } else {
          state := Plain;
        }
      case SawVerb(cmd) =>
        RecordRx(cmd, b);
        RespondTo(cmd, b);
        state := Plain;
      case InSb =>
        if b == IAC {
          state := InSbIac;
        } else {
          sb := sb + [b];
        }
      case InSbIac =>
        if b == SE {
          state := Plain;
        } else if b == IAC {
          sb := sb + [IAC];
          state := InSb;
        } else {
          state := InSb;
        }
    }

    method Feed(chunk: seq<byte>)
      requires ValidClient(View())
      modifies this
      ensures ValidClient(View()) && View() == Telnet.Feed(old(View()), chunk)
    {
      hide Telnet.Step;
      var i := 0;
      assert chunk[0..] == chunk;
      while i < |chunk|
        invariant i <= |chunk| && ValidClient(View())
        invariant Telnet.Feed(old(View()), chunk) == Telnet.Feed(View(), chunk[i..])
      {
        assert chunk[i..][0] == chunk[i] && chunk[i..][1..] == chunk[i + 1..];
        FeedByte(chunk[i]);
        i := i + 1;
      }
    }
  }

  lemma DropBehind(data: seq<byte>, i: nat, k: nat)
    requires i <= |data|
    ensures Drop(data[i..], k) == if i + k <= |data| then data[i + k..] else []
  {
  }

  /** From j on, the position behind IAC SE, or the last byte. */
  method FindSubnegotiationEnd(data: seq<byte>, i: nat) returns (j: nat)
    requires i + 2 <= |data|
    ensures j == i + SbEnd(data[i..], 2) && i + 2 <= j <= |data|
  {
    ghost var s := data[i..];
    j := i + 2;
    while j + 1 < |data|
      invariant i + 2 <= j <= |data|
      invariant SbEnd(s, 2) == SbEnd(s, j - i)
      decreases |data| - j
    {
      assert s[j - i] == data[j] && s[j - i + 1] == data[j + 1];
      if data[j] == IAC && data[j + 1] == SE {
        return j + 2;
      }
      j := j + 1;
    }
  }

  /** _strip_iac. */
  method StripIac(data: seq<byte>) returns (out: seq<byte>)
    ensures out == Strip(data)
  {
    hide SbEnd;
    out := [];
    var i := 0;
    ghost var whole := Strip(data);
    assert data[0..] == data && [] + whole == whole;
    while i < |data|
      invariant whole == out + Strip(if i <= |data| then data[i..] else [])
      decreases |data| - i
    {
      var b := data[i];
      ghost var s := data[i..];
      assert s[0] == b && s[1..] == data[i + 1..];
      if b == 0 {
        i := i + 1;
        continue;
      }
      if b != IAC {
        OutSnoc(out, b, Strip(s[1..]));
        out := out + [b];
        i := i + 1;
        continue;
      }
      if i + 1 >= |data| { break; }
      var nxt := data[i + 1];
      assert s[1] == nxt && s[2..] == data[i + 2..];
      if nxt == IAC {
        OutSnoc(out, IAC, Strip(s[2..]));
        out := out + [IAC];
        i := i + 2;
        continue;
      }
      if nxt == SB {
        var j := FindSubnegotiationEnd(data, i);
        DropBehind(data, i, j - i);
        i := j;
        continue;
      }
      if 251 <= nxt <= 254 {
        DropBehind(data, i, 3);
        i := i + 3;
        continue;
      }
      i := i + 2;
    }
    assert out + [] == out;
  }

  lemma OutSnoc(out: seq<byte>, b: byte, rest: seq<byte>)
    ensures out + ([b] + rest) == (out + [b]) + rest
  {
  }

  class SocketAsSerial {
    var pending: seq<byte>
    var socket: seq<Recv>
    var written: seq<byte>

    constructor (arrivals: seq<Recv>)
      ensures View() == Port([], arrivals) && written == []
    {
      pending, socket, written := [], arrivals, [];
    }

    ghost function View(): Port
      reads this
    {
      Port(pending, socket)
    }

    /** read(n): until n bytes are there, or a receive fails or gives nothing. */
    method ReadBytes(n: nat) returns (out: seq<byte>)
      modifies `pending, `socket
      ensures (out, View()) == Read(old(View()), n)
    {
      hide Strip, Read;
      out := [];
      ghost var result := Read(View(), n);
      assert [] + result.0 == result.0;
      while |out| < n
        invariant |out| <= n
        invariant var (more, left) := Read(View(), n - |out|); result == (out + more, left)
        decreases |socket|, n - |out|
      {
        ghost var before := out;
        if pending != [] {
          var take := if n - |out| < |pending| then n - |out| else |pending|;
          TakePending(View(), n - |out|, take);
          out := out + pending[..take];
          pending := pending[take..];
          Reassociate(before, out);
          continue;
        }
        ReadReceives(View(), n - |out|);
        if socket == [] { break; }
        var r := socket[0];
        socket := socket[1..];
        if !r.Chunk? || r.data == [] { break; }
        var stripped := StripIac(r.data);
        if stripped == [] {
          continue;
        }
        var take := if n - |out| < |stripped| then n - |out| else |stripped|;
        TakePending(Port(stripped, socket), n - |out|, take);
        out := out + stripped[..take];
        if take < |stripped| {
          pending := pending + stripped[take..];
        }
        assert pending == stripped[take..];
        Reassociate(before, out);
      }
      ReadNothing(View());
      assert out + [] == out;
    }

    /** write: the bytes sent have every 0xFF doubled. */
    method Write(data: seq<byte>) returns (n: nat)
      modifies `written
      ensures written == old(written) + Double(data) && n == |Double(data)|
    {
      var escaped := [];
      var i := 0;
      assert data[0..] == data && [] + Double(data) == Double(data);
      while i < |data|
        invariant i <= |data| && Double(data) == escaped + Double(data[i..]) && written == old(written)
      {
        assert data[i..][0] == data[i] && data[i..][1..] == data[i + 1..];
        ghost var first: seq<byte> := if data[i] == IAC then [IAC, IAC] else [data[i]];
        Associate(escaped, first, Double(data[i + 1..]));
        escaped := escaped + if data[i] == IAC then [IAC, IAC] else [data[i]];
        i := i + 1;
      }
      assert data[i..] == [] && escaped + [] == escaped;
      written := written + escaped;
      n := |escaped|;
    }
  }

  lemma Reassociate(before: seq<byte>, out: seq<byte>)
    requires before <= out
    ensures forall more: seq<byte> :: before + (out[|before|..] + more) == out + more
  {
    forall more: seq<byte>
      ensures before + (out[|before|..] + more) == out + more
    {
    }
  }

  lemma ReadNothing(p: Port)
    ensures Read(p, 0) == ([], p)
  {
  }

  /** A read with nothing pending turns to the socket. */
  lemma ReadReceives(p: Port, n: nat)
    requires p.pending == [] && n > 0
    ensures Read(p, n)
         == if p.socket == [] then ([], p)
            else if !p.socket[0].Chunk? || p.socket[0].data == [] then ([], Port([], p.socket[1..]))
            else Read(Port(Strip(p.socket[0].data), p.socket[1..]), n)
  {
    assert forall more: seq<byte> :: [] + more == more;
  }

  /** Taking pending bytes first does not change what a read gives. */
  lemma TakePending(p: Port, n: nat, take: nat)
    requires take == if n < |p.pending| then n else |p.pending|
    ensures var (more, left) := Read(p.(pending := p.pending[take..]), n - take);
            Read(p, n) == (p.pending[..take] + more, left)
  {
    if n <= |p.pending| {
      assert p.pending[..n] + [] == p.pending[..n];
      assert n == |p.pending| ==> p.pending[n..] == [];
      assert n == 0 ==> p.pending[0..] == p.pending && p.pending[..0] == [];
    } else {
      assert p.pending[take..] == [] && p.pending[..take] == p.pending;
      assert p.pending + [] == p.pending;
      assert forall more: seq<byte> :: [] + more == more;
    }
  }
}
