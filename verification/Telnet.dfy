/**
 Telnet streams as RFC 854 and RFC 855 lay them out, and two parsers for them: the incremental
 client of porttools/telnet_smoke.py and the batch stripper of porttools/basic_telnet.py.
 */
module Telnet {
  import opened Bytes
  import opened Wrappers

  const IAC: byte := 255
  const DONT: byte := 254
  const DO: byte := 253
  const WONT: byte := 252
  const WILL: byte := 251
  const SB: byte := 250
  const SE: byte := 240
  const OPT_ECHO: byte := 1
  const OPT_SUPPRESS_GA: byte := 3

  // ---------- what a stream is made of ----------

  datatype Item =
    | Data(b: byte)
    | Negotiation(cmd: byte, opt: byte)
    | Command(cmd: byte)
    | Subnegotiation(body: seq<byte>)

  predicate IsVerb(b: byte) {
    b == WILL || b == WONT || b == DO || b == DONT
  }

  predicate ValidItem(i: Item) {
    match i
    case Data(_) => true
    case Negotiation(cmd, _) => IsVerb(cmd)
    case Command(cmd) => !IsVerb(cmd) && cmd != IAC && cmd != SB
    case Subnegotiation(_) => true
  }

  /** Every 0xFF twice. */
  function Double(s: seq<byte>): seq<byte> {
    if s == [] then [] else (if s[0] == IAC then [IAC, IAC] else [s[0]]) + Double(s[1..])
  }

  function Encode(i: Item): seq<byte> {
    match i
    case Data(b) => if b == IAC then [IAC, IAC] else [b]
    case Negotiation(cmd, opt) => [IAC, cmd, opt]
    case Command(cmd) => [IAC, cmd]
    case Subnegotiation(body) => [IAC, SB] + Double(body) + [IAC, SE]
  }

  function EncodeAll(items: seq<Item>): seq<byte> {
    if items == [] then [] else Encode(items[0]) + EncodeAll(items[1..])
  }

  function DataOf(items: seq<Item>): seq<byte> {
    if items == [] then [] else (if items[0].Data? then [items[0].b] else []) + DataOf(items[1..])
  }

  predicate AllValid(items: seq<Item>) {
    forall k :: 0 <= k < |items| ==> ValidItem(items[k])
  }

  // ---------- the incremental client ----------

  datatype State = Plain | SawIac | SawVerb(cmd: byte) | InSb | InSbIac

  datatype Reply = Reply(cmd: byte, opt: byte)

  datatype Log = Log(will: set<byte>, wont: set<byte>, do: set<byte>, dont: set<byte>)

  datatype Client = Client(state: State, sb: seq<byte>, inbuf: seq<byte>, sent: seq<Reply>, log: Log)

  function Respond(cmd: byte, opt: byte): Reply
    requires IsVerb(cmd)
  {
    if cmd == WILL then Reply(if opt == OPT_ECHO || opt == OPT_SUPPRESS_GA then DO else DONT, opt)
    else if cmd == WONT then Reply(DONT, opt)
    else if cmd == DO then Reply(if opt == OPT_SUPPRESS_GA then WILL else WONT, opt)
    else Reply(WONT, opt)
  }

  function Record(log: Log, cmd: byte, opt: byte): Log {
    if cmd == WILL then log.(will := log.will + {opt}, wont := log.wont - {opt})
    else if cmd == WONT then log.(wont := log.wont + {opt}, will := log.will - {opt})
    else if cmd == DO then log.(do := log.do + {opt}, dont := log.dont - {opt})
    else if cmd == DONT then log.(dont := log.dont + {opt}, do := log.do - {opt})
    else log
  }

  /** Only verbs are ever remembered. */
  predicate ValidClient(c: Client) {
    c.state.SawVerb? ==> IsVerb(c.state.cmd)
  }

  function Step(c: Client, b: byte): (d: Client)
    requires ValidClient(c)
    ensures ValidClient(d)
  {
    match c.state
    case Plain => if b == IAC then c.(state := SawIac) else c.(inbuf := c.inbuf + [b])
    case SawIac =>
      if b == IAC then c.(inbuf := c.inbuf + [IAC], state := Plain)
      else if b == SB then c.(state := InSb, sb := [])
      else if IsVerb(b) then c.(state := SawVerb(b))
      else c.(state := Plain)
    case SawVerb(cmd) =>
      c.(log := Record(c.log, cmd, b), sent := c.sent + [Respond(cmd, b)], state := Plain)
    case InSb => if b == IAC then c.(state := InSbIac) else c.(sb := c.sb + [b])
    case InSbIac =>
      if b == SE then c.(state := Plain)
      else if b == IAC then c.(sb := c.sb + [IAC], state := InSb)
      else c.(state := InSb)
  }

  function Feed(c: Client, chunk: seq<byte>): (d: Client)
    requires ValidClient(c)
    ensures ValidClient(d)
    decreases |chunk|
  {
    if chunk == [] then c else Feed(Step(c, chunk[0]), chunk[1..])
  }

  function FeedAll(c: Client, chunks: seq<seq<byte>>): (d: Client)
    requires ValidClient(c)
    decreases |chunks|
  {
    if chunks == [] then c else FeedAll(Feed(c, chunks[0]), chunks[1..])
  }

  function Joined(chunks: seq<seq<byte>>): seq<byte> {
    if chunks == [] then [] else chunks[0] + Joined(chunks[1..])
  }

  lemma {:induction false} FeedAppend(c: Client, a: seq<byte>, b: seq<byte>)
    requires ValidClient(c)
    ensures Feed(c, a + b) == Feed(Feed(c, a), b)
    decreases |a|
  {
    if a == [] {
      assert a + b == b;
    } else {
      assert (a + b)[1..] == a[1..] + b;
      FeedAppend(Step(c, a[0]), a[1..], b);
    }
  }

  /** Where the stream is cut into chunks makes no difference. */
  lemma {:induction false} ChunksDoNotMatter(c: Client, chunks: seq<seq<byte>>)
    requires ValidClient(c)
    ensures FeedAll(c, chunks) == Feed(c, Joined(chunks))
    decreases |chunks|
  {
    if chunks != [] {
      ChunksDoNotMatter(Feed(c, chunks[0]), chunks[1..]);
      FeedAppend(c, chunks[0], Joined(chunks[1..]));
    }
  }

  /** What one whole item does to a client between items. */
  function Take(c: Client, i: Item): Client
    requires ValidItem(i)
  {
    match i
    case Data(b) => c.(inbuf := c.inbuf + [b])
    case Negotiation(cmd, opt) => c.(log := Record(c.log, cmd, opt), sent := c.sent + [Respond(cmd, opt)])
    case Command(_) => c
    case Subnegotiation(body) => c.(sb := body)
  }

  lemma FeedOne(c: Client, b: byte)
    requires ValidClient(c)
    ensures Feed(c, [b]) == Step(c, b)
  {
    assert [b][1..] == [];
    assert Feed(Step(c, b), []) == Step(c, b);
  }

  lemma FeedTwo(c: Client, a: byte, b: byte)
    requires ValidClient(c)
    ensures Feed(c, [a, b]) == Step(Step(c, a), b)
  {
    assert [a, b] == [a] + [b];
    FeedAppend(c, [a], [b]);
    FeedOne(c, a);
    FeedOne(Step(c, a), b);
  }

  lemma {:induction false} FeedBody(c: Client, body: seq<byte>)
    requires c.state.InSb?
    ensures Feed(c, Double(body)) == c.(sb := c.sb + body)
    decreases |body|
  {
    if body == [] {
      assert c.sb + body == c.sb;
    } else {
      var first := if body[0] == IAC then [IAC, IAC] else [body[0]];
      FeedAppend(c, first, Double(body[1..]));
      FeedOne(c, body[0]);
      FeedTwo(c, IAC, IAC);
      var d := c.(sb := c.sb + [body[0]]);
      assert Feed(c, first) == d;
      FeedBody(d, body[1..]);
      assert d.sb + body[1..] == c.sb + body;
    }
  }

  lemma FeedItem(c: Client, i: Item)
    requires c.state.Plain? && ValidItem(i)
    ensures Feed(c, Encode(i)) == Take(c, i)
  {
    match i
    case Data(b) =>
      FeedOne(c, b);
      FeedTwo(c, IAC, IAC);
    case Negotiation(cmd, opt) =>
      assert Encode(i) == [IAC, cmd] + [opt];
      FeedAppend(c, [IAC, cmd], [opt]);
      FeedTwo(c, IAC, cmd);
      FeedOne(c.(state := SawVerb(cmd)), opt);
    case Command(cmd) =>
      FeedTwo(c, IAC, cmd);
    case Subnegotiation(body) =>
      var d := c.(state := InSb, sb := []);
      FeedAppend(c, [IAC, SB] + Double(body), [IAC, SE]);
      FeedAppend(c, [IAC, SB], Double(body));
      FeedTwo(c, IAC, SB);
      FeedBody(d, body);
      assert d.sb + body == body;
      FeedTwo(d.(sb := body), IAC, SE);
  }

  function TakeAll(c: Client, items: seq<Item>): Client
    requires AllValid(items)
    decreases |items|
  {
    if items == [] then c else TakeAll(Take(c, items[0]), items[1..])
  }

  lemma {:induction false} FeedItems(c: Client, items: seq<Item>)
    requires c.state.Plain? && AllValid(items)
    ensures Feed(c, EncodeAll(items)) == TakeAll(c, items)
    decreases |items|
  {
    if items != [] {
      FeedItem(c, items[0]);
      FeedAppend(c, Encode(items[0]), EncodeAll(items[1..]));
      FeedItems(Take(c, items[0]), items[1..]);
    }
  }

  function RepliesTo(items: seq<Item>): seq<Reply>
    requires AllValid(items)
  {
    if items == [] then []
    else (if items[0].Negotiation? then [Respond(items[0].cmd, items[0].opt)] else []) + RepliesTo(items[1..])
  }

  lemma {:induction false} TakeAllCollects(c: Client, items: seq<Item>)
    requires AllValid(items)
    ensures var d := TakeAll(c, items);
            d.state == c.state && d.inbuf == c.inbuf + DataOf(items) && d.sent == c.sent + RepliesTo(items)
    decreases |items|
  {
    if items == [] {
      assert c.inbuf + DataOf(items) == c.inbuf && c.sent + RepliesTo(items) == c.sent;
    } else {
      hide Record, Respond;
      var i, d := items[0], Take(c, items[0]);
      TakeAllCollects(d, items[1..]);
      var data: seq<byte> := if i.Data? then [i.b] else [];
      var reply := if i.Negotiation? then [Respond(i.cmd, i.opt)] else [];
      assert d.inbuf == c.inbuf + data && d.sent == c.sent + reply;
      assert d.inbuf + DataOf(items[1..]) == c.inbuf + (data + DataOf(items[1..]));
      assert d.sent + RepliesTo(items[1..]) == c.sent + (reply + RepliesTo(items[1..]));
    }
  }

  /**
   However the encoding of a list of items is cut into chunks, feeding it yields exactly the
   data bytes in order and one policy reply for every option command.
   */
  lemma FeedYieldsData(c: Client, items: seq<Item>, chunks: seq<seq<byte>>)
    requires c.state.Plain? && AllValid(items) && Joined(chunks) == EncodeAll(items)
    ensures var d := FeedAll(c, chunks);
            d.state.Plain? && d.inbuf == c.inbuf + DataOf(items) && d.sent == c.sent + RepliesTo(items)
  {
    ChunksDoNotMatter(c, chunks);
    FeedItems(c, items);
    TakeAllCollects(c, items);
  }

  // ---------- the reply policy ----------

  /** The option commands among the items, in order. */
  function OptionCommands(items: seq<Item>): (cmds: seq<Item>)
    ensures forall k :: 0 <= k < |cmds| ==> cmds[k].Negotiation?
  {
    if items == [] then []
    else (if items[0].Negotiation? then [items[0]] else []) + OptionCommands(items[1..])
  }

  /**
   What the client may answer to command and option, in numbers: 251 WILL, 252 WONT, 253 DO, 254
   DONT; option 1 is ECHO and option 3 SUPPRESS-GO-AHEAD. The server may do both, the client only 3.
   */
  predicate FollowsPolicy(cmd: byte, opt: byte, r: Reply) {
    && r.opt == opt
    && (cmd == 251 || cmd == 252 ==> r.cmd == 253 || r.cmd == 254)
    && (cmd == 253 || cmd == 254 ==> r.cmd == 251 || r.cmd == 252)
    && (r.cmd == 253 <==> cmd == 251 && (opt == 1 || opt == 3))
    && (r.cmd == 251 <==> cmd == 253 && opt == 3)
  }

  lemma {:induction false} RepliesAreToCommands(items: seq<Item>)
    requires AllValid(items)
    ensures var cmds, rs := OptionCommands(items), RepliesTo(items);
            && |rs| == |cmds|
            && forall k :: 0 <= k < |cmds| ==> IsVerb(cmds[k].cmd) && FollowsPolicy(cmds[k].cmd, cmds[k].opt, rs[k])
    decreases |items|
  {
    if items != [] {
      RepliesAreToCommands(items[1..]);
      if items[0].Negotiation? {
        var cmds, rs := OptionCommands(items), RepliesTo(items);
        assert cmds == [items[0]] + OptionCommands(items[1..]);
        assert FollowsPolicy(items[0].cmd, items[0].opt, rs[0]);
      }
    }
  }

  /** However the stream is cut, the k-th reply sent answers the k-th option command as the policy says. */
  lemma RepliesFollowPolicy(c: Client, items: seq<Item>, chunks: seq<seq<byte>>, k: nat)
    requires c.state.Plain? && AllValid(items) && Joined(chunks) == EncodeAll(items)
    requires k < |OptionCommands(items)|
    ensures var d, cmd := FeedAll(c, chunks), OptionCommands(items)[k];
            && |d.sent| == |c.sent| + |OptionCommands(items)|
            && d.sent[..|c.sent|] == c.sent
            && FollowsPolicy(cmd.cmd, cmd.opt, d.sent[|c.sent| + k])
  {
    hide FollowsPolicy;
    FeedYieldsData(c, items, chunks);
    RepliesAreToCommands(items);
    assert (c.sent + RepliesTo(items))[|c.sent| + k] == RepliesTo(items)[k];
  }

  /** The usual greeting: IAC WILL ECHO is answered with IAC DO ECHO, an unknown option is refused. */
  lemma GreetingIsAnswered(c: Client)
    requires c.state.Plain?
    ensures Feed(c, [255, 251, 1]).sent == c.sent + [Reply(253, 1)]
    ensures Feed(c, [255, 251, 99]).sent == c.sent + [Reply(254, 99)]
  {
    FeedItem(c, Negotiation(WILL, 1));
    FeedItem(c, Negotiation(WILL, 99));
  }

  /** Inside a subnegotiation a 0xFF before anything but 0xF0 or 0xFF is dropped with the byte behind it. */
  lemma StrayCommandIsDropped(c: Client, b: byte)
    requires c.state.InSb? && b != SE && b != IAC
    ensures Feed(c, [IAC, b]) == c
  {
    FeedTwo(c, IAC, b);
  }

  // ---------- the negotiation log ----------

  predicate Consistent(log: Log) {
    log.will !! log.wont && log.do !! log.dont
  }

  /** On any bytes at all, no option is logged as both agreed and refused. */
  lemma {:induction false} LogStaysConsistent(c: Client, chunk: seq<byte>)
    requires ValidClient(c) && Consistent(c.log)
    ensures Consistent(Feed(c, chunk).log)
    decreases |chunk|
  {
    if chunk != [] {
      LogStaysConsistent(Step(c, chunk[0]), chunk[1..]);
    }
  }

  /** The server's last word on option opt among the verbs yes and no, if any. */
  function LastWord(items: seq<Item>, opt: byte, yes: byte, no: byte): Option<byte> {
    if items == [] then None
    else
      var i, later := items[|items| - 1], LastWord(items[..|items| - 1], opt, yes, no);
      if i.Negotiation? && i.opt == opt && (i.cmd == yes || i.cmd == no) then Some(i.cmd) else later
  }

  lemma {:induction false} TakeAllSnoc(c: Client, items: seq<Item>, i: Item)
    requires AllValid(items) && ValidItem(i)
    ensures AllValid(items + [i]) && TakeAll(c, items + [i]) == Take(TakeAll(c, items), i)
    decreases |items|
  {
    if items == [] {
      assert items + [i] == [i] && [i][1..] == [];
      assert TakeAll(c, [i]) == TakeAll(Take(c, i), []);
    } else {
      assert (items + [i])[1..] == items[1..] + [i];
      TakeAllSnoc(Take(c, items[0]), items[1..], i);
    }
  }

  /** After a whole stream the log holds the server's last WILL or WONT, and DO or DONT, for every option. */
  lemma {:induction false} LogKeepsLastWord(c: Client, items: seq<Item>, opt: byte)
    requires AllValid(items)
    ensures var last, log := LastWord(items, opt, WILL, WONT), TakeAll(c, items).log;
            && (opt in log.will <==> if last.Some? then last.value == WILL else opt in c.log.will)
            && (opt in log.wont <==> if last.Some? then last.value == WONT else opt in c.log.wont)
    ensures var last, log := LastWord(items, opt, DO, DONT), TakeAll(c, items).log;
            && (opt in log.do <==> if last.Some? then last.value == DO else opt in c.log.do)
            && (opt in log.dont <==> if last.Some? then last.value == DONT else opt in c.log.dont)
    decreases |items|
  {
    if items != [] {
      var front := items[..|items| - 1];
      LogKeepsLastWord(c, front, opt);
      TakeAllSnoc(c, front, items[|items| - 1]);
      assert items == front + [items[|items| - 1]];
    }
  }

  // ---------- sending text ----------

  function SendChar(ch: nat): seq<byte>
    requires ch < 256
  {
    if ch == 255 then [IAC, IAC] else if ch == 10 then [13, 10] else [ch]
  }

  function NetworkChar(ch: nat): seq<byte>
    requires ch < 256
  {
    if ch == 10 then [13, 10] else [ch]
  }

  /** send_text: line feeds become CR LF, 0xFF is doubled; a character above 0xFF is an error. */
  function SendText(text: seq<nat>): Option<seq<byte>> {
    if text == [] then Some([])
    else if text[0] > 255 then None
    else
      var rest := SendText(text[1..]);
      if rest.None? then None else Some(SendChar(text[0]) + rest.value)
  }

  function NetworkLines(text: seq<nat>): seq<byte>
    requires forall k :: 0 <= k < |text| ==> text[k] < 256
  {
    if text == [] then [] else NetworkChar(text[0]) + NetworkLines(text[1..])
  }

  lemma {:induction false} SendableText(text: seq<nat>)
    ensures SendText(text).Some? <==> forall k :: 0 <= k < |text| ==> text[k] < 256
    decreases |text|
  {
    if text != [] {
      SendableText(text[1..]);
      assert forall k :: 1 <= k < |text| ==> text[k] == text[1..][k - 1];
      assert forall k :: 0 <= k < |text[1..]| ==> text[1..][k] == text[k + 1];
    }
  }

  lemma FeedChar(c: Client, ch: nat)
    requires c.state.Plain? && ch < 256
    ensures Feed(c, SendChar(ch)) == c.(inbuf := c.inbuf + NetworkChar(ch))
  {
    FeedTwo(c, IAC, IAC);
    FeedTwo(c, 13, 10);
    FeedOne(c, ch);
    assert c.inbuf + [13] + [10] == c.inbuf + [13, 10];
  }

  /** The text arrives at a parser as typed, with CR LF for line feeds. */
  lemma {:induction false} SentTextArrives(c: Client, text: seq<nat>)
    requires c.state.Plain? && SendText(text).Some?
    ensures forall k :: 0 <= k < |text| ==> text[k] < 256
    ensures Feed(c, SendText(text).value) == c.(inbuf := c.inbuf + NetworkLines(text))
    decreases |text|
  {
    SendableText(text);
    if text == [] {
      assert c.inbuf + NetworkLines(text) == c.inbuf;
    } else {
      hide SendChar, NetworkChar;
      var d := c.(inbuf := c.inbuf + NetworkChar(text[0]));
      FeedChar(c, text[0]);
      SentTextArrives(d, text[1..]);
      FeedAppend(c, SendChar(text[0]), SendText(text[1..]).value);
      assert d.inbuf + NetworkLines(text[1..]) == c.inbuf + (NetworkChar(text[0]) + NetworkLines(text[1..]));
    }
  }
}
