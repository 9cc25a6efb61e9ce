/**
 The batch stripper of porttools/basic_telnet.py, its agreement with the incremental parser,
 and the serial-port surface built on it.
 */
module TelnetStrip {
  import opened Bytes
  import opened Wrappers
  import opened Telnet

  // ---------- the stripper as a function ----------

  /** Where scanning for IAC SE from position j ends: behind it, or at the last byte. */
  function SbEnd(data: seq<byte>, j: nat): (e: nat)
    ensures e >= j
    decreases |data| - j
  {
    if j + 1 >= |data| then j
    else if data[j] == IAC && data[j + 1] == SE then j + 2
    else SbEnd(data, j + 1)
  }

  function Drop(data: seq<byte>, k: nat): (r: seq<byte>)
    ensures k > 0 && data != [] ==> |r| < |data|
  {
    if k <= |data| then data[k..] else []
  }

  function Strip(data: seq<byte>): seq<byte>
    decreases |data|
  {
    if data == [] then []
    else if data[0] == 0 then Strip(data[1..])
    else if data[0] != IAC then [data[0]] + Strip(data[1..])
    else if |data| == 1 then []
    else if data[1] == IAC then [IAC] + Strip(data[2..])
    else if data[1] == SB then Strip(Drop(data, SbEnd(data, 2)))
    else if 251 <= data[1] <= 254 then Strip(Drop(data, 3))
    else Strip(data[2..])
  }

  function NonZero(s: seq<byte>): seq<byte> {
    if s == [] then [] else (if s[0] == 0 then [] else [s[0]]) + NonZero(s[1..])
  }

  lemma {:induction false} NonZeroAppend(a: seq<byte>, b: seq<byte>)
    ensures NonZero(a + b) == NonZero(a) + NonZero(b)
    decreases |a|
  {
    if a == [] {
      assert a + b == b;
    } else {
      assert (a + b)[1..] == a[1..] + b;
      NonZeroAppend(a[1..], b);
    }
  }

  // ---------- one item ----------

  lemma StripData(b: byte, rest: seq<byte>)
    ensures Strip(Encode(Data(b)) + rest) == NonZero([b]) + Strip(rest)
  {
    NonZeroOfOne(b);
    hide NonZero;
    var s := Encode(Data(b)) + rest;
    if b == IAC {
      assert s[2..] == rest;
    } else if b == 0 {
      assert s[1..] == rest && [] + Strip(rest) == Strip(rest);
    } else {
      assert s[1..] == rest;
    }
  }

  lemma NonZeroOfOne(b: byte)
    ensures NonZero([b]) == if b == 0 then [] else [b]
  {
    assert [b][1..] == [];
  }

  lemma StripCommands(i: Item, rest: seq<byte>)
    requires ValidItem(i) && (i.Negotiation? || i.Command?)
    ensures Strip(Encode(i) + rest) == Strip(rest)
  {
    var s := Encode(i) + rest;
    if i.Negotiation? {
      assert s[3..] == rest;
    } else {
      assert s[2..] == rest;
    }
  }

  lemma {:induction false} StripDoubled(s: seq<byte>, rest: seq<byte>)
    ensures Strip(Double(s) + rest) == NonZero(s) + Strip(rest)
    decreases |s|
  {
    if s == [] {
      assert Double(s) + rest == rest && NonZero(s) + Strip(rest) == Strip(rest);
    } else {
      assert Double(s) + rest == Encode(Data(s[0])) + (Double(s[1..]) + rest);
      StripData(s[0], Double(s[1..]) + rest);
      StripDoubled(s[1..], rest);
      assert [s[0]][1..] == [];
      assert NonZero([s[0]]) + (NonZero(s[1..]) + Strip(rest)) == NonZero(s) + Strip(rest);
    }
  }

  /** The bytes of a subnegotiation body that end up in the output: those behind a 0xFF 0xF0 in it. */
  function Leak(body: seq<byte>): seq<byte> {
    if HasPair(body) then NonZero(AfterPair(body)) else []
  }

  predicate PairAt(body: seq<byte>, k: nat) {
    k + 1 < |body| && body[k] == IAC && body[k + 1] == SE
  }

  predicate HasPair(body: seq<byte>) {
    body != [] && (PairAt(body, 0) || HasPair(body[1..]))
  }

  function AfterPair(body: seq<byte>): seq<byte>
    requires HasPair(body)
  {
    if PairAt(body, 0) then body[2..] else AfterPair(body[1..])
  }

  lemma {:induction false} SbEndInBody(head: seq<byte>, body: seq<byte>, rest: seq<byte>)
    ensures var data := head + Double(body) + ([IAC, SE] + rest);
            (Drop(data, SbEnd(data, |head|))
            == if HasPair(body) then Double(AfterPair(body)) + ([IAC, SE] + rest) else rest)
    decreases |body|
  {
    hide SbEnd, Double, HasPair, AfterPair;
    PairsOf(body);
    var tail := [IAC, SE] + rest;
    if body == [] {
      SbEndAtTail(head, rest);
    } else if body[0] == IAC && |body| >= 2 && body[1] == SE {
      SbEndAtPair(head, body, tail);
    } else {
      var first := if body[0] == IAC then [IAC, IAC] else [body[0]];
      DoubleFirst(head, body, tail);
      SkipFirst(head, body, tail);
      SbEndInBody(head + first, body[1..], rest);
    }
  }

  lemma PairsOf(body: seq<byte>)
    ensures body == [] ==> !HasPair(body)
    ensures body != [] && PairAt(body, 0) ==> HasPair(body) && AfterPair(body) == body[2..]
    ensures body != [] && !PairAt(body, 0) ==>
              (HasPair(body) <==> HasPair(body[1..])) && (HasPair(body) ==> AfterPair(body) == AfterPair(body[1..]))
  {
  }

  lemma DoubleFirst(head: seq<byte>, body: seq<byte>, tail: seq<byte>)
    requires body != []
    ensures var first := if body[0] == IAC then [IAC, IAC] else [body[0]];
            head + Double(body) + tail == (head + first) + Double(body[1..]) + tail
  {
    var first := if body[0] == IAC then [IAC, IAC] else [body[0]];
    Associate(head, first, Double(body[1..]));
  }

  lemma Associate(a: seq<byte>, b: seq<byte>, c: seq<byte>)
    ensures a + (b + c) == (a + b) + c
  {
  }

  lemma SbEndAtTail(head: seq<byte>, rest: seq<byte>)
    ensures var data := head + Double([]) + ([IAC, SE] + rest);
            SbEnd(data, |head|) == |head| + 2 <= |data| && data[|head| + 2..] == rest
  {
    hide SbEnd;
    var data := head + Double([]) + ([IAC, SE] + rest);
    assert data == head + [IAC, SE] + rest;
    SbFound(data, |head|);
  }

  /** The scan stops behind the doubled 0xFF and the 0xF0 that starts the body. */
  lemma SbEndAtPair(head: seq<byte>, body: seq<byte>, tail: seq<byte>)
    requires |body| >= 2 && body[0] == IAC && body[1] == SE
    ensures var data := head + Double(body) + tail;
            (SbEnd(data, |head|) == |head| + 3 <= |data| && data[|head| + 3..] == Double(body[2..]) + tail)
  {
    hide SbEnd;
    var data, j := head + Double(body) + tail, |head|;
    assert body[1..][1..] == body[2..];
    assert Double(body) == [IAC, IAC, SE] + Double(body[2..]);
    assert data == head + [IAC, IAC, SE] + (Double(body[2..]) + tail);
    SbStep(data, j);
    SbFound(data, j + 1);
  }

  /** The scan passes over the first body byte and its double unless 0xF0 follows a 0xFF. */
  lemma SkipFirst(head: seq<byte>, body: seq<byte>, tail: seq<byte>)
    requires body != [] && |tail| >= 2 && tail[0] == IAC && tail[1] == SE
    requires !(body[0] == IAC && |body| >= 2 && body[1] == SE)
    ensures var data := head + Double(body) + tail;
            SbEnd(data, |head|) == SbEnd(data, |head| + if body[0] == IAC then 2 else 1)
  {
    hide SbEnd;
    var data, j := head + Double(body) + tail, |head|;
    var first: seq<byte> := if body[0] == IAC then [IAC, IAC] else [body[0]];
    var next := Double(body[1..]) + tail;
    assert data == head + (first + next);
    assert data[j] == first[0];
    DoubledHead(body[1..], tail);
    if body[0] == IAC {
      assert data[j + 1] == IAC && data[j + 2] == next[0];
      SbStep(data, j);
      SbStep(data, j + 1);
    } else {
      assert data[j + 1] == next[0];
      SbStep(data, j);
    }
  }

  lemma DoubledHead(body: seq<byte>, tail: seq<byte>)
    requires |tail| >= 2 && tail[0] == IAC
    ensures |Double(body) + tail| >= 2 && (Double(body) + tail)[0] == if body == [] then IAC else body[0]
  {
  }

  lemma SbFound(data: seq<byte>, j: nat)
    requires j + 1 < |data| && data[j] == IAC && data[j + 1] == SE
    ensures SbEnd(data, j) == j + 2
  {
  }

  lemma SbStep(data: seq<byte>, j: nat)
    requires j + 1 < |data| && !(data[j] == IAC && data[j + 1] == SE)
    ensures SbEnd(data, j) == SbEnd(data, j + 1)
  {
  }

  lemma StripSubnegotiation(body: seq<byte>, rest: seq<byte>)
    ensures Strip(Encode(Subnegotiation(body)) + rest) == Leak(body) + Strip(rest)
  {
    var data := Encode(Subnegotiation(body)) + rest;
    assert data == [IAC, SB] + Double(body) + ([IAC, SE] + rest);
    SbEndInBody([IAC, SB], body, rest);
    if HasPair(body) {
      StripDoubled(AfterPair(body), [IAC, SE] + rest);
      StripCommands(Command(SE), rest);
    } else {
      assert [] + Strip(rest) == Strip(rest);
    }
  }

  // ---------- agreement with the incremental parser ----------

  function LeakOf(i: Item): seq<byte> {
    match i
    case Data(b) => NonZero([b])
    case Subnegotiation(body) => Leak(body)
    case _ => []
  }

  function LeakAll(items: seq<Item>): seq<byte> {
    if items == [] then [] else LeakOf(items[0]) + LeakAll(items[1..])
  }

  /** Whole items are stripped one by one, whatever follows them. */
  lemma {:induction false} StripItemsBefore(items: seq<Item>, tail: seq<byte>)
    requires AllValid(items)
    ensures Strip(EncodeAll(items) + tail) == LeakAll(items) + Strip(tail)
    decreases |items|
  {
    if items == [] {
      assert [] + tail == tail && [] + Strip(tail) == Strip(tail);
    } else {
      var rest := EncodeAll(items[1..]) + tail;
      StripItemsBefore(items[1..], tail);
      assert EncodeAll(items) + tail == Encode(items[0]) + rest;
      StripItem(items[0], rest);
      hide Strip, LeakOf, Encode;
      assert LeakOf(items[0]) + (LeakAll(items[1..]) + Strip(tail)) == LeakAll(items) + Strip(tail);
    }
  }

  lemma StripItem(i: Item, rest: seq<byte>)
    requires ValidItem(i)
    ensures Strip(Encode(i) + rest) == LeakOf(i) + Strip(rest)
  {
    match i
    case Data(b) => StripData(b, rest);
    case Subnegotiation(body) => StripSubnegotiation(body, rest);
    case _ =>
      StripCommands(i, rest);
      assert [] + Strip(rest) == Strip(rest);
  }

  lemma StripItems(items: seq<Item>)
    requires AllValid(items)
    ensures Strip(EncodeAll(items)) == LeakAll(items)
  {
    StripItemsBefore(items, []);
    assert EncodeAll(items) + [] == EncodeAll(items) && LeakAll(items) + Strip([]) == LeakAll(items);
  }

  /** What is left of an item at the end of a chunk: a lone 0xFF, or an option command without its option, is dropped. */
  lemma CutCommandIsDropped(items: seq<Item>, cmd: byte)
    requires AllValid(items) && IsVerb(cmd)
    ensures Strip(EncodeAll(items) + [IAC]) == LeakAll(items)
    ensures Strip(EncodeAll(items) + [IAC, cmd]) == LeakAll(items)
  {
    StripItemsBefore(items, [IAC]);
    StripItemsBefore(items, [IAC, cmd]);
    assert LeakAll(items) + [] == LeakAll(items);
  }

  lemma {:induction false} SbEndOfOpen(data: seq<byte>, j: nat)
    requires 0 < j < |data| && forall k :: j <= k < |data| ==> data[k] != IAC
    ensures SbEnd(data, j) == |data| - 1
    decreases |data| - j
  {
    if j + 1 < |data| {
      SbEndOfOpen(data, j + 1);
    }
  }

  /** A subnegotiation that does not end in its chunk is dropped but for its last byte. */
  lemma OpenSubnegotiationLeaksLastByte(items: seq<Item>, body: seq<byte>)
    requires AllValid(items) && body != [] && forall k :: 0 <= k < |body| ==> body[k] != IAC
    ensures Strip(EncodeAll(items) + ([IAC, SB] + body)) == LeakAll(items) + NonZero([body[|body| - 1]])
  {
    var open := [IAC, SB] + body;
    StripItemsBefore(items, open);
    SbEndOfOpen(open, 2);
    var last := body[|body| - 1];
    assert open[|open| - 1..] == [last];
    assert Strip(open) == Strip([last]);
    NonZeroOfOne(last);
    assert [last][1..] == [] && Strip([]) == [];
  }

  /** Behind any 0xFF 0xF0 in the body there are only zeros. */
  predicate SafeBody(body: seq<byte>) {
    forall k, j :: 0 <= k && k + 2 <= j < |body| && PairAt(body, k) ==> body[j] == 0
  }

  predicate SafeItems(items: seq<Item>) {
    forall k :: 0 <= k < |items| && items[k].Subnegotiation? ==> SafeBody(items[k].body)
  }

  lemma {:induction false} NonZeroIsEmpty(s: seq<byte>)
    ensures NonZero(s) == [] <==> forall k :: 0 <= k < |s| ==> s[k] == 0
    decreases |s|
  {
    if s != [] {
      NonZeroIsEmpty(s[1..]);
      assert forall k :: 0 <= k < |s[1..]| ==> s[1..][k] == s[k + 1];
      assert forall k :: 1 <= k < |s| ==> s[k] == s[1..][k - 1];
    }
  }

  lemma {:induction false} SafeBodyDoesNotLeak(body: seq<byte>)
    ensures Leak(body) == [] <==> SafeBody(body)
    decreases |body|
  {
    if body != [] {
      if PairAt(body, 0) {
        NonZeroIsEmpty(body[2..]);
        assert forall k :: 0 <= k < |body| - 2 ==> body[2..][k] == body[k + 2];
        assert forall j :: 2 <= j < |body| ==> body[j] == body[2..][j - 2];
        if SafeBody(body) {
          assert forall j :: 2 <= j < |body| && PairAt(body, 0) ==> body[j] == 0;
        }
      } else {
        SafeBodyDoesNotLeak(body[1..]);
        SafeBodyOfRest(body);
      }
    }
  }

  lemma SafeBodyOfRest(body: seq<byte>)
    requires body != [] && !PairAt(body, 0)
    ensures SafeBody(body) <==> SafeBody(body[1..])
  {
    var rest := body[1..];
    if SafeBody(rest) {
      forall k, j | 0 <= k && k + 2 <= j < |body| && PairAt(body, k)
        ensures body[j] == 0
      {
        assert PairAt(rest, k - 1) && rest[j - 1] == body[j];
      }
    }
    if SafeBody(body) {
      forall k, j | 0 <= k && k + 2 <= j < |rest| && PairAt(rest, k)
        ensures rest[j] == 0
      {
        assert PairAt(body, k + 1) && body[j + 1] == rest[j];
      }
    }
  }

  lemma SafeItemsOfRest(items: seq<Item>)
    requires items != []
    ensures SafeItems(items)
       <==> (items[0].Subnegotiation? ==> SafeBody(items[0].body)) && SafeItems(items[1..])
  {
    hide SafeBody;
    var rest := items[1..];
    assert forall k :: 0 <= k < |rest| ==> rest[k] == items[k + 1];
    assert forall k :: 1 <= k < |items| ==> items[k] == rest[k - 1];
  }

  lemma {:induction false} LeaksOnlyAddBytes(items: seq<Item>)
    ensures |LeakAll(items)| >= |NonZero(DataOf(items))|
    ensures SafeItems(items) ==> LeakAll(items) == NonZero(DataOf(items))
    ensures |LeakAll(items)| == |NonZero(DataOf(items))| ==> SafeItems(items)
    decreases |items|
  {
    if items != [] {
      var i, rest := items[0], items[1..];
      LeaksOnlyAddBytes(rest);
      NonZeroAppend(if i.Data? then [i.b] else [], DataOf(rest));
      if i.Subnegotiation? {
        SafeBodyDoesNotLeak(i.body);
      }
      SafeItemsOfRest(items);
    }
  }

  /**
   On whole items the stripper yields what the incremental parser puts into its buffer, without
   the zero bytes, exactly when no subnegotiation body has a nonzero byte behind a 0xFF 0xF0.
   */
  lemma StripAgreesWithFeed(c: Client, items: seq<Item>)
    requires c.state.Plain? && c.inbuf == [] && AllValid(items)
    ensures Strip(EncodeAll(items)) == NonZero(Feed(c, EncodeAll(items)).inbuf) <==> SafeItems(items)
  {
    StripItems(items);
    LeaksOnlyAddBytes(items);
    FeedItems(c, items);
    TakeAllCollects(c, items);
    assert [] + DataOf(items) == DataOf(items);
  }

  /** Stripping undoes the doubling of `write`, exactly for data without zero bytes. */
  lemma StripUndoesWrite(data: seq<byte>)
    ensures Strip(Double(data)) == NonZero(data)
    ensures Strip(Double(data)) == data <==> forall k :: 0 <= k < |data| ==> data[k] != 0
  {
    assert Double(data) + [] == Double(data) && NonZero(data) + Strip([]) == NonZero(data);
    StripDoubled(data, []);
    NonZeroKeeps(data);
  }

  lemma {:induction false} NonZeroKeeps(s: seq<byte>)
    ensures |NonZero(s)| <= |s|
    ensures NonZero(s) == s <==> forall k :: 0 <= k < |s| ==> s[k] != 0
    decreases |s|
  {
    if s != [] {
      NonZeroKeeps(s[1..]);
      assert forall k :: 0 <= k < |s[1..]| ==> s[1..][k] == s[k + 1];
      assert forall k :: 1 <= k < |s| ==> s[k] == s[1..][k - 1];
      if s[0] != 0 && NonZero(s) == s {
        assert NonZero(s)[1..] == NonZero(s[1..]);
      }
    }
  }

  // ---------- reads of any size ----------

  /** What the socket gives in turn: data, a timeout, or its end. */
  datatype Recv = Chunk(data: seq<byte>) | Timeout | Closed

  datatype Port = Port(pending: seq<byte>, socket: seq<Recv>)

  /** `read(n)`: the bytes returned and what is left. */
  function Read(p: Port, n: nat): (r: (seq<byte>, Port))
    ensures |r.0| <= n && |r.1.socket| <= |p.socket|
    decreases |p.socket|, n, |p.pending|
  {
    if n == 0 then ([], p)
    else if |p.pending| >= n then (p.pending[..n], p.(pending := p.pending[n..]))
    else if p.socket == [] then (p.pending, p.(pending := []))
    else if !p.socket[0].Chunk? || p.socket[0].data == [] then (p.pending, Port([], p.socket[1..]))
    else
      var (more, left) := Read(Port(Strip(p.socket[0].data), p.socket[1..]), n - |p.pending|);
      (p.pending + more, left)
  }

  function StripRecvs(rs: seq<Recv>): seq<byte> {
    if rs == [] then [] else (if rs[0].Chunk? then Strip(rs[0].data) else []) + StripRecvs(rs[1..])
  }

  /** Everything the port can still deliver. */
  function Stream(p: Port): seq<byte> {
    p.pending + StripRecvs(p.socket)
  }

  /** A read returns the next bytes of the stripped stream and leaves the rest. */
  lemma {:induction false} ReadTakesPrefix(p: Port, n: nat)
    ensures Read(p, n).0 + Stream(Read(p, n).1) == Stream(p)
    ensures |Read(p, n).0| < n ==> Read(p, n).1.pending == []
    decreases |p.socket|
  {
    if n > |p.pending| && p.socket != [] {
      var rs := p.socket[1..];
      if p.socket[0].Chunk? && p.socket[0].data != [] {
        var q := Port(Strip(p.socket[0].data), rs);
        ReadTakesPrefix(q, n - |p.pending|);
        var (more, left) := Read(q, n - |p.pending|);
        assert (p.pending + more) + Stream(left) == p.pending + (more + Stream(left));
        assert p.pending + Stream(q) == Stream(p);
      } else {
        assert (if p.socket[0].Chunk? then Strip(p.socket[0].data) else []) == [];
        assert StripRecvs(p.socket) == StripRecvs(rs);
        assert p.pending + ([] + StripRecvs(rs)) == Stream(p);
      }
    } else if n == 0 {
      assert [] + Stream(p) == Stream(p);
    } else if |p.pending| >= n {
      assert p.pending[..n] + (p.pending[n..] + StripRecvs(p.socket)) == Stream(p);
    } else {
      assert p.pending + ([] + StripRecvs(p.socket)) == Stream(p);
    }
  }

  /** What a receive must give for the reading to go on. */
  predicate IsData(r: Recv) {
    r.Chunk? && r.data != []
  }

  /**
   A read receives only while it has too little, and gives up only at a timeout, an empty chunk or
   the end of the connection: it takes `used` receives, all of them data but for the last of a
   short read, and a full read has used none that it did not need.
   */
  lemma {:induction false} ReadStopsWhenDry(p: Port, n: nat) returns (used: nat)
    ensures var (out, left) := Read(p, n);
            && used <= |p.socket| && left.socket == p.socket[used..]
            && (forall k :: 0 <= k < used - 1 ==> IsData(p.socket[k]))
            && (|out| < n && used < |p.socket| ==> used > 0 && !IsData(p.socket[used - 1]))
            && (|out| == n && used > 0 ==>
                  IsData(p.socket[used - 1]) && |p.pending + StripRecvs(p.socket[..used - 1])| < n)
    decreases |p.socket|
  {
    used := 0;
    if n > |p.pending| && p.socket != [] {
      var rs := p.socket[1..];
      used := 1;
      if IsData(p.socket[0]) {
        var q := Port(Strip(p.socket[0].data), rs);
        var u := ReadStopsWhenDry(q, n - |p.pending|);
        used := u + 1;
        assert rs[u..] == p.socket[used..];
        if u > 0 {
          assert p.socket[..used - 1][0] == p.socket[0] && p.socket[..used - 1][1..] == rs[..u - 1];
          assert p.socket[used - 1] == rs[u - 1];
        } else {
          assert p.socket[..0] == [];
        }
      }
    }
  }

  function ReadMany(p: Port, sizes: seq<nat>): (seq<byte>, Port)
    decreases |sizes|
  {
    if sizes == [] then ([], p) else
    var (out, q) := Read(p, sizes[0]);
    var (more, left) := ReadMany(q, sizes[1..]);
    (out + more, left)
  }

  /** Reads of any sizes return the stripped stream with nothing lost, repeated or reordered. */
  lemma {:induction false} ReadsReturnStream(p: Port, sizes: seq<nat>)
    ensures ReadMany(p, sizes).0 + Stream(ReadMany(p, sizes).1) == Stream(p)
    decreases |sizes|
  {
    if sizes == [] {
      assert [] + Stream(p) == Stream(p);
    } else {
      ReadTakesPrefix(p, sizes[0]);
      var (out, q) := Read(p, sizes[0]);
      ReadsReturnStream(q, sizes[1..]);
      var (more, left) := ReadMany(q, sizes[1..]);
      assert (out + more) + Stream(left) == out + (more + Stream(left));
    }
  }

  // ---------- where chunks may be cut ----------

  function Flat(groups: seq<seq<Item>>): seq<Item> {
    if groups == [] then [] else groups[0] + Flat(groups[1..])
  }

  /** The items of each group in one chunk. */
  function Encoded(groups: seq<seq<Item>>): seq<seq<byte>> {
    if groups == [] then [] else [EncodeAll(groups[0])] + Encoded(groups[1..])
  }

  function Chunks(data: seq<seq<byte>>): seq<Recv> {
    if data == [] then [] else [Chunk(data[0])] + Chunks(data[1..])
  }

  lemma {:induction false} EncodeAllAppend(a: seq<Item>, b: seq<Item>)
    ensures EncodeAll(a + b) == EncodeAll(a) + EncodeAll(b)
    decreases |a|
  {
    if a == [] {
      assert a + b == b && [] + EncodeAll(b) == EncodeAll(b);
    } else {
      assert (a + b)[1..] == a[1..] + b;
      EncodeAllAppend(a[1..], b);
    }
  }

  lemma {:induction false} LeakAllAppend(a: seq<Item>, b: seq<Item>)
    ensures LeakAll(a + b) == LeakAll(a) + LeakAll(b)
    decreases |a|
  {
    hide LeakOf;
    if a == [] {
      assert a + b == b && [] + LeakAll(b) == LeakAll(b);
    } else {
      assert (a + b)[1..] == a[1..] + b;
      LeakAllAppend(a[1..], b);
    }
  }

  lemma {:induction false} AlignedChunks(groups: seq<seq<Item>>)
    requires forall g :: g in groups ==> AllValid(g)
    ensures AllValid(Flat(groups)) && Joined(Encoded(groups)) == EncodeAll(Flat(groups))
    ensures StripRecvs(Chunks(Encoded(groups))) == LeakAll(Flat(groups))
    decreases |groups|
  {
    hide Strip, LeakAll, EncodeAll, ValidItem;
    if groups == [] {
      assert EncodeAll([]) == [] && LeakAll([]) == [] by { StripItems([]); EncodeNothing(); }
    } else {
      var g, more := groups[0], groups[1..];
      assert g in groups && forall x :: x in more ==> x in groups;
      AlignedChunks(more);
      EncodeAllAppend(g, Flat(more));
      LeakAllAppend(g, Flat(more));
      StripItems(g);
      assert Encoded(groups)[0] == EncodeAll(g) && Encoded(groups)[1..] == Encoded(more);
      var rs := Chunks(Encoded(groups));
      assert rs[0] == Chunk(EncodeAll(g)) && rs[1..] == Chunks(Encoded(more));
    }
  }

  lemma EncodeNothing()
    ensures EncodeAll([]) == [] && LeakAll([]) == []
  {
  }

  /**
   Chunks that are cut between items, stripped one by one, give the data of the incremental
   parser without its zero bytes, exactly when no subnegotiation body leaks.
   */
  lemma AlignedReadsAgreeWithFeed(c: Client, groups: seq<seq<Item>>)
    requires c.state.Plain? && c.inbuf == [] && forall g :: g in groups ==> AllValid(g)
    ensures AllValid(Flat(groups))
    ensures Stream(Port([], Chunks(Encoded(groups)))) == NonZero(FeedAll(c, Encoded(groups)).inbuf)
       <==> SafeItems(Flat(groups))
  {
    hide Strip, StripRecvs, LeakAll, SafeItems, Feed, FeedAll;
    AlignedChunks(groups);
    LeaksOnlyAddBytes(Flat(groups));
    FeedYieldsData(c, Flat(groups), Encoded(groups));
    assert [] + DataOf(Flat(groups)) == DataOf(Flat(groups));
  }

  /** A doubled 0xFF that is cut in two is lost in reading, but not to the incremental parser. */
  lemma CutPairIsLost(c: Client)
    requires c.state.Plain? && c.inbuf == []
    ensures Stream(Port([], [Chunk([IAC]), Chunk([IAC])])) == [] && FeedAll(c, [[IAC], [IAC]]).inbuf == [IAC]
  {
    var rs, one := [Chunk([IAC]), Chunk([IAC])], [Chunk([IAC])];
    assert rs[1..] == one && one[1..] == [];
    assert StripRecvs(one) == [] && StripRecvs(rs) == [];
    var cut, half: seq<seq<byte>> := [[IAC], [IAC]], [[IAC]];
    assert cut[1..] == half && half[1..] == [];
    FeedOne(c, IAC);
    var d := Feed(c, [IAC]);
    FeedOne(d, IAC);
    assert FeedAll(d, half) == Feed(d, [IAC]) && FeedAll(c, cut) == FeedAll(d, half);
  }
}
