/**
 The TFTP transfers of porttools/network_conformance.py: uploading a payload block by block and
 downloading it again (RFC 1350, blksize option of RFC 2348).
 */
module Tftp {
  import opened Bytes
  import opened Wrappers

  type Datagram = seq<byte>

  /** The receive buffer: longer datagrams are cut off. */
  const BUFFER := 1024

  datatype Error = BadBlockSize | BlockOverflow | BadAck | BadData | BadBlock | Timeout

  function BigEndian16(n: nat): seq<byte>
    requires n < 0x1_0000
  {
    [n / 256, n % 256]
  }

  function DataPacket(block: nat, chunk: seq<byte>): Datagram
    requires block < 0x1_0000
  {
    [0, 3] + BigEndian16(block) + chunk
  }

  function AckPacket(block: nat): Datagram
    requires block < 0x1_0000
  {
    [0, 4] + BigEndian16(block)
  }

  // ---------- sending ----------

  /** Blocks of a payload from number `block` on; the last one is shorter than the others. */
  function Blocks(payload: seq<byte>, bs: nat, block: nat): seq<Datagram>
    requires bs > 0 && block + |payload| / bs < 0x1_0000
    decreases |payload|
  {
    if |payload| < bs then [DataPacket(block, payload)]
    else
      QuotientDrops(|payload|, bs);
      [DataPacket(block, payload[..bs])] + Blocks(payload[bs..], bs, block + 1)
  }

  lemma Product(k: int, d: int)
    requires d > 0
    ensures k >= 1 ==> k * d >= d
    ensures k <= -1 ==> k * d <= -d
  {
    if k >= 1 {
      assert k * d == d + (k - 1) * d;
    } else if k <= -1 {
      assert k * d == -d + (k + 1) * d;
    }
  }

  lemma QuotientIs(n: nat, d: nat, q: int, r: nat)
    requires d > 0 && n == q * d + r && r < d
    ensures n / d == q && n % d == r
  {
    var k := n / d - q;
    assert k * d == r - n % d by {
      assert n == (n / d) * d + n % d;
      assert k * d == (n / d) * d - q * d;
    }
    Product(k, d);
  }

  lemma QuotientDrops(n: nat, bs: nat)
    requires bs > 0 && n >= bs
    ensures n / bs == (n - bs) / bs + 1
  {
    var q, r := n / bs, n % bs;
    assert n == q * bs + r;
    assert n - bs == (q - 1) * bs + r;
    QuotientIs(n - bs, bs, q - 1, r);
  }

  /** Datagrams sent and the outcome, when the server's replies are `acks`. */
  function Upload(payload: seq<byte>, bs: nat, block: nat, acks: seq<Datagram>): (seq<Datagram>, Result<(), Error>)
    requires bs > 0
    decreases |payload|
  {
    if block >= 0x1_0000 then ([], Err(BlockOverflow)) else
    var chunk := if |payload| < bs then payload else payload[..bs];
    var d := DataPacket(block, chunk);
    if acks == [] then ([d], Err(Timeout))
    else if acks[0] != AckPacket(block) then ([d], Err(BadAck))
    else if |payload| < bs then ([d], Ok(()))
    else
      var (more, r) := Upload(payload[bs..], bs, block + 1, acks[1..]);
      ([d] + more, r)
  }

  /** The upload loops: one over the offsets of the payload, then the empty block if it is due. */
  method TftpWrite(payload: seq<byte>, blksize: nat, acks: seq<Datagram>) returns (sent: seq<Datagram>, r: Result<(), Error>)
    ensures blksize == 0 ==> sent == [] && r == Err(BadBlockSize)
    ensures blksize > 0 ==> (sent, r) == Upload(payload, blksize, 1, acks)
  {
    sent := [];
    if blksize == 0 { return sent, Err(BadBlockSize); }
    var block, offset, i := 1, 0, 0;
    ghost var whole := Upload(payload, blksize, 1, acks);
    assert payload[0..] == payload && acks[0..] == acks && [] + whole.0 == whole.0;
    while offset < |payload|
      invariant offset <= |payload| || offset - |payload| < blksize
      invariant i <= |acks| && (offset > |payload| ==> |payload| % blksize != 0)
      invariant offset % blksize == 0
      invariant offset <= |payload| ==>
        var (more, z) := Upload(payload[offset..], blksize, block, acks[i..]); whole == (sent + more, z)
      invariant offset > |payload| ==> whole == (sent, Ok(()))
      decreases |payload| + blksize - offset
    {
      hide DataPacket, AckPacket;
      UploadStep(payload[offset..], blksize, block, acks[i..]);
      var chunk := if offset + blksize < |payload| then payload[offset..offset + blksize] else payload[offset..];
      assert chunk == if |payload[offset..]| < blksize then payload[offset..] else payload[offset..][..blksize];
      if block >= 0x1_0000 {
        assert sent + [] == sent;
        return sent, Err(BlockOverflow);
      }
      ghost var before := sent;
      sent := sent + [DataPacket(block, chunk)];
      if i == |acks| { return sent, Err(Timeout); }
      if acks[i] != AckPacket(block) { return sent, Err(BadAck); }
      MultipleOf(offset, blksize, |payload|);
      assert acks[i..][1..] == acks[i + 1..];
      if |payload| - offset >= blksize {
        assert payload[offset..][blksize..] == payload[offset + blksize..];
        Regroup(before, DataPacket(block, chunk), Upload(payload[offset + blksize..], blksize, block + 1, acks[i + 1..]).0);
      }
      i, block, offset := i + 1, block + 1, offset + blksize;
    }
    MultipleOf(offset, blksize, |payload|);
    if |payload| % blksize == 0 {
      assert offset == |payload| && payload[offset..] == [];
      if block >= 0x1_0000 {
        assert sent + [] == sent;
        return sent, Err(BlockOverflow);
      }
      sent := sent + [DataPacket(block, [])];
      if i == |acks| { return sent, Err(Timeout); }
      if acks[i] != AckPacket(block) { return sent, Err(BadAck); }
    }
    r := Ok(());
  }

  lemma UploadStep(payload: seq<byte>, bs: nat, block: nat, acks: seq<Datagram>)
    requires bs > 0
    ensures Upload(payload, bs, block, acks)
         == if block >= 0x1_0000 then ([], Err(BlockOverflow)) else
            var d := DataPacket(block, if |payload| < bs then payload else payload[..bs]);
            if acks == [] then ([d], Err(Timeout))
            else if acks[0] != AckPacket(block) then ([d], Err(BadAck))
            else if |payload| < bs then ([d], Ok(()))
            else
              var (more, r) := Upload(payload[bs..], bs, block + 1, acks[1..]);
              ([d] + more, r)
  {
  }

  lemma Regroup(before: seq<Datagram>, d: Datagram, more: seq<Datagram>)
    ensures before + ([d] + more) == (before + [d]) + more
  {
  }

  lemma MultipleOf(offset: nat, bs: nat, n: nat)
    requires bs > 0 && offset % bs == 0
    ensures (offset + bs) % bs == 0
    ensures offset == n ==> n % bs == 0
    ensures offset < n < offset + bs ==> n % bs != 0
    ensures n <= offset < n + bs && n % bs == 0 ==> offset == n
  {
    var q := offset / bs;
    assert offset == q * bs + 0;
    assert offset + bs == (q + 1) * bs + 0;
    QuotientIs(offset + bs, bs, q + 1, 0);
    if offset < n < offset + bs {
      QuotientIs(n, bs, q, n - offset);
    }
    if n <= offset < n + bs && n % bs == 0 {
      var k := n / bs;
      assert n == k * bs;
      assert offset - n == (q - k) * bs;
      Product(q - k, bs);
      assert q == k;
    }
  }

  // ---------- receiving ----------

  function Arrived(d: Datagram): Datagram {
    if |d| > BUFFER then d[..BUFFER] else d
  }

  /** The download loop on the datagrams that come in. */
  function Download(incoming: seq<Datagram>, bs: nat, expected: nat, received: seq<byte>): Result<seq<byte>, Error>
    decreases |incoming|
  {
    if incoming == [] then Err(Timeout) else
    var d := Arrived(incoming[0]);
    if |d| < 4 || d[0] != 0 || d[1] != 3 then Err(BadData)
    else if d[2] as int * 256 + d[3] as int != expected then Err(BadBlock)
    else if |d[4..]| < bs then Ok(received + d[4..])
    else Download(incoming[1..], bs, expected + 1, received + d[4..])
  }

  method TftpRead(incoming: seq<Datagram>, blksize: nat) returns (r: Result<seq<byte>, Error>)
    ensures r == Download(incoming, blksize, 1, [])
  {
    var received, expected, i := [], 1, 0;
    assert incoming[0..] == incoming;
    while i < |incoming|
      invariant i <= |incoming|
      invariant Download(incoming, blksize, 1, []) == Download(incoming[i..], blksize, expected, received)
    {
      assert incoming[i..][1..] == incoming[i + 1..];
      var data := Arrived(incoming[i]);
      if |data| < 4 || data[0] != 0 || data[1] != 3 { return Err(BadData); }
      if data[2] as int * 256 + data[3] as int != expected { return Err(BadBlock); }
      var chunk := data[4..];
      received := received + chunk;
      if |chunk| < blksize { return Ok(received); }
      expected := expected + 1;
      i := i + 1;
    }
    r := Err(Timeout);
  }

  // ---------- the round trip ----------

  function Acks(first: nat, n: nat): seq<Datagram>
    requires first + n <= 0x1_0000
    decreases n
  {
    if n == 0 then [] else [AckPacket(first)] + Acks(first + 1, n - 1)
  }

  /** Blocks are numbered in order, all but the last are full, and the last is shorter. */
  lemma {:induction false} BlocksAreNumbered(payload: seq<byte>, bs: nat, block: nat)
    requires bs > 0 && block + |payload| / bs < 0x1_0000
    ensures var b := Blocks(payload, bs, block);
            && |b| == |payload| / bs + 1
            && (forall k :: 0 <= k < |b| ==> |b[k]| >= 4 && b[k][..4] == [0, 3, (block + k) / 256, (block + k) % 256])
            && (forall k :: 0 <= k < |b| - 1 ==> |b[k]| == 4 + bs)
            && |b[|b| - 1]| < 4 + bs
    decreases |payload|
  {
    if |payload| >= bs {
      QuotientDrops(|payload|, bs);
      BlocksAreNumbered(payload[bs..], bs, block + 1);
    }
  }

  /** A server that acknowledges every block gets exactly the blocks. */
  lemma {:induction false} UploadSendsBlocks(payload: seq<byte>, bs: nat, block: nat)
    requires bs > 0 && block + |payload| / bs < 0x1_0000
    ensures Upload(payload, bs, block, Acks(block, |payload| / bs + 1)) == (Blocks(payload, bs, block), Ok(()))
    decreases |payload|
  {
    if |payload| >= bs {
      QuotientDrops(|payload|, bs);
      UploadSendsBlocks(payload[bs..], bs, block + 1);
    }
  }

  /** An acknowledgement is four bytes: 0, 4 and the block number, high byte first. */
  lemma {:induction false} AcksAreNumbered(first: nat, n: nat)
    requires first + n <= 0x1_0000
    ensures var acks := Acks(first, n);
            |acks| == n && forall k :: 0 <= k < n ==> acks[k] == [0, 4, (first + k) / 256, (first + k) % 256]
    decreases n
  {
    if n > 0 {
      AcksAreNumbered(first + 1, n - 1);
      assert Acks(first, n) == [AckPacket(first)] + Acks(first + 1, n - 1);
    }
  }

  lemma SmallQuotient(n: nat, bs: nat)
    requires bs > 0
    ensures n < bs ==> n / bs == 0
  {
    if n < bs {
      QuotientIs(n, bs, 0, n);
    }
  }

  lemma UploadStopsAtOnce(payload: seq<byte>, bs: nat, block: nat, acks: seq<Datagram>)
    requires bs > 0 && block + |payload| / bs < 0x1_0000
    requires acks != [] ==> acks[0] != [0, 4, block / 256, block % 256]
    ensures Blocks(payload, bs, block) != []
    ensures Upload(payload, bs, block, acks) == ([Blocks(payload, bs, block)[0]], Err(if acks == [] then Timeout else BadAck))
  {
    assert AckPacket(block) == [0, 4, block / 256, block % 256];
  }

  /** After j good answers a missing one is a timeout and any other datagram an error; no further block is sent. */
  lemma {:induction false} UploadStopsAt(payload: seq<byte>, bs: nat, block: nat, acks: seq<Datagram>, j: nat)
    requires bs > 0 && block + |payload| / bs < 0x1_0000 && j <= |payload| / bs && j <= |acks|
    requires acks[..j] == Acks(block, j) && (j < |acks| ==> acks[j] != [0, 4, (block + j) / 256, (block + j) % 256])
    ensures j < |Blocks(payload, bs, block)|
    ensures Upload(payload, bs, block, acks)
         == (Blocks(payload, bs, block)[..j + 1], Err(if j == |acks| then Timeout else BadAck))
    decreases |payload|
  {
    BlocksAreNumbered(payload, bs, block);
    var all := Blocks(payload, bs, block);
    if j == 0 {
      UploadStopsAtOnce(payload, bs, block, acks);
      assert all[..1] == [all[0]];
    } else {
      SmallQuotient(|payload|, bs);
      QuotientDrops(|payload|, bs);
      var more := Blocks(payload[bs..], bs, block + 1);
      assert all == [DataPacket(block, payload[..bs])] + more;
      assert acks[..j][0] == AckPacket(block) && acks[..j][1..] == Acks(block + 1, j - 1);
      assert acks[1..][..j - 1] == acks[..j][1..];
      UploadStep(payload, bs, block, acks);
      hide Upload, Acks, Blocks, DataPacket, AckPacket;
      UploadStopsAt(payload[bs..], bs, block + 1, acks[1..], j - 1);
      assert all[..j + 1] == [all[0]] + more[..j];
    }
  }

  /** What makes a datagram end the download with an error at block number n. */
  function Fault(d: Datagram, n: nat): Option<Error> {
    if |d| < 4 || d[..2] != [0, 3] then Some(BadData)
    else if d[2] as int * 256 + d[3] as int != n then Some(BadBlock)
    else None
  }

  lemma DownloadStopsAtOnce(bs: nat, n: nat, received: seq<byte>, incoming: seq<Datagram>)
    requires incoming != [] ==> |incoming[0]| <= BUFFER && Fault(incoming[0], n).Some?
    ensures Download(incoming, bs, n, received) == Err(if incoming == [] then Timeout else Fault(incoming[0], n).value)
  {
    if incoming != [] && |incoming[0]| >= 4 {
      assert incoming[0][..2] == [incoming[0][0], incoming[0][1]];
    }
  }

  lemma DownloadTakesBlock(chunk: seq<byte>, bs: nat, n: nat, received: seq<byte>, later: seq<Datagram>)
    requires 0 < bs == |chunk| <= BUFFER - 4 && n < 0x1_0000
    ensures Download([DataPacket(n, chunk)] + later, bs, n, received) == Download(later, bs, n + 1, received + chunk)
  {
    var d := DataPacket(n, chunk);
    assert d[4..] == chunk && d[2] as int * 256 + d[3] as int == n;
    assert ([d] + later)[1..] == later;
  }

  lemma BlocksOf(payload: seq<byte>, bs: nat, block: nat)
    requires bs > 0 && block + |payload| / bs < 0x1_0000
    ensures |Blocks(payload, bs, block)| == |payload| / bs + 1
    ensures |payload| / bs > 0 ==>
              && |payload| >= bs && |payload[bs..]| / bs == |payload| / bs - 1
              && Blocks(payload, bs, block) == [DataPacket(block, payload[..bs])] + Blocks(payload[bs..], bs, block + 1)
  {
    BlocksAreNumbered(payload, bs, block);
    SmallQuotient(|payload|, bs);
    if |payload| >= bs {
      QuotientDrops(|payload|, bs);
    }
  }

  lemma TakeOfCons<T>(first: T, more: seq<T>, later: seq<T>, j: nat)
    requires 0 < j <= |more| + 1
    ensures ([first] + more)[..j] + later == [first] + (more[..j - 1] + later)
  {
  }

  /** The receiver takes full blocks in order and stops with an error at the first datagram that is not the next one. */
  lemma {:induction false} DownloadStopsAt(payload: seq<byte>, bs: nat, block: nat, received: seq<byte>, j: nat, later: seq<Datagram>)
    requires 0 < bs <= BUFFER - 4 && block + |payload| / bs < 0x1_0000 && j <= |payload| / bs
    requires later != [] ==> |later[0]| <= BUFFER && Fault(later[0], block + j).Some?
    ensures j < |Blocks(payload, bs, block)|
    ensures Download(Blocks(payload, bs, block)[..j] + later, bs, block, received)
         == Err(if later == [] then Timeout else Fault(later[0], block + j).value)
    decreases j
  {
    hide Blocks, Download, DataPacket, Fault;
    BlocksOf(payload, bs, block);
    if j == 0 {
      assert Blocks(payload, bs, block)[..0] + later == later;
      DownloadStopsAtOnce(bs, block, received, later);
    } else {
      var first, rest := payload[..bs], payload[bs..];
      var more := Blocks(rest, bs, block + 1);
      DownloadStopsAt(rest, bs, block + 1, received + first, j - 1, later);
      TakeOfCons(DataPacket(block, first), more, later, j);
      DownloadTakesBlock(first, bs, block, received, more[..j - 1] + later);
    }
  }

  /** With more blocks than numbers the upload stops with an error, whatever the server says. */
  lemma {:induction false} TooManyBlocksFail(payload: seq<byte>, bs: nat, block: nat, acks: seq<Datagram>)
    requires bs > 0 && block + |payload| / bs >= 0x1_0000
    ensures Upload(payload, bs, block, acks).1.Err?
    decreases |payload|
  {
    if block < 0x1_0000 && |payload| >= bs && acks != [] {
      QuotientDrops(|payload|, bs);
      TooManyBlocksFail(payload[bs..], bs, block + 1, acks[1..]);
    }
  }

  lemma {:induction false} DownloadReadsBlocks(payload: seq<byte>, bs: nat, block: nat, received: seq<byte>)
    requires bs > 0 && block + |payload| / bs < 0x1_0000 && (bs <= BUFFER - 4 || |payload| <= BUFFER - 4)
    ensures Download(Blocks(payload, bs, block), bs, block, received) == Ok(received + payload)
    decreases |payload|
  {
    if |payload| >= bs {
      QuotientDrops(|payload|, bs);
      DownloadReadsBlocks(payload[bs..], bs, block + 1, received + payload[..bs]);
      assert received + payload[..bs] + payload[bs..] == received + payload;
    }
  }

  /**
   For every payload and block size, uploading with acknowledged blocks and downloading what was
   sent gives the payload back exactly when the block numbers suffice and either a full block
   or the whole payload fits the receive buffer.
   */
  lemma TransferRoundTrip(payload: seq<byte>, bs: nat, acks: seq<Datagram>)
    requires bs > 0
    requires 1 + |payload| / bs < 0x1_0000 ==> acks == Acks(1, |payload| / bs + 1)
    ensures var (sent, r) := Upload(payload, bs, 1, acks);
            (r.Ok? && Download(sent, bs, 1, []) == Ok(payload)
            <==> 1 + |payload| / bs < 0x1_0000 && (bs <= BUFFER - 4 || |payload| <= BUFFER - 4))
  {
    if 1 + |payload| / bs >= 0x1_0000 {
      TooManyBlocksFail(payload, bs, 1, acks);
    } else {
      UploadSendsBlocks(payload, bs, 1);
      if bs <= BUFFER - 4 || |payload| <= BUFFER - 4 {
        DownloadReadsBlocks(payload, bs, 1, []);
        assert [] + payload == payload;
      } else {
        var b := Blocks(payload, bs, 1);
        assert |b[0]| > BUFFER;
        assert |Arrived(b[0])[4..]| == BUFFER - 4;
        assert Download(b, bs, 1, []) == Ok([] + Arrived(b[0])[4..]);
      }
    }
  }
}
