/**
 MMInkey (runtime/runtime_console.c) and the escape decoder behind it, working in place on the
 pushback ring, the console receive ring and the events of the raw byte source. The model is a
 function on the queues these hold.
 */
module ConsoleInput {
  import opened Wrappers
  import opened EscapeKeys

  // ---------- the key source as a function ----------

  /** What is waiting: pushed back bytes, received console bytes, events of the byte source. */
  datatype Queues = Queues(pushed: seq<int>, rx: seq<int>, source: Events)

  /** What the port's hooks answer in one call; -2 means that a hook has no key. */
  datatype Env = Env(scripted: int, simulated: int, raw: bool, ctrlDExits: bool, repl: bool, stdin: int, keepLf: bool)

  datatype Key = Key(code: int) | Exit

  /** The pushback ring holds three bytes; further ones are dropped. */
  function Capped(s: seq<int>): (r: seq<int>)
    ensures |r| <= 3
  {
    if |s| <= 3 then s else s[..3]
  }

  function Inkey(q: Queues, env: Env): (Queues, Key) {
    if q.pushed != [] then (q.(pushed := q.pushed[1..]), Key(q.pushed[0]))
    else if q.rx != [] then (q.(rx := q.rx[1..]), Key(Normalise(q.rx[0])))
    else if env.scripted != -2 then (q, Key(env.scripted))
    else if env.simulated != -2 then (q, Key(env.simulated))
    else if env.raw then
      var c, r := Head(q.source), q.(source := Tail(q.source));
      if c < 0 then (r, Key(-1))
      else if c == 4 && env.ctrlDExits then (r, Exit)
      else if c == ESC then
        var d := Decode(r.source);
        (Queues(Capped(d.pushed), q.rx, d.rest), Key(d.key))
      else (r, Key(Normalise(c)))
    else if env.repl then
      (q, if env.stdin < 0 then Exit
          else if env.stdin == '\n' as int && !env.keepLf then Key(ENTER) else Key(env.stdin))
    else (q, Key(-1))
  }

  /** Queues any number of calls and arrivals can lead to. */
  predicate Reachable(q: Queues) {
    |q.pushed| <= 3 && forall k :: 0 <= k < |q.pushed| ==> q.pushed[k] >= 0
  }

  /** What happens between two looks at the keyboard: a call, or bytes arriving. */
  datatype Action = Call(env: Env) | Received(c: int) | Sent(events: Events)

  function Act(q: Queues, a: Action): Queues {
    match a
    case Call(env) => Inkey(q, env).0
    case Received(c) => q.(rx := q.rx + [c])
    case Sent(events) => q.(source := q.source + events)
  }

  function ActAll(q: Queues, acts: seq<Action>): Queues
    decreases |acts|
  {
    if acts == [] then q else ActAll(Act(q, acts[0]), acts[1..])
  }

  /** A call that decodes an escape sequence. */
  predicate StartsEscape(q: Queues, env: Env) {
    && q.pushed == [] && q.rx == [] && env.scripted == -2 && env.simulated == -2 && env.raw
    && q.source != [] && q.source[0] == ESC
  }

  /**
   Over every run the ring holds at most three bytes, all of them real; while it holds any, a
   call takes the first and leaves the sources alone; so the decoder starts with an empty
   ring, and what it pushes back fits.
   */
  lemma {:induction false} RingNeverDrops(q: Queues, acts: seq<Action>)
    requires Reachable(q)
    ensures var r := ActAll(q, acts);
            && Reachable(r)
            && forall env :: (r.pushed != [] ==> Inkey(r, env) == (r.(pushed := r.pushed[1..]), Key(r.pushed[0])))
                          && (StartsEscape(r, env) ==> Inkey(r, env).0.pushed == Decode(r.source[1..]).pushed)
    decreases |acts|
  {
    hide Decode;
    var k := DecodeConsumesOrPushesBack(Tail(q.source));
    if acts != [] {
      RingNeverDrops(Act(q, acts[0]), acts[1..]);
    }
  }

  function Keys(s: seq<int>): (r: seq<Key>)
    ensures |r| == |s| && forall k :: 0 <= k < |s| ==> r[k] == Key(s[k])
  {
    if s == [] then [] else [Key(s[0])] + Keys(s[1..])
  }

  /** n calls in a row, each with its own environment. */
  function Calls(q: Queues, envs: seq<Env>): (Queues, seq<Key>)
    decreases |envs|
  {
    if envs == [] then (q, []) else
    var (r, key) := Inkey(q, envs[0]);
    var (z, keys) := Calls(r, envs[1..]);
    (z, [key] + keys)
  }

  lemma {:induction false} PushedBytesComeFirst(q: Queues, envs: seq<Env>)
    requires |envs| == |q.pushed|
    ensures Calls(q, envs) == (q.(pushed := []), Keys(q.pushed))
    decreases |envs|
  {
    if envs != [] {
      PushedBytesComeFirst(q.(pushed := q.pushed[1..]), envs[1..]);
    }
  }

  /**
   After ESC and an unknown, not numeric sequence, the next calls return exactly the bytes that
   were read after ESC, in order and before anything else, whatever arrives meanwhile.
   */
  lemma RejectedBytesAreReturned(q: Queues, env: Env, envs: seq<Env>) returns (k: nat)
    requires StartsEscape(q, env)
    requires Inkey(q, env).1 == Key(ESC) && !IsNumeric(q.source[1..])
    requires |envs| == |Inkey(q, env).0.pushed|
    ensures 1 <= k <= |q.source|
    ensures var read := Bytes(q.source[1..k]);
            && |envs| == |read|
            && Calls(Inkey(q, env).0, envs)
            == (Queues([], [], q.source[k..]), Keys(read))
  {
    hide Decode;
    k := DecodeConsumesOrPushesBack(q.source[1..]);
    assert q.source[1..][..k] == q.source[1..k + 1];
    assert q.source[1..][k..] == q.source[k + 1..];
    PushedBytesComeFirst(Inkey(q, env).0, envs);
    k := k + 1;
  }

  // ---------- where a key comes from ----------

  /** Delete is backspace, line feed is enter, every other byte is itself. */
  lemma NormalisedBytes(c: int)
    ensures Normalise(0x7F) == 8 && Normalise(10) == 13
    ensures c != 0x7F && c != 10 ==> Normalise(c) == c
  {
  }

  /** No key is waiting that comes before the port's byte source or standard input. */
  predicate NothingFirst(q: Queues, env: Env) {
    q.pushed == [] && q.rx == [] && env.scripted == -2 && env.simulated == -2
  }

  /**
   The order of the sources: pushed back bytes as they are, received bytes normalised, a scripted
   key, a simulated key; each leaves all later sources alone.
   */
  lemma KeysComeInOrder(q: Queues, env: Env)
    ensures var (r, key) := Inkey(q, env);
            && (q.pushed != [] ==> key == Key(q.pushed[0]) && r == Queues(q.pushed[1..], q.rx, q.source))
            && (q.pushed == [] && q.rx != [] && q.rx[0] == 0x7F ==> key == Key(8))
            && (q.pushed == [] && q.rx != [] && q.rx[0] == 10 ==> key == Key(13))
            && (q.pushed == [] && q.rx != [] && q.rx[0] != 0x7F && q.rx[0] != 10 ==> key == Key(q.rx[0]))
            && (q.pushed == [] && q.rx != [] ==> r == Queues([], q.rx[1..], q.source))
            && (q.pushed == [] && q.rx == [] && env.scripted != -2 ==> key == Key(env.scripted) && r == q)
            && (q.pushed == [] && q.rx == [] && env.scripted == -2 && env.simulated != -2 ==>
                  key == Key(env.simulated) && r == q)
            && (r.source != q.source ==> NothingFirst(q, env) && env.raw)
  {
    hide Decode;
  }

  /**
   The last sources. In raw mode the next byte: none is -1, Ctrl-D may end the run, ESC starts a
   sequence, delete and line feed are mapped. Outside it standard input in the REPL, whose end ends
   the run and whose line feed is enter unless the port keeps it. Else there is no key.
   */
  lemma LastSources(q: Queues, env: Env)
    requires NothingFirst(q, env)
    ensures var (r, key) := Inkey(q, env);
            && (env.raw && (q.source == [] || q.source[0] < 0) ==> key == Key(-1) && r.pushed == [])
            && (env.raw && q.source != [] ==>
                  var c := q.source[0];
                  && (c == 4 ==> key == if env.ctrlDExits then Exit else Key(4))
                  && (c == 0x1B ==> key == Key(Decode(q.source[1..]).key) && r.source == Decode(q.source[1..]).rest)
                  && (c == 0x7F ==> key == Key(8)) && (c == 10 ==> key == Key(13))
                  && (c >= 0 && c != 4 && c != 0x1B && c != 0x7F && c != 10 ==> key == Key(c))
                  && (c != 0x1B ==> r == Queues([], [], q.source[1..])))
            && (!env.raw && env.repl ==>
                  && r == q
                  && (key.Exit? <==> env.stdin < 0)
                  && (env.stdin >= 0 ==> key == if env.stdin == 10 && !env.keepLf then Key(13) else Key(env.stdin)))
            && (!env.raw && !env.repl ==> r == q && key == Key(-1))
  {
    hide Decode;
  }

  // ---------- the same in place ----------

  /** The bytes of a ring from tail up to head. */
  ghost function Waiting(r: seq<int>, tail: nat, head: nat): seq<int>
    requires tail < |r| && head < |r|
  {
    if tail <= head then r[tail..head] else r[tail..] + r[..head]
  }

  class Console {
    const ring: array<int>
    var head: nat
    var tail: nat
    const rxBuf: array<int>
    var rxHead: nat
    var rxTail: nat
    var source: Events

    constructor (rxSize: nat)
      requires rxSize > 0
      ensures Valid() && View() == Queues([], [], []) && fresh(ring) && fresh(rxBuf)
    {
      ring := new int[4](_ => 0);
      rxBuf := new int[rxSize](_ => 0);
      head, tail, rxHead, rxTail, source := 0, 0, 0, 0, [];
    }

    ghost predicate Valid()
      reads `head, `tail, `rxHead, `rxTail
    {
      && ring.Length == 4 && head < 4 && tail < 4
      && ring != rxBuf && rxHead < rxBuf.Length && rxTail < rxBuf.Length
    }

    ghost function Pushed(): seq<int>
      requires Valid()
      reads `head, `tail, `rxHead, `rxTail, ring
    {
      Waiting(ring[..], tail, head)
    }

    ghost function Received(): seq<int>
      requires Valid()
      reads `head, `tail, `rxHead, `rxTail, rxBuf
    {
      Waiting(rxBuf[..], rxTail, rxHead)
    }

    ghost function View(): Queues
      requires Valid()
      reads this, ring, rxBuf
    {
      Queues(Pushed(), Received(), source)
    }

    method PushBack(c: int)
      requires Valid()
      modifies `head, ring
      ensures Valid() && Pushed() == Capped(old(Pushed()) + [c])
    {
      hide Waiting;
      ghost var r, was := ring[..], Pushed();
      var next := (head + 1) % 4;
      WaitingPush(r, tail, head, c);
      WaitingFits(r, tail, head);
      if next == tail {
        assert |was| == 3 && (was + [c])[..3] == was;
        return;
      }
      assert |was + [c]| <= 3;
      ring[head] := c;
      assert ring[..] == r[head := c];
      head := next;
    }

    method PopPushback() returns (c: int)
      requires Valid()
      modifies `tail
      ensures Valid()
      ensures if old(Pushed()) == [] then c == -1 && Pushed() == []
              else c == old(Pushed())[0] && Pushed() == old(Pushed())[1..]
    {
      WaitingIsEmpty(ring[..], tail, head);
      hide Waiting;
      if head == tail { return -1; }
      WaitingPop(ring[..], tail, head);
      c := ring[tail];
      tail := (tail + 1) % 4;
    }

    method ReadByte() returns (c: int)
      requires Valid()
      modifies `source
      ensures c == Head(old(source)) && source == Tail(old(source))
    {
      if source == [] { return -1; }
      c := source[0];
      source := source[1..];
    }

    /** Reads digits and the event after them. */
    method ReadDigits(start: int) returns (n: int, c: int)
      requires Valid()
      modifies `source
      ensures var ev := old(source);
              var k := DigitRun(ev);
              n == Value(start, ev[..k]) && c == Head(ev[k..]) && source == Tail(ev[k..])
    {
      ghost var ev := source;
      ghost var j := 0;
      n := start;
      c := ReadByte();
      while c >= 0 && '0' as int <= c <= '9' as int
        invariant j <= |ev| && c == Head(ev[j..]) && source == Tail(ev[j..])
        invariant DigitRun(ev) == j + DigitRun(ev[j..])
        invariant Value(start, ev[..DigitRun(ev)]) == Value(n, ev[j..DigitRun(ev)])
        decreases |ev| - j
      {
        assert ev[j..][1..] == ev[j + 1..];
        assert ev[j..DigitRun(ev)][1..] == ev[j + 1..DigitRun(ev)];
        n := n * 10 + (c - '0' as int);
        c := ReadByte();
        j := j + 1;
      }
    }

    method DecodeSs3Keys() returns (key: int)
      requires Valid()
      modifies `source, `head, ring
      ensures Valid()
      ensures var d := DecodeSs3(old(source));
              key == d.key && source == d.rest && Pushed() == Capped(old(Pushed()) + d.pushed)
    {
      hide Waiting;
      ghost var was := Pushed();
      WaitingFits(ring[..], tail, head);
      assert was + [] == was;
      var c2 := ReadByte();
      if c2 < 0 {
        PushBack('O' as int);
        return ESC;
      }
      if c2 == 'P' as int { return F1; }
      if c2 == 'Q' as int { return 0x92; }
      if c2 == 'R' as int { return F3; }
      if c2 == 'S' as int { return 0x94; }
      if c2 == 'T' as int { return F5; }
      if c2 == '2' as int {
        var c3 := ReadByte();
        if c3 == 'R' as int { return F3 + SHIFT; }
        PushBack('O' as int);
        PushBack(c2);
        assert Pushed() == Capped(was + ['O' as int, c2]);
        if c3 >= 0 {
          PushBack(c3);
        }
        return ESC;
      }
      PushBack('O' as int);
      PushBack(c2);
      key := ESC;
    }

    method DecodeCsiKeys() returns (key: int)
      requires Valid()
      modifies `source, `head, ring
      ensures Valid()
      ensures var d := DecodeCsi(old(source));
              key == d.key && source == d.rest && Pushed() == Capped(old(Pushed()) + d.pushed)
    {
      hide TildeKey, DigitRun, Value;
      ghost var ev, was := source, Pushed();
      var c2 := ReadByte();
      if c2 < 0 {
        PushBack('[' as int);
        return ESC;
      }
      if LetterKey(c2).Some? { return LetterKey(c2).value; }
      if c2 == 'Z' as int { return SHIFT_TAB; }
      if c2 < '0' as int || c2 > '9' as int {
        PushBack('[' as int);
        PushBack(c2);
        return ESC;
      }
      key := NumericKey(c2, ev);
      assert was + [] == was;
    }

    /** The numeric form, after its first digit. */
    method NumericKey(c2: int, ghost ev: Events) returns (key: int)
      requires Valid() && ev != [] && ev[0] == c2 && IsDigit(c2) && source == ev[1..]
      modifies `source
      ensures var d := DecodeFinal(Value(0, ev[..DigitRun(ev)]), ev[DigitRun(ev)..]);
              key == d.key && source == d.rest && d.pushed == []
    {
      hide TildeKey, LetterKey, FinalKey;
      ghost var k := DigitRun(ev);
      FirstDigitRun(ev);
      ValueOfFirst(ev[..k]);
      hide DigitRun, Value;
      var n, c3 := ReadDigits(c2 - '0' as int);
      if c3 == ';' as int {
        ghost var e := ev[k..];
        assert e[1 + DigitRun(source)..] == e[1..][DigitRun(source)..];
        var m;
        m, c3 := ReadDigits(0);
      }
      key := FinalKey(n, c3);
    }

    /** mmbasic_escdecode_run. */
    method EscDecodeRun() returns (key: int)
      requires Valid()
      modifies `source, `head, ring
      ensures Valid()
      ensures var d := Decode(old(source));
              key == d.key && source == d.rest && Pushed() == Capped(old(Pushed()) + d.pushed)
    {
      hide DecodeCsi, DecodeSs3;
      ghost var was := Pushed();
      var c1 := ReadByte();
      if c1 < 0 {
        assert was + [] == was;
        return ESC;
      }
      if c1 == 'O' as int {
        key := DecodeSs3Keys();
        return;
      }
      if c1 != '[' as int {
        PushBack(c1);
        return ESC;
      }
      key := DecodeCsiKeys();
    }

    /** The next received byte; the ring must not be empty. */
    method PopReceived() returns (c: int)
      requires Valid() && rxHead != rxTail
      modifies `rxTail
      ensures Valid() && c == old(Received())[0] && Received() == old(Received())[1..]
    {
      hide Waiting;
      WaitingPop(rxBuf[..], rxTail, rxHead);
      c := rxBuf[rxTail];
      rxTail := (rxTail + 1) % rxBuf.Length;
    }

    /** The raw-mode branch. */
    method RawKey(ctrlDExits: bool) returns (key: Key)
      requires Valid() && Pushed() == []
      modifies `source, `head, ring
      ensures Valid()
      ensures var c, rest := Head(old(source)), Tail(old(source));
              if c < 0 || (c == 4 && ctrlDExits) || c != ESC then
                source == rest && Pushed() == []
                && key == if c < 0 then Key(-1) else if c == 4 && ctrlDExits then Exit else Key(Normalise(c))
              else
                var d := Decode(rest);
                source == d.rest && Pushed() == Capped(d.pushed) && key == Key(d.key)
    {
      hide Decode, Waiting;
      var c := ReadByte();
      if c < 0 { return Key(-1); }
      if c == 4 && ctrlDExits { return Exit; }
      if c == ESC {
        var k := EscDecodeRun();
        assert [] + Decode(Tail(old(source))).pushed == Decode(Tail(old(source))).pushed;
        return Key(k);
      }
      key := Key(Normalise(c));
    }

    method MMInkey(env: Env) returns (key: Key)
      requires Valid() && Reachable(View())
      modifies `head, `tail, `rxTail, `source, ring
      ensures Valid() && (View(), key) == Inkey(old(View()), env)
    {
      hide Decode, Capped, Normalise;
      WaitingIsEmpty(rxBuf[..], rxTail, rxHead);
      hide Waiting;
      var pb := PopPushback();
      if pb >= 0 { return Key(pb); }
      if rxHead != rxTail {
        var c := PopReceived();
        return Key(Normalise(c));
      }
      if env.scripted != -2 { return Key(env.scripted); }
      if env.simulated != -2 { return Key(env.simulated); }
      if env.raw {
        key := RawKey(env.ctrlDExits);
        return;
      }
      if env.repl {
        if env.stdin < 0 { return Exit; }
        if env.stdin == '\n' as int && !env.keepLf { return Key(ENTER); }
        return Key(env.stdin);
      }
      key := Key(-1);
    }
  }

  lemma FirstDigitRun(ev: Events)
    requires ev != [] && IsDigit(ev[0])
    ensures var k := DigitRun(ev);
            k == 1 + DigitRun(ev[1..]) && ev[1..][k - 1..] == ev[k..] && ev[..k][1..] == ev[1..][..k - 1]
  {
  }

  lemma ValueOfFirst(digits: seq<int>)
    requires digits != []
    ensures Value(0, digits) == Value(digits[0] - '0' as int, digits[1..])
  {
    assert 0 * 10 + (digits[0] - '0' as int) == digits[0] - '0' as int;
  }

  /** The next index of a ring of n cells. */
  function Next(k: nat, n: nat): (r: nat)
    requires k < n
    ensures r < n
  {
    if k + 1 == n then 0 else k + 1
  }

  lemma NextIsModulo(k: nat, n: nat)
    requires k < n
    ensures (k + 1) % n == Next(k, n)
  {
    if k + 1 == n {
      assert (k + 1) % n == 0;
    } else {
      assert (k + 1) % n == k + 1;
    }
  }

  lemma WaitingPop(r: seq<int>, tail: nat, head: nat)
    requires tail < |r| && head < |r| && tail != head
    ensures (tail + 1) % |r| == Next(tail, |r|)
    ensures var w := Waiting(r, tail, head);
            w != [] && w[0] == r[tail] && Waiting(r, Next(tail, |r|), head) == w[1..]
  {
    NextIsModulo(tail, |r|);
    assert Waiting(r, Next(tail, |r|), head) == Waiting(r, tail, head)[1..];
  }

  lemma WaitingPush(r: seq<int>, tail: nat, head: nat, c: int)
    requires tail < |r| && head < |r|
    ensures (head + 1) % |r| == Next(head, |r|)
    ensures Next(head, |r|) == tail <==> |Waiting(r, tail, head)| == |r| - 1
    ensures Next(head, |r|) != tail ==>
              Waiting(r[head := c], tail, Next(head, |r|)) == Waiting(r, tail, head) + [c]
  {
    NextIsModulo(head, |r|);
    if Next(head, |r|) != tail {
      assert Waiting(r[head := c], tail, Next(head, |r|)) == Waiting(r, tail, head) + [c];
    }
  }

  lemma WaitingFits(r: seq<int>, tail: nat, head: nat)
    requires tail < |r| && head < |r|
    ensures |Waiting(r, tail, head)| < |r|
  {
  }

  lemma WaitingIsEmpty(r: seq<int>, tail: nat, head: nat)
    requires tail < |r| && head < |r|
    ensures Waiting(r, tail, head) == [] <==> head == tail
  {
  }
}
