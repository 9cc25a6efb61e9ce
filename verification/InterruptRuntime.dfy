/**
 The interrupt dispatcher working on the runtime's variables: the event flags are a set field,
 the registered targets a map field and the two parallel GOSUB stacks one sequence field.
 */
module InterruptRuntime {
  import opened Wrappers
  import opened Interrupts

  const MAXERRMSG := 64

  class Runtime {
    const prog: Program
    var interruptUsed: bool
    var handlers: map<Source, Addr>
    var latches: set<Source>
    var interruptReturn: Option<Pc>
    var nextstmt: Pc
    var currentLine: Addr
    var localIndex: int
    var gosubstack: seq<Frame>
    var err: ErrorState
    var saved: ErrorState

    constructor (p: Program, start: Addr)
      ensures prog == p
      ensures View() == Start(start)
    {
      prog := p;
      interruptUsed, handlers, latches, interruptReturn, nextstmt := false, map[], {}, None, At(start);
      currentLine, localIndex, gosubstack, err, saved := 0, 0, [], Clean, Clean;
    }

    ghost function View(): Rt
      reads this
    {
      Rt(interruptUsed, handlers, latches, interruptReturn, nextstmt, currentLine, localIndex, gosubstack, err, saved)
    }

    method SaveErrorState()
      modifies `err, `saved
      ensures saved == Saved(old(err), MAXERRMSG) && err == Clean
    {
      saved := saved.(skip := if err.skip > 0 then err.skip else 0);
      err := err.(skip := 0);
      saved := saved.(message := if |err.message| < MAXERRMSG then err.message else err.message[..MAXERRMSG - 1]);
      saved := saved.(errno := err.errno);
      err := err.(message := "");
      err := err.(errno := 0);
    }

    method RestoreErrorState()
      modifies `err
      ensures err == Restored(saved)
    {
      err := err.(skip := if saved.skip > 0 then saved.skip + 1 else saved.skip);
      err := err.(message := saved.message);
      err := err.(errno := saved.errno);
    }

    /** Consumes one I2C slave event, if any. */
    method I2cSlavePending() returns (source: Option<Source>)
      modifies `latches
      ensures source == if I2cReceive in old(latches) then Some(I2cReceive)
                        else if I2cSend in old(latches) then Some(I2cSend)
                        else if I2c2Receive in old(latches) then Some(I2c2Receive)
                        else if I2c2Send in old(latches) then Some(I2c2Send) else None
      ensures latches == if source.Some? then old(latches) - {source.value} else old(latches)
    {
      if I2cReceive in latches {
        source := Some(I2cReceive);
      } else if I2cSend in latches {
        source := Some(I2cSend);
      } else if I2c2Receive in latches {
        source := Some(I2c2Receive);
      } else if I2c2Send in latches {
        source := Some(I2c2Send);
      } else {
        return None;
      }
      latches := latches - {source.value};
    }

    /** Consumes a finished PLAY, if a handler is registered for it. */
    method AudioPending() returns (source: Option<Source>)
      modifies `latches
      ensures source == if Audio in handlers && Audio in old(latches) then Some(Audio) else None
      ensures latches == if source.Some? then old(latches) - {Audio} else old(latches)
    {
      if Audio !in handlers || Audio !in latches { return None; }
      latches := latches - {Audio};
      source := Some(Audio);
    }

    /** Takes the first armed event. */
    method TakeEvent(p: Pending) returns (source: Option<Source>)
      modifies `latches
      ensures source == Pick(old(View()), p)
      ensures latches == if source.Some? then old(latches) - {source.value} else old(latches)
    {
      if Tcp in handlers && (Tcp in latches || p.tcp) {
        latches := latches - {Tcp};
        source := Some(Tcp);
      } else if Mqtt in handlers && Mqtt in latches {
        latches := latches - {Mqtt};
        source := Some(Mqtt);
      } else if Udp in handlers && (Udp in latches || p.udp) {
        latches := latches - {Udp};
        source := Some(Udp);
      } else {
        source := I2cSlavePending();
        if source.None? {
          source := AudioPending();
        }
      }
    }

    /** Steps to the zero that ends the element at a. */
    method SkipToZero(a: Addr) returns (z: Addr)
      ensures z == NextZero(prog.text, a)
    {
      z := a;
      while z < |prog.text| && prog.text[z] != 0
        invariant NextZero(prog.text, a) == NextZero(prog.text, z)
        decreases |prog.text| - z
      {
        z := z + 1;
      }
    }

    /** Pushes the IRET trampoline and gives the address after the SUB statement. */
    method PrepareSubReturn(a: Addr) returns (z: Addr)
      modifies `gosubstack, `localIndex
      ensures z == NextZero(prog.text, a)
      ensures gosubstack == old(gosubstack) + [Frame(IretToken, currentLine)] && localIndex == old(localIndex) + 1
    {
      gosubstack := gosubstack + [Frame(IretToken, currentLine)];
      localIndex := localIndex + 1;
      z := SkipToZero(a);
    }

    method CheckInterrupt(p: Pending) returns (v: Verdict)
      modifies this
      ensures (View(), v) == Check(old(View()), prog, p, MAXERRMSG)
    {
      hide Pick, NextZero, Saved;
      if !interruptUsed || interruptReturn.Some? { return NoInterrupt; }
      var source := TakeEvent(p);
      if source.None? { return NoInterrupt; }
      var intaddr := if source.value in handlers then handlers[source.value] else 0;
      localIndex := localIndex + 1;
      SaveErrorState();
      interruptReturn := Some(nextstmt);
      if intaddr in prog.subs {
        if |gosubstack| >= MAXGOSUB { return TooManySubs; }
        intaddr := PrepareSubReturn(intaddr);
      }
      nextstmt := At(intaddr);
      v := Dispatched;
    }

    /** IRETURN. */
    method CmdIreturn() returns (ok: bool)
      modifies this
      ensures var r := Ireturn(old(View()));
              ok == r.Some? && View() == if r.Some? then r.value else old(View())
    {
      if interruptReturn.None? { return false; }
      nextstmt := interruptReturn.value;
      interruptReturn := None;
      if localIndex != 0 {
        localIndex := localIndex - 1;
      }
      RestoreErrorState();
      ok := true;
    }

    /** END SUB and RETURN. */
    method CmdReturn() returns (ok: bool)
      modifies this
      ensures var r := Return(old(View()));
              ok == r.Some? && View() == if r.Some? then r.value else old(View())
    {
      if gosubstack == [] { return false; }
      localIndex := localIndex - 1;
      var top := gosubstack[|gosubstack| - 1];
      gosubstack := gosubstack[..|gosubstack| - 1];
      nextstmt := top.ret;
      currentLine := top.line;
      ok := true;
    }
  }
}
