/** Transmitter bring-up (hdmi_init): enter TPI mode, check the chip's four
    identification registers, then issue the fixed sequence of register
    writes that ends with TMDS output enabled.

    Bringup is the reference semantics, written over the ordered list of
    configuration writes; HdmiInit is the procedure on the bus handle,
    proved to produce exactly Bringup's trace and return code. */
module Hdmi {
  import opened I2c

  /** TPI enable register: writing 0 to it enters TPI mode. */
  const TpiModeReg: uint8 := 0xc7

  /** Device ID, production revision ID, TPI revision ID, HDCP revision. */
  const IdRegs: seq<uint8> := [0x1b, 0x1c, 0x1d, 0x30]

  /** The identification the supported transmitter answers with. */
  const ExpectedId: seq<uint8> := [0xb0, 0x02, 0x03, 0x00]

  /** A timing argument: a C int, taken non-negative (a right shift of a
      negative int is implementation-defined). */
  type Param = x: int | 0 <= x < 0x8000_0000

  /** Pixel clock (0.01 MHz), vertical frequency (0.01 Hz), pixels per line
      and total lines per frame. */
  datatype Timing = Timing(pxclock: Param, vfreq: Param, pixperline: Param, nlines: Param)

  /** v converted to uint8_t, as passed for the low register. */
  function LowByte(v: Param): uint8 {
    v % 256
  }

  /** v >> 8 converted to uint8_t, as passed for the high register. */
  function HighByte(v: Param): uint8 {
    (v / 256) % 256
  }

  /** The two bytes written for a parameter reassemble to its low 16 bits. */
  lemma SplitJoin(v: Param)
    ensures LowByte(v) + 256 * HighByte(v) == v % 65536
  {
    var q := v / 256;
    var lo := v % 256;
    var hi := q % 256;
    var top := q / 256;
    assert q * 256 == (top * 256 + hi) * 256 == top * 65536 + hi * 256;
    ModOf65536(v, top, hi * 256 + lo);
  }

  /** v mod 65536 is the remainder of any division of v by 65536. */
  lemma ModOf65536(v: int, k: int, r: int)
    requires v == k * 65536 + r && 0 <= r < 65536
    ensures v % 65536 == r
  {
  }

  /** For a parameter that fits 16 bits the split is lossless: low byte then
      high byte, value == low + 256 * high. */
  lemma SplitRoundTrip(v: Param)
    requires v < 65536
    ensures LowByte(v) + 256 * HighByte(v) == v
    ensures LowByte(v) == v % 256 && HighByte(v) == v / 256
  {
    SplitJoin(v);
  }

  /** One register write: i2c_set(addr, val). */
  datatype Reg = Reg(addr: uint8, val: uint8)

  /** Registers addr and addr + 1 of ws at positions i and i + 1 carry the
      low and high byte of v. */
  predicate SplitAt(ws: seq<Reg>, i: nat, addr: uint8, v: Param)
    requires i + 1 < |ws|
  {
    ws[i].addr == addr && ws[i + 1].addr == addr + 1
    && ws[i].val + 256 * ws[i + 1].val == v % 65536
  }

  /** The writes issued after a successful identification, in order. */
  function ConfigWrites(t: Timing): seq<Reg> {
    [ Reg(0x1e, 0x00),   // power state: full operation
      Reg(0x08, 0x70),   // input bus format: 1x1 pixel repetition, rising edge
      Reg(0x09, 0x00),   // input format: 8-bit colour depth, RGB
      Reg(0x0a, 0x00),   // output format: RGB
      Reg(0x60, 0x04),   // external sync, no sync adjust
      Reg(0x3c, 0x01),   // interrupts: hot plug
      Reg(0x1a, 0x11),   // HDMI output mode, TMDS off
      Reg(0x00, LowByte(t.pxclock)), Reg(0x01, HighByte(t.pxclock)),
      Reg(0x02, LowByte(t.vfreq)), Reg(0x03, HighByte(t.vfreq)),
      Reg(0x04, LowByte(t.pixperline)), Reg(0x05, HighByte(t.pixperline)),
      Reg(0x06, LowByte(t.nlines)), Reg(0x07, HighByte(t.nlines)),
      Reg(0x08, 0x70),   // input bus format again
      Reg(0x1a, 0x01) ]  // HDMI output mode, TMDS on
  }

  /** The configuration is 17 writes: the input bus format 0x08 <- 0x70 is
      written twice, HDMI mode is set with TMDS off before the timing and
      TMDS is switched on last; each timing parameter goes to a register
      pair, low byte first, and the pair reassembles to its low 16 bits. */
  lemma ConfigLayout(t: Timing)
    ensures var ws := ConfigWrites(t);
      && |ws| == 17
      && ws[1] == ws[15] == Reg(0x08, 0x70)
      && (forall j | 0 <= j < |ws| && j != 1 && j != 15 :: ws[j].addr != 0x08)
      && ws[6] == Reg(0x1a, 0x11) && ws[16] == Reg(0x1a, 0x01)
      && SplitAt(ws, 7, 0x00, t.pxclock) && SplitAt(ws, 9, 0x02, t.vfreq)
      && SplitAt(ws, 11, 0x04, t.pixperline) && SplitAt(ws, 13, 0x06, t.nlines)
  {
    SplitJoin(t.pxclock);
    SplitJoin(t.vfreq);
    SplitJoin(t.pixperline);
    SplitJoin(t.nlines);
  }

  function RegFrames(ws: seq<Reg>): seq<seq<uint8>> {
    seq(|ws|, j requires 0 <= j < |ws| => [ws[j].addr, ws[j].val])
  }

  function AddrFrames(regs: seq<uint8>): seq<seq<uint8>> {
    seq(|regs|, j requires 0 <= j < |regs| => [regs[j]])
  }

  /** Every frame a complete bring-up hands to write(), in order: the TPI
      enable, the four identification addresses, the configuration. */
  function IntendedFrames(t: Timing): (fs: seq<seq<uint8>>)
    ensures |fs| == 22
    ensures fs[0] == [TpiModeReg, 0x00]
    ensures fs[1..5] == [[0x1b], [0x1c], [0x1d], [0x30]]
    ensures fs[21] == [0x1a, 0x01]
  {
    [[TpiModeReg, 0x00]] + AddrFrames(IdRegs) + RegFrames(ConfigWrites(t))
  }

  /** The identification gate, in the form fxsetup.c writes it: no byte
      differs. */
  function IdMatches(id: seq<uint8>): (ok: bool)
    ensures ok <==> id == ExpectedId
  {
    |id| == 4 && !(id[0] != 0xb0 || id[1] != 0x02 || id[2] != 0x03 || id[3] != 0x00)
  }

  /** Outcome of the identification reads: bus, return code, bytes stored. */
  datatype IdRead = IdRead(bus: Bus, rc: int, ids: seq<uint8>)

  /** i2c_get of regs[i..] in order, stopping at the first failure. */
  function RunGets(env: Env, b: Bus, regs: seq<uint8>, i: nat, ids: seq<uint8>): IdRead
    requires i <= |regs|
    decreases |regs| - i
  {
    if i == |regs| then IdRead(b, 0, ids)
    else
      var f := ReadReg(env, b, regs[i]);
      if f.rc != 0 then IdRead(f.bus, 1, ids)
      else RunGets(env, f.bus, regs, i + 1, ids + [f.val.value])
  }

  /** i2c_set of ws[i..] in order, stopping at the first failure. */
  function RunSets(env: Env, b: Bus, ws: seq<Reg>, i: nat): Step
    requires i <= |ws|
    decreases |ws| - i
  {
    if i == |ws| then Step(b, 0)
    else
      var s := WriteReg(env, b, ws[i].addr, ws[i].val);
      if s.rc != 0 then Step(s.bus, 1) else RunSets(env, s.bus, ws, i + 1)
  }

  /** hdmi_init as a function of the oracle: open (result not looked at),
      enter TPI mode, read and check the identification, configure. */
  function Bringup(env: Env, b: Bus, t: Timing): Step {
    var handle := Bus(env.openResult, b.trace);
    var entered := WriteReg(env, handle, TpiModeReg, 0x00);
    if entered.rc != 0 then Step(entered.bus, 1)
    else Configure(env, RunGets(env, entered.bus, IdRegs, 0, []), t)
  }

  /** What follows the identification reads: give up on a failed read or a
      wrong identity, otherwise write the configuration table. */
  function Configure(env: Env, id: IdRead, t: Timing): Step {
    if id.rc != 0 then Step(id.bus, 1)
    else if !IdMatches(id.ids) then Step(id.bus, 1)
    else RunSets(env, id.bus, ConfigWrites(t), 0)
  }

  lemma PrefixGrow<T>(p: seq<T>, big: seq<T>, rest: seq<T>)
    requires p <= big
    ensures p <= big + rest
  {
    assert (big + rest)[..|p|] == p;
  }

  lemma PrefixExtend<T>(x: seq<T>, p: seq<T>, big: seq<T>, rest: seq<T>)
    requires p <= big
    ensures x + p <= x + big + rest
  {
    assert (x + big + rest)[..|x + p|] == x + p;
  }

  /** The identification reads stop at the first failure and return 0
      exactly when every call succeeded; the bytes stored are the bytes the
      reads delivered, one per register when all succeeded. */
  lemma {:induction false} RunGetsShape(env: Env, b: Bus, regs: seq<uint8>, i: nat, ids: seq<uint8>)
    requires i <= |regs|
    decreases |regs| - i
    ensures var r := RunGets(env, b, regs, i, ids);
      && b.trace <= r.bus.trace && r.bus.fd == b.fd
      && var ev := Since(b.trace, r.bus.trace);
      && FailFast(ev)
      && (r.rc == 0 || r.rc == 1)
      && (r.rc == 0 <==> AllOk(ev))
      && r.ids == ids + Received(ev)
      && (r.rc == 0 ==> |Received(ev)| == |regs| - i && |ev| == 3 * (|regs| - i))
      && (r.rc != 0 ==> |Received(ev)| < |regs| - i)
  {
    var r := RunGets(env, b, regs, i, ids);
    if i == |regs| {
      assert Since(b.trace, r.bus.trace) == [];
    } else {
      var f := ReadReg(env, b, regs[i]);
      ReadRegShape(env, b, regs[i]);
      ReadRegTransfers(env, b, regs[i]);
      ReadRegReceives(env, b, regs[i]);
      var e1 := Since(b.trace, f.bus.trace);
      if f.rc == 0 {
        RunGetsShape(env, f.bus, regs, i + 1, ids + [f.val.value]);
        SinceChain(b.trace, f.bus.trace, r.bus.trace);
        var e2 := Since(f.bus.trace, r.bus.trace);
        ReceivedAppend(e1, e2);
        OkAppend(e1, e2);
      }
    }
  }

  /** The identification reads write the register addresses in order: all
      of them when every call succeeded, a prefix of them otherwise. */
  lemma {:induction false} RunGetsFrames(env: Env, b: Bus, regs: seq<uint8>, i: nat, ids: seq<uint8>)
    requires i <= |regs|
    decreases |regs| - i
    ensures var r := RunGets(env, b, regs, i, ids);
      && b.trace <= r.bus.trace
      && var ev := Since(b.trace, r.bus.trace);
      && Written(ev) <= AddrFrames(regs[i..])
      && (r.rc == 0 ==> Written(ev) == AddrFrames(regs[i..]) && Reads(ev) == |regs| - i)
  {
    var r := RunGets(env, b, regs, i, ids);
    if i == |regs| {
      assert Since(b.trace, r.bus.trace) == [];
      assert regs[i..] == [];
    } else {
      var f := ReadReg(env, b, regs[i]);
      ReadRegShape(env, b, regs[i]);
      ReadRegTransfers(env, b, regs[i]);
      ReadRegReceives(env, b, regs[i]);
      var e1 := Since(b.trace, f.bus.trace);
      assert AddrFrames(regs[i..]) == [[regs[i]]] + AddrFrames(regs[i + 1..]);
      if f.rc == 0 {
        RunGetsFrames(env, f.bus, regs, i + 1, ids + [f.val.value]);
        SinceChain(b.trace, f.bus.trace, r.bus.trace);
        var e2 := Since(f.bus.trace, r.bus.trace);
        WrittenAppend(e1, e2);
        ReadsAppend(e1, e2);
        PrefixExtend([[regs[i]]], Written(e2), AddrFrames(regs[i + 1..]), []);
      } else {
        PrefixExtend(Written(e1), [], [], AddrFrames(regs[i + 1..]));
      }
    }
  }

  /** The configuration writes: exactly the frames of ws[i..] in order when
      every call succeeds, a prefix of them otherwise, nothing after a
      failure, and no read. */
  lemma {:induction false} RunSetsShape(env: Env, b: Bus, ws: seq<Reg>, i: nat)
    requires i <= |ws|
    decreases |ws| - i
    ensures var r := RunSets(env, b, ws, i);
      && b.trace <= r.bus.trace && r.bus.fd == b.fd
      && var ev := Since(b.trace, r.bus.trace);
      && FailFast(ev)
      && (r.rc == 0 || r.rc == 1)
      && (r.rc == 0 <==> AllOk(ev))
      && Written(ev) <= RegFrames(ws[i..])
      && (r.rc == 0 ==> Written(ev) == RegFrames(ws[i..]))
      && Received(ev) == [] && Reads(ev) == 0
  {
    var r := RunSets(env, b, ws, i);
    if i == |ws| {
      assert Since(b.trace, r.bus.trace) == [];
      assert ws[i..] == [];
    } else {
      var s := WriteReg(env, b, ws[i].addr, ws[i].val);
      WriteRegShape(env, b, ws[i].addr, ws[i].val);
      var e1 := Since(b.trace, s.bus.trace);
      var frame := [ws[i].addr, ws[i].val];
      assert RegFrames(ws[i..]) == [frame] + RegFrames(ws[i + 1..]);
      if s.rc == 0 {
        RunSetsShape(env, s.bus, ws, i + 1);
        SinceChain(b.trace, s.bus.trace, r.bus.trace);
        var e2 := Since(s.bus.trace, r.bus.trace);
        WrittenAppend(e1, e2);
        ReceivedAppend(e1, e2);
        ReadsAppend(e1, e2);
        OkAppend(e1, e2);
        PrefixExtend([frame], Written(e2), RegFrames(ws[i + 1..]), []);
      } else {
        PrefixExtend(Written(e1), [], [], RegFrames(ws[i + 1..]));
      }
    }
  }

  /** Every identification read re-selects the transmitter at 0x3b before
      its address write, and reads only right after that write succeeded. */
  lemma {:induction false} RunGetsAddressed(env: Env, b: Bus, regs: seq<uint8>, i: nat, ids: seq<uint8>)
    requires i <= |regs|
    decreases |regs| - i
    ensures var r := RunGets(env, b, regs, i, ids);
      && b.trace <= r.bus.trace
      && Addressed(Since(b.trace, r.bus.trace))
  {
    var r := RunGets(env, b, regs, i, ids);
    if i == |regs| {
      assert Since(b.trace, r.bus.trace) == [];
    } else {
      var f := ReadReg(env, b, regs[i]);
      ReadRegShape(env, b, regs[i]);
      ReadRegAddressed(env, b, regs[i]);
      if f.rc == 0 {
        RunGetsAddressed(env, f.bus, regs, i + 1, ids + [f.val.value]);
        SinceChain(b.trace, f.bus.trace, r.bus.trace);
        AddressedAppend(Since(b.trace, f.bus.trace), Since(f.bus.trace, r.bus.trace));
      }
    }
  }

  /** Every configuration write re-selects the transmitter at 0x3b and is
      issued only after that select succeeded. */
  lemma {:induction false} RunSetsAddressed(env: Env, b: Bus, ws: seq<Reg>, i: nat)
    requires i <= |ws|
    decreases |ws| - i
    ensures var r := RunSets(env, b, ws, i);
      && b.trace <= r.bus.trace
      && Addressed(Since(b.trace, r.bus.trace))
  {
    var r := RunSets(env, b, ws, i);
    if i == |ws| {
      assert Since(b.trace, r.bus.trace) == [];
    } else {
      var s := WriteReg(env, b, ws[i].addr, ws[i].val);
      WriteRegShape(env, b, ws[i].addr, ws[i].val);
      WriteRegAddressed(env, b, ws[i].addr, ws[i].val);
      if s.rc == 0 {
        RunSetsAddressed(env, s.bus, ws, i + 1);
        SinceChain(b.trace, s.bus.trace, r.bus.trace);
        AddressedAppend(Since(b.trace, s.bus.trace), Since(s.bus.trace, r.bus.trace));
      }
    }
  }

  /** hdmi_init never issues a call after a failed one, re-selects the
      transmitter at 0x3b before every transfer, returns 0 exactly when
      every call succeeded and the chip identified itself as the supported
      transmitter, and otherwise returns 1. */
  lemma BringupOutcome(env: Env, b: Bus, t: Timing)
    ensures var r := Bringup(env, b, t);
      && b.trace <= r.bus.trace && r.bus.fd == env.openResult
      && var ev := Since(b.trace, r.bus.trace);
      && FailFast(ev)
      && (r.rc == 0 || r.rc == 1)
      && (r.rc == 0 <==> AllOk(ev) && Received(ev) == ExpectedId)
      && Addressed(ev)
  {
    var r := Bringup(env, b, t);
    var h := Bus(env.openResult, b.trace);
    var s := WriteReg(env, h, TpiModeReg, 0x00);
    WriteRegShape(env, h, TpiModeReg, 0x00);
    WriteRegAddressed(env, h, TpiModeReg, 0x00);
    var e1 := Since(b.trace, s.bus.trace);
    if s.rc == 0 {
      var g := RunGets(env, s.bus, IdRegs, 0, []);
      RunGetsShape(env, s.bus, IdRegs, 0, []);
      RunGetsAddressed(env, s.bus, IdRegs, 0, []);
      SinceChain(b.trace, s.bus.trace, g.bus.trace);
      var e2 := Since(s.bus.trace, g.bus.trace);
      OkAppend(e1, e2);
      ReceivedAppend(e1, e2);
      AddressedAppend(e1, e2);
      if g.rc == 0 && IdMatches(g.ids) {
        var c := RunSets(env, g.bus, ConfigWrites(t), 0);
        RunSetsShape(env, g.bus, ConfigWrites(t), 0);
        RunSetsAddressed(env, g.bus, ConfigWrites(t), 0);
        SinceChain(b.trace, g.bus.trace, c.bus.trace);
        var e3 := Since(g.bus.trace, c.bus.trace);
        OkAppend(e1 + e2, e3);
        ReceivedAppend(e1 + e2, e3);
        AddressedAppend(e1 + e2, e3);
      }
    }
  }

  /** The frames hdmi_init writes are always a prefix of IntendedFrames: no
      frame out of order, none missing before the last one, none extra; a
      bring-up that returns 0 wrote all 22 of them. */
  lemma BringupOrder(env: Env, b: Bus, t: Timing)
    ensures var r := Bringup(env, b, t);
      && b.trace <= r.bus.trace
      && var ev := Since(b.trace, r.bus.trace);
      && Written(ev) <= IntendedFrames(t)
      && (r.rc == 0 ==> Written(ev) == IntendedFrames(t))
  {
    var r := Bringup(env, b, t);
    var h := Bus(env.openResult, b.trace);
    var s := WriteReg(env, h, TpiModeReg, 0x00);
    WriteRegShape(env, h, TpiModeReg, 0x00);
    var head := [[TpiModeReg, 0x00]] + AddrFrames(IdRegs);
    var cfg := RegFrames(ConfigWrites(t));
    assert IntendedFrames(t) == head + cfg;
    if s.rc == 0 {
      IdPhase(env, b);
      var g := RunGets(env, s.bus, IdRegs, 0, []);
      var e := Since(b.trace, g.bus.trace);
      if g.rc == 0 && IdMatches(g.ids) {
        var c := RunSets(env, g.bus, ConfigWrites(t), 0);
        RunSetsShape(env, g.bus, ConfigWrites(t), 0);
        assert ConfigWrites(t)[0..] == ConfigWrites(t);
        SinceChain(b.trace, g.bus.trace, c.bus.trace);
        WrittenAppend(e, Since(g.bus.trace, c.bus.trace));
        PrefixExtend(head, Written(Since(g.bus.trace, c.bus.trace)), cfg, []);
        assert head + cfg + [] == IntendedFrames(t);
      } else {
        assert r == Step(g.bus, 1);
        PrefixGrow(Written(e), head, cfg);
      }
    } else {
      assert r == Step(s.bus, 1);
      PrefixGrow(Written(Since(b.trace, s.bus.trace)), [[TpiModeReg, 0x00]], AddrFrames(IdRegs) + cfg);
      assert [[TpiModeReg, 0x00]] + (AddrFrames(IdRegs) + cfg) == IntendedFrames(t);
    }
  }

  /** The TPI enable write followed by the four identification reads: the
      bytes received are the bytes stored; when every read succeeded the
      frames are the TPI write and the four address frames, there were four
      reads and fourteen calls; otherwise fewer than four bytes arrived. */
  lemma {:induction false} IdPhase(env: Env, b: Bus)
    ensures var s := WriteReg(env, Bus(env.openResult, b.trace), TpiModeReg, 0x00);
      s.rc == 0 ==>
        var g := RunGets(env, s.bus, IdRegs, 0, []);
        && b.trace <= g.bus.trace
        && var e := Since(b.trace, g.bus.trace);
        && Received(e) == g.ids
        && Written(e) <= [[TpiModeReg, 0x00]] + AddrFrames(IdRegs)
        && (g.rc == 0 ==>
              && Written(e) == [[TpiModeReg, 0x00]] + AddrFrames(IdRegs)
              && Reads(e) == 4 && |e| == 14)
        && (g.rc != 0 ==> |g.ids| < 4)
  {
    var h := Bus(env.openResult, b.trace);
    var s := WriteReg(env, h, TpiModeReg, 0x00);
    WriteRegShape(env, h, TpiModeReg, 0x00);
    if s.rc == 0 {
      var e1 := Since(b.trace, s.bus.trace);
      var g := RunGets(env, s.bus, IdRegs, 0, []);
      RunGetsShape(env, s.bus, IdRegs, 0, []);
      RunGetsFrames(env, s.bus, IdRegs, 0, []);
      assert IdRegs[0..] == IdRegs;
      SinceChain(b.trace, s.bus.trace, g.bus.trace);
      var e2 := Since(s.bus.trace, g.bus.trace);
      ReceivedAppend(e1, e2);
      WrittenAppend(e1, e2);
      ReadsAppend(e1, e2);
      PrefixExtend([[TpiModeReg, 0x00]], Written(e2), AddrFrames(IdRegs), []);
      assert [[TpiModeReg, 0x00]] + AddrFrames(IdRegs) + [] == [[TpiModeReg, 0x00]] + AddrFrames(IdRegs);
    }
  }

  /** The identification gate: when the four identification bytes were read
      and differ from ExpectedId, hdmi_init returns 1 and the trace holds
      the TPI write and the four reads and nothing else. */
  lemma IdentityGate(env: Env, b: Bus, t: Timing)
    ensures var r := Bringup(env, b, t);
      && b.trace <= r.bus.trace
      && var ev := Since(b.trace, r.bus.trace);
      && (|Received(ev)| == 4 && Received(ev) != ExpectedId ==>
            && r.rc == 1
            && Written(ev) == IntendedFrames(t)[..5]
            && Reads(ev) == 4
            && |ev| == 14)
  {
    var r := Bringup(env, b, t);
    var h := Bus(env.openResult, b.trace);
    var s := WriteReg(env, h, TpiModeReg, 0x00);
    WriteRegShape(env, h, TpiModeReg, 0x00);
    if s.rc == 0 {
      IdPhase(env, b);
      var g := RunGets(env, s.bus, IdRegs, 0, []);
      var e := Since(b.trace, g.bus.trace);
      if g.rc == 0 && IdMatches(g.ids) {
        var c := RunSets(env, g.bus, ConfigWrites(t), 0);
        RunSetsShape(env, g.bus, ConfigWrites(t), 0);
        SinceChain(b.trace, g.bus.trace, c.bus.trace);
        ReceivedAppend(e, Since(g.bus.trace, c.bus.trace));
      } else {
        assert r == Step(g.bus, 1);
        assert IntendedFrames(t)[..5] == [[TpiModeReg, 0x00]] + AddrFrames(IdRegs);
      }
    }
  }

  /** The identification registers are read only after the TPI enable
      write 0xc7 <- 0x00 succeeded: the trace starts with that select and
      that write, both successful. */
  lemma ReadsFollowTpi(env: Env, b: Bus, t: Timing)
    ensures var r := Bringup(env, b, t);
      && b.trace <= r.bus.trace
      && var ev := Since(b.trace, r.bus.trace);
      && (Reads(ev) > 0 ==>
            && |ev| >= 2 && Ok(ev[0]) && ev[0].Select?
            && ev[1] == Send([TpiModeReg, 0x00], 2))
  {
    var r := Bringup(env, b, t);
    var h := Bus(env.openResult, b.trace);
    var s := WriteReg(env, h, TpiModeReg, 0x00);
    WriteRegShape(env, h, TpiModeReg, 0x00);
    var e1 := Since(b.trace, s.bus.trace);
    if s.rc == 0 {
      var g := RunGets(env, s.bus, IdRegs, 0, []);
      RunGetsShape(env, s.bus, IdRegs, 0, []);
      if g.rc == 0 && IdMatches(g.ids) {
        RunSetsShape(env, g.bus, ConfigWrites(t), 0);
      }
      assert s.bus.trace <= r.bus.trace;
      var ev := Since(b.trace, r.bus.trace);
      assert ev[0] == e1[0] && ev[1] == e1[1];
    }
  }

  /** An open failure is not looked at: the first select of i2c_set runs on
      the refused descriptor, fails, and hdmi_init returns 1 with no byte
      written or read. */
  lemma OpenFailure(env: Env, b: Bus, t: Timing)
    requires env.openResult < 0
    ensures var r := Bringup(env, b, t);
      && b.trace <= r.bus.trace
      && r.rc == 1
      && Since(b.trace, r.bus.trace) == [Select(SlaveAddr, -1)]
  {
    assert (b.trace + [Select(SlaveAddr, -1)])[|b.trace|..] == [Select(SlaveAddr, -1)];
  }

  /** The timing writes for 1080p60 (pixel clock 148.50 MHz, 60.00 Hz, 2200
      pixels per line, 1125 lines): low byte at the even register, high byte
      at the odd one. */
  lemma Mode1080p60Timing()
    ensures ConfigWrites(Timing(14850, 6000, 2200, 1125))[7..15] ==
      [ Reg(0x00, 0x02), Reg(0x01, 0x3a), Reg(0x02, 0x70), Reg(0x03, 0x17),
        Reg(0x04, 0x98), Reg(0x05, 0x08), Reg(0x06, 0x65), Reg(0x07, 0x04) ]
  {
  }

  /** One step of RunSets: the write at position k, then the rest. */
  lemma RunSetsStep(env: Env, b: Bus, ws: seq<Reg>, k: nat, addr: uint8, val: uint8)
    requires k < |ws| && ws[k] == Reg(addr, val)
    ensures RunSets(env, b, ws, k) ==
      var s := WriteReg(env, b, addr, val);
      if s.rc != 0 then Step(s.bus, 1) else RunSets(env, s.bus, ws, k + 1)
  {
  }

  /** One step of RunGets: the read at position k, then the rest. */
  lemma RunGetsStep(env: Env, b: Bus, regs: seq<uint8>, k: nat, ids: seq<uint8>, addr: uint8)
    requires k < |regs| && regs[k] == addr
    ensures RunGets(env, b, regs, k, ids) ==
      var f := ReadReg(env, b, addr);
      if f.rc != 0 then IdRead(f.bus, 1, ids) else RunGets(env, f.bus, regs, k + 1, ids + [f.val.value])
  {
  }

  /** The four identification reads of hdmi_init into buffer[0..3]: device
      ID, production revision, TPI revision, HDCP revision; the first read
      that fails ends them with 1. */
  method ReadIdentity(bus: I2cBus, buffer: array<uint8>) returns (rc: int)
    requires buffer.Length == 4
    modifies bus, buffer
    ensures var id := RunGets(bus.env, old(bus.State()), IdRegs, 0, []);
      && bus.State() == id.bus && rc == id.rc
      && (rc == 0 ==> buffer[..] == id.ids)
  {
    ghost var id := RunGets(bus.env, bus.State(), IdRegs, 0, []);
    RunGetsStep(bus.env, bus.State(), IdRegs, 0, buffer[..0], 0x1b);
    rc := bus.I2cGet(0x1b, buffer, 0);
    if rc != 0 { return 1; }
    assert id == RunGets(bus.env, bus.State(), IdRegs, 1, buffer[..1]);
    RunGetsStep(bus.env, bus.State(), IdRegs, 1, buffer[..1], 0x1c);
    rc := bus.I2cGet(0x1c, buffer, 1);
    if rc != 0 { return 1; }
    assert id == RunGets(bus.env, bus.State(), IdRegs, 2, buffer[..2]);
    RunGetsStep(bus.env, bus.State(), IdRegs, 2, buffer[..2], 0x1d);
    rc := bus.I2cGet(0x1d, buffer, 2);
    if rc != 0 { return 1; }
    assert id == RunGets(bus.env, bus.State(), IdRegs, 3, buffer[..3]);
    RunGetsStep(bus.env, bus.State(), IdRegs, 3, buffer[..3], 0x30);
    rc := bus.I2cGet(0x30, buffer, 3);
    if rc != 0 { return 1; }
    assert buffer[..4] == buffer[..];
  }

  /** hdmi_init(pxclock, vfreq, pixperline, nlines) on the bus handle. */
  method HdmiInit(bus: I2cBus, t: Timing) returns (rc: int)
    modifies bus
    ensures Step(bus.State(), rc) == Bringup(bus.env, old(bus.State()), t)
  {
    ghost var env := bus.env;
    ghost var start := bus.State();
    var buffer := new uint8[4];

    var _ := bus.I2cInit();

    // Initialise TPI mode
    var r := bus.I2cSet(TpiModeReg, 0x00);
    if r != 0 { return 1; }

    // TPI identification registers
    r := ReadIdentity(bus, buffer);
    if r != 0 { return 1; }

    if buffer[0] != 0xb0 || buffer[1] != 0x02 || buffer[2] != 0x03 || buffer[3] != 0x00 {
      return 1;
    }

    // The configuration writes, in the order of the table ConfigWrites;
    // the first one that fails ends the bring-up with 1.
    var ws := ConfigWrites(t);
    var i := 0;
    while i < |ws|
      invariant i <= |ws|
      invariant bus.env == env
      invariant Bringup(env, start, t) == RunSets(env, bus.State(), ws, i)
    {
      RunSetsStep(env, bus.State(), ws, i, ws[i].addr, ws[i].val);
      r := bus.I2cSet(ws[i].addr, ws[i].val);
      if r != 0 { return 1; }
      i := i + 1;
    }
    return 0;
  }
}
