/** Bus transport: byte-level register access to the HDMI transmitter over the
    Linux i2c-dev character device (i2c_init, i2c_set and i2c_get).

    The device file and its system calls are not modelled as real devices. An
    oracle (Env) decides what open, ioctl, write and read return; every bus
    system call is logged in a trace together with the value it returned, and
    the k-th logged call is answered by the oracle at index k. */
module I2c {

  /** An unsigned byte (uint8_t). */
  type uint8 = x: int | 0 <= x < 256

  /** The transmitter's fixed 7-bit bus address (IIC_SLAVE_ADDR). */
  const SlaveAddr: int := 0x3b

  datatype Option<T> = None | Some(value: T)

  /** What read(fd, buf, 1) returns, and the byte it stores when it returns 1. */
  datatype ReadReply = ReadReply(count: int, data: uint8)

  /** The oracle standing for the kernel and the chip: the descriptor open
      returns, and the reply to the k-th bus system call. */
  datatype Env = Env(
    openResult: int,
    ioctlReply: nat -> int,
    writeReply: (nat, seq<uint8>) -> int,
    readReply: nat -> ReadReply)

  /** One bus system call and what it returned:
      ioctl(I2C_SLAVE_FORCE, slave), write(frame) and read(1 byte). */
  datatype Event =
    | Select(slave: int, result: int)
    | Send(frame: seq<uint8>, result: int)
    | Recv(result: int, data: uint8)

  /** The success test fxsetup.c applies to each call's return value. */
  predicate Ok(e: Event) {
    match e
    case Select(_, result) => result >= 0
    case Send(frame, result) => result == |frame|
    case Recv(result, _) => result == 1
  }

  predicate AllOk(es: seq<Event>) {
    forall j | 0 <= j < |es| :: Ok(es[j])
  }

  /** Every call except possibly the last one succeeded: nothing is issued
      after a failure. */
  predicate FailFast(es: seq<Event>) {
    forall j | 0 <= j < |es| - 1 :: Ok(es[j])
  }

  /** Every transaction addresses the transmitter afresh: each select names
      slave 0x3b, each write comes right after a successful select, and each
      read comes right after a successful one-byte address write. */
  predicate Addressed(es: seq<Event>) {
    && (forall j | 0 <= j < |es| && es[j].Select? :: es[j].slave == SlaveAddr)
    && (forall j | 0 <= j < |es| && es[j].Send? :: j > 0 && es[j - 1].Select? && Ok(es[j - 1]))
    && (forall j | 0 <= j < |es| && es[j].Recv? ::
          j > 0 && es[j - 1].Send? && |es[j - 1].frame| == 1 && Ok(es[j - 1]))
  }

  /** Two addressed traces run one after the other form an addressed trace:
      the second one cannot open with a write or a read. */
  lemma AddressedAppend(a: seq<Event>, b: seq<Event>)
    requires Addressed(a) && Addressed(b)
    ensures Addressed(a + b)
  {
    var c := a + b;
    forall j | 0 <= j < |c| && c[j].Select? ensures c[j].slave == SlaveAddr {
      if j >= |a| { assert c[j] == b[j - |a|]; }
    }
    forall j | 0 <= j < |c| && c[j].Send? ensures j > 0 && c[j - 1].Select? && Ok(c[j - 1]) {
      if j < |a| {
        assert c[j] == a[j];
        assert c[j - 1] == a[j - 1];
      } else {
        assert c[j] == b[j - |a|];
        assert c[j - 1] == b[j - 1 - |a|];
      }
    }
    forall j | 0 <= j < |c| && c[j].Recv?
      ensures j > 0 && c[j - 1].Send? && |c[j - 1].frame| == 1 && Ok(c[j - 1])
    {
      if j < |a| {
        assert c[j] == a[j];
        assert c[j - 1] == a[j - 1];
      } else {
        assert c[j] == b[j - |a|];
        assert c[j - 1] == b[j - 1 - |a|];
      }
    }
  }

  /** The frames handed to write(), in order, whatever write returned. */
  function Written(es: seq<Event>): seq<seq<uint8>> {
    if es == [] then []
    else (if es[0].Send? then [es[0].frame] else []) + Written(es[1..])
  }

  /** The bytes delivered by successful reads, in order. */
  function Received(es: seq<Event>): seq<uint8> {
    if es == [] then []
    else (if es[0].Recv? && es[0].result == 1 then [es[0].data] else []) + Received(es[1..])
  }

  /** Number of read() calls issued. */
  function Reads(es: seq<Event>): nat {
    if es == [] then 0 else (if es[0].Recv? then 1 else 0) + Reads(es[1..])
  }

  lemma {:induction false} WrittenAppend(a: seq<Event>, b: seq<Event>)
    ensures Written(a + b) == Written(a) + Written(b)
  {
    if a != [] {
      assert (a + b)[1..] == a[1..] + b;
      WrittenAppend(a[1..], b);
    } else {
      assert a + b == b;
    }
  }

  lemma {:induction false} ReceivedAppend(a: seq<Event>, b: seq<Event>)
    ensures Received(a + b) == Received(a) + Received(b)
  {
    if a != [] {
      assert (a + b)[1..] == a[1..] + b;
      ReceivedAppend(a[1..], b);
    } else {
      assert a + b == b;
    }
  }

  lemma {:induction false} ReadsAppend(a: seq<Event>, b: seq<Event>)
    ensures Reads(a + b) == Reads(a) + Reads(b)
  {
    if a != [] {
      assert (a + b)[1..] == a[1..] + b;
      ReadsAppend(a[1..], b);
    } else {
      assert a + b == b;
    }
  }

  /** The views of a trace extended by one call. */
  lemma ViewsSnoc(es: seq<Event>, e: Event)
    ensures Written(es + [e]) == Written(es) + (if e.Send? then [e.frame] else [])
    ensures Received(es + [e]) == Received(es) + (if e.Recv? && e.result == 1 then [e.data] else [])
    ensures Reads(es + [e]) == Reads(es) + (if e.Recv? then 1 else 0)
  {
    WrittenAppend(es, [e]);
    ReceivedAppend(es, [e]);
    ReadsAppend(es, [e]);
    assert [e][1..] == [];
  }

  lemma OkAppend(a: seq<Event>, b: seq<Event>)
    ensures AllOk(a + b) <==> AllOk(a) && AllOk(b)
    ensures AllOk(a) && FailFast(b) ==> FailFast(a + b)
  {
    if AllOk(a) && AllOk(b) {
      forall j | 0 <= j < |a + b| ensures Ok((a + b)[j]) {
        if j >= |a| { assert (a + b)[j] == b[j - |a|]; }
      }
    }
    if AllOk(a + b) {
      forall j | 0 <= j < |a| ensures Ok(a[j]) { assert (a + b)[j] == a[j]; }
      forall j | 0 <= j < |b| ensures Ok(b[j]) { assert (a + b)[|a| + j] == b[j]; }
    }
    if AllOk(a) && FailFast(b) {
      forall j | 0 <= j < |a + b| - 1 ensures Ok((a + b)[j]) {
        if j >= |a| { assert (a + b)[j] == b[j - |a|]; }
      }
    }
  }

  /** The calls logged between trace t0 and its extension t1. */
  function Since(t0: seq<Event>, t1: seq<Event>): seq<Event>
    requires t0 <= t1
  {
    t1[|t0|..]
  }

  lemma SinceChain(t0: seq<Event>, t1: seq<Event>, t2: seq<Event>)
    requires t0 <= t1 && t1 <= t2
    ensures t0 <= t2
    ensures Since(t0, t2) == Since(t0, t1) + Since(t1, t2)
  {
    assert t1[..|t0|] == t2[..|t0|];
  }

  /** The handle's state: the descriptor in i2cfd and the calls made so far. */
  datatype Bus = Bus(fd: int, trace: seq<Event>)

  // The kernel's replies. A call on a descriptor that open refused fails
  // with -1 (EBADF) without reaching the bus.

  function IoctlResult(env: Env, b: Bus): int {
    if b.fd < 0 then -1 else env.ioctlReply(|b.trace|)
  }

  function WriteResult(env: Env, b: Bus, frame: seq<uint8>): int {
    if b.fd < 0 then -1 else env.writeReply(|b.trace|, frame)
  }

  function ReadResult(env: Env, b: Bus): ReadReply {
    if b.fd < 0 then ReadReply(-1, 0) else env.readReply(|b.trace|)
  }

  function Log(b: Bus, e: Event): Bus {
    Bus(b.fd, b.trace + [e])
  }

  /** A transaction's outcome: the new bus state and the return code. */
  datatype Step = Step(bus: Bus, rc: int)

  /** i2c_get's outcome; val is what it stored through *val, if anything. */
  datatype Fetch = Fetch(bus: Bus, rc: int, val: Option<uint8>)

  /** i2c_set(addr, val): select the transmitter, then write [addr, val]. */
  function WriteReg(env: Env, b: Bus, addr: uint8, val: uint8): Step {
    var sel := IoctlResult(env, b);
    var b1 := Log(b, Select(SlaveAddr, sel));
    if sel < 0 then Step(b1, 1)
    else
      var n := WriteResult(env, b1, [addr, val]);
      var b2 := Log(b1, Send([addr, val], n));
      if n != 2 then Step(b2, 1) else Step(b2, 0)
  }

  /** i2c_get(addr, val): select the transmitter, write the one-byte address,
      then read one byte. */
  function ReadReg(env: Env, b: Bus, addr: uint8): Fetch {
    var sel := IoctlResult(env, b);
    var b1 := Log(b, Select(SlaveAddr, sel));
    if sel < 0 then Fetch(b1, 1, None)
    else
      var n := WriteResult(env, b1, [addr]);
      var b2 := Log(b1, Send([addr], n));
      if n != 1 then Fetch(b2, 1, None)
      else
        var got := ReadResult(env, b2);
        var b3 := Log(b2, Recv(got.count, got.data));
        if got.count != 1 then Fetch(b3, 1, None) else Fetch(b3, 0, Some(got.data))
  }

  /** i2c_set selects the transmitter first; a failed select returns 1 and
      transfers nothing; otherwise exactly the frame [addr, val] is written,
      and 0 is returned exactly when every call succeeded. */
  lemma WriteRegShape(env: Env, b: Bus, addr: uint8, val: uint8)
    ensures var r := WriteReg(env, b, addr, val);
      && b.trace <= r.bus.trace && r.bus.fd == b.fd
      && var ev := Since(b.trace, r.bus.trace);
      && 1 <= |ev| <= 2
      && ev[0] == Select(SlaveAddr, IoctlResult(env, b))
      && FailFast(ev)
      && (r.rc == 0 || r.rc == 1)
      && (r.rc == 0 <==> AllOk(ev))
      && (!Ok(ev[0]) ==> |ev| == 1)
      && (Ok(ev[0]) ==> |ev| == 2 && ev[1].Send? && ev[1].frame == [addr, val])
      && Written(ev) == (if Ok(ev[0]) then [[addr, val]] else [])
      && Received(ev) == [] && Reads(ev) == 0
  {
    var r := WriteReg(env, b, addr, val);
    var ev := Since(b.trace, r.bus.trace);
    var s := Select(SlaveAddr, IoctlResult(env, b));
    ViewsSnoc([], s);
    assert [] + [s] == [s];
    if Ok(s) {
      var w := Send([addr, val], WriteResult(env, Log(b, s), [addr, val]));
      assert ev == [s] + [w];
      ViewsSnoc([s], w);
    } else {
      assert ev == [s];
    }
  }

  /** i2c_get selects the transmitter first; a failed select returns 1 and
      transfers nothing; nothing follows a failed call, and 0 is returned
      exactly when every call succeeded. */
  lemma ReadRegShape(env: Env, b: Bus, addr: uint8)
    ensures var r := ReadReg(env, b, addr);
      && b.trace <= r.bus.trace && r.bus.fd == b.fd
      && var ev := Since(b.trace, r.bus.trace);
      && 1 <= |ev| <= 3
      && ev[0] == Select(SlaveAddr, IoctlResult(env, b))
      && FailFast(ev)
      && (r.rc == 0 || r.rc == 1)
      && (r.rc == 0 <==> AllOk(ev))
      && (r.val.Some? <==> r.rc == 0)
      && (!Ok(ev[0]) ==> |ev| == 1)
      && (r.rc == 0 ==> |ev| == 3)
  {
    var r := ReadReg(env, b, addr);
    var ev := Since(b.trace, r.bus.trace);
    var s := Select(SlaveAddr, IoctlResult(env, b));
    if Ok(s) {
      var b1 := Log(b, s);
      var w := Send([addr], WriteResult(env, b1, [addr]));
      if Ok(w) {
        var got := ReadResult(env, Log(b1, w));
        var g := Recv(got.count, got.data);
        assert ev == [s, w, g];
        assert AllOk(ev) <==> Ok(g) by {
          assert ev[0] == s && ev[1] == w && ev[2] == g;
        }
      } else {
        assert ev == [s, w] && ev[1] == w;
      }
    } else {
      assert ev == [s];
    }
  }

  /** What i2c_get writes: right after a successful select, the one-byte
      address frame and nothing else, and a third call only after that
      write succeeded. */
  lemma ReadRegTransfers(env: Env, b: Bus, addr: uint8)
    ensures var r := ReadReg(env, b, addr);
      && b.trace <= r.bus.trace
      && var ev := Since(b.trace, r.bus.trace);
      && 1 <= |ev|
      && Written(ev) == (if Ok(ev[0]) then [[addr]] else [])
      && (Ok(ev[0]) ==> |ev| >= 2 && ev[1].Send? && ev[1].frame == [addr])
      && (|ev| == 3 <==> |ev| >= 2 && Ok(ev[0]) && Ok(ev[1]))
  {
    var r := ReadReg(env, b, addr);
    var s := Select(SlaveAddr, IoctlResult(env, b));
    ViewsSnoc([], s);
    assert [] + [s] == [s];
    if Ok(s) {
      var b1 := Log(b, s);
      var w := Send([addr], WriteResult(env, b1, [addr]));
      ViewsSnoc([s], w);
      assert [s] + [w] == [s, w];
      if Ok(w) {
        var got := ReadResult(env, Log(b1, w));
        var g := Recv(got.count, got.data);
        ViewsSnoc([s, w], g);
        assert [s, w] + [g] == [s, w, g];
        assert r.bus.trace == b.trace + [s, w, g];
        SinceLog(b.trace, [s, w, g]);
      } else {
        assert r.bus.trace == b.trace + [s, w];
        SinceLog(b.trace, [s, w]);
      }
    } else {
      assert r.bus.trace == b.trace + [s];
      SinceLog(b.trace, [s]);
    }
  }

  /** What i2c_get reads: one read, and only as the third call, after the
      select and the address write; the byte stored through val is the
      byte that read delivered. */
  lemma ReadRegReceives(env: Env, b: Bus, addr: uint8)
    ensures var r := ReadReg(env, b, addr);
      && b.trace <= r.bus.trace
      && var ev := Since(b.trace, r.bus.trace);
      && Reads(ev) == (if |ev| == 3 then 1 else 0)
      && (|ev| == 3 ==> ev[2].Recv? && (r.val.Some? ==> r.val.value == ev[2].data))
      && Received(ev) == (if r.val.Some? then [r.val.value] else [])
  {
    var r := ReadReg(env, b, addr);
    var s := Select(SlaveAddr, IoctlResult(env, b));
    ViewsSnoc([], s);
    assert [] + [s] == [s];
    if Ok(s) {
      var b1 := Log(b, s);
      var w := Send([addr], WriteResult(env, b1, [addr]));
      ViewsSnoc([s], w);
      assert [s] + [w] == [s, w];
      if Ok(w) {
        var got := ReadResult(env, Log(b1, w));
        var g := Recv(got.count, got.data);
        ViewsSnoc([s, w], g);
        assert [s, w] + [g] == [s, w, g];
        assert r.bus.trace == b.trace + [s, w, g];
        SinceLog(b.trace, [s, w, g]);
      } else {
        assert r.bus.trace == b.trace + [s, w];
        SinceLog(b.trace, [s, w]);
      }
    } else {
      assert r.bus.trace == b.trace + [s];
      SinceLog(b.trace, [s]);
    }
  }

  /** i2c_set addresses the transmitter afresh: its select names 0x3b and
      its write follows that select's success. */
  lemma WriteRegAddressed(env: Env, b: Bus, addr: uint8, val: uint8)
    ensures var r := WriteReg(env, b, addr, val);
      && b.trace <= r.bus.trace
      && Addressed(Since(b.trace, r.bus.trace))
  {
    var r := WriteReg(env, b, addr, val);
    var s := Select(SlaveAddr, IoctlResult(env, b));
    if Ok(s) {
      var w := Send([addr, val], WriteResult(env, Log(b, s), [addr, val]));
      assert r.bus.trace == b.trace + [s, w];
      SinceLog(b.trace, [s, w]);
    } else {
      assert r.bus.trace == b.trace + [s];
      SinceLog(b.trace, [s]);
    }
  }

  /** i2c_get addresses the transmitter afresh: its select names 0x3b, its
      address write follows that select's success, and its read follows
      the address write's success. */
  lemma ReadRegAddressed(env: Env, b: Bus, addr: uint8)
    ensures var r := ReadReg(env, b, addr);
      && b.trace <= r.bus.trace
      && Addressed(Since(b.trace, r.bus.trace))
  {
    var r := ReadReg(env, b, addr);
    var s := Select(SlaveAddr, IoctlResult(env, b));
    if Ok(s) {
      var b1 := Log(b, s);
      var w := Send([addr], WriteResult(env, b1, [addr]));
      if Ok(w) {
        var got := ReadResult(env, Log(b1, w));
        var g := Recv(got.count, got.data);
        assert r.bus.trace == b.trace + [s, w, g];
        SinceLog(b.trace, [s, w, g]);
      } else {
        assert r.bus.trace == b.trace + [s, w];
        SinceLog(b.trace, [s, w]);
      }
    } else {
      assert r.bus.trace == b.trace + [s];
      SinceLog(b.trace, [s]);
    }
  }

  lemma SinceLog(t: seq<Event>, es: seq<Event>)
    ensures t <= t + es && Since(t, t + es) == es
  {
  }

  /** The i2c-dev handle: the global descriptor i2cfd and the calls made on it. */
  class I2cBus {
    const env: Env
    var fd: int
    var trace: seq<Event>

    function State(): Bus
      reads this
    {
      Bus(fd, trace)
    }

    /** i2cfd is a zero-initialised global before i2c_init runs. */
    constructor (env: Env)
      ensures this.env == env && fd == 0 && trace == []
    {
      this.env := env;
      fd := 0;
      trace := [];
    }

    /** i2c_init: open the bus device into i2cfd; 1 when open failed. */
    method I2cInit() returns (rc: int)
      modifies this
      ensures fd == env.openResult && trace == old(trace)
      ensures rc == (if env.openResult < 0 then 1 else 0)
    {
      fd := env.openResult;
      if fd < 0 {
        return 1;
      }
      return 0;
    }

    /** ioctl(i2cfd, I2C_SLAVE_FORCE, IIC_SLAVE_ADDR), as i2c_set and
        i2c_get issue it first. */
    method SelectSlave() returns (res: int)
      modifies this
      ensures fd == old(fd)
      ensures res == IoctlResult(env, old(State()))
      ensures trace == old(trace) + [Select(SlaveAddr, res)]
    {
      res := if fd < 0 then -1 else env.ioctlReply(|trace|);
      trace := trace + [Select(SlaveAddr, res)];
    }

    /** write(i2cfd, frame, |frame|): the [addr, val] pair of i2c_set or the
        one-byte address of i2c_get. */
    method WriteFrame(frame: seq<uint8>) returns (n: int)
      modifies this
      ensures fd == old(fd)
      ensures n == WriteResult(env, old(State()), frame)
      ensures trace == old(trace) + [Send(frame, n)]
    {
      n := if fd < 0 then -1 else env.writeReply(|trace|, frame);
      trace := trace + [Send(frame, n)];
    }

    /** read(i2cfd, val, 1) of i2c_get. */
    method ReadByte() returns (got: ReadReply)
      modifies this
      ensures fd == old(fd)
      ensures got == ReadResult(env, old(State()))
      ensures trace == old(trace) + [Recv(got.count, got.data)]
    {
      got := if fd < 0 then ReadReply(-1, 0) else env.readReply(|trace|);
      trace := trace + [Recv(got.count, got.data)];
    }

    /** i2c_set: 0 on success, 1 when the select or the 2-byte write fails. */
    method I2cSet(addr: uint8, val: uint8) returns (rc: int)
      modifies this
      ensures Step(State(), rc) == WriteReg(env, old(State()), addr, val)
    {
      var sel := SelectSlave();
      if sel < 0 {
        return 1;
      }
      var n := WriteFrame([addr, val]);
      if n != 2 {
        return 1;
      }
      return 0;
    }

    /** i2c_get: stores the byte read into val[at] only when the read
        returned 1; 0 on success, 1 on the first failing call. */
    method I2cGet(addr: uint8, val: array<uint8>, at: nat) returns (rc: int)
      requires at < val.Length
      modifies this, val
      ensures var f := ReadReg(env, old(State()), addr);
        && Fetch(State(), rc, f.val) == f
        && val[..] == old(val[..])[at := if f.val.Some? then f.val.value else old(val[at])]
    {
      var sel := SelectSlave();
      if sel < 0 {
        return 1;
      }
      var n := WriteFrame([addr]);
      if n != 1 {
        return 1;
      }
      var got := ReadByte();
      if got.count != 1 {
        return 1;
      }
      val[at] := got.data;
      return 0;
    }
  }
}
