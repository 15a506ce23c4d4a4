# HDMI transmitter bring-up over i2c-dev

This project models the part of the Z-Turn board setup program that brings up
the HDMI transmitter (a Sil9022-style TPI chip at 7-bit bus address 0x3b). It
covers two layers:

- **Bus primitives** (`i2c.dfy`, module `I2c`).
  - `i2c_init` opens the i2c-dev device.
  - `i2c_set(addr, val)` selects the transmitter with an `I2C_SLAVE_FORCE` ioctl, then writes the two-byte frame `[addr, val]`.
  - `i2c_get(addr, val)` selects the transmitter, writes the one-byte frame `[addr]`, then reads one byte into `*val`.
  - Each primitive returns 1 at the first system call that fails, and 0 otherwise.
- **Bring-up** (`hdmi.dfy`, module `Hdmi`). `hdmi_init(pxclock, vfreq, pixperline, nlines)`:
  1. opens the device without looking at the result;
  2. enters TPI mode by writing 0xc7 <- 0x00;
  3. reads the identification registers 0x1b, 0x1c, 0x1d and 0x30 into a four-byte buffer;
  4. gives up unless they read b0 02 03 00;
  5. issues 17 configuration writes. The last of these, 0x1a <- 0x01, switches TMDS output on. Each of the four timing parameters is written as a low byte (the value converted to `uint8_t`) and a high byte (`value >> 8` converted to `uint8_t`).

The kernel and the chip are an oracle (`Env`). It gives:

- the descriptor `open` returns;
- the reply to the k-th bus system call (ioctl, write or read).

A call on a negative descriptor fails with -1, as EBADF does. The handle is the class `I2c.I2cBus`. Its `fd` stands for the global `i2cfd`, and its `trace` logs every bus system call together with the value it returned. The primitives are methods on that class, and `Hdmi.HdmiInit` takes the handle.

Each method is proved equal to a pure function of the oracle and the old state:

- `I2c.WriteReg` for `i2c_set`;
- `I2c.ReadReg` for `i2c_get`;
- `Hdmi.Bringup` for `hdmi_init`.

The lemmas state what fxsetup.c guarantees about those functions through views of the trace:

- `Written`: the frames handed to write();
- `Received`: the bytes successful reads delivered;
- `Reads`: the number of read() calls;
- `AllOk`: every call succeeded;
- `FailFast`: nothing was issued after a failure;
- `Addressed`: every select names slave 0x3b, every write comes right after a successful select, and every read comes right after a successful one-byte address write.

## Model

| member | source | states |
|---|---|---|
| I2c.I2cBus.I2cInit | c/fxsetup.c:48-56 | The descriptor becomes what open returned, and the trace is unchanged. Returns 1 exactly when open failed (negative descriptor), otherwise 0. |
| I2c.I2cBus.I2cSet | c/fxsetup.c:58-72 | The new handle state and the return code are exactly those of `WriteReg`: select 0x3b, then write `[addr, val]`, stopping at the first failure. |
| I2c.I2cBus.I2cGet | c/fxsetup.c:74-90 | The new handle state and return code are those of `ReadReg`. `val[at]` receives the byte read only when all three calls succeeded, and every other buffer cell is unchanged. |
| I2c.WriteRegShape | c/fxsetup.c:58-72 | The first call is the select of slave 0x3b. A failed select returns 1 and transfers nothing. Otherwise exactly one frame `[addr, val]` is written. Nothing follows a failure, the result is 0 or 1, and it is 0 iff every call succeeded. Nothing is read. |
| I2c.ReadRegShape | c/fxsetup.c:74-90 | The first call is the select of 0x3b, and a failed select returns 1 after that one call. Nothing follows a failure. The result is 0 iff every call succeeded, and that is exactly when a byte is stored; a success makes three calls. |
| I2c.ReadRegTransfers | c/fxsetup.c:80-84 | Once the select succeeded, the second call is the write of the one-byte address `[addr]`, and that is the only frame written. A third call happens iff the select and the address write both succeeded. |
| I2c.ReadRegReceives | c/fxsetup.c:84-87 | There is at most one read: the third call, when there is one, is the read, and it is the only read. The byte stored is exactly the byte that read delivered. |
| I2c.WriteRegAddressed | c/fxsetup.c:61-66 | The select of `i2c_set` names slave 0x3b, and its write is issued right after that select succeeded. |
| I2c.ReadRegAddressed | c/fxsetup.c:75-84 | The select of `i2c_get` names slave 0x3b. Its address write is issued right after that select succeeded, and its read right after that one-byte write succeeded. |
| Hdmi.SplitJoin | c/fxsetup.c:132-143 | The low byte plus 256 times the `>> 8` byte of a timing parameter equals the parameter mod 65536. |
| Hdmi.SplitRoundTrip | c/fxsetup.c:132-143 | For a parameter below 65536 the split is lossless: low + 256 * high == v, with low == v % 256 and high == v / 256. |
| Hdmi.ConfigLayout | c/fxsetup.c:115-147 | 17 configuration writes. 0x08 <- 0x70 is written at positions 1 and 15 and at no other position. 0x1a <- 0x11 comes before the timing, and 0x1a <- 0x01 is last. The register pairs 0/1, 2/3, 4/5 and 6/7 carry pxclock, vfreq, pixperline and nlines, low byte first, and each pair reassembles to the parameter's low 16 bits. |
| Hdmi.Mode1080p60Timing | c/fxsetup.c:189 | For the 1080p60 call (14850, 6000, 2200, 1125) the timing writes are 0x02 0x3a, 0x70 0x17, 0x98 0x08 and 0x65 0x04 to registers 0..7. |
| Hdmi.IntendedFrames | c/fxsetup.c:98-147 | A complete bring-up writes 22 frames: 0xc7 <- 0 first, then the four identification addresses 0x1b, 0x1c, 0x1d, 0x30 in that order, and 0x1a <- 0x01 last. |
| Hdmi.IdMatches | c/fxsetup.c:110 | The byte-by-byte comparison in the C code accepts exactly the identification b0 02 03 00. |
| Hdmi.RunGetsShape | c/fxsetup.c:102-108 | The identification reads stop at the first failure and return 0 iff every call succeeded. The bytes stored are the bytes received. On success there is one byte per register and three calls per register; on failure there are fewer bytes than registers. |
| Hdmi.RunGetsFrames | c/fxsetup.c:102-108 | The frames written by the identification reads are a prefix of the register addresses in order. On success they are all of them, with one read per register. |
| Hdmi.RunGetsAddressed | c/fxsetup.c:102-108 | Each identification read re-selects slave 0x3b before writing its address, and reads only right after that write succeeded. |
| Hdmi.RunSetsAddressed | c/fxsetup.c:115-147 | Each configuration write re-selects slave 0x3b and is issued only right after that select succeeded. |
| Hdmi.RunSetsShape | c/fxsetup.c:115-147 | The configuration writes are a prefix of the table's frames in order, and all of them when 0 is returned. Nothing follows a failure, 0 means every call succeeded, and nothing is read. |
| Hdmi.IdPhase | c/fxsetup.c:98-108 | After a successful TPI enable, the identification phase receives exactly the stored bytes. Its frames are a prefix of the TPI write and the four address frames. A full success writes all five frames with 4 reads in 14 calls, and a failure leaves fewer than four bytes. |
| Hdmi.BringupOutcome | c/fxsetup.c:92-150 | hdmi_init keeps the descriptor open returned and never issues a call after a failed one. Every transfer it makes is addressed to slave 0x3b by a successful select right before it. It returns 0 or 1, and 0 exactly when every call succeeded and the bytes read were b0 02 03 00. |
| Hdmi.BringupOrder | c/fxsetup.c:92-150 | The frames hdmi_init writes are always a prefix of `IntendedFrames`, and all 22 of them when it returns 0. |
| Hdmi.IdentityGate | c/fxsetup.c:110-113 | When four identification bytes arrived and differ from b0 02 03 00, hdmi_init returns 1 and issues nothing else. The trace is the TPI write plus four reads: 5 frames, 4 reads, 14 calls. |
| Hdmi.ReadsFollowTpi | c/fxsetup.c:98-102 | An identification read happens only after the TPI enable: the trace starts with a successful select and the successful write of `[0xc7, 0x00]`. |
| Hdmi.OpenFailure | c/fxsetup.c:94-98 | The result of `i2c_init` is ignored. When open fails, the first select runs on the bad descriptor and fails, and hdmi_init returns 1 after that one call, with nothing written or read. |
| Hdmi.ReadIdentity | c/fxsetup.c:100-108 | The four `i2c_get` calls into buffer[0..3] leave the handle exactly as `RunGets` over 0x1b, 0x1c, 0x1d, 0x30 does and return its code. On success the buffer holds the four bytes received. |
| Hdmi.HdmiInit | c/fxsetup.c:92-150 | The new handle state and the return code of hdmi_init are exactly those of `Bringup`, so every `Bringup` lemma above holds of the method. |

## Left out

- `main`, `usage`, the UIO mapping, the reset register loop and all `printf` messages are outside the bring-up; the only part of `main` used is its 1080p60 argument values.
- The real device file, `open`, `ioctl`, `write` and `read` are replaced by the oracle `Env`. A call on a negative descriptor is taken to fail with -1 (EBADF) without reaching the bus.
- The `input_event` structure and the `uiofd`/`parmreg` globals are declared but play no part in the bring-up.
- Timing parameters are non-negative C `int`s. The result of `>>` on a negative `int` is implementation-defined in C, so negative arguments are not modelled.
- HdmiInit: the 17 configuration calls are a loop over the ordered table `ConfigWrites` instead of 17 written-out calls. The calls, their order, their values and the early return on the first failure are the same as in the C code.
- Hdmi.ReadIdentity: the four identification reads are a separate method called by `HdmiInit`. fxsetup.c has them inline, with the same calls, order and early returns.
- A failed open does not end the bring-up: `hdmi_init` ignores `i2c_init`'s return value, so one select on the bad descriptor is attempted before it returns 1 (`Hdmi.OpenFailure`).
- The trace records bus transactions only. `open` is not logged; it only sets the descriptor.
