/*
 * `protocol::UartRxSync<HeaderLen, FrameLen>` (protocol/UartRxSync/UartRxSync.hpp):
 * a frame synchroniser on a UART receiver.
 *
 * In `WaitHead` it receives one byte at a time into a HeaderLen-byte ring at
 * the start of `rx_buffer_`, with `hdr_idx_` as the ring cursor, until the
 * ring holds the header. It then receives the rest of that frame with DMA
 * (`Receiving`). After that it keeps a circular DMA transfer of whole frames
 * running (`DMAActive`), checking each frame's header before decoding it.
 *
 * The HAL calls are replaced by `Reception`, the reception currently armed,
 * whose bytes the hardware writes into the buffer before the completion
 * callback runs. The watchdog is the flag `fed`. The frames handed to the
 * user's `decode` are logged in `decoded`.
 *
 * The pure functions below (`Callback`, `Error`, `Start`, `Decode`) give one
 * handler call each; the class `UartRxSync` implements them with the
 * receiver's fields and loops, and the lemmas state what the handlers promise.
 */
module UartRxSync {

  datatype SyncState = Stopped | WaitHead | Receiving | DMAActive

  /** The receive the HAL has been asked for: nothing, one byte, one block, or a circular transfer from offset 0. */
  datatype Reception = Idle | OneByte(offset: nat) | OnceBlock(offset: nat, length: nat) | Circular(length: nat)

  function Offset(r: Reception): nat
  {
    match r
    case Idle => 0
    case OneByte(o) => o
    case OnceBlock(o, _) => o
    case Circular(_) => 0
  }

  function Length(r: Reception): nat
  {
    match r
    case Idle => 0
    case OneByte(_) => 1
    case OnceBlock(_, l) => l
    case Circular(l) => l
  }

  /** The reception writes inside a buffer of `size` bytes. */
  predicate Fits(r: Reception, size: nat)
  {
    Offset(r) + Length(r) <= size
  }

  /**
   * The template parameters and the two virtuals: `header()` and `decode()`.
   * `frameLen` is FrameLen and `|header|` is HeaderLen.
   */
  datatype Config = Config(header: seq<bv8>, frameLen: nat, decode: seq<bv8> -> bool)

  /** The static_asserts: HeaderLen > 0 and FrameLen > HeaderLen. */
  predicate ValidConfig(cfg: Config)
  {
    |cfg.header| > 0 && cfg.frameLen > |cfg.header|
  }

  /** The receiver's state: `state_`, `hdr_idx_`, `rx_buffer_`, the armed reception, the watchdog and the decode log. */
  datatype Rx = Rx(state: SyncState, hdrIdx: nat, buf: seq<bv8>, armed: Reception, fed: bool, decoded: seq<seq<bv8>>)

  /** What every handler keeps: the cursor stays inside the header ring and the armed reception inside the buffer. */
  predicate Inv(cfg: Config, rx: Rx)
  {
    && ValidConfig(cfg)
    && |rx.buf| == cfg.frameLen
    && rx.hdrIdx < |cfg.header|
    && Fits(rx.armed, cfg.frameLen)
    && (rx.state == Stopped ==> rx.armed == Idle)
  }

  /** The receiver before `startReceive`. */
  function Initial(cfg: Config): (rx: Rx)
    requires ValidConfig(cfg)
    ensures Inv(cfg, rx) && rx.state == Stopped
  {
    Rx(Stopped, 0, seq(cfg.frameLen, _ => 0), Idle, false, [])
  }

  // ---------------------------------------------------------------------------
  // Ring indices
  // ---------------------------------------------------------------------------

  /** `idx_next`: the slot after `i` in a ring of `n` slots. */
  function Advance(i: nat, n: nat): (r: nat)
    requires i < n
    ensures r < n && (r == i + 1 || (r == 0 && i == n - 1))
  {
    if i + 1 == n then 0 else i + 1
  }

  /** The slot `k` places after `start`. */
  function Fwd(start: nat, k: nat, n: nat): (r: nat)
    requires start < n && k < n
    ensures r < n
  {
    if start + k < n then start + k else start + k - n
  }

  /** The slot `j` places before `p`. */
  function Back(p: nat, j: nat, n: nat): (r: nat)
    requires p < n && j < n
    ensures r < n
  {
    if j <= p then p - j else p + n - j
  }

  /** Advance is `(i + 1) % n`, the source's cursor update. */
  lemma AdvanceIsMod(i: nat, n: nat)
    requires i < n
    ensures Advance(i, n) == (i + 1) % n
  {
    if n > 1 {
      FwdIsMod(i, 1, n);
    }
  }

  lemma FwdIsMod(start: nat, k: nat, n: nat)
    requires start < n && k < n
    ensures Fwd(start, k, n) == (start + k) % n
  {
    if start + k >= n {
      assert start + k == 1 * n + (start + k - n);
    }
  }

  // ---------------------------------------------------------------------------
  // check_header
  // ---------------------------------------------------------------------------

  /** The ring read from `start` onwards, wrapping at HeaderLen, spells the header. */
  predicate HeaderMatches(header: seq<bv8>, buf: seq<bv8>, start: nat)
    requires start < |header| <= |buf|
  {
    forall k :: 0 <= k < |header| ==> buf[Fwd(start, k, |header|)] == header[k]
  }

  /** `check_header()`: rx_buffer_[(hdr_idx_ + k) % HeaderLen] == header()[k] for every k < HeaderLen. */
  lemma {:induction false} HeaderMatchesMod(header: seq<bv8>, buf: seq<bv8>, start: nat)
    requires start < |header| <= |buf|
    ensures HeaderMatches(header, buf, start)
        <==> forall k :: 0 <= k < |header| ==> buf[(start + k) % |header|] == header[k]
  {
    forall k | 0 <= k < |header| {
      FwdIsMod(start, k, |header|);
    }
  }

  /** The check only reads the first HeaderLen bytes. */
  lemma {:induction false} HeaderMatchesPrefix(header: seq<bv8>, buf: seq<bv8>, buf': seq<bv8>, start: nat)
    requires start < |header| <= |buf| && |header| <= |buf'|
    requires buf[..|header|] == buf'[..|header|]
    ensures HeaderMatches(header, buf, start) == HeaderMatches(header, buf', start)
  {
    forall k | 0 <= k < |header|
      ensures buf[Fwd(start, k, |header|)] == buf'[Fwd(start, k, |header|)]
    {
      var i := Fwd(start, k, |header|);
      assert buf[i] == buf[..|header|][i];
      assert buf'[i] == buf'[..|header|][i];
    }
  }

  /** From slot 0 the check compares the first HeaderLen bytes with the header. */
  lemma {:induction false} HeaderMatchesAtZero(header: seq<bv8>, buf: seq<bv8>)
    requires 0 < |header| <= |buf|
    ensures HeaderMatches(header, buf, 0) <==> buf[..|header|] == header
  {
    if buf[..|header|] == header {
      forall k | 0 <= k < |header| ensures buf[Fwd(0, k, |header|)] == header[k] {
        assert buf[k] == buf[..|header|][k];
      }
    }
    if HeaderMatches(header, buf, 0) {
      forall k | 0 <= k < |header| ensures buf[..|header|][k] == header[k] {
        assert Fwd(0, k, |header|) == k;
      }
    }
  }

  // ---------------------------------------------------------------------------
  // The handlers
  // ---------------------------------------------------------------------------

  /** The bytes of the completed reception land at its offset; the rest of the buffer is untouched. */
  function Land(armed: Reception, buf: seq<bv8>, incoming: seq<bv8>): (r: seq<bv8>)
    requires Fits(armed, |buf|) && |incoming| == Length(armed)
    ensures |r| == |buf|
    ensures forall i :: 0 <= i < |buf| ==>
      r[i] == if Offset(armed) <= i < Offset(armed) + Length(armed) then incoming[i - Offset(armed)] else buf[i]
  {
    var o := Offset(armed);
    buf[..o] + incoming + buf[o + |incoming|..]
  }

  /** `_decode()`: hand the payload after the header to `decode`; feed the watchdog when it accepts it. */
  function Decode(cfg: Config, rx: Rx): (r: Rx)
    requires Inv(cfg, rx)
    ensures Inv(cfg, r) && r.buf == rx.buf
    ensures r.decoded == rx.decoded + [rx.buf[|cfg.header|..]]
  {
    var frame := rx.buf[|cfg.header|..];
    rx.(fed := if cfg.decode(frame) then true else rx.fed, decoded := rx.decoded + [frame])
  }

  /** The body of `receiveCallback()`, run on the buffer the reception has filled. */
  function Handle(cfg: Config, rx: Rx): (r: Rx)
    requires Inv(cfg, rx)
    ensures Inv(cfg, r) && r.buf == rx.buf
    ensures r.decoded == rx.decoded || r.decoded == rx.decoded + [rx.buf[|cfg.header|..]]
  {
    var hl := |cfg.header|;
    match rx.state
    case Stopped => rx
    case DMAActive =>
      if !HeaderMatches(cfg.header, rx.buf, rx.hdrIdx) then
        rx.(state := WaitHead, armed := OneByte(0), hdrIdx := 0)
      else
        Decode(cfg, rx)
    case WaitHead =>
      var next := Advance(rx.hdrIdx, hl);
      if rx.buf[rx.hdrIdx] == cfg.header[hl - 1] && HeaderMatches(cfg.header, rx.buf, rx.hdrIdx) then
        rx.(armed := OnceBlock(hl, cfg.frameLen - hl), state := Receiving)
      else
        rx.(armed := OneByte(next), hdrIdx := next)
    case Receiving =>
      Decode(cfg, rx.(armed := Circular(cfg.frameLen), state := DMAActive))
  }

  /** `receiveCallback()` after the armed reception delivered `incoming`. */
  function Callback(cfg: Config, rx: Rx, incoming: seq<bv8>): (r: Rx)
    requires Inv(cfg, rx) && |incoming| == Length(rx.armed)
    ensures Inv(cfg, r) && r.buf == Land(rx.armed, rx.buf, incoming)
  {
    LandKeepsInv(cfg, rx, incoming);
    Handle(cfg, rx.(buf := Land(rx.armed, rx.buf, incoming)))
  }

  /** HAL_UART_ERROR_NONE */
  const ErrorNone: nat := 0

  /** `errorHandler()`, with `huart_->ErrorCode` as `errorCode`. */
  function Error(rx: Rx, errorCode: nat): (r: Rx)
    ensures r.buf == rx.buf && r.decoded == rx.decoded && r.fed == rx.fed
    ensures r == rx || (r.state == WaitHead && r.hdrIdx == 0)
  {
    if errorCode == ErrorNone then rx
    else rx.(state := WaitHead, armed := OneByte(0), hdrIdx := 0)
  }

  /**
   * `startReceive()`. `configOk` is the configuration test (a UART with an RX
   * DMA channel in circular mode); `halOk` is what HAL_UART_Receive_IT
   * returns. A refused request arms nothing new.
   */
  function Start(rx: Rx, configOk: bool, halOk: bool): (r: (Rx, bool))
    ensures r.0.buf == rx.buf && r.0.hdrIdx == rx.hdrIdx && r.0.decoded == rx.decoded && r.0.fed == rx.fed
    ensures r.1 ==> configOk && r.0.state == WaitHead && r.0.armed == OneByte(0)
  {
    if !configOk then (rx, false)
    else (rx.(state := WaitHead, armed := if halOk then OneByte(0) else rx.armed), halOk)
  }

  /** `isConnected()` */
  predicate Connected(rx: Rx)
    ensures Connected(rx) ==> rx.state == DMAActive
  {
    rx.state == DMAActive && rx.fed
  }

  // ---------------------------------------------------------------------------
  // What the handlers promise
  // ---------------------------------------------------------------------------

  /** Landing a reception changes only buffer bytes, so the invariant survives it. */
  lemma {:induction false} LandKeepsInv(cfg: Config, rx: Rx, incoming: seq<bv8>)
    requires Inv(cfg, rx) && |incoming| == Length(rx.armed)
    ensures Inv(cfg, rx.(buf := Land(rx.armed, rx.buf, incoming)))
  {
  }

  /** Every handler keeps `Inv`. */
  lemma {:induction false} CallbackKeepsInv(cfg: Config, rx: Rx, incoming: seq<bv8>)
    requires Inv(cfg, rx) && |incoming| == Length(rx.armed)
    ensures Inv(cfg, Callback(cfg, rx, incoming))
  {
    LandKeepsInv(cfg, rx, incoming);
  }

  lemma ErrorKeepsInv(cfg: Config, rx: Rx, errorCode: nat)
    requires Inv(cfg, rx)
    ensures Inv(cfg, Error(rx, errorCode))
  {
  }

  lemma StartKeepsInv(cfg: Config, rx: Rx, configOk: bool, halOk: bool)
    requires Inv(cfg, rx)
    ensures Inv(cfg, Start(rx, configOk, halOk).0)
  {
  }

  /** In `Stopped` there is no branch: a callback changes nothing. */
  lemma {:induction false} StoppedIgnoresCallback(cfg: Config, rx: Rx, incoming: seq<bv8>)
    requires Inv(cfg, rx) && rx.state == Stopped && |incoming| == Length(rx.armed)
    ensures Callback(cfg, rx, incoming) == rx
  {
    assert Land(rx.armed, rx.buf, incoming) == rx.buf;
  }

  /**
   * `WaitHead`: when the newest byte is the header's last byte and the ring
   * spells the header, a block receive of the payload is armed after the
   * header and the machine moves to `Receiving` with the cursor left where it
   * is; otherwise it stays in `WaitHead` and arms a one-byte receive at the
   * next ring slot.
   */
  lemma {:induction false} WaitHeadStep(cfg: Config, rx: Rx)
    requires Inv(cfg, rx) && rx.state == WaitHead
    ensures var hl := |cfg.header|;
      var r := Handle(cfg, rx);
      && r.buf == rx.buf && r.fed == rx.fed && r.decoded == rx.decoded
      && (r.state == Receiving <==>
            rx.buf[rx.hdrIdx] == cfg.header[hl - 1] && HeaderMatches(cfg.header, rx.buf, rx.hdrIdx))
      && (r.state == Receiving ==> r.hdrIdx == rx.hdrIdx && r.armed == OnceBlock(hl, cfg.frameLen - hl))
      && (r.state != Receiving ==>
            r.state == WaitHead && r.hdrIdx == (rx.hdrIdx + 1) % hl && r.armed == OneByte(r.hdrIdx))
  {
    AdvanceIsMod(rx.hdrIdx, |cfg.header|);
  }

  /**
   * Leaving `WaitHead` needs the newest byte to equal both the header's last
   * byte (the test at the callback) and its first byte (check_header starts
   * its comparison at `hdr_idx_`), so a header whose first and last bytes
   * differ is never found.
   */
  lemma {:induction false} MatchNeedsEqualEnds(cfg: Config, rx: Rx)
    requires Inv(cfg, rx) && rx.state == WaitHead
    requires Handle(cfg, rx).state == Receiving
    ensures cfg.header[0] == cfg.header[|cfg.header| - 1]
  {
    assert rx.buf[Fwd(rx.hdrIdx, 0, |cfg.header|)] == cfg.header[0];
  }

  /** `Receiving`: the payload is decoded once and the circular transfer of whole frames from offset 0 is armed. */
  lemma ReceivingStep(cfg: Config, rx: Rx)
    requires Inv(cfg, rx) && rx.state == Receiving
    ensures var r := Handle(cfg, rx);
      && r.state == DMAActive && r.armed == Circular(cfg.frameLen)
      && r.hdrIdx == rx.hdrIdx && r.buf == rx.buf
      && r.decoded == rx.decoded + [rx.buf[|cfg.header|..cfg.frameLen]]
      && (r.fed <==> rx.fed || cfg.decode(rx.buf[|cfg.header|..]))
  {
    assert rx.buf[|cfg.header|..cfg.frameLen] == rx.buf[|cfg.header|..];
  }

  /**
   * `DMAActive`: a frame whose header fails the check aborts the transfer,
   * nothing is decoded, and synchronisation starts again from slot 0; a
   * frame that passes is decoded once and nothing else changes.
   */
  lemma DMAActiveStep(cfg: Config, rx: Rx)
    requires Inv(cfg, rx) && rx.state == DMAActive
    ensures var r := Handle(cfg, rx);
      && r.buf == rx.buf
      && (!HeaderMatches(cfg.header, rx.buf, rx.hdrIdx) ==>
            r.state == WaitHead && r.hdrIdx == 0 && r.armed == OneByte(0)
            && r.decoded == rx.decoded && r.fed == rx.fed)
      && (HeaderMatches(cfg.header, rx.buf, rx.hdrIdx) ==>
            r.state == DMAActive && r.hdrIdx == rx.hdrIdx && r.armed == rx.armed
            && r.decoded == rx.decoded + [rx.buf[|cfg.header|..]])
  {
  }

  /** `_decode()` feeds the watchdog exactly when `decode` accepts, and touches no state, cursor or buffer. */
  lemma DecodeSpec(cfg: Config, rx: Rx)
    requires Inv(cfg, rx)
    ensures var r := Decode(cfg, rx);
      && r.state == rx.state && r.hdrIdx == rx.hdrIdx && r.buf == rx.buf && r.armed == rx.armed
      && (r.fed <==> rx.fed || cfg.decode(rx.buf[|cfg.header|..]))
      && |r.decoded| == |rx.decoded| + 1
  {
  }

  /** `errorHandler()`: no error changes nothing; a real one restarts synchronisation from any state. */
  lemma ErrorSpec(rx: Rx, errorCode: nat)
    ensures errorCode == ErrorNone ==> Error(rx, errorCode) == rx
    ensures errorCode != ErrorNone ==>
      var r := Error(rx, errorCode);
      r.state == WaitHead && r.hdrIdx == 0 && r.armed == OneByte(0)
      && r.buf == rx.buf && r.decoded == rx.decoded && r.fed == rx.fed
  {
  }

  /** `startReceive()`: refuses a bad configuration without change; otherwise waits for a header, with a one-byte receive at offset 0 armed if the HAL accepted it. */
  lemma StartSpec(rx: Rx, configOk: bool, halOk: bool)
    ensures !configOk ==> Start(rx, configOk, halOk) == (rx, false)
    ensures configOk ==>
      var (r, ok) := Start(rx, configOk, halOk);
      && ok == halOk && r.state == WaitHead
      && (halOk ==> r.armed == OneByte(0))
      && r.hdrIdx == rx.hdrIdx && r.buf == rx.buf && r.decoded == rx.decoded
  {
  }

  lemma ConnectedIsActive(rx: Rx)
    requires Connected(rx)
    ensures rx.state == DMAActive
  {
  }

  // ---------------------------------------------------------------------------
  // Two synchronisation faults, and the handler that avoids them
  // ---------------------------------------------------------------------------

  /** A two-byte header AA 55 and a six-byte frame; `decode` accepts everything. */
  function Demo2(): (cfg: Config)
    ensures ValidConfig(cfg)
  {
    Config([0xAA, 0x55], 6, _ => true)
  }

  /** The receiver just started: waiting for a header, one byte armed at offset 0. */
  function Started2(): Rx
  {
    Rx(WaitHead, 0, [0, 0, 0, 0, 0, 0], OneByte(0), false, [])
  }

  /** As written: after the bytes 00 AA 55 the ring holds the header, yet the receiver is still waiting for it. */
  lemma HeaderAA55NotFound()
    ensures var cfg := Demo2();
      var r := Callback(cfg, Callback(cfg, Callback(cfg, Started2(), [0x00]), [0xAA]), [0x55]);
      r == Rx(WaitHead, 1, [0x55, 0xAA, 0, 0, 0, 0], OneByte(1), false, [])
  {
    Demo2Byte00();
    Demo2ByteAA();
    Demo2Byte55();
  }

  lemma Demo2Byte00()
    ensures Callback(Demo2(), Started2(), [0x00]) == Rx(WaitHead, 1, [0, 0, 0, 0, 0, 0], OneByte(1), false, [])
  {
    assert Land(OneByte(0), Started2().buf, [0x00]) == Started2().buf;
    assert Started2().buf[0] != Demo2().header[1];
    WaitHeadStep(Demo2(), Started2());
  }

  lemma Demo2ByteAA()
    ensures Callback(Demo2(), Rx(WaitHead, 1, [0, 0, 0, 0, 0, 0], OneByte(1), false, []), [0xAA])
      == Rx(WaitHead, 0, [0, 0xAA, 0, 0, 0, 0], OneByte(0), false, [])
  {
    assert Land(OneByte(1), [0, 0, 0, 0, 0, 0], [0xAA]) == [0, 0xAA, 0, 0, 0, 0];
  }

  lemma FixedDemo2Byte00()
    ensures CallbackFixed(Demo2(), Started2(), [0x00]) == Rx(WaitHead, 1, [0, 0, 0, 0, 0, 0], OneByte(1), false, [])
  {
    assert Land(OneByte(0), Started2().buf, [0x00]) == Started2().buf;
    assert Started2().buf[0] != Demo2().header[1];
  }

  lemma FixedDemo2ByteAA()
    ensures CallbackFixed(Demo2(), Rx(WaitHead, 1, [0, 0, 0, 0, 0, 0], OneByte(1), false, []), [0xAA])
      == Rx(WaitHead, 0, [0, 0xAA, 0, 0, 0, 0], OneByte(0), false, [])
  {
    assert Land(OneByte(1), [0, 0, 0, 0, 0, 0], [0xAA]) == [0, 0xAA, 0, 0, 0, 0];
  }

  lemma Demo2Byte55()
    ensures Callback(Demo2(), Rx(WaitHead, 0, [0, 0xAA, 0, 0, 0, 0], OneByte(0), false, []), [0x55])
      == Rx(WaitHead, 1, [0x55, 0xAA, 0, 0, 0, 0], OneByte(1), false, [])
  {
    assert Land(OneByte(0), [0, 0xAA, 0, 0, 0, 0], [0x55]) == [0x55, 0xAA, 0, 0, 0, 0];
    assert [0x55, 0xAA, 0, 0, 0, 0][Fwd(0, 0, 2)] != Demo2().header[0];
  }

  /** Corrected: the same bytes 00 AA 55 find the header, with the cursor reset for the circular transfer. */
  lemma FixedFindsAA55()
    ensures var cfg := Demo2();
      var r := CallbackFixed(cfg, CallbackFixed(cfg, CallbackFixed(cfg, Started2(), [0x00]), [0xAA]), [0x55]);
      r == Rx(Receiving, 0, [0x55, 0xAA, 0, 0, 0, 0], OnceBlock(2, 4), false, [])
  {
    FixedDemo2Byte00();
    FixedDemo2ByteAA();
    FixedDemo2Byte55();
  }

  lemma FixedDemo2Byte55()
    ensures CallbackFixed(Demo2(), Rx(WaitHead, 0, [0, 0xAA, 0, 0, 0, 0], OneByte(0), false, []), [0x55])
      == Rx(Receiving, 0, [0x55, 0xAA, 0, 0, 0, 0], OnceBlock(2, 4), false, [])
  {
    var cfg := Demo2();
    assert Land(OneByte(0), [0, 0xAA, 0, 0, 0, 0], [0x55]) == [0x55, 0xAA, 0, 0, 0, 0];
    assert HeaderMatches(cfg.header, [0x55, 0xAA, 0, 0, 0, 0], 1) by {
      forall k | 0 <= k < 2 ensures [0x55, 0xAA, 0, 0, 0, 0][Fwd(1, k, 2)] == cfg.header[k] {
        assert k == 0 || k == 1;
      }
    }
  }

  /**
   * Corrected: then the payload 01 02 03 04 and the looped frame
   * AA 55 05 06 07 08 give two decodes with exactly those payloads.
   */
  lemma FixedDecodesLoop()
    ensures var cfg := Demo2();
      var rx3 := Rx(Receiving, 0, [0x55, 0xAA, 0, 0, 0, 0], OnceBlock(2, 4), false, []);
      var rx4 := CallbackFixed(cfg, rx3, [0x01, 0x02, 0x03, 0x04]);
      var rx5 := CallbackFixed(cfg, rx4, [0xAA, 0x55, 0x05, 0x06, 0x07, 0x08]);
      && rx4.state == DMAActive
      && rx5.state == DMAActive && rx5.decoded == [[0x01, 0x02, 0x03, 0x04], [0x05, 0x06, 0x07, 0x08]]
  {
    var cfg := Demo2();
    var rx3 := Rx(Receiving, 0, [0x55, 0xAA, 0, 0, 0, 0], OnceBlock(2, 4), false, []);
    var buf4 := [0x55, 0xAA, 0x01, 0x02, 0x03, 0x04];
    assert Land(OnceBlock(2, 4), rx3.buf, [0x01, 0x02, 0x03, 0x04]) == buf4;
    assert buf4[2..] == [0x01, 0x02, 0x03, 0x04];
    var rx4 := Rx(DMAActive, 0, buf4, Circular(6), true, [[0x01, 0x02, 0x03, 0x04]]);
    assert CallbackFixed(cfg, rx3, [0x01, 0x02, 0x03, 0x04]) == rx4;
    var frame := [0xAA, 0x55, 0x05, 0x06, 0x07, 0x08];
    assert frame[..2] == cfg.header && frame[2..] == [0x05, 0x06, 0x07, 0x08];
    FixedAcceptsFramedData(cfg, rx4, frame);
  }

  /** A three-byte header AA 55 AA and a four-byte frame. */
  function Demo3(): (cfg: Config)
    ensures ValidConfig(cfg)
  {
    Config([0xAA, 0x55, 0xAA], 4, _ => true)
  }

  /** As written: the bytes 55 AA AA, which are not the header AA 55 AA, end `WaitHead` with the cursor at slot 2. */
  lemma StaleCursorFound()
    ensures var cfg := Demo3();
      var rx0 := Rx(WaitHead, 0, [0, 0, 0, 0], OneByte(0), false, []);
      Callback(cfg, Callback(cfg, Callback(cfg, rx0, [0x55]), [0xAA]), [0xAA])
        == Rx(Receiving, 2, [0x55, 0xAA, 0xAA, 0], OnceBlock(3, 1), false, [])
  {
    FirstByte55();
    SecondByteAA();
    ThirdByteAA();
  }

  lemma FirstByte55()
    ensures Callback(Demo3(), Rx(WaitHead, 0, [0, 0, 0, 0], OneByte(0), false, []), [0x55])
      == Rx(WaitHead, 1, [0x55, 0, 0, 0], OneByte(1), false, [])
  {
    assert Land(OneByte(0), [0, 0, 0, 0], [0x55]) == [0x55, 0, 0, 0];
  }

  lemma SecondByteAA()
    ensures Callback(Demo3(), Rx(WaitHead, 1, [0x55, 0, 0, 0], OneByte(1), false, []), [0xAA])
      == Rx(WaitHead, 2, [0x55, 0xAA, 0, 0], OneByte(2), false, [])
  {
    assert Land(OneByte(1), [0x55, 0, 0, 0], [0xAA]) == [0x55, 0xAA, 0, 0];
    assert [0x55, 0xAA, 0, 0][Fwd(1, 1, 3)] != Demo3().header[1];
  }

  lemma ThirdByteAA()
    ensures Callback(Demo3(), Rx(WaitHead, 2, [0x55, 0xAA, 0, 0], OneByte(2), false, []), [0xAA])
      == Rx(Receiving, 2, [0x55, 0xAA, 0xAA, 0], OnceBlock(3, 1), false, [])
  {
    var cfg := Demo3();
    assert Land(OneByte(2), [0x55, 0xAA, 0, 0], [0xAA]) == [0x55, 0xAA, 0xAA, 0];
    assert HeaderMatches(cfg.header, [0x55, 0xAA, 0xAA, 0], 2) by {
      forall k | 0 <= k < 3 ensures [0x55, 0xAA, 0xAA, 0][Fwd(2, k, 3)] == cfg.header[k] {
        assert k == 0 || k == 1 || k == 2;
      }
    }
  }

  /**
   * As written: that cursor is kept. After the payload byte 0x22 the next
   * circular frame starts with the header at offset 0, AA 55 AA 0x11, but it
   * is checked from slot 2 and is dropped undecoded.
   */
  lemma StaleCursorDropsFrame()
    ensures var cfg := Demo3();
      var rx3 := Rx(Receiving, 2, [0x55, 0xAA, 0xAA, 0], OnceBlock(3, 1), false, []);
      var rx4 := Callback(cfg, rx3, [0x22]);
      var rx5 := Callback(cfg, rx4, [0xAA, 0x55, 0xAA, 0x11]);
      && rx4.state == DMAActive
      && rx5.state == WaitHead && rx5.buf[..3] == cfg.header && rx5.decoded == [[0x22]]
  {
    PayloadByte22();
    FrameCheckedFromSlot2();
  }

  lemma PayloadByte22()
    ensures Callback(Demo3(), Rx(Receiving, 2, [0x55, 0xAA, 0xAA, 0], OnceBlock(3, 1), false, []), [0x22])
      == Rx(DMAActive, 2, [0x55, 0xAA, 0xAA, 0x22], Circular(4), true, [[0x22]])
  {
    assert Land(OnceBlock(3, 1), [0x55, 0xAA, 0xAA, 0], [0x22]) == [0x55, 0xAA, 0xAA, 0x22];
    assert [0x55, 0xAA, 0xAA, 0x22][3..] == [0x22];
  }

  lemma FrameCheckedFromSlot2()
    ensures var r := Callback(Demo3(), Rx(DMAActive, 2, [0x55, 0xAA, 0xAA, 0x22], Circular(4), true, [[0x22]]),
                              [0xAA, 0x55, 0xAA, 0x11]);
      r.state == WaitHead && r.buf == [0xAA, 0x55, 0xAA, 0x11] && r.decoded == [[0x22]]
  {
    assert Land(Circular(4), [0x55, 0xAA, 0xAA, 0x22], [0xAA, 0x55, 0xAA, 0x11]) == [0xAA, 0x55, 0xAA, 0x11];
    assert [0xAA, 0x55, 0xAA, 0x11][Fwd(2, 1, 3)] != Demo3().header[1];
  }

  /**
   * The `WaitHead` branch as evidently intended: the newest byte sits at the
   * cursor, so the header starts at the slot after it; on a match the cursor
   * is reset to 0, where the circular transfer will put each header.
   */
  function WaitHeadFixed(cfg: Config, rx: Rx): Rx
    requires Inv(cfg, rx) && rx.state == WaitHead
  {
    var hl := |cfg.header|;
    var next := Advance(rx.hdrIdx, hl);
    if rx.buf[rx.hdrIdx] == cfg.header[hl - 1] && HeaderMatches(cfg.header, rx.buf, next) then
      rx.(armed := OnceBlock(hl, cfg.frameLen - hl), state := Receiving, hdrIdx := 0)
    else
      rx.(armed := OneByte(next), hdrIdx := next)
  }

  /** `receiveCallback()` with the corrected `WaitHead` branch; the other branches are unchanged. */
  function CallbackFixed(cfg: Config, rx: Rx, incoming: seq<bv8>): Rx
    requires Inv(cfg, rx) && |incoming| == Length(rx.armed)
  {
    var landed := rx.(buf := Land(rx.armed, rx.buf, incoming));
    if rx.state == WaitHead then WaitHeadFixed(cfg, landed) else Handle(cfg, landed)
  }

  /** The ring holds the last bytes of `s` (up to n of them), newest at slot p and older ones going backwards. */
  ghost predicate Recent(buf: seq<bv8>, p: nat, s: seq<bv8>, n: nat)
    requires p < n <= |buf|
  {
    forall j :: 0 <= j < |s| && j < n ==> buf[Back(p, j, n)] == s[|s| - 1 - j]
  }

  /** The slot before `i`. */
  function Retreat(i: nat, n: nat): (r: nat)
    requires i < n
    ensures r < n && Advance(r, n) == i
  {
    if i == 0 then n - 1 else i - 1
  }

  /** Writing the next byte at the cursor extends the ring's record of the stream by that byte. */
  lemma {:induction false} RecentExtend(cfg: Config, rx: Rx, s: seq<bv8>, b: bv8)
    requires Inv(cfg, rx) && rx.armed == OneByte(rx.hdrIdx)
    requires Recent(rx.buf, Retreat(rx.hdrIdx, |cfg.header|), s, |cfg.header|)
    ensures Recent(Land(rx.armed, rx.buf, [b]), rx.hdrIdx, s + [b], |cfg.header|)
  {
    var n := |cfg.header|;
    var q := rx.hdrIdx;
    var buf' := Land(rx.armed, rx.buf, [b]);
    var s' := s + [b];
    forall j | 0 <= j < |s'| && j < n ensures buf'[Back(q, j, n)] == s'[|s'| - 1 - j] {
      if j > 0 {
        assert Back(q, j, n) == Back(Retreat(q, n), j - 1, n);
        assert s'[|s'| - 1 - j] == s[|s| - 1 - (j - 1)];
      }
    }
  }

  /** The window read from the slot after the newest byte is the last n bytes in arrival order. */
  lemma {:induction false} WindowIsRecent(header: seq<bv8>, buf: seq<bv8>, q: nat, s: seq<bv8>)
    requires q < |header| <= |buf| && |s| >= |header|
    requires Recent(buf, q, s, |header|)
    ensures HeaderMatches(header, buf, Advance(q, |header|)) <==> s[|s| - |header|..] == header
  {
    var n := |header|;
    var start := Advance(q, n);
    forall k | 0 <= k < n
      ensures buf[Fwd(start, k, n)] == s[|s| - n..][k]
    {
      assert Fwd(start, k, n) == Back(q, n - 1 - k, n);
    }
    if HeaderMatches(header, buf, start) {
      assert s[|s| - n..] == header;
    }
  }

  /**
   * Corrected: in `WaitHead`, fed the stream `s` and then the byte `b`, the
   * receiver leaves for `Receiving` exactly when the last HeaderLen bytes of
   * `s + [b]` are the header; when it stays, the ring still records the
   * stream, so the statement applies to the next byte too.
   */
  lemma {:induction false} FixedFindsHeader(cfg: Config, rx: Rx, s: seq<bv8>, b: bv8)
    requires Inv(cfg, rx) && rx.state == WaitHead && rx.armed == OneByte(rx.hdrIdx)
    requires Recent(rx.buf, Retreat(rx.hdrIdx, |cfg.header|), s, |cfg.header|)
    requires |s| + 1 >= |cfg.header|
    ensures var r := CallbackFixed(cfg, rx, [b]);
      var s' := s + [b];
      && (r.state == Receiving <==> s'[|s'| - |cfg.header|..] == cfg.header)
      && (r.state == Receiving ==> r.hdrIdx == 0)
      && (r.state != Receiving ==>
            && r.state == WaitHead && r.armed == OneByte(r.hdrIdx)
            && Recent(r.buf, Retreat(r.hdrIdx, |cfg.header|), s', |cfg.header|))
  {
    var n := |cfg.header|;
    var q := rx.hdrIdx;
    var s' := s + [b];
    var buf' := Land(rx.armed, rx.buf, [b]);
    RecentExtend(cfg, rx, s, b);
    WindowIsRecent(cfg.header, buf', q, s');
    if HeaderMatches(cfg.header, buf', Advance(q, n)) {
      assert buf'[Fwd(Advance(q, n), n - 1, n)] == cfg.header[n - 1];
      assert Fwd(Advance(q, n), n - 1, n) == q;
    }
  }

  /** Corrected machine invariant: once a header has been found the cursor is at slot 0. */
  predicate FixedInv(cfg: Config, rx: Rx)
  {
    Inv(cfg, rx) && (rx.state == Receiving || rx.state == DMAActive ==> rx.hdrIdx == 0)
  }

  lemma {:induction false} FixedKeepsInv(cfg: Config, rx: Rx, incoming: seq<bv8>)
    requires FixedInv(cfg, rx) && |incoming| == Length(rx.armed)
    ensures FixedInv(cfg, CallbackFixed(cfg, rx, incoming))
  {
    LandKeepsInv(cfg, rx, incoming);
  }

  /**
   * Corrected: in `DMAActive` every frame that starts with the header is
   * decoded and the circular transfer stays armed.
   */
  lemma {:induction false} FixedAcceptsFramedData(cfg: Config, rx: Rx, frame: seq<bv8>)
    requires FixedInv(cfg, rx) && rx.state == DMAActive && rx.armed == Circular(cfg.frameLen)
    requires |frame| == cfg.frameLen && frame[..|cfg.header|] == cfg.header
    ensures var r := CallbackFixed(cfg, rx, frame);
      && r.state == DMAActive && r.armed == rx.armed
      && r.decoded == rx.decoded + [frame[|cfg.header|..]]
  {
    var landed := Land(rx.armed, rx.buf, frame);
    assert landed == frame;
    HeaderMatchesAtZero(cfg.header, frame);
  }

  // ---------------------------------------------------------------------------
  // The receiver object
  // ---------------------------------------------------------------------------

  class UartRxSync {
    const header: seq<bv8>
    const frameLen: nat
    const decode: seq<bv8> -> bool
    /** `rx_buffer_` */
    const buf: array<bv8>
    /** `state_` */
    var state: SyncState
    /** `hdr_idx_` */
    var hdrIdx: nat
    /** The reception the HAL has been asked for. */
    var armed: Reception
    /** The watchdog has been fed. */
    var fed: bool
    /** Every payload handed to `decode`, in order. */
    ghost var decoded: seq<seq<bv8>>

    function Cfg(): Config
    {
      Config(header, frameLen, decode)
    }

    ghost function Snapshot(): Rx
      reads this, buf
    {
      Rx(state, hdrIdx, buf[..], armed, fed, decoded)
    }

    ghost predicate Valid()
      reads this, buf
    {
      buf.Length == frameLen && Inv(Cfg(), Snapshot())
    }

    constructor (header: seq<bv8>, frameLen: nat, decode: seq<bv8> -> bool)
      requires |header| > 0 && frameLen > |header|
      ensures Valid() && fresh(buf)
      ensures Cfg() == Config(header, frameLen, decode) && Snapshot() == Initial(Cfg())
    {
      this.header := header;
      this.frameLen := frameLen;
      this.decode := decode;
      buf := new bv8[frameLen](_ => 0);
      state := Stopped;
      hdrIdx := 0;
      armed := Idle;
      fed := false;
      decoded := [];
    }

    /** `startReceive()` */
    method StartReceive(configOk: bool, halOk: bool) returns (ok: bool)
      requires Valid()
      modifies this
      ensures Valid()
      ensures (Snapshot(), ok) == Start(old(Snapshot()), configOk, halOk)
    {
      if !configOk {
        return false;
      }
      state := WaitHead;
      if halOk {
        armed := OneByte(0);
      }
      return halOk;
    }

    /** The armed reception completes: its bytes land in `rx_buffer_`, then `receiveCallback()` runs. */
    method ReceiveCallback(incoming: seq<bv8>)
      requires Valid() && |incoming| == Length(armed)
      modifies this, buf
      ensures Valid()
      ensures Snapshot() == Callback(Cfg(), old(Snapshot()), incoming)
    {
      ghost var rx0 := Snapshot();
      Store(incoming);
      LandKeepsInv(Cfg(), rx0, incoming);
      if state == DMAActive {
        OnFrame();
      } else if state == WaitHead {
        OnHeaderByte();
      } else if state == Receiving {
        OnPayload();
      }
    }

    /** The hardware writes the completed reception's bytes at its offset. */
    method Store(incoming: seq<bv8>)
      requires Valid() && |incoming| == Length(armed)
      modifies buf
      ensures buf[..] == Land(armed, old(buf[..]), incoming)
    {
      var o := Offset(armed);
      forall i | 0 <= i < |incoming| {
        buf[o + i] := incoming[i];
      }
    }

    /** The `DMAActive` branch of `receiveCallback()`. */
    method OnFrame()
      requires Valid() && state == DMAActive
      modifies this
      ensures Valid()
      ensures Snapshot() == Handle(Cfg(), old(Snapshot()))
    {
      var ok := CheckHeader();
      if !ok {
        armed := OneByte(0);
        state := WaitHead;
        hdrIdx := 0;
        return;
      }
      DecodeFrame();
    }

    /** The `WaitHead` branch of `receiveCallback()`. */
    method OnHeaderByte()
      requires Valid() && state == WaitHead
      modifies this
      ensures Valid()
      ensures Snapshot() == Handle(Cfg(), old(Snapshot()))
    {
      var hl := |header|;
      var next := hdrIdx + 1;
      if next == hl {
        next := 0;
      }
      if buf[hdrIdx] == header[hl - 1] {
        var ok := CheckHeader();
        if ok {
          armed := OnceBlock(hl, frameLen - hl);
          state := Receiving;
          return;
        }
      }
      armed := OneByte(next);
      hdrIdx := next;
    }

    /** The `Receiving` branch of `receiveCallback()`. */
    method OnPayload()
      requires Valid() && state == Receiving
      modifies this
      ensures Valid()
      ensures Snapshot() == Handle(Cfg(), old(Snapshot()))
    {
      armed := Circular(frameLen);
      state := DMAActive;
      DecodeFrame();
    }

    /** `errorHandler()`, with `huart_->ErrorCode` as `errorCode`. */
    method ErrorHandler(errorCode: nat)
      requires Valid()
      modifies this
      ensures Valid()
      ensures Snapshot() == Error(old(Snapshot()), errorCode)
    {
      if errorCode == ErrorNone {
        return;
      }
      if state != WaitHead {
        state := WaitHead;
      }
      armed := OneByte(0);
      hdrIdx := 0;
    }

    /** `check_header()`: two loops, from the cursor to the end of the ring and then from slot 0. */
    method CheckHeader() returns (ok: bool)
      requires Valid()
      ensures ok == HeaderMatches(header, buf[..], hdrIdx)
    {
      var hl := |header|;
      var firstLen := hl - hdrIdx;
      for i := 0 to firstLen
        invariant forall k :: 0 <= k < i ==> buf[Fwd(hdrIdx, k, hl)] == header[k]
      {
        if buf[hdrIdx + i] != header[i] {
          assert buf[..][Fwd(hdrIdx, i, hl)] != header[i];
          return false;
        }
      }
      for i := 0 to hdrIdx
        invariant forall k :: 0 <= k < firstLen + i ==> buf[Fwd(hdrIdx, k, hl)] == header[k]
      {
        if buf[i] != header[firstLen + i] {
          assert buf[..][Fwd(hdrIdx, firstLen + i, hl)] != header[firstLen + i];
          return false;
        }
      }
      return true;
    }

    /** `_decode()` */
    method DecodeFrame()
      requires Valid()
      modifies this
      ensures Valid()
      ensures Snapshot() == Decode(Cfg(), old(Snapshot()))
    {
      var frame := buf[|header|..];
      if decode(frame) {
        fed := true;
      }
      decoded := decoded + [frame];
    }

    /** `isConnected()`: a connected receiver is in `DMAActive`. */
    function IsConnected(): (b: bool)
      reads this
      ensures b ==> state == DMAActive
    {
      state == DMAActive && fed
    }
  }
}
