/** Model of comm.h: the bus command encoder that drives the LED matrices.

    The two-wire transport is a `Wire` object that records every completed
    transaction in `log` and answers read requests from a script of replies.
    Each command is a method whose contract states exactly which transactions
    it appends to the log. */
module Comm {
  import opened CInt

  /** `matrixAddress`: the bus address of each matrix in the chain. */
  const MatrixAddress: seq<Byte> := [0x70, 0x71, 0x72]

  /** Command bytes of the protocol. */
  const StartBufferCommand: Byte := 0x00
  const ShowBufferCommand: Byte := 0x01
  const BalanceCommand: Byte := 0x02
  const FastCommand: Byte := 0x11

  /** The most bytes one block write sends: ten pixels. */
  const MaxBlock: int := 30

  /** Build-time settings that comm.h takes from elsewhere: `LED_MATRIX_COUNT`
      and whether `DISPLAY_ROTATED` is defined. */
  datatype Config = Config(ledMatrixCount: int, rotated: bool)

  /** A configuration the address table serves: one address per matrix. */
  predicate Supported(cfg: Config)
  {
    cfg.ledMatrixCount == |MatrixAddress|
  }

  /** `GetMatrixIndex`: the table slot of a logical matrix; the chain order is
      reversed unless the display is rotated. A matrix of the chain gets a slot
      of the table. */
  function GetMatrixIndex(cfg: Config, matrix: int): (index: int)
    ensures 0 <= matrix < cfg.ledMatrixCount ==> 0 <= index < cfg.ledMatrixCount
  {
    if cfg.rotated then matrix else cfg.ledMatrixCount - matrix - 1
  }

  /** Resolving a slot as if it were a matrix gives the matrix back: the
      mapping is its own inverse, in both orientations. */
  lemma MatrixIndexInvolution(cfg: Config, matrix: int)
    ensures GetMatrixIndex(cfg, GetMatrixIndex(cfg, matrix)) == matrix
  {
  }

  /** On the matrices of the chain the mapping is a bijection onto the slots. */
  lemma MatrixIndexBijective(cfg: Config)
    ensures forall m, m' :: 0 <= m < cfg.ledMatrixCount && 0 <= m' < cfg.ledMatrixCount ==>
      (GetMatrixIndex(cfg, m) == GetMatrixIndex(cfg, m') ==> m == m')
    ensures forall k :: 0 <= k < cfg.ledMatrixCount ==>
      0 <= GetMatrixIndex(cfg, k) < cfg.ledMatrixCount && GetMatrixIndex(cfg, GetMatrixIndex(cfg, k)) == k
  {
  }

  /** `GetMatrixAddress`: the bus address of a logical matrix. An index outside
      the chain would read past the table, so callers must not pass one. */
  function GetMatrixAddress(cfg: Config, matrix: int): (address: Byte)
    requires Supported(cfg) && 0 <= matrix < cfg.ledMatrixCount
    ensures address in MatrixAddress
  {
    MatrixAddress[GetMatrixIndex(cfg, matrix)]
  }

  /** Distinct matrices get distinct addresses, and together they use every
      address of the table, in both orientations. */
  lemma AddressesBijective(cfg: Config)
    requires Supported(cfg)
    ensures forall m, m' :: 0 <= m < cfg.ledMatrixCount && 0 <= m' < cfg.ledMatrixCount ==>
      (GetMatrixAddress(cfg, m) == GetMatrixAddress(cfg, m') ==> m == m')
    ensures (set m | 0 <= m < cfg.ledMatrixCount :: GetMatrixAddress(cfg, m)) == set a | a in MatrixAddress
  {
    var addresses := set m | 0 <= m < cfg.ledMatrixCount :: GetMatrixAddress(cfg, m);
    forall a | a in MatrixAddress
      ensures a in addresses
    {
      var k :| 0 <= k < |MatrixAddress| && MatrixAddress[k] == a;
      MatrixIndexInvolution(cfg, k);
      assert GetMatrixAddress(cfg, GetMatrixIndex(cfg, k)) == a;
    }
  }

  /** With the default (not rotated) mounting, logical matrices 0, 1 and 2 sit
      at 0x72, 0x71 and 0x70; rotated, at 0x70, 0x71 and 0x72. */
  lemma ChainAddresses(cfg: Config)
    requires Supported(cfg)
    ensures !cfg.rotated ==>
      GetMatrixAddress(cfg, 0) == 0x72 && GetMatrixAddress(cfg, 1) == 0x71 && GetMatrixAddress(cfg, 2) == 0x70
    ensures cfg.rotated ==>
      GetMatrixAddress(cfg, 0) == 0x70 && GetMatrixAddress(cfg, 1) == 0x71 && GetMatrixAddress(cfg, 2) == 0x72
  {
  }

  /** The number of bytes `WriteBlock` sends for a requested `count`: the count
      is rounded down to whole pixels and capped at ten pixels, and less than
      one pixel sends nothing. The count is a C `int`, so the rounding divides
      with truncation toward zero. */
  function BlockLength(count: int): (n: int)
    ensures 0 <= n <= MaxBlock && n % 3 == 0
    ensures n == 0 <==> count < 3
    ensures n > 0 ==> n <= count && (n == MaxBlock || count < n + 3)
  {
    var whole := Quot(count, 3) * 3;
    if whole < 3 then 0 else if whole > MaxBlock then MaxBlock else whole
  }

  /** Rounding then capping equals capping then rounding: the bytes sent are
      the largest whole number of pixels within both the count and the cap. */
  lemma BlockLengthIsCappedPixels(count: int)
    requires count >= 0
    ensures BlockLength(count) == (if count < MaxBlock then count else MaxBlock) / 3 * 3
  {
  }

  /** A requested count of 31 sends 30 bytes, 29 sends 27 and 2 sends none. */
  lemma BlockLengthExamples()
    ensures BlockLength(31) == 30 && BlockLength(29) == 27 && BlockLength(2) == 0
  {
  }

  /** One completed bus transaction. */
  datatype Transaction =
    | Transmission(address: int, payload: seq<Byte>)  // begin, write bytes, end
    | Request(address: int, quantity: int)            // ask a device for bytes

  /** The reply the next read request will receive; none when the script is
      exhausted. */
  function NextReply(replies: seq<seq<Byte>>): seq<Byte>
  {
    if replies == [] then [] else replies[0]
  }

  /** The script of replies after one request has consumed its reply. */
  function RemainingReplies(replies: seq<seq<Byte>>): seq<seq<Byte>>
  {
    if replies == [] then [] else replies[1..]
  }

  /** The two-wire transport (`Wire`), as far as comm.h uses it. Bus errors
      are not modelled: the driver ignores them. */
  class Wire {
    /** Completed transactions, oldest first. */
    var log: seq<Transaction>
    /** The bytes devices will send back to the coming read requests, in order. */
    var replies: seq<seq<Byte>>
    /** The transmission being assembled. */
    var txAddress: int
    var txBuffer: seq<Byte>
    /** Bytes received by the last read request and not yet read. */
    var rxBuffer: seq<Byte>

    constructor (script: seq<seq<Byte>>)
      ensures log == [] && replies == script && txBuffer == [] && rxBuffer == []
    {
      log := [];
      replies := script;
      txAddress := 0;
      txBuffer := [];
      rxBuffer := [];
    }

    /** `beginTransmission`: start assembling a transmission to `address`. */
    method BeginTransmission(address: int)
      modifies this
      ensures txAddress == address && txBuffer == []
      ensures log == old(log) && replies == old(replies) && rxBuffer == old(rxBuffer)
    {
      txAddress := address;
      txBuffer := [];
    }

    /** `write`: queue one byte of the transmission. */
    method Write(b: Byte)
      modifies this
      ensures txBuffer == old(txBuffer) + [b]
      ensures txAddress == old(txAddress) && log == old(log) && replies == old(replies) && rxBuffer == old(rxBuffer)
    {
      txBuffer := txBuffer + [b];
    }

    /** `endTransmission`: send the queued bytes as one transaction. */
    method EndTransmission()
      modifies this
      ensures log == old(log) + [Transmission(old(txAddress), old(txBuffer))]
      ensures txBuffer == [] && txAddress == old(txAddress) && replies == old(replies) && rxBuffer == old(rxBuffer)
    {
      log := log + [Transmission(txAddress, txBuffer)];
      txBuffer := [];
    }

    /** `requestFrom`: ask a device for up to `quantity` bytes; the device's
      scripted reply, cut to `quantity`, becomes the receive buffer. */
    method RequestFrom(address: int, quantity: nat)
      modifies this
      ensures log == old(log) + [Request(address, quantity)]
      ensures rxBuffer == (var r := NextReply(old(replies)); if |r| <= quantity then r else r[..quantity])
      ensures replies == RemainingReplies(old(replies))
      ensures txAddress == old(txAddress) && txBuffer == old(txBuffer)
    {
      log := log + [Request(address, quantity)];
      var r := NextReply(replies);
      rxBuffer := if |r| <= quantity then r else r[..quantity];
      replies := RemainingReplies(replies);
    }

    /** `available`: how many received bytes are left to read. */
    method Available() returns (n: nat)
      ensures n == |rxBuffer|
    {
      n := |rxBuffer|;
    }

    /** `read`: the next received byte, or -1 when there is none. */
    method Read() returns (b: int)
      modifies this
      ensures old(rxBuffer) == [] ==> b == -1 && rxBuffer == []
      ensures old(rxBuffer) != [] ==> b == old(rxBuffer)[0] && rxBuffer == old(rxBuffer)[1..]
      ensures log == old(log) && replies == old(replies) && txAddress == old(txAddress) && txBuffer == old(txBuffer)
    {
      if rxBuffer == [] {
        b := -1;
      } else {
        b := rxBuffer[0];
        rxBuffer := rxBuffer[1..];
      }
    }
  }

  /** `StartBuffer`: select the write buffer of a matrix (command 0x00). */
  method StartBuffer(wire: Wire, cfg: Config, matrix: int)
    requires Supported(cfg) && 0 <= matrix < cfg.ledMatrixCount
    modifies wire
    ensures wire.log == old(wire.log) + [Transmission(GetMatrixAddress(cfg, matrix), [StartBufferCommand])]
    ensures wire.txAddress == GetMatrixAddress(cfg, matrix) && wire.txBuffer == []
    ensures wire.replies == old(wire.replies) && wire.rxBuffer == old(wire.rxBuffer)
  {
    wire.BeginTransmission(GetMatrixAddress(cfg, matrix));
    wire.Write(StartBufferCommand);
    assert wire.txBuffer == [StartBufferCommand];
    wire.EndTransmission();
  }

  /** `StartFastCmd`: switch a matrix to fast command mode (command 0x11). */
  method StartFastCmd(wire: Wire, cfg: Config, matrix: int)
    requires Supported(cfg) && 0 <= matrix < cfg.ledMatrixCount
    modifies wire
    ensures wire.log == old(wire.log) + [Transmission(GetMatrixAddress(cfg, matrix), [FastCommand])]
    ensures wire.txAddress == GetMatrixAddress(cfg, matrix) && wire.txBuffer == []
    ensures wire.replies == old(wire.replies) && wire.rxBuffer == old(wire.rxBuffer)
  {
    wire.BeginTransmission(GetMatrixAddress(cfg, matrix));
    wire.Write(FastCommand);
    assert wire.txBuffer == [FastCommand];
    wire.EndTransmission();
  }

  /** `WriteData`: send one pixel, the three bytes `pRGB[0..3)` in order, in a
      single transaction. */
  method WriteData(wire: Wire, cfg: Config, matrix: int, pRGB: array<Byte>)
    requires Supported(cfg) && 0 <= matrix < cfg.ledMatrixCount
    requires 3 <= pRGB.Length
    modifies wire
    ensures wire.log == old(wire.log) + [Transmission(GetMatrixAddress(cfg, matrix), pRGB[..3])]
    ensures wire.txAddress == GetMatrixAddress(cfg, matrix) && wire.txBuffer == []
    ensures wire.replies == old(wire.replies) && wire.rxBuffer == old(wire.rxBuffer)
  {
    wire.BeginTransmission(GetMatrixAddress(cfg, matrix));
    for i := 0 to 3
      invariant wire.txAddress == GetMatrixAddress(cfg, matrix) && wire.txBuffer == pRGB[..i]
      invariant wire.log == old(wire.log) && wire.replies == old(wire.replies) && wire.rxBuffer == old(wire.rxBuffer)
    {
      wire.Write(pRGB[i]);
    }
    wire.EndTransmission();
  }

  /** `WriteBlock`: send the first `BlockLength(count)` bytes of `pBuf` in one
      transaction, or nothing at all when that is zero. */
  method WriteBlock(wire: Wire, cfg: Config, matrix: int, pBuf: array<Byte>, count: Int32)
    requires Supported(cfg) && 0 <= matrix < cfg.ledMatrixCount
    requires BlockLength(count) <= pBuf.Length
    modifies wire
    ensures BlockLength(count) == 0 ==> wire.log == old(wire.log) && unchanged(wire)
    ensures BlockLength(count) > 0 ==>
      wire.log == old(wire.log) + [Transmission(GetMatrixAddress(cfg, matrix), pBuf[..BlockLength(count)])] &&
      wire.txAddress == GetMatrixAddress(cfg, matrix) && wire.txBuffer == []
    ensures wire.replies == old(wire.replies) && wire.rxBuffer == old(wire.rxBuffer)
  {
    var n: int := count;
    n := Quot(n, 3) * 3;
    if n >= 3 {
      if n > MaxBlock {
        n := MaxBlock;
      }
      wire.BeginTransmission(GetMatrixAddress(cfg, matrix));
      for i := 0 to n
        invariant wire.txAddress == GetMatrixAddress(cfg, matrix) && wire.txBuffer == pBuf[..i]
        invariant wire.log == old(wire.log) && wire.replies == old(wire.replies) && wire.rxBuffer == old(wire.rxBuffer)
      {
        wire.Write(pBuf[i]);
      }
      wire.EndTransmission();
    }
  }

  /** `ShowBuffer`: flip the buffers of a matrix (command 0x01). */
  method ShowBuffer(wire: Wire, cfg: Config, matrix: int)
    requires Supported(cfg) && 0 <= matrix < cfg.ledMatrixCount
    modifies wire
    ensures wire.log == old(wire.log) + [Transmission(GetMatrixAddress(cfg, matrix), [ShowBufferCommand])]
    ensures wire.txAddress == GetMatrixAddress(cfg, matrix) && wire.txBuffer == []
    ensures wire.replies == old(wire.replies) && wire.rxBuffer == old(wire.rxBuffer)
  {
    wire.BeginTransmission(GetMatrixAddress(cfg, matrix));
    wire.Write(ShowBufferCommand);
    assert wire.txBuffer == [ShowBufferCommand];
    wire.EndTransmission();
  }

  /** `SetBalance`: first read one byte from the matrix (how many bytes it has
      buffered), then always send command 0x02. The result says whether a byte
      came back and it was 3. */
  method SetBalance(wire: Wire, cfg: Config, matrix: int) returns (complete: bool)
    requires Supported(cfg) && 0 <= matrix < cfg.ledMatrixCount
    modifies wire
    ensures wire.log == old(wire.log) +
      [Request(GetMatrixAddress(cfg, matrix), 1), Transmission(GetMatrixAddress(cfg, matrix), [BalanceCommand])]
    ensures complete <==> |NextReply(old(wire.replies))| > 0 && NextReply(old(wire.replies))[0] == 3
    ensures wire.replies == RemainingReplies(old(wire.replies)) && wire.rxBuffer == []
    ensures wire.txAddress == GetMatrixAddress(cfg, matrix) && wire.txBuffer == []
  {
    wire.RequestFrom(GetMatrixAddress(cfg, matrix), 1);
    var count: Byte := 0;
    var available := wire.Available();
    if available > 0 {
      count := wire.Read();
    }

    wire.BeginTransmission(GetMatrixAddress(cfg, matrix));
    wire.Write(BalanceCommand);
    assert wire.txBuffer == [BalanceCommand];
    wire.EndTransmission();
    complete := count == 3;
  }
}
