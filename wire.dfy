/** Shared vocabulary of the engraver protocol: bytes, device models, event kinds,
    the observable action trace, errors, and the link that records what a session does. */
module Wire {

  /** One octet on the serial wire, as its unsigned value. */
  type byte = b: int | 0 <= b < 256

  /** Go's `byte(v)` conversion: keeps the low eight bits of `v`.
      Dafny's `%` is Euclidean, so this also agrees with two's-complement
      truncation for negative `v`. */
  function ToByte(v: int): (b: byte)
    ensures 0 <= v < 256 ==> b == v
  {
    v % 256
  }

  /** The unsigned values of a sequence of bit-vector octets. */
  function Octets(s: seq<bv8>): (r: seq<byte>)
    ensures |r| == |s|
    ensures forall i :: 0 <= i < |s| ==> r[i] == s[i] as int
  {
    seq(|s|, i requires 0 <= i < |s| => s[i] as int)
  }

  /** The hundreds/remainder pair encoding used in both directions:
      a value `v` travels as the two fields `v / 100` and `v % 100`. */
  function Join(hi: byte, lo: byte): (v: nat)
    ensures v <= 255 * 100 + 255
  {
    hi * 100 + lo
  }

  /** Device families that the handshake can recognise. */
  datatype Model = Null | OldKbot | OldNor | OldLit | OldBle | NewNor | NewLit | NewBle

  /** Kinds of event a caller can wait for. */
  datatype EventKind =
    | HandshakeSuccessKind
    | ModelRecognizedKind
    | ReadyForUploadKind
    | EngravingDoneKind
    | BatteryStatusKind
    | CarvingTimeKind
    | LaserPowerStatusKind
    | ChargingStatusKind

  /** What a session does, as seen from outside: a raw write, a blocking
      wait for the next event of a kind, or a settle delay in milliseconds. */
  datatype Action = Send(bytes: seq<byte>) | Await(kind: EventKind) | Delay(ms: nat)

  datatype Error =
    | BurnTimeOutOfRange
    | LaserPowerOutOfRange
    | ImageTooBig(maxWidth: int, maxHeight: int)
    | UnsupportedModel(model: Model)

  datatype Result<+T> = Ok(value: T) | Err(error: Error)

  datatype Option<+T> = None | Some(value: T)

  /** The serial connection, the event bus and the clock of one session,
      reduced to the ordered log of what the session did through them. */
  class Link {
    var trace: seq<Action>

    constructor ()
      ensures trace == []
    {
      trace := [];
    }

    /** Writes `bytes` to the port; write failures are swallowed, so nothing is returned. */
    method Send(bytes: seq<byte>)
      modifies this
      ensures trace == old(trace) + [Action.Send(bytes)]
    {
      trace := trace + [Action.Send(bytes)];
    }

    /** Blocks until the next event of `kind` is published. */
    method Await(kind: EventKind)
      modifies this
      ensures trace == old(trace) + [Action.Await(kind)]
    {
      trace := trace + [Action.Await(kind)];
    }

    /** Does `actions` in order. */
    method Perform(actions: seq<Action>)
      modifies this
      ensures trace == old(trace) + actions
    {
      trace := trace + actions;
    }

    /** Sleeps for `ms` milliseconds. */
    method Sleep(ms: nat)
      modifies this
      ensures trace == old(trace) + [Delay(ms)]
    {
      trace := trace + [Delay(ms)];
    }
  }
}
