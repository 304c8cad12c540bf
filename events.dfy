/** The stateless decoder that turns one inbound control frame into at most one event. */
module Events {
  import opened Wire

  /** A typed event with its payload, if the kind has one. */
  datatype Event =
    | HandshakeSuccess
    | ModelRecognized(model: Model)
    | ReadyForUpload
    | EngravingDone
    | BatteryStatus(percent: int)
    | CarvingTime(ms: int)
    | LaserPowerStatus(percent: int)
    | ChargingStatus(milliamps: int)
  {
    function Kind(): EventKind
    {
      match this
      case HandshakeSuccess => HandshakeSuccessKind
      case ModelRecognized(_) => ModelRecognizedKind
      case ReadyForUpload => ReadyForUploadKind
      case EngravingDone => EngravingDoneKind
      case BatteryStatus(_) => BatteryStatusKind
      case CarvingTime(_) => CarvingTimeKind
      case LaserPowerStatus(_) => LaserPowerStatusKind
      case ChargingStatus(_) => ChargingStatusKind
    }
  }

  /** What decoding one frame leads to: nothing, only a logged warning,
      one published event, or the fatal "unknown model" failure. */
  datatype Decoded = Silent | Warned | Publish(event: Event) | UnknownModel

  /** The sentinel that starts every control frame. */
  const Sentinel: byte := 255

  /** The two signature bytes the handshake reply carries for a model;
      `Null` has none. */
  function Signature(m: Model): Option<(byte, byte)>
  {
    match m
    case Null => None
    case OldBle => Some((1, 0))
    case NewBle => Some((1, 10))
    case OldKbot => Some((10, 1))
    case OldNor => Some((11, 1))
    case NewNor => Some((11, 2))
    case OldLit => Some((13, 1))
    case NewLit => Some((13, 2))
  }

  /** The signature table of the handshake reply: bytes 2 and 3 name the model. */
  function TranslateModel(b2: byte, b3: byte): (r: Option<Model>)
    ensures r.Some? ==> r.value != Null && Signature(r.value) == Some((b2, b3))
  {
    match b2
    case 1 => (match b3 case 0 => Some(OldBle) case 10 => Some(NewBle) case _ => None)
    case 10 => (match b3 case 1 => Some(OldKbot) case _ => None)
    case 11 => (match b3 case 1 => Some(OldNor) case 2 => Some(NewNor) case _ => None)
    case 13 => (match b3 case 1 => Some(OldLit) case 2 => Some(NewLit) case _ => None)
    case _ => None
  }

  /** Decodes one frame read from the port. */
  function Translate(frame: seq<byte>): (d: Decoded)
    ensures d != Silent ==> |frame| >= 4 && frame[0] == Sentinel
    ensures d.Publish? && d.event.ReadyForUpload? ==> frame[1] == 5 && frame[2] == 1 && frame[3] == 1
    ensures d.Publish? && d.event.BatteryStatus? ==> 0 <= d.event.percent <= 100
    ensures d == UnknownModel ==> frame[1] == 2 && TranslateModel(frame[2], frame[3]).None?
  {
    if |frame| < 4 || frame[0] != Sentinel then Silent
    else match frame[1]
      case 1 => Publish(HandshakeSuccess)
      case 2 =>
        (match TranslateModel(frame[2], frame[3])
         case Some(m) => Publish(ModelRecognized(m))
         case None => UnknownModel)
      case 5 => if frame[2] == 1 && frame[3] == 1 then Publish(ReadyForUpload) else Silent
      case 6 => Publish(EngravingDone)
      case 9 => Publish(BatteryStatus(if frame[2] as int * 25 > 100 then 100 else frame[2] as int * 25))
      case 10 => Publish(CarvingTime(Join(frame[2], frame[3])))
      case 13 => Publish(LaserPowerStatus(Join(frame[2], frame[3])))
      case 15 => Publish(ChargingStatus(Join(frame[2], frame[3])))
      case 16 => if frame[2] != 1 || frame[3] != 0 then Warned else Silent
      case _ => Silent
  }

  /** The table is exactly the seven listed signatures: every model but
      `Null` is recognised from its own signature and from no other pair. */
  lemma SignatureTableExact(b2: byte, b3: byte, m: Model)
    ensures TranslateModel(b2, b3) == Some(m) <==> Signature(m) == Some((b2, b3))
  {
  }

  /** An opcode-2 frame leads to `ModelRecognized(m)` exactly when its bytes
      2 and 3 are the signature of `m`, and to the fatal failure otherwise. */
  lemma HandshakeReplyDecoding(frame: seq<byte>)
    requires |frame| >= 4 && frame[0] == Sentinel && frame[1] == 2
    ensures forall m: Model :: Translate(frame) == Publish(ModelRecognized(m)) <==> Signature(m) == Some((frame[2], frame[3]))
    ensures Translate(frame) == UnknownModel <==> forall m: Model :: Signature(m) != Some((frame[2], frame[3]))
  {
    forall m: Model ensures TranslateModel(frame[2], frame[3]) == Some(m) <==> Signature(m) == Some((frame[2], frame[3])) {
      SignatureTableExact(frame[2], frame[3], m);
    }
  }

  /** Only the exact payload {1, 1} announces readiness for upload. */
  lemma ReadyForUploadExact(frame: seq<byte>)
    requires |frame| >= 4 && frame[0] == Sentinel && frame[1] == 5
    ensures Translate(frame) == Publish(ReadyForUpload) <==> frame[2] == 1 && frame[3] == 1
    ensures Translate(frame) != Publish(ReadyForUpload) ==> Translate(frame) == Silent
  {
  }

  /** The battery level is `min(100, 25 * b2)`. */
  lemma BatteryClamped(frame: seq<byte>)
    requires |frame| >= 4 && frame[0] == Sentinel && frame[1] == 9
    ensures Translate(frame).Publish? && Translate(frame).event.BatteryStatus?
    ensures Translate(frame).event.percent == if frame[2] >= 4 then 100 else 25 * frame[2]
  {
  }

  /** Carving time, laser power and charging current carry `b2 * 100 + b3`
      for every pair of payload bytes, including a `b3` of 100 or more. */
  lemma HundredsDecoding(frame: seq<byte>)
    requires |frame| >= 4 && frame[0] == Sentinel
    ensures frame[1] == 10 ==> Translate(frame) == Publish(CarvingTime(frame[2] as int * 100 + frame[3] as int))
    ensures frame[1] == 13 ==> Translate(frame) == Publish(LaserPowerStatus(frame[2] as int * 100 + frame[3] as int))
    ensures frame[1] == 15 ==> Translate(frame) == Publish(ChargingStatus(frame[2] as int * 100 + frame[3] as int))
  {
  }

  /** A value sent as its hundreds/remainder split comes back unchanged. */
  lemma HundredsPayloads(frame: seq<byte>, v: int)
    requires |frame| >= 4 && frame[0] == Sentinel && frame[1] in {10, 13, 15}
    requires 0 <= v && frame[2] == v / 100 && frame[3] == v % 100
    ensures Translate(frame).Publish?
    ensures frame[1] == 10 ==> Translate(frame).event == CarvingTime(v)
    ensures frame[1] == 13 ==> Translate(frame).event == LaserPowerStatus(v)
    ensures frame[1] == 15 ==> Translate(frame).event == ChargingStatus(v)
  {
    HundredsDecoding(frame);
  }

  /** Opcodes 1 and 6 carry no payload; opcode 16 and every unlisted opcode publish nothing. */
  lemma OpcodeDispatch(frame: seq<byte>)
    requires |frame| >= 4 && frame[0] == Sentinel
    ensures frame[1] == 1 ==> Translate(frame) == Publish(HandshakeSuccess)
    ensures frame[1] == 6 ==> Translate(frame) == Publish(EngravingDone)
    ensures frame[1] == 16 ==> !Translate(frame).Publish?
    ensures frame[1] !in {1, 2, 5, 6, 9, 10, 13, 15, 16} ==> Translate(frame) == Silent
    ensures Translate(frame).Publish? ==> Translate(frame).event.Kind() != ModelRecognizedKind || frame[1] == 2
  {
  }
}
