/** The device facade: binding a recognised model to its protocol variant,
    the connect handshake, and the session object that forwards commands. */
module Gozcore {
  import opened Wire
  import opened Events
  import opened ProtocolV4

  /** The handshake request sent once the port is open. */
  const HandshakeFrame: seq<byte> := [255, 9, 0, 0]

  /** What connecting does on the link up to the recognised model. */
  const HandshakeActions: seq<Action> := [Delay(SettleDelay), Send(HandshakeFrame), Await(ModelRecognizedKind)]

  /** The delay that drains trailing handshake frames before the session is returned. */
  const DrainDelay: nat := 30

  /** The models with an implemented protocol variant, and their engravable area. */
  function OpenProtocol(m: Model): (r: Result<ProtocolV4>)
    ensures r.Ok? <==> m in {NewNor, NewLit, NewBle}
    ensures r.Ok? ==> r.value.width == r.value.height && (r.value.width == 550 <==> m == NewBle)
    ensures r.Ok? ==> r.value.width in {490, 550}
    ensures r.Err? ==> r.error == UnsupportedModel(m)
  {
    match m
    case NewNor => Ok(ProtocolV4(490, 490))
    case NewLit => Ok(ProtocolV4(490, 490))
    case NewBle => Ok(ProtocolV4(550, 550))
    case _ => Err(UnsupportedModel(m))
  }

  /** A handshake reply leads to a usable session exactly for the signatures
      (1, 10), (11, 2) and (13, 2); the other four known signatures are
      recognised but have no protocol variant. */
  lemma UsableSignatures(b2: byte, b3: byte)
    ensures var r := TranslateModel(b2, b3);
      (r.Some? && OpenProtocol(r.value).Ok?) <==> (b2, b3) in {(1, 10), (11, 2), (13, 2)}
    ensures var r := TranslateModel(b2, b3);
      (r.Some? && OpenProtocol(r.value).Err?) <==> (b2, b3) in {(1, 0), (10, 1), (11, 1), (13, 1)}
  {
  }

  /** The same at the level of the decoded handshake frame. */
  lemma UsableHandshakeReply(frame: seq<byte>, m: Model)
    requires Translate(frame) == Publish(ModelRecognized(m))
    ensures |frame| >= 4 && frame[0] == Sentinel && frame[1] == 2
    ensures OpenProtocol(m).Ok? <==> (frame[2], frame[3]) in {(1, 10), (11, 2), (13, 2)}
  {
    UsableSignatures(frame[2], frame[3]);
  }

  /** Every bound variant has an area small enough that the geometry frames
      of any image it accepts are sent without truncation. */
  lemma BoundVariantGeometry(m: Model, img: Image)
    requires OpenProtocol(m).Ok?
    requires img.width <= OpenProtocol(m).value.width && img.height <= OpenProtocol(m).value.height
    ensures var p := OpenProtocol(m).value;
      var x0, y0 := (p.width - img.width) / 2, (p.height - img.height) / 2;
      var o := OriginFrame(x0, y0);
      var s := SizeFrame(Stride(img.width) * 8, img.height);
      Join(o[3], o[4]) == x0 && Join(o[5], o[6]) == y0 &&
      Join(s[3], s[4]) == Stride(img.width) * 8 && Join(s[5], s[6]) == img.height
  {
    GeometryFrames(OpenProtocol(m).value, img);
  }

  /** Opcode 13 has one layout in both directions: the set-laser-power frame,
      read back by the decoder, reports the same percentage. */
  lemma LaserPowerFrameDecodes(p: ProtocolV4, power: int)
    requires p.SetLaserPower(power).Ok?
    ensures p.SetLaserPower(power).value[0].Send?
    ensures Translate(p.SetLaserPower(power).value[0].bytes) == Publish(LaserPowerStatus(power))
  {
  }

  /** A connected engraver: its model, its link and the variant bound to it. */
  class Graver {
    const model: Model
    const link: Link
    const protocol: ProtocolV4
    /** Where the handshake of this session starts in the link's trace. */
    ghost const connectedAt: nat

    /** The session invariant: the variant is the one bound to the model, and
      the handshake, ending with the recognised model, is on the trace before
      anything the session does. */
    ghost predicate Valid()
      reads this, link
    {
      OpenProtocol(model) == Ok(protocol) &&
      connectedAt + |HandshakeActions| <= |link.trace| &&
      link.trace[connectedAt..connectedAt + |HandshakeActions|] == HandshakeActions
    }

    constructor (model: Model, link: Link, protocol: ProtocolV4, ghost connectedAt: nat)
      requires OpenProtocol(model) == Ok(protocol)
      requires connectedAt + |HandshakeActions| <= |link.trace|
      requires link.trace[connectedAt..connectedAt + |HandshakeActions|] == HandshakeActions
      ensures this.model == model && this.link == link && this.protocol == protocol
      ensures Valid()
    {
      this.model := model;
      this.link := link;
      this.protocol := protocol;
      this.connectedAt := connectedAt;
    }

    /** Appending to the trace keeps the handshake where it was. */
    lemma Extended(before: seq<Action>, added: seq<Action>)
      requires connectedAt + |HandshakeActions| <= |before|
      requires before[connectedAt..connectedAt + |HandshakeActions|] == HandshakeActions
      ensures (before + added)[connectedAt..connectedAt + |HandshakeActions|] == HandshakeActions
    {
      assert (before + added)[connectedAt..connectedAt + |HandshakeActions|] == before[connectedAt..connectedAt + |HandshakeActions|];
    }

    /** Forwards to the bound variant; an out-of-range value sends nothing. */
    method SetBurnTime(burn: int) returns (err: Option<Error>)
      requires Valid()
      modifies link
      ensures Valid()
      ensures protocol.SetBurnTime(burn).Err? ==>
        err == Some(protocol.SetBurnTime(burn).error) && link.trace == old(link.trace)
      ensures protocol.SetBurnTime(burn).Ok? ==>
        err == None && link.trace == old(link.trace) + protocol.SetBurnTime(burn).value
    {
      match protocol.SetBurnTime(burn)
      case Err(e) =>
        err := Some(e);
      case Ok(actions) =>
        Extended(link.trace, actions);
        link.Perform(actions);
        err := None;
    }

    /** Forwards to the bound variant; an out-of-range value sends nothing. */
    method SetLaserPower(power: int) returns (err: Option<Error>)
      requires Valid()
      modifies link
      ensures Valid()
      ensures protocol.SetLaserPower(power).Err? ==>
        err == Some(protocol.SetLaserPower(power).error) && link.trace == old(link.trace)
      ensures protocol.SetLaserPower(power).Ok? ==>
        err == None && link.trace == old(link.trace) + protocol.SetLaserPower(power).value
    {
      match protocol.SetLaserPower(power)
      case Err(e) =>
        err := Some(e);
      case Ok(actions) =>
        Extended(link.trace, actions);
        link.Perform(actions);
        err := None;
    }

    /** Forwards to the bound variant. */
    method Reset()
      requires Valid()
      modifies link
      ensures Valid()
      ensures link.trace == old(link.trace) + protocol.Reset()
    {
      Extended(link.trace, protocol.Reset());
      link.Perform(protocol.Reset());
    }

    /** Forwards to the bound variant; an image larger than its area sends nothing. */
    method Engrave(img: Image, times: int) returns (err: Option<Error>)
      requires Valid()
      modifies link
      ensures Valid()
      ensures protocol.EngraveTrace(img, times).Err? ==>
        err == Some(protocol.EngraveTrace(img, times).error) && link.trace == old(link.trace)
      ensures protocol.EngraveTrace(img, times).Ok? ==>
        err == None && link.trace == old(link.trace) + protocol.EngraveTrace(img, times).value
    {
      ghost var before := link.trace;
      err := protocol.Engrave(link, img, times);
      if err == None {
        Extended(before, protocol.EngraveTrace(img, times).value);
      }
    }
  }

  /** Connects over an opened link: waits for the listener, sends the
      handshake, waits for the recognised model, binds its variant, and
      drains trailing frames. `recognised` is the model the awaited event
      carries. An unsupported model fails with the link left open. */
  method Connect(link: Link, recognised: Model) returns (r: Result<Graver>)
    modifies link
    ensures r.Ok? <==> OpenProtocol(recognised).Ok?
    ensures r.Err? ==> r.error == UnsupportedModel(recognised)
    ensures r.Err? ==> link.trace == old(link.trace) + HandshakeActions
    ensures r.Ok? ==> link.trace == old(link.trace) + HandshakeActions + [Delay(DrainDelay)]
    ensures r.Ok? ==> fresh(r.value) && r.value.Valid()
    ensures r.Ok? ==> r.value.model == recognised && r.value.link == link
    ensures r.Ok? ==> r.value.protocol == OpenProtocol(recognised).value
  {
    ghost var start := link.trace;
    link.Sleep(SettleDelay);
    link.Send(HandshakeFrame);
    link.Await(ModelRecognizedKind);
    assert link.trace == start + HandshakeActions;
    match OpenProtocol(recognised)
    case Err(e) =>
      r := Err(e);
    case Ok(p) =>
      link.Sleep(DrainDelay);
      assert link.trace[|start|..|start| + |HandshakeActions|] == HandshakeActions;
      var graver := new Graver(recognised, link, p, |start|);
      r := Ok(graver);
  }
}
