/** Event masks of epoll and of the AFD driver. A 32-bit mask is the set of its flags; `Bit` is a bit
    without a name. */
module EventMasks {

  datatype Epoll =
    | In | Pri | Out | Err | Hup | RdNorm | RdBand | WrNorm | WrBand | Msg | RdHup | OneShot | Bit(n: nat)

  datatype Afd =
    | Receive | ReceiveExpedited | Send | Disconnect | Abort | LocalClose | Accept | ConnectFail | AfdBit(n: nat)

  type Mask = set<Epoll>
  type AfdMask = set<Afd>

  const KNOWN: Mask := {In, Pri, Out, Err, Hup, RdNorm, RdBand, WrNorm, WrBand, Msg, RdHup}

  function When<T>(c: bool, s: set<T>): set<T> { if c then s else {} }

  function EpollToAfd(e: Mask): AfdMask {
    {LocalClose} +
    When(In in e || RdNorm in e, {Receive, Accept}) +
    When(Pri in e || RdBand in e, {ReceiveExpedited}) +
    When(Out in e || WrNorm in e || WrBand in e, {Send}) +
    When(In in e || RdNorm in e || RdHup in e, {Disconnect}) +
    When(Hup in e, {Abort}) +
    When(Err in e, {ConnectFail})
  }

  function AfdToEpoll(a: AfdMask): Mask {
    When(Receive in a || Accept in a, {In, RdNorm}) +
    When(ReceiveExpedited in a, {Pri, RdBand}) +
    When(Send in a, {Out, WrNorm, WrBand}) +
    When(Disconnect in a, {In, RdNorm, RdHup}) +
    When(Abort in a, {Hup}) +
    When(ConnectFail in a, {In, Out, Err, RdNorm, WrNorm, RdHup})
  }

  /** Which events of the driver mean an event of epoll, flag by flag. */
  predicate Means(x: Epoll, a: AfdMask) {
    match x
    case In | RdNorm => Receive in a || Accept in a || Disconnect in a || ConnectFail in a
    case Pri | RdBand => ReceiveExpedited in a
    case Out | WrNorm => Send in a || ConnectFail in a
    case WrBand => Send in a
    case RdHup => Disconnect in a || ConnectFail in a
    case Hup => Abort in a
    case Err => ConnectFail in a
    case Msg | OneShot | Bit(_) => false
  }

  /** Which events of epoll make the driver watch for an event of its own. */
  predicate AskedFor(y: Afd, e: Mask) {
    match y
    case LocalClose => true
    case Receive | Accept => In in e || RdNorm in e
    case ReceiveExpedited => Pri in e || RdBand in e
    case Send => Out in e || WrNorm in e || WrBand in e
    case Disconnect => In in e || RdNorm in e || RdHup in e
    case Abort => Hup in e
    case ConnectFail => Err in e
    case AfdBit(_) => false
  }

  lemma Reported(x: Epoll, a: AfdMask)
    ensures x in AfdToEpoll(a) <==> Means(x, a)
  {
  }

  lemma Asked(y: Afd, e: Mask)
    ensures y in EpollToAfd(e) <==> AskedFor(y, e)
  {
  }

  /** A request watches for everything that was asked for and can be reported: when the driver reports
      all it was asked for, every known event comes back, but for EPOLLMSG, which never does. */
  lemma AskedComesBack(e: Mask, x: Epoll)
    requires x in e
    ensures x in AfdToEpoll(EpollToAfd(e)) <==> x in KNOWN && x != Msg
  {
    match x
    case In | RdNorm => assert Receive in EpollToAfd(e);
    case Pri | RdBand => assert ReceiveExpedited in EpollToAfd(e);
    case Out | WrNorm | WrBand => assert Send in EpollToAfd(e);
    case RdHup => assert Disconnect in EpollToAfd(e);
    case Hup => assert Abort in EpollToAfd(e);
    case Err => assert ConnectFail in EpollToAfd(e);
    case Msg | OneShot | Bit(_) =>
  }
}
