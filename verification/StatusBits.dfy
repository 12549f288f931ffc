/** What the four choke and interest bits of a peer say, after any run of the tables' methods. */
module StatusBits {
  import opened StableSort
  import opened NeedPiece
  import opened PeerTables
  import opened SwarmRuns

  datatype Bit = WeChoke | WeWant | PeerChokes | PeerWants

  function BitOf(st: PeerStatus, b: Bit): bool {
    match b
    case WeChoke => st.amChoke
    case WeWant => st.amInterested
    case PeerChokes => st.peerChoke
    case PeerWants => st.peerInterested
  }

  datatype Said = Nothing | Says(value: bool)

  /** What a status method says about a bit: each bit has the two methods of its name. */
  function ChangeSays(c: Change, b: Bit): Said {
    match b
    case WeChoke => if c == AmChoke then Says(true) else if c == AmUnChoke then Says(false) else Nothing
    case WeWant => if c == AmInterested then Says(true) else if c == AmUnInterested then Says(false) else Nothing
    case PeerChokes => if c == PrChoke then Says(true) else if c == PrUnChoke then Says(false) else Nothing
    case PeerWants => if c == PrInterested then Says(true) else if c == PrUnInterested then Says(false) else Nothing
  }

  /** A new peer is choked both ways, and nobody is interested; a message about a piece we lack makes
      us interested. */
  function StepSays(step: Step, s: int, b: Bit): Said {
    match step
    case AddStep(socket) => if socket == s then Says(b in {WeChoke, PeerChokes}) else Nothing
    case ChangeStep(socket, c, _, _) => if socket == s then ChangeSays(c, b) else Nothing
    case NeedStep(socket, _) => if socket == s && b == WeWant then Says(true) else Nothing
    case _ => Nothing
  }

  /** What was said last about a bit of the peer. */
  function LastSaid(steps: seq<Step>, s: int, b: Bit): bool {
    if |steps| == 0 then false
    else match StepSays(steps[|steps| - 1], s, b)
      case Says(value) => value
      case Nothing => LastSaid(steps[..|steps| - 1], s, b)
  }

  lemma ApplySays(st: PeerStatus, c: Change, b: Bit)
    ensures BitOf(Apply(st, c), b) == match ChangeSays(c, b) case Says(value) => value case Nothing => BitOf(st, b)
  {
  }

  /** One call changes the bits it speaks of, and no others. */
  lemma StepBits(w: Swarm, step: Step, s: int, b: Bit)
    requires Legal(w, step) && s in Next(w, step).peers
    ensures BitOf(Next(w, step).peers[s].status, b) ==
            match StepSays(step, s, b) case Says(value) => value
                                       case Nothing => s in w.peers && BitOf(w.peers[s].status, b)
    ensures !step.AddStep? ==> s in w.peers
  {
    match step
    case ChangeStep(socket, c, gameEnd, now) => ChangeBits(w, socket, c, gameEnd, now, s, b);
    case NeedStep(socket, indices) => ChangeBits(w, socket, AmInterested, false, 0, s, b);
    case RequestStep(gameEnd, now) =>
      ReqPiecesKeep(w.peers, Pop(w.needs, gameEnd, now).sockets, now);
    case _ =>
      hide DropSpeed, SetW, UnLock, Clear, Resorted;
  }

  lemma ChangeBits(w: Swarm, socket: int, c: Change, gameEnd: bool, now: int, s: int, b: Bit)
    requires s in SetPeer(w, socket, c, gameEnd, now).peers
    ensures s in w.peers
    ensures BitOf(SetPeer(w, socket, c, gameEnd, now).peers[s].status, b) ==
            match if socket == s then ChangeSays(c, b) else Nothing
            case Says(value) => value
            case Nothing => BitOf(w.peers[s].status, b)
  {
    hide SetSpeed, Pop;
    if socket in w.peers {
      var p := w.peers[socket];
      ApplySays(p.status, c, b);
      var w1 := w.(peers := w.peers[socket := p.(status := Apply(p.status, c))],
                   needs := w.needs.(ids := SetId(w.needs.ids, p.id, c)));
      ReqPiecesKeep(w1.peers, Pop(w1.needs, gameEnd, now).sockets, now);
      hide Apply, SetId, ReqPieces;
    }
  }

  lemma {:induction false} PeerBits(steps: seq<Step>, s: int, b: Bit)
    requires LegalRun(steps) && s in Run(EMPTY, steps).peers
    ensures BitOf(Run(EMPTY, steps).peers[s].status, b) == LastSaid(steps, s, b)
    decreases |steps|
  {
    if |steps| == 0 {
    } else {
      var n := |steps| - 1;
      LegalPrefix(steps);
      assert Legal(Run(EMPTY, steps[..n]), steps[n]);
      hide Legal, Next, BitOf, StepSays;
      StepBits(Run(EMPTY, steps[..n]), steps[n], s, b);
      if s in Run(EMPTY, steps[..n]).peers {
        PeerBits(steps[..n], s, b);
      }
    }
  }

  lemma SameFour(x: PeerStatus, y: PeerStatus, b: Bit)
    requires Four(x) == Four(y)
    ensures BitOf(x, b) == BitOf(y, b)
  {
  }

  /** After every legal run, each of the four bits of an open peer is in all three tables what the
      last call about it has said since the peer was added. */
  lemma EveryRunBits(steps: seq<Step>, s: int, b: Bit)
    requires LegalRun(steps) && s in Run(EMPTY, steps).peers
    ensures var w, bit := Run(EMPTY, steps), LastSaid(steps, s, b);
            && BitOf(w.peers[s].status, b) == bit
            && w.peers[s].id in w.needs.ids && BitOf(w.needs.ids[w.peers[s].id], b) == bit
            && (exists x :: x in w.speeds && x.socket == s)
            && (forall x :: x in w.speeds && x.socket == s ==> BitOf(x.status, b) == bit)
  {
    PeerBits(steps, s, b);
    EveryRunKeeps(steps);
    hide Run, LastSaid, QueueSafe, LegalRun, BitOf, Four;
    var w := Run(EMPTY, steps);
    SameFour(w.needs.ids[w.peers[s].id], w.peers[s].status, b);
    forall x | x in w.speeds && x.socket == s
      ensures BitOf(x.status, b) == BitOf(w.peers[s].status, b)
    {
      SameFour(x.status, w.peers[s].status, b);
    }
  }

  /** A peer that has choked us last is not asked for a piece. */
  lemma ChokingIsNotAsked(steps: seq<Step>, gameEnd: bool, now: int, s: int)
    requires LegalRun(steps) && LastSaid(steps, s, PeerChokes)
    ensures s !in Pop(Run(EMPTY, steps).needs, gameEnd, now).sockets
  {
    hide Run, LastSaid, LegalRun, Pop;
    if s in Pop(Run(EMPTY, steps).needs, gameEnd, now).sockets {
      PoppedSocketsAreLive(steps, gameEnd, now, s);
      PeerBits(steps, s, PeerChokes);
    }
  }
}
