/** What a failed handshake machine can still do, and the one way its keys outlive the failure. */
module HandshakeFailure {
  import opened Bytes
  import opened Message
  import opened SessionSpec
  import opened HandshakeSpec
  import opened HandshakeRun
  import opened HandshakeWorld

  /** In a terminal phase other than success. */
  predicate Failed(p: Party) {
    match p
    case TheClient(c) => c.phase == ClientFailed || c.phase == AheadRecovery
    case TheServer(s) => s.phase == ServerFailed || s.phase == AheadPending
  }

  predicate HoldsKeys(p: Party) {
    match p
    case TheClient(c) => c.session.Some?
    case TheServer(s) => s.session.Some?
  }

  /** Sessions are held while a confirm is awaited; a client can also hold one after failing. */
  predicate Kept(p: Party) {
    match p
    case TheClient(c) => (c.phase == ConfirmSent ==> c.session.Some?) &&
                         (c.session.Some? ==> c.phase == ConfirmSent || c.phase == ClientFailed)
    case TheServer(s) => s.session.Some? ==> s.phase == ConfirmWait
  }

  predicate New(p: Party) {
    match p
    case TheClient(c) => c == NewClient(c.cfg)
    case TheServer(s) => s == NewServer(s.cfg)
  }

  /** The input is for the other role, and ignored. */
  predicate Foreign(p: Party, input: Input) {
    if p.TheClient? then input.FeedHello? || input.FeedIssue? || input.FeedConfirm?
    else input.StartClient? || input.FeedClient?
  }

  /** A client whose confirm is out is asked to start again. */
  predicate StartsAgain(p: Party, input: Input) {
    p.TheClient? && p.client.phase == ConfirmSent && input.StartClient?
  }

  /** Neither closes the session a failed client holds. */
  predicate KeepsKeys(p: Party, input: Input) {
    Foreign(p, input) || (p.TheClient? && input.StartClient?)
  }

  /** A failed machine stays failed, sends nothing and establishes nothing, whatever it is fed. */
  lemma FailedStaysFailed(aead: Aead, p: Party, input: Input)
    requires p.Valid() && Failed(p)
    ensures var (p', step) := React(aead, p, input);
            Failed(p') && (step.StepFailed? || (Foreign(p, input) && step == AwaitPeer && p' == p))
  {
    hide SealConfirm, AcceptConfirm, IssueAndConfirm;
  }

  /** One step: what is kept, and when keys are held by a machine that has failed. */
  lemma StepKeeps(aead: Aead, p: Party, input: Input)
    requires p.Valid() && Kept(p)
    ensures var p' := React(aead, p, input).0;
            && p'.Valid() && Kept(p') && p'.TheClient? == p.TheClient?
            && (Failed(p') && HoldsKeys(p') <==>
                  StartsAgain(p, input) || (Failed(p) && HoldsKeys(p) && KeepsKeys(p, input)))
  {
    hide SealConfirm, AcceptConfirm, IssueAndConfirm;
    SettledStays(aead, p, input);
    if p.TheClient? && input.FeedClient? && p.client.phase == HelloSent && input.message.Arbitrate? {
      var c, m := p.client, input.message;
      var agreed := c.(serverNonce := Some(m.serverNonce), agreed := Some(m.serverPointer));
      IssuingHoldsSession(aead, agreed, input.answers);
      IssuingHoldsSession(aead, agreed.(wastedGap := Some((c.cfg.localPointer, m.serverPointer))), input.answers);
    }
  }

  lemma IssuingHoldsSession(aead: Aead, c: ClientState, answers: Answers)
    requires c.session.None? && c.agreed.Some?
    ensures var c' := IssueAndConfirm(aead, c, answers).0;
            (c'.phase == ConfirmSent && c'.session.Some?) || (c'.phase == ClientFailed && c'.session.None?)
  {
    hide SealConfirm, IssuedInRow;
  }

  /** Where a machine stands after a sequence of inputs. */
  function Fed(aead: Aead, p: Party, inputs: seq<Input>): (p': Party)
    requires p.Valid()
    ensures p'.Valid()
    decreases |inputs|
  {
    if |inputs| == 0 then p
    else
      var before := Fed(aead, p, inputs[..|inputs| - 1]);
      SettledStays(aead, before, inputs[|inputs| - 1]);
      React(aead, before, inputs[|inputs| - 1]).0
  }

  lemma {:induction false} FedKeeps(aead: Aead, p: Party, inputs: seq<Input>)
    requires p.Valid() && New(p)
    ensures Kept(Fed(aead, p, inputs)) && Fed(aead, p, inputs).TheClient? == p.TheClient?
    decreases |inputs|
  {
    hide React, Kept;
    if |inputs| > 0 {
      FedKeeps(aead, p, inputs[..|inputs| - 1]);
      StepKeeps(aead, Fed(aead, p, inputs[..|inputs| - 1]), inputs[|inputs| - 1]);
    } else {
      NewIsKept(p);
    }
  }

  lemma NewIsKept(p: Party)
    requires New(p)
    ensures Kept(p) && !HoldsKeys(p)
  {
  }

  /** Input `k` asked a client whose confirm was out to start again, and nothing since has touched its session. */
  ghost predicate SurvivesFrom(aead: Aead, p: Party, inputs: seq<Input>, k: nat)
    requires p.Valid()
  {
    k < |inputs| && StartsAgain(Fed(aead, p, inputs[..k]), inputs[k])
    && forall m :: k < m < |inputs| ==> KeepsKeys(p, inputs[m])
  }

  /**
   * Over every run of a new machine: it has failed and still holds keys exactly when it is a client that was asked to
   * start again after its confirm went out, and has since been fed nothing but further starts. Any other failure, and
   * any other input after this one, leaves no keys.
   */
  lemma {:induction false} KeysOutliveFailureIff(aead: Aead, p: Party, inputs: seq<Input>)
    requires p.Valid() && New(p)
    ensures Failed(Fed(aead, p, inputs)) && HoldsKeys(Fed(aead, p, inputs)) <==>
            exists k: nat :: SurvivesFrom(aead, p, inputs, k)
    decreases |inputs|
  {
    hide React, Failed, HoldsKeys, Kept, StartsAgain;
    if |inputs| == 0 {
      NewIsKept(p);
    } else {
      var front, last := inputs[..|inputs| - 1], inputs[|inputs| - 1];
      var before := Fed(aead, p, front);
      KeysOutliveFailureIff(aead, p, front);
      FedKeeps(aead, p, front);
      StepKeeps(aead, before, last);
      if StartsAgain(before, last) {
        assert SurvivesFrom(aead, p, inputs, |inputs| - 1);
      }
      if KeepsKeys(p, last) {
        forall k: nat | SurvivesFrom(aead, p, front, k)
          ensures SurvivesFrom(aead, p, inputs, k)
        {
          assert front[..k] == inputs[..k];
        }
      }
      forall k: nat | SurvivesFrom(aead, p, inputs, k)
        ensures StartsAgain(before, last) || (KeepsKeys(p, last) && SurvivesFrom(aead, p, front, k))
      {
        if k < |front| {
          assert front[..k] == inputs[..k];
        } else {
          assert inputs[..k] == front;
        }
      }
    }
  }

  /** Such a run: hello, an acceptable arbitration, and a second start. The client has failed and holds its keys. */
  lemma KeysCanOutliveFailure(aead: Aead, c: Side, s: Side, cn: Bytes16, sn: Bytes16)
    requires c.Valid() && s.Valid() && c.bookId == s.bookId && c.book == s.book && c.pointer == s.pointer < |s.book|
    ensures var arbitrate := Arbitrate(sn, s.pointer, ResultOk);
            var answers := c.Draw(ClientAsks(ClientAfterHello(c, cn), arbitrate)).1;
            var end := Fed(aead, TheClient(NewClient(c.Cfg())),
                           [StartClient(Some(cn)), FeedClient(arbitrate, answers), StartClient(None)]);
            Failed(end) && HoldsKeys(end)
  {
    hide React, Failed, HoldsKeys, Kept;
    var p := TheClient(NewClient(c.Cfg()));
    var arbitrate := Arbitrate(sn, s.pointer, ResultOk);
    var answers := c.Draw(ClientAsks(ClientAfterHello(c, cn), arbitrate)).1;
    var inputs := [StartClient(Some(cn)), FeedClient(arbitrate, answers), StartClient(None)];
    ClientIssues(aead, c, s, cn, sn, ResultOk);
    Reactions(aead, c, cn, arbitrate, answers);
    FedTwice(aead, p, inputs[0], inputs[1]);
    assert inputs[..2] == [inputs[0], inputs[1]];
    assert SurvivesFrom(aead, p, inputs, 2);
    KeysOutliveFailureIff(aead, p, inputs);
  }

  lemma Reactions(aead: Aead, c: Side, cn: Bytes16, m: Message, answers: Answers)
    requires c.Valid()
    ensures React(aead, TheClient(NewClient(c.Cfg())), StartClient(Some(cn))).0 == TheClient(ClientAfterHello(c, cn))
    ensures React(aead, TheClient(ClientAfterHello(c, cn)), FeedClient(m, answers)).0
            == TheClient(ClientHandle(aead, ClientAfterHello(c, cn), m, answers).0)
  {
    hide ClientHandle;
  }

  lemma FedTwice(aead: Aead, p: Party, x: Input, y: Input)
    requires p.Valid() && React(aead, p, x).0.Valid()
    ensures Fed(aead, p, [x, y]) == React(aead, React(aead, p, x).0, y).0
  {
    hide React;
    assert [x, y][..1] == [x] && [x][..0] == [];
    assert Fed(aead, p, [x]) == React(aead, Fed(aead, p, []), x).0;
  }
}
