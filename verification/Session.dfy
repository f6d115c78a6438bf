/** The session object: sequence counters, keys and termination updated in place, as `SessionSpec.dfy` says. */
module Session {
  import opened Bytes
  import opened Types
  import opened SessionSpec

  class Session {
    const ctx: SessionContext
    const aead: Aead
    var keys: Option<SessionKeys>
    var sendSeq: PerDirection<u64>
    var recvLast: PerDirection<Option<u64>>
    var terminated: Option<Termination>

    ghost predicate Valid()
      reads this
    {
      Value().Valid()
    }

    function Value(): SessionState
      reads this
    {
      SessionState(ctx, keys, sendSeq, recvLast, terminated)
    }

    constructor (aead: Aead, segment: Bytes64, ctx: SessionContext)
      ensures Valid() && Value() == NewSession(segment, ctx) && this.aead == aead && this.ctx == ctx
    {
      this.aead, this.ctx := aead, ctx;
      keys, sendSeq, recvLast := Some(SplitKeys(segment)), PerDirection(0, 0), PerDirection(None, None);
      terminated := None;
    }

    method Terminate(reason: Termination)
      modifies this
      ensures Value() == old(Value()).Terminate(reason)
    {
      keys := None;
      terminated := Some(reason);
    }

    method EnsureActive() returns (error: Option<SessionError>)
      ensures error == if terminated.None? then None else Some(Value().InactiveError())
    {
      error := if terminated.None? then None
               else if terminated == Some(OnOverflow) then Some(SequenceOverflow) else Some(SessionError.Closed);
    }

    method Seal(mt: MessageType, plaintext: seq<byte>) returns (r: Result<Record, SessionError>)
      requires Valid()
      modifies this
      ensures Valid() && (Value(), r) == SessionSpec.Seal(aead, old(Value()), mt, plaintext)
    {
      var inactive := EnsureActive();
      if inactive.Some? {
        return Err(inactive.value);
      }
      var d := ctx.role.SendDirection();
      if !PairingValid(mt, d) {
        Terminate(OnMisuse);
        return Err(WrongDirection);
      }
      var n := sendSeq.Get(d);
      if !Disciplined(mt, n) {
        Terminate(OnSequence);
        return Err(SequenceUnexpected);
      }
      if |plaintext| > aead.longest {
        Terminate(OnAuthentication);
        return Err(AuthenticationFailed);
      }
      var sealed := aead.seal(keys.value.For(d), RecordNonce(ctx, d, n), BuildAad(ctx, mt, d, 0, n), plaintext);
      if n == U64_MAX {
        Terminate(OnOverflow);
      } else {
        sendSeq := sendSeq.Set(d, n + 1);
      }
      r := Ok(Record(n, sealed));
    }

    method Open(mt: MessageType, seqNo: u64, sealed: seq<byte>) returns (r: Result<seq<byte>, SessionError>)
      requires Valid()
      modifies this
      ensures Valid() && (Value(), r) == SessionSpec.Open(aead, old(Value()), mt, seqNo, sealed)
    {
      var inactive := EnsureActive();
      if inactive.Some? {
        return Err(inactive.value);
      }
      var d := ctx.role.SendDirection().Opposite();
      if !PairingValid(mt, d) {
        Terminate(OnMisuse);
        return Err(WrongDirection);
      }
      if !Disciplined(mt, seqNo) {
        Terminate(OnSequence);
        return Err(SequenceUnexpected);
      }
      var last := recvLast.Get(d);
      if last == Some(seqNo) {
        Terminate(OnSequence);
        return Err(SequenceReplay);
      }
      if Expected(last) != Some(seqNo) {
        Terminate(OnSequence);
        return Err(SequenceUnexpected);
      }
      if |sealed| < TAG_LEN {
        Terminate(OnAuthentication);
        return Err(AuthenticationFailed);
      }
      var plaintext := aead.open(keys.value.For(d), RecordNonce(ctx, d, seqNo), BuildAad(ctx, mt, d, 0, seqNo), sealed);
      if plaintext.None? {
        Terminate(OnAuthentication);
        return Err(AuthenticationFailed);
      }
      recvLast := recvLast.Set(d, Some(seqNo));
      r := Ok(plaintext.value);
    }

    method CloseNormally()
      requires Valid()
      modifies this
      ensures Valid() && Value() == CloseSession(old(Value()))
    {
      if terminated.None? {
        Terminate(OnClose);
      }
    }
  }
}
