/** Round-trip time estimation (src/qofrtt.c). */
module RoundTrip {
  import opened SeqCells
  import opened StreamStat

  /** Observations are kept in 30 bits. */
  const OBS := 0x4000_0000

  class Dir {
    /** The number and time waited for, what is waited for, and the last delay observed. */
    var tsack: u32
    var lms: u32
    var ackwait: bool
    var ecrwait: bool
    var obs: nat

    ghost predicate Valid()
      reads this
    {
      !(ackwait && ecrwait) && obs < OBS
    }

    constructor ()
      ensures Valid() && !ackwait && !ecrwait && obs == 0
    {
      tsack, lms, ackwait, ecrwait, obs := 0, 0, false, false, 0;
    }

    predicate Idle()
      reads this
    {
      !ackwait && !ecrwait
    }

    /** Milliseconds since the wait began, modulo 2^32. */
    function Elapsed(ms: u32): u32
      reads this
    {
      Sub32(ms, lms)
    }

    predicate GotAck(ack: u32, isAck: bool)
      reads this
    {
      ackwait && isAck && WrapCompare(ack, tsack) >= 0
    }

    predicate GotEcr(tsecr: u32)
      reads this
    {
      ecrwait && WrapCompare(tsecr, tsack) >= 0
    }

    /** The time since the wait began is exact as long as it is below 2^32 ms. */
    lemma ElapsedIsTime(start: int, now: int)
      requires lms == Wrap(start)
      ensures Elapsed(Wrap(now)) == now - start <==> 0 <= now - start < 0x1_0000_0000
    {
    }

    /** Within half the number space, an acknowledgement ends a wait for one exactly when it covers
        the number waited for. */
    lemma AckCovers(waited: int, ack: int, isAck: bool)
      requires tsack == Wrap(waited) && -0x8000_0000 < ack - waited < 0x8000_0000
      ensures GotAck(Wrap(ack), isAck) <==> ackwait && isAck && ack >= waited
    {
      WrapIsOrder(ack, waited);
    }

    /** Likewise an echo ends a wait for one exactly when it is of the timestamp waited for or of a
        later one. */
    lemma EchoCovers(waited: int, echoed: int)
      requires tsack == Wrap(waited) && -0x8000_0000 < echoed - waited < 0x8000_0000
      ensures GotEcr(Wrap(echoed)) <==> ecrwait && echoed >= waited
    {
      WrapIsOrder(echoed, waited);
    }

    method SetAckWait(seqno: u32, ms: u32)
      requires Valid()
      modifies this
      ensures Valid() && ackwait && tsack == seqno && lms == ms && obs == old(obs)
    {
      ackwait, ecrwait, lms, tsack := true, false, ms, seqno;
    }

    method SetEcrWait(tsval: u32, ms: u32)
      requires Valid()
      modifies this
      ensures Valid() && ecrwait && tsack == tsval && lms == ms && obs == old(obs)
    {
      ackwait, ecrwait, lms, tsack := false, true, ms, tsval;
    }
  }

  class Rtt {
    const fwd: Dir
    const rev: Dir
    const val: LinSmooth

    /** No direction waits for an acknowledgement and an echoed timestamp at once; every sample
        is positive and fits the smoothing's argument. */
    ghost predicate Valid()
      reads this, fwd, rev, val
    {
      && fwd != rev && fwd.Valid() && rev.Valid() && val.Valid() && val.alpha in {0, 8}
      && forall i :: 0 <= i < |val.samples| ==> 0 < val.samples[i] < 2 * OBS
    }

    constructor ()
      ensures Valid() && fresh(fwd) && fresh(rev) && fresh(val)
      ensures val.samples == []
    {
      fwd := new Dir();
      rev := new Dir();
      val := new LinSmooth(0);
    }

    /** qfRttSample: a round trip is one delay in each direction. */
    method Sample() returns (sampled: bool)
      requires Valid()
      modifies val
      ensures Valid() && sampled == (fwd.obs > 0 && rev.obs > 0)
      ensures val.samples == old(val.samples) + if sampled then [fwd.obs + rev.obs] else []
    {
      hide Limits, Trimmed, Val;
      if fwd.obs != 0 && rev.obs != 0 {
        val.Add(fwd.obs + rev.obs);
        return true;
      }
      return false;
    }

    /** qfRttSegment. Waiting alternates: what the segment answers stops a wait on its own side
        and starts one on the other; a side that waits is not disturbed otherwise. */
    method Segment(seqno: u32, ack: u32, tsval: u32, tsecr: u32, ms: u32, isAck: bool, reverse: bool)
      requires Valid()
      modifies fwd, rev, val
      ensures Valid()
      ensures
        var f, r := if reverse then rev else fwd, if reverse then fwd else rev;
        r.obs == old(r.obs) &&
        if old(f.GotAck(ack, isAck)) then
          && f.Idle() && f.obs == old(f.Elapsed(ms)) % 0x4000_0000
          && (tsval != 0 ==> r.ecrwait && r.tsack == tsval && r.lms == ms)
          && (tsval == 0 ==> r.ackwait == old(r.ackwait) && r.ecrwait == old(r.ecrwait))
        else if old(f.GotEcr(tsecr)) then
          && f.Idle() && r.ackwait && r.tsack == seqno && r.lms == ms
          && f.obs == if old(f.Elapsed(ms)) > old(f.obs) then old(f.Elapsed(ms)) % 0x4000_0000 else old(f.obs)
        else
          && f.obs == old(f.obs) && f.ackwait == old(f.ackwait) && f.ecrwait == old(f.ecrwait)
          && (if old(r.Idle()) then r.ackwait && r.tsack == seqno && r.lms == ms
              else r.ackwait == old(r.ackwait) && r.ecrwait == old(r.ecrwait) && r.tsack == old(r.tsack) && r.lms == old(r.lms))
      ensures
        var f, r := if reverse then rev else fwd, if reverse then fwd else rev;
        var observed := old(f.GotAck(ack, isAck)) || (old(f.GotEcr(tsecr)) && old(f.Elapsed(ms)) > old(f.obs));
        val.samples == old(val.samples) + if observed && f.obs > 0 && r.obs > 0 then [f.obs + r.obs] else []
    {
      hide LinSmooth.Valid, WrapCompare, Sub32;
      var f, r := if reverse then rev else fwd, if reverse then fwd else rev;
      if f.GotAck(ack, isAck) {
        f.obs := f.Elapsed(ms) % OBS;
        var sampled := Sample();
        f.ackwait := false;
        if tsval != 0 { r.SetEcrWait(tsval, ms); }
      } else if f.GotEcr(tsecr) {
        if f.Elapsed(ms) > f.obs {
          f.obs := f.Elapsed(ms) % OBS;
          var sampled := Sample();
        }
        f.ecrwait := false;
        r.SetAckWait(seqno, ms);
      } else if !r.ackwait && !r.ecrwait {
        r.SetAckWait(seqno, ms);
      }
    }

    /** While no update overflows 32 bits, the smoothed round-trip time lies between the least and
        the greatest sample. */
    lemma SmoothedBetweenSamples()
      requires Valid() && val.samples != [] && AllFit(8, val.samples)
      ensures Least(val.samples) <= val.val <= Greatest(val.samples)
    {
      val.ValBetweenSamples();
    }

    /** Round-trip times below 2^28 ms, about three days, never overflow. */
    lemma SmoothingFitsInt()
      requires Valid() && forall i :: 0 <= i < |val.samples| ==> val.samples[i] < 0x1000_0000
      ensures AllFit(8, val.samples)
    {
      BoundedRunFits(8, val.samples, 0xFFF_FFFF);
    }
  }
}
