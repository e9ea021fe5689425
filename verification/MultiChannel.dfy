/** Frames handed out to several data channels in turn. Calls are taken in the order of the lock. */
module MultiChannel {
  import opened Prelude

  type Frame = seq<byte>

  /** A data channel. Any call may fail: `answers` says which do. */
  class DataChannel {
    var offered: seq<Frame>
    const answers: nat -> bool

    constructor (answers: nat -> bool)
      ensures offered == [] && this.answers == answers
    {
      offered, this.answers := [], answers;
    }

    method Send(frame: Frame) returns (ok: bool)
      modifies this
      ensures offered == old(offered) + [frame] && ok == answers(|old(offered)|)
    {
      ok := answers(|offered|);
      offered := offered + [frame];
    }
  }

  /** The frames that are not dropped for their size. */
  function Fitting(calls: seq<Frame>, max: nat): seq<Frame> {
    if calls == [] then []
    else
      var last := calls[|calls| - 1];
      Fitting(calls[..|calls| - 1], max) + (if |last| <= max then [last] else [])
  }

  /** The frames at positions i, i + k, i + 2k, ... */
  function Share(frames: seq<Frame>, i: nat, k: nat): seq<Frame>
    requires k > 0
  {
    if frames == [] then []
    else
      var n := |frames| - 1;
      Share(frames[..n], i, k) + (if n % k == i then [frames[n]] else [])
  }

  /** The frames that fall to a channel, wherever it stands in the list. */
  function OfferedTo(frames: seq<Frame>, channels: seq<DataChannel>, c: DataChannel): seq<Frame>
    requires channels != []
  {
    if frames == [] then []
    else
      var n := |frames| - 1;
      OfferedTo(frames[..n], channels, c) + (if channels[n % |channels|] == c then [frames[n]] else [])
  }

  lemma OfferedSnoc(frames: seq<Frame>, f: Frame, channels: seq<DataChannel>)
    requires channels != []
    ensures forall c: DataChannel ::
              OfferedTo(frames + [f], channels, c)
              == OfferedTo(frames, channels, c) + (if channels[|frames| % |channels|] == c then [f] else [])
  {
    assert (frames + [f])[..|frames|] == frames;
  }

  /** A channel that stands in the list once is offered the share of its place. */
  lemma {:induction false} OfferedIsShare(frames: seq<Frame>, channels: seq<DataChannel>, i: nat)
    requires i < |channels| && forall j :: 0 <= j < |channels| && j != i ==> channels[j] != channels[i]
    ensures OfferedTo(frames, channels, channels[i]) == Share(frames, i, |channels|)
  {
    if frames != [] {
      OfferedIsShare(frames[..|frames| - 1], channels, i);
    }
  }

  class SimpleMultiChannelSender {
    const channels: seq<DataChannel>
    var currentChannel: nat
    const maxPayloadSize: nat
    /** All frames that were passed to the sender, and those of them that were not dropped. */
    ghost var calls: seq<Frame>
    ghost var accepted: seq<Frame>
    /** What each channel was offered before. */
    ghost const before: map<DataChannel, seq<Frame>>

    /** Each channel was offered what falls to it of the accepted frames, and the index is that of the
        next. */
    ghost predicate Valid()
      reads this, channels
    {
      accepted == Fitting(calls, maxPayloadSize) && Routed()
    }

    ghost predicate Routed()
      reads this, channels
    {
      if channels == [] then currentChannel == 0
      else currentChannel == |accepted| % |channels| && forall c <- channels :: Shared(c)
    }

    ghost predicate Shared(c: DataChannel)
      requires channels != []
      reads this, c
    {
      c in before && c.offered == before[c] + OfferedTo(accepted, channels, c)
    }

    constructor (channels: seq<DataChannel>, maxPayloadSize: nat)
      ensures Valid() && calls == [] && this.channels == channels && this.maxPayloadSize == maxPayloadSize
      ensures forall c <- channels :: c in before && before[c] == c.offered
    {
      this.channels, this.maxPayloadSize := channels, maxPayloadSize;
      currentChannel, calls, accepted := 0, [], [];
      before := map c | c in channels :: c.offered;
    }

    /** What is done under the lock. */
    method NextChannel() returns (channel: nat)
      requires channels != []
      modifies this`currentChannel
      ensures channel == old(currentChannel) && currentChannel == (channel + 1) % |channels|
    {
      channel := currentChannel;
      currentChannel := (currentChannel + 1) % |channels|;
    }

    /** A failing channel keeps its turn: the index moves on whenever a frame fits, and never otherwise. */
    method SendFrame(frame: Frame) returns (r: Result<()>)
      requires Valid()
      modifies this, channels
      ensures Valid() && calls == old(calls) + [frame]
      ensures channels == [] ==> r.Ok? == (|frame| > maxPayloadSize)
      ensures channels != [] && |frame| <= maxPayloadSize ==>
                var c := channels[|old(accepted)| % |channels|];
                r.Ok? == c.answers(|old(c.offered)|)
      ensures channels != [] && |frame| > maxPayloadSize ==> r.Ok?
    {
      calls := calls + [frame];
      assert calls[..|calls| - 1] == old(calls);
      if |frame| > maxPayloadSize {
        return Ok(());
      }
      if channels == [] {
        accepted := accepted + [frame];
        return Err("No channels available");
      }
      var ok := Offer(frame);
      return if ok then Ok(()) else Err("send failed");
    }

    method Offer(frame: Frame) returns (ok: bool)
      requires Routed() && channels != []
      modifies this`currentChannel, this`accepted, channels
      ensures Routed() && accepted == old(accepted) + [frame]
      ensures var c := channels[|old(accepted)| % |channels|]; ok == c.answers(|old(c.offered)|)
    {
      var channel := NextChannel();
      NextIndex(|accepted|, |channels|);
      OfferedSnoc(accepted, frame, channels);
      ok := channels[channel].Send(frame);
      accepted := accepted + [frame];
    }
  }

  lemma NextIndex(n: nat, k: nat)
    requires k > 0
    ensures (n + 1) % k == (n % k + 1) % k
  {
    DivModUnique(n + 1, k, if n % k + 1 == k then n / k + 1 else n / k, if n % k + 1 == k then 0 else n % k + 1);
  }

  /** How many of n frames fall to channel i. */
  function ShareSize(n: nat, i: nat, k: nat): nat
    requires i < k
  {
    n / k + (if i < n % k then 1 else 0)
  }

  lemma ShareSizeStep(n: nat, i: nat, k: nat)
    requires i < k
    ensures ShareSize(n + 1, i, k) == ShareSize(n, i, k) + (if n % k == i then 1 else 0)
  {
    DivModUnique(n + 1, k, if n % k + 1 == k then n / k + 1 else n / k, if n % k + 1 == k then 0 else n % k + 1);
  }

  /** The number of frames that a channel is offered. */
  lemma {:induction false} ShareLength(frames: seq<Frame>, i: nat, k: nat)
    requires i < k
    ensures |Share(frames, i, k)| == ShareSize(|frames|, i, k)
  {
    if frames != [] {
      ShareLength(frames[..|frames| - 1], i, k);
      ShareSizeStep(|frames| - 1, i, k);
    }
  }

  /** Fairness: the loads of two channels differ by at most one, and the earlier channel has the more. */
  lemma Fair(frames: seq<Frame>, i: nat, j: nat, k: nat)
    requires i <= j < k
    ensures |Share(frames, j, k)| <= |Share(frames, i, k)| <= |Share(frames, j, k)| + 1
  {
    ShareLength(frames, i, k);
    ShareLength(frames, j, k);
  }

  /** The n-th accepted frame is the (n / k)-th on channel n mod k: taking frames from the channels in
      turn restores their order, and nothing is lost or sent twice. */
  lemma {:induction false} FrameAt(frames: seq<Frame>, n: nat, k: nat)
    requires n < |frames| && k > 0
    ensures n / k < |Share(frames, n % k, k)| && Share(frames, n % k, k)[n / k] == frames[n]
  {
    var last := |frames| - 1;
    if n < last {
      FrameAt(frames[..last], n, k);
    } else {
      ShareLength(frames[..last], n % k, k);
    }
  }

  /** The other direction: every entry of a share is such a frame. */
  lemma {:induction false} ShareAt(frames: seq<Frame>, i: nat, k: nat, m: nat)
    requires i < k && m < |Share(frames, i, k)|
    ensures m * k + i < |frames| && Share(frames, i, k)[m] == frames[m * k + i]
  {
    var last := |frames| - 1;
    if m < |Share(frames[..last], i, k)| {
      ShareAt(frames[..last], i, k, m);
    } else {
      ShareLength(frames[..last], i, k);
      QuotientParts(last, k);
      assert last % k == i && m == last / k;
    }
  }
}
