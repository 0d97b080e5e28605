/** The bytes of an append-only file, whole or cut short. */
module LogFile {
  import opened ByteStrings
  import opened Frames
  import opened Encoder
  import opened Parser
  import opened CodecTheorems

  predicate IsRequest(args: seq<Bytes>) {
    0 < |args| <= I64_MAX && forall i :: 0 <= i < |args| ==> |args[i]| <= I64_MAX
  }

  /** The frames that are ever logged: non-empty arrays of bulk strings. */
  ghost predicate IsLogged(frame: Frame) {
    exists args: seq<Bytes> :: IsRequest(args) && frame == Array(Bulks(args))
  }

  ghost predicate AreLogged(frames: seq<Frame>) {
    forall i :: 0 <= i < |frames| ==> IsLogged(frames[i])
  }

  lemma LogReadsBack(frames: seq<Frame>, tail: Bytes)
    requires AreLogged(frames)
    ensures ReadAll(EncodeAll(frames) + tail) == Stream(frames + ReadAll(tail).frames, ReadAll(tail).failure)
  {
    forall i | 0 <= i < |frames|
      ensures Sized(frames[i]) && Printable(frames[i])
    {
      assert IsLogged(frames[i]);
      var args: seq<Bytes> :| IsRequest(args) && frames[i] == Array(Bulks(args));
    }
    StreamRoundTrip(frames, tail);
  }

  lemma WholeLog(frames: seq<Frame>)
    requires AreLogged(frames)
    ensures ReadAll(EncodeAll(frames)) == Stream(frames, None)
  {
    LogReadsBack(frames, []);
    assert EncodeAll(frames) + [] == EncodeAll(frames) && frames + [] == frames;
  }

  /** A frame that was not written whole is an error, unless nothing of it was written. */
  lemma TornFrame(frame: Frame, n: nat)
    requires IsLogged(frame) && n < |Encode(frame)|
    ensures ReadAll(Encode(frame)[..n]).frames == []
    ensures ReadAll(Encode(frame)[..n]).failure.None? <==> n == 0
  {
    var args: seq<Bytes> :| IsRequest(args) && frame == Array(Bulks(args));
    if n > 0 {
      TornCommand(args, n);
    }
  }

  /** How many of the frames are whole within the first `n` bytes. */
  function Complete(frames: seq<Frame>, n: nat): (k: nat)
    ensures k <= |frames|
  {
    if frames == [] || n < |Encode(frames[0])| then 0 else 1 + Complete(frames[1..], n - |Encode(frames[0])|)
  }

  /** What is left of the frame after the whole ones. */
  function TornPart(frames: seq<Frame>, n: nat): Bytes {
    if frames == [] then []
    else if n < |Encode(frames[0])| then Encode(frames[0])[..n]
    else TornPart(frames[1..], n - |Encode(frames[0])|)
  }

  lemma {:induction false} CutInTwo(frames: seq<Frame>, n: nat)
    requires n <= |EncodeAll(frames)|
    ensures EncodeAll(frames)[..n] == EncodeAll(frames[..Complete(frames, n)]) + TornPart(frames, n)
  {
    if frames != [] {
      var first, later := Encode(frames[0]), EncodeAll(frames[1..]);
      CutConcat(first, later, n);
      if n >= |first| {
        CutInTwo(frames[1..], n - |first|);
        var k := Complete(frames[1..], n - |first|);
        assert frames[..k + 1][1..] == frames[1..][..k] && frames[..k + 1][0] == frames[0];
        Regroup(first, EncodeAll(frames[1..][..k]), TornPart(frames, n));
      }
    }
  }

  lemma {:induction false} TornPartIsTorn(frames: seq<Frame>, n: nat)
    requires AreLogged(frames) && n <= |EncodeAll(frames)|
    ensures ReadAll(TornPart(frames, n)).frames == []
    ensures ReadAll(TornPart(frames, n)).failure.None? <==> TornPart(frames, n) == []
  {
    if frames != [] {
      if n < |Encode(frames[0])| {
        TornFrame(frames[0], n);
      } else {
        TornPartIsTorn(frames[1..], n - |Encode(frames[0])|);
      }
    }
  }

  /** However a log is cut, reading gives exactly the frames that are whole, then ends
      cleanly at a frame boundary and with an error anywhere else. */
  lemma CutLog(frames: seq<Frame>, n: nat)
    requires AreLogged(frames) && n <= |EncodeAll(frames)|
    ensures var cut, k := ReadAll(EncodeAll(frames)[..n]), Complete(frames, n);
            && cut.frames == frames[..k]
            && |EncodeAll(frames[..k])| <= n
            && (k < |frames| ==> n < |EncodeAll(frames[..k + 1])|)
            && (cut.failure.None? <==> n == |EncodeAll(frames[..k])|)
  {
    var k := Complete(frames, n);
    CutInTwo(frames, n);
    TornPartIsTorn(frames, n);
    LogReadsBack(frames[..k], TornPart(frames, n));
    assert frames[..k] + [] == frames[..k];
    CompleteIsMost(frames, n);
  }

  lemma {:induction false} CompleteIsMost(frames: seq<Frame>, n: nat)
    ensures var k := Complete(frames, n); k < |frames| ==> n < |EncodeAll(frames[..k + 1])|
  {
    var k := Complete(frames, n);
    if k < |frames| {
      assert frames[..k + 1][0] == frames[0];
      if n >= |Encode(frames[0])| {
        CompleteIsMost(frames[1..], n - |Encode(frames[0])|);
        assert frames[..k + 1][1..] == frames[1..][..k];
      }
    }
  }
}
