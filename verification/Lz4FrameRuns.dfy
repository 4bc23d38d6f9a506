/** A frame fed to the decoder in any pieces, with any room for the output of each call. */
module Lz4FrameRuns {
  import opened Wrappers
  import opened Integers
  import opened Lz4Format
  import opened Lz4Frame
  import opened Lz4FrameDecoder

  /** A context at rest still needs input: nothing valid can end there. */
  lemma RestingNeedsInput(c: Ctx, digest: Digest)
    requires Ready(c) && Resting(c.dStage)
    ensures Future(c, [], [], digest).None?
  {
    assert c.header + [] == c.header && c.tmpIn + [] == c.tmpIn;
  }

  /** How much one call of the plan gets. */
  datatype Call = Call(input: nat, room: nat)

  /** Feeds a byte string call by call until it fails, finishes or the plan ends. However the calls cut it:
      a failure means that it is no valid frame, or that it does not give its size and the context was left
      with a remaining size; the hint 0 comes exactly at the end of a frame, with its content written; before
      that, what was written is the front of the content. When every call brings some input and some room, as
      many calls as there are bytes to read and to write are enough for every frame that can be decoded. */
  method FeedInPieces(d: Dctx, frame: Bytes, plan: seq<Call>) returns (next: Next, consumed: nat, out: Bytes)
    requires d.dStage == GetHeader
    modifies d
    ensures consumed <= |frame|
    ensures next.Fail? ==> FrameContent(frame, d.digest).None? || !Taken(frame, old(d.frameRemainingSize))
    ensures next == Wait(0) ==> d.dStage == GetHeader && d.frameRemainingSize == 0
    ensures next == Wait(0) && consumed == |frame| ==> FrameContent(frame, d.digest) == Some(out)
    ensures FrameContent(frame, d.digest).Some? ==>
      var content := FrameContent(frame, d.digest).value;
      && (next == Wait(0) && consumed == |frame| ==> out == content && Taken(frame, old(d.frameRemainingSize)))
      && (Taken(frame, old(d.frameRemainingSize)) ==>
           && !next.Fail? && out <= content
           && (next == Wait(0) <==> consumed == |frame|)
           && (Steady(plan) && |plan| >= |frame| + |content| ==> next == Wait(0)))
  {
    hide FrameContent, Taken, Steady;
    LeftoverRefusesUnsizedFrames(frame, d.frameRemainingSize, d.digest);
    TakenWhenSized(frame, d.frameRemainingSize);
    next, consumed, out := FeedFrom(d, frame, plan);
    hide ParseFrame;
  }

  /** The context takes the frame: nothing is left over, or the header says how much there is. */
  predicate Taken(frame: Bytes, leftover: int) {
    leftover == 0 || (|frame| >= 5 && GivesContentSize(frame))
  }

  lemma TakenWhenSized(frame: Bytes, leftover: int)
    ensures Taken(frame, leftover) <==> leftover == 0 || (|frame| >= 5 && GivesContentSize(frame))
  {}

  /** Every call of the plan brings some input and some room. */
  ghost predicate Steady(plan: seq<Call>) {
    forall call :: call in plan ==> call.input > 0 && call.room > 0
  }

  /** The same in terms of what the byte string is to this context. */
  method FeedFrom(d: Dctx, frame: Bytes, plan: seq<Call>) returns (next: Next, consumed: nat, out: Bytes)
    requires d.dStage == GetHeader
    modifies d
    ensures consumed <= |frame|
    ensures var content := old(ParseFrame(frame, d.frameRemainingSize, d.digest));
      && (next.Fail? ==> content.None?)
      && (next == Wait(0) ==> d.dStage == GetHeader && d.frameRemainingSize == 0)
      && (next == Wait(0) ==> content == if consumed == |frame| then Some(out) else None)
      && (content.Some? ==>
           && !next.Fail? && out <= content.value
           && (next == Wait(0) <==> consumed == |frame|)
           && (Steady(plan) && |plan| >= |frame| + |content.value| ==> next == Wait(0)))
  {
    hide ParseFrame, Future, Ready, Resting;
    ghost var content := ParseFrame(frame, d.frameRemainingSize, d.digest);
    next, consumed, out := Go, 0, [];
    Start(d.Now(), frame, d.digest);
    PrependNothing(d.Owed([], frame));
    assert frame[0..] == frame;
    for i := 0 to |plan|
      invariant consumed <= |frame| && !next.Fail? && next != Wait(0)
      invariant Ready(d.Now()) && Resting(d.dStage)
      invariant content == Prepend(out, d.Owed([], frame[consumed..]))
      invariant content.Some? ==> consumed < |frame|
      invariant content.Some? && Steady(plan) ==> i <= consumed + |out|
    {
      var size := plan[i].input;
      if |frame| - consumed < size { size := |frame| - consumed; }
      var src := frame[consumed..consumed + size];
      ghost var later, before := frame[consumed + size..], consumed;
      assert src + later == frame[consumed..];
      assert plan[i] in plan;
      var used, piece;
      next, used, piece := d.Decompress(src, plan[i].room, later);
      if next.Fail? { return; }
      assert frame[consumed..][used..] == frame[consumed + used..];
      PrependTwice(out, piece, d.Owed([], frame[consumed + used..]));
      out, consumed := out + piece, consumed + used;
      if next == Wait(0) { return; }
      RestingNeedsInput(d.Now(), d.digest);
      if consumed == |frame| { assert frame[consumed..] == []; }
    }
    if content.Some? { PrependedIsPrefix(out, d.Owed([], frame[consumed..])); }
  }

  /** Feeds each call exactly what the one before asked for, and so reads a frame out of a longer stream to its
      last byte and no further, however little room each call gets. */
  method FeedByHints(d: Dctx, stream: Bytes, room: nat, ghost frame: Bytes) returns (consumed: nat, out: Bytes)
    requires d.dStage == GetHeader && room > 0 && frame <= stream
    requires FrameContent(frame, d.digest).Some? && Taken(frame, d.frameRemainingSize)
    modifies d
    ensures consumed == |frame| && Some(out) == FrameContent(frame, d.digest)
    ensures d.dStage == GetHeader && d.frameRemainingSize == 0
  {
    hide FrameContent, Taken, ParseFrame, Future, Ready, Resting, Hint;
    LeftoverRefusesUnsizedFrames(frame, d.frameRemainingSize, d.digest);
    TakenWhenSized(frame, d.frameRemainingSize);
    ghost var content := ParseFrame(frame, d.frameRemainingSize, d.digest);
    Start(d.Now(), frame, d.digest);
    PrependNothing(d.Owed([], frame));
    assert frame[0..] == frame;
    consumed, out := 0, [];
    var hint := 7;
    HintAtStart(d.Now());
    while true
      invariant consumed <= |frame| && Ready(d.Now()) && Resting(d.dStage) && hint == Hint(d.Now())
      invariant content.Some? && content == Prepend(out, d.Owed([], frame[consumed..]))
      decreases |frame| - consumed + |content.value| - |out|
    {
      PrependedIsPrefix(out, d.Owed([], frame[consumed..]));
      HintStaysInside(d.Now(), frame[consumed..], d.digest);
      var src := stream[consumed..consumed + hint];
      ghost var later, before := frame[consumed + hint..], consumed;
      assert src == frame[consumed..consumed + hint];
      assert src + later == frame[consumed..];
      var next, used, piece := d.Decompress(src, room, later);
      assert frame[consumed..][used..] == frame[consumed + used..];
      PrependTwice(out, piece, d.Owed([], frame[consumed + used..]));
      out, consumed := out + piece, consumed + used;
      if next == Wait(0) { return; }
      PrependedIsPrefix(out, d.Owed([], frame[consumed..]));
      hint := next.hint;
    }
  }

  lemma HintAtStart(c: Ctx)
    ensures c.dStage == GetHeader ==> Hint(c) == 7
  {}

  /** A context reset in the middle of anything decodes the next frame, in any pieces, if and only if nothing
      was left over or that frame gives its size. */
  method ResetAndFeed(d: Dctx, frame: Bytes, plan: seq<Call>) returns (next: Next, consumed: nat, out: Bytes)
    requires FrameContent(frame, d.digest).Some?
    requires Steady(plan) && |plan| >= |frame| + |FrameContent(frame, d.digest).value|
    modifies d
    ensures consumed <= |frame|
    ensures next == Wait(0) && consumed == |frame| <==> Taken(frame, old(d.frameRemainingSize))
    ensures next == Wait(0) && consumed == |frame| ==> Some(out) == FrameContent(frame, d.digest)
  {
    hide FrameContent, Taken, Steady;
    d.Reset();
    next, consumed, out := FeedInPieces(d, frame, plan);
  }

  /** The header of a frame with one byte of content. */
  const SIZED_HEADER: Bytes := [0x04, 0x22, 0x4D, 0x18, 0x68, 0x40, 1, 0, 0, 0, 0, 0, 0, 0, 0]

  lemma {:induction false} ZerosReadZero(s: Bytes)
    requires forall i :: 0 <= i < |s| ==> s[i] == 0
    ensures ReadLE(s) == 0
  {
    if s != [] { ZerosReadZero(s[1..]); }
  }

  lemma SizedHeaderGivesOne()
    ensures InfoOf(SIZED_HEADER).contentSize == 1 && InfoOf(SIZED_HEADER).independent
  {
    var size := SIZED_HEADER[6..14];
    assert size[0] == 1;
    ZerosReadZero(size[1..]);
  }

  lemma SizedHeaderIsValid()
    ensures HasHeader(SIZED_HEADER, _ => 0) && GivesContentSize(SIZED_HEADER)
  {
    hide ReadLE;
    var s := SIZED_HEADER;
    assert s[..4] == [0x04, 0x22, 0x4D, 0x18];
    ReadsFour(0x04, 0x22, 0x4D, 0x18);
    assert StartsFrame(s) && DescriptorValid(s[5]);
    SizedHeaderGivesOne();
  }

  /** How a context comes by a leftover: a sized frame is given up after its header, and the next frame, valid
      but without a size, is not decoded. */
  method GivenUpFrameSpoilsTheNext() returns (next: Next, consumed: nat, out: Bytes)
    ensures FrameContent(EMPTY_FRAME, _ => 0) == Some([])
    ensures consumed <= |EMPTY_FRAME| && !(next == Wait(0) && consumed == |EMPTY_FRAME|)
  {
    hide FrameContent, ParseFrame, HasHeader, InfoOf, Future;
    var d := new Dctx(_ => 0);
    SizedHeaderIsValid();
    SizedHeaderGivesOne();
    EmptyFrameIsRefusedAfterALeftover();
    var hint, used := d.GetFrameInfo(SIZED_HEADER, []);
    next, consumed, out := ResetAndFeed(d, EMPTY_FRAME, seq(|EMPTY_FRAME|, _ => Call(1, 1)));
  }

  lemma Start(c: Ctx, frame: Bytes, digest: Digest)
    requires c.dStage == GetHeader
    ensures Ready(c) && Resting(c.dStage)
    ensures Future(c, [], frame, digest) == ParseFrame(frame, c.frameRemainingSize, digest)
    ensures ParseFrame([], c.frameRemainingSize, digest).None?
  {}

  lemma PrependedIsPrefix(out: Bytes, more: Option<Bytes>)
    ensures Prepend(out, more).Some? ==> out <= Prepend(out, more).value
  {}
}
