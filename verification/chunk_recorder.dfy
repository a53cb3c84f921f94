/**
 The chunk recorder of the external ADC: records are gathered in blocks of 32, and after a start 128
 consecutive blocks are kept for the host, which reads them back channel by channel, block by block.
 A capture begins at the boundary of the block that was being filled when it was started.
 */
module ChunkRecorder {

  import opened Samples

  const BLOCK: nat := 32
  const CHUNKS: nat := 128
  const CAPACITY: nat := 4096

  class Recorder {
    const filling: array<Record>
    const complete: array<Record>
    var writeIndex: nat
    var chunkWrite: nat
    var chunkRead: nat
    ghost var stream: seq<Record>   // every record so far
    ghost var blocks: nat           // the whole blocks in the stream
    ghost var first: nat            // the block with which the current capture begins

    ghost predicate Valid()
      reads this, filling, complete
    {
      && filling != complete && filling.Length == BLOCK && complete.Length == CAPACITY
      && writeIndex < BLOCK && chunkWrite <= CHUNKS && chunkRead < CHUNKS
      && |stream| == BLOCK * blocks + writeIndex
      && filling[..writeIndex] == stream[BLOCK * blocks..]
      && first + chunkWrite <= blocks && (chunkWrite < CHUNKS ==> first + chunkWrite == blocks)
      && complete[..BLOCK * chunkWrite] == Captured()
    }

    /** The capture so far: whole blocks of the stream, from the first one on. */
    ghost function Captured(): seq<Record>
      reads this
      requires first + chunkWrite <= blocks && BLOCK * blocks <= |stream|
    {
      stream[BLOCK * first..BLOCK * (first + chunkWrite)]
    }

    constructor ()
      ensures Valid() && stream == [] && first == 0 && chunkWrite == 0 && chunkRead == 0
      ensures fresh(filling) && fresh(complete)
    {
      var zero: Record := seq(VALUES, _ => 0);
      filling := new Record[BLOCK](_ => zero);
      complete := new Record[CAPACITY](_ => zero);
      writeIndex, chunkWrite, chunkRead := 0, 0, 0;
      stream, blocks, first := [], 0, 0;
    }

    /** One more record; every 32nd completes a block, which is kept if the capture is not full. */
    method Push(r: Record)
      requires Valid()
      modifies this, filling, complete
      ensures Valid() && stream == old(stream) + [r]
      ensures first == old(first) && chunkRead == old(chunkRead)
      ensures chunkWrite == if old(chunkWrite) < CHUNKS && |stream| % BLOCK == 0 then old(chunkWrite) + 1
                            else old(chunkWrite)
      ensures old(chunkWrite) == CHUNKS ==> complete[..] == old(complete[..]) && Captured() == old(Captured())
    {
      filling[writeIndex] := r;
      writeIndex := writeIndex + 1;
      stream := stream + [r];
      assert filling[..writeIndex] == stream[BLOCK * blocks..];
      assert complete[..BLOCK * chunkWrite] == Captured();
      if writeIndex >= BLOCK {
        KeepBlock();
      }
    }

    /** The block is full. */
    method KeepBlock()
      requires filling != complete && filling.Length == BLOCK && complete.Length == CAPACITY
      requires writeIndex == BLOCK && chunkWrite <= CHUNKS && chunkRead < CHUNKS
      requires |stream| == BLOCK * (blocks + 1) && filling[..] == stream[BLOCK * blocks..]
      requires first + chunkWrite <= blocks && (chunkWrite < CHUNKS ==> first + chunkWrite == blocks)
      requires complete[..BLOCK * chunkWrite] == Captured()
      modifies this, complete
      ensures Valid() && stream == old(stream) && first == old(first) && chunkRead == old(chunkRead)
      ensures chunkWrite == if old(chunkWrite) < CHUNKS then old(chunkWrite) + 1 else old(chunkWrite)
      ensures old(chunkWrite) == CHUNKS ==> complete[..] == old(complete[..])
    {
      writeIndex := 0;
      if chunkWrite < CHUNKS {
        CopyBlock();
        BlockAppended(stream, first, blocks);
        chunkWrite := chunkWrite + 1;
      }
      blocks := blocks + 1;
    }

    method CopyBlock()
      requires filling != complete && filling.Length == BLOCK && complete.Length == CAPACITY && chunkWrite < CHUNKS
      modifies complete
      ensures complete[..BLOCK * (chunkWrite + 1)] == old(complete[..BLOCK * chunkWrite]) + filling[..]
    {
      var o := chunkWrite * BLOCK;
      ghost var before := complete[..o];
      forall i | 0 <= i < BLOCK {
        complete[o + i] := filling[i];
      }
      assert complete[..o] == before;
      assert complete[o..o + BLOCK] == filling[..];
      SlicesJoin(complete[..], 0, o, o + BLOCK);
    }

    method Start()
      requires Valid()
      modifies this
      ensures Valid() && chunkWrite == 0 && chunkRead == old(chunkRead) && stream == old(stream)
      ensures first == blocks == old(blocks) && writeIndex == old(writeIndex)
    {
      chunkWrite := 0;
      first := blocks;
    }

    method IsComplete() returns (done: bool)
      requires Valid()
      ensures done <==> chunkWrite == CHUNKS
    {
      done := chunkWrite >= CHUNKS;
    }

    method ResetRead()
      requires Valid()
      modifies this
      ensures Valid() && chunkRead == 0 && chunkWrite == old(chunkWrite)
      ensures first == old(first) && stream == old(stream)
    {
      chunkRead := 0;
    }

    /** The next block of one channel. The read index is shared by all channels and wraps around. */
    method Get(channel: nat) returns (samples: seq<Int16>)
      requires Valid() && channel < VALUES
      modifies this
      ensures Valid() && chunkWrite == old(chunkWrite) && first == old(first) && stream == old(stream)
      ensures chunkRead == if old(chunkRead) + 1 == CHUNKS then 0 else old(chunkRead) + 1
      ensures |samples| == 32
      ensures samples == ChannelOf(complete[BLOCK * old(chunkRead)..BLOCK * (old(chunkRead) + 1)], channel)
    {
      samples := ChannelOf(complete[chunkRead * BLOCK..(chunkRead + 1) * BLOCK], channel);
      chunkRead := chunkRead + 1;
      if chunkRead >= CHUNKS {
        chunkRead := 0;
      }
    }

    method PushAll(records: seq<Record>)
      requires Valid()
      modifies this, filling, complete
      ensures Valid() && stream == old(stream) + records
      ensures first == old(first) && chunkRead == old(chunkRead) && chunkWrite >= old(chunkWrite)
      ensures old(chunkWrite) == CHUNKS ==> complete[..] == old(complete[..]) && Captured() == old(Captured())
    {
      for i := 0 to |records|
        invariant Valid() && stream == old(stream) + records[..i]
        invariant first == old(first) && chunkRead == old(chunkRead) && chunkWrite >= old(chunkWrite)
        invariant old(chunkWrite) == CHUNKS ==> complete[..] == old(complete[..]) && Captured() == old(Captured())
      {
        Push(records[i]);
      }
    }
  }

  // ----- Slices -----

  lemma SlicesJoin(s: seq<Record>, i: nat, j: nat, k: nat)
    requires i <= j <= k <= |s|
    ensures s[i..k] == s[i..j] + s[j..k]
  {
  }

  lemma BlockAppended(stream: seq<Record>, first: nat, blocks: nat)
    requires first <= blocks && |stream| == BLOCK * (blocks + 1)
    ensures stream[BLOCK * first..BLOCK * (blocks + 1)] ==
            stream[BLOCK * first..BLOCK * blocks] + stream[BLOCK * blocks..]
  {
    SlicesJoin(stream, BLOCK * first, BLOCK * blocks, |stream|);
  }

  lemma CaptureSlice(before: seq<Record>, arriving: seq<Record>, b: nat)
    requires BLOCK * b <= |before| <= BLOCK * b + CAPACITY
    requires |arriving| >= CAPACITY - (|before| - BLOCK * b)
    ensures (before + arriving)[BLOCK * b..BLOCK * b + CAPACITY] ==
            before[BLOCK * b..] + arriving[..CAPACITY - (|before| - BLOCK * b)]
  {
  }

  /** One more block of a channel. */
  lemma NextBlock(complete: seq<Record>, capture: seq<Record>, i: nat, channel: nat)
    requires |capture| == |complete| == CAPACITY && complete[..BLOCK * CHUNKS] == capture
    requires i < CHUNKS && channel < VALUES
    ensures ChannelOf(capture[..BLOCK * (i + 1)], channel) ==
            ChannelOf(capture[..BLOCK * i], channel) + ChannelOf(complete[BLOCK * i..BLOCK * (i + 1)], channel)
  {
    assert complete == capture;
    SlicesJoin(capture, 0, BLOCK * i, BLOCK * (i + 1));
    ChannelOfBoth(capture[..BLOCK * i], capture[BLOCK * i..BLOCK * (i + 1)], channel);
  }

  lemma ChannelOfBoth(a: seq<Record>, b: seq<Record>, channel: nat)
    requires channel < VALUES
    ensures ChannelOf(a + b, channel) == ChannelOf(a, channel) + ChannelOf(b, channel)
  {
  }

  // ----- Capturing and reading back -----

  /** A capture, started at any moment: once enough records have arrived it is complete, and it holds the 128
      blocks from the boundary before the start on. It thus begins with up to 31 records from before the start;
      none, if and only if the start falls on a boundary. */
  method Capture(recorder: Recorder, arriving: seq<Record>)
    requires recorder.Valid() && |arriving| >= CAPACITY - recorder.writeIndex
    modifies recorder, recorder.filling, recorder.complete
    ensures recorder.Valid() && recorder.chunkWrite == 128 && |recorder.Captured()| == 4096
    ensures recorder.Captured() == old(recorder.stream[BLOCK * recorder.blocks..])
                                   + arriving[..CAPACITY - old(recorder.writeIndex)]
  {
    ghost var before, b := recorder.stream, recorder.blocks;
    recorder.Start();
    recorder.PushAll(arriving);
    CaptureSlice(before, arriving, b);
  }

  /** The host reads one channel of a complete capture, 128 blocks, while sampling goes on: any records arrive
      before each of its reads. What it gets is the capture, and the read index is back at 0. */
  method Replay(recorder: Recorder, channel: nat, arriving: seq<seq<Record>>) returns (samples: seq<Int16>)
    requires recorder.Valid() && recorder.chunkWrite == CHUNKS && channel < VALUES && |arriving| == CHUNKS
    modifies recorder, recorder.filling, recorder.complete
    ensures recorder.Valid() && recorder.chunkRead == 0 && recorder.chunkWrite == CHUNKS
    ensures recorder.Captured() == old(recorder.Captured())
    ensures samples == ChannelOf(old(recorder.Captured()), channel)
  {
    ghost var capture := recorder.Captured();
    recorder.ResetRead();
    samples := [];
    for i := 0 to CHUNKS
      invariant recorder.Valid() && recorder.chunkWrite == CHUNKS && recorder.Captured() == capture
      invariant recorder.chunkRead == if i == CHUNKS then 0 else i
      invariant samples == ChannelOf(capture[..BLOCK * i], channel)
    {
      recorder.PushAll(arriving[i]);
      ghost var complete := recorder.complete[..];
      var block := recorder.Get(channel);
      NextBlock(complete, capture, i, channel);
      samples := samples + block;
    }
    assert capture[..BLOCK * CHUNKS] == capture;
  }
}
