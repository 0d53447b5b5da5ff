// The evicting byte ring behind a terminal session: chunks of output keyed by a
// monotonic seq, refining "the last maxBytes of everything ever appended".
module ReplayBuffers {
  import opened Common

  /** What `since` hands back: bytes from effectiveSeq up to tailSeq. */
  datatype ReplaySlice = ReplaySlice(bytes: seq<byte>, effectiveSeq: int, tailSeq: nat)

  /** The first seq a ring of the given capacity still holds. */
  function HeadOf(history: seq<byte>, capacity: nat): nat {
    if |history| <= capacity then 0 else |history| - capacity
  }

  /** The answer `since` owes, read off the full history. */
  function Replay(history: seq<byte>, capacity: nat, from: int): ReplaySlice {
    var effective := Max(from, HeadOf(history, capacity));
    ReplaySlice(if effective < |history| then history[effective..] else [], effective, |history|)
  }

  class ReplayBuffer {
    const maxBytes: nat
    var chunks: seq<seq<byte>>
    var totalBytes: nat
    var head: nat
    /** Every byte ever appended. */
    ghost var history: seq<byte>

    ghost predicate Valid()
      reads this
    {
      && 0 < maxBytes
      && (forall c :: c in chunks ==> c != [])
      && totalBytes == |Flatten(chunks)|
      && head == HeadOf(history, maxBytes)
      && Flatten(chunks) == LastN(history, maxBytes)
    }

    constructor (max: nat)
      requires 0 < max
      ensures Valid() && maxBytes == max && history == []
    {
      maxBytes := max;
      chunks, totalBytes, head, history := [], 0, 0, [];
    }

    /** The range check of the source's constructor, which throws instead of building. */
    static method Create(max: int) returns (r: Result<ReplayBuffer, string>)
      ensures r.Err? <==> max <= 0
      ensures r.Ok? ==> fresh(r.value) && r.value.Valid() && r.value.maxBytes == max && r.value.history == []
    {
      if max <= 0 {
        return Err("ReplayBuffer maxBytes must be > 0");
      }
      var b := new ReplayBuffer(max);
      r := Ok(b);
    }

    function HeadSeq(): nat
      reads this
    {
      head
    }

    function TailSeq(): (t: nat)
      requires Valid()
      reads this
      ensures t == |history|
    {
      head + totalBytes
    }

    method Append(chunk: seq<byte>)
      requires Valid()
      modifies this
      ensures Valid() && history == old(history) + chunk
    {
      if |chunk| == 0 {
        assert history + chunk == history;
        return;
      }
      FlattenOfAppend(chunks, chunk);
      assert (history + chunk)[head..] == history[head..] + chunk;
      chunks := chunks + [chunk];
      totalBytes := totalBytes + |chunk|;
      history := history + chunk;
      Evict();
    }

    /** Drops the oldest bytes, whole chunks or part of one, until the ring fits. */
    method Evict()
      requires 0 < maxBytes && forall c :: c in chunks ==> c != []
      requires totalBytes == |Flatten(chunks)| && head + totalBytes == |history|
      requires Flatten(chunks) == history[head..]
      requires head <= HeadOf(history, maxBytes)
      modifies this`chunks, this`totalBytes, this`head
      ensures Valid()
    {
      while totalBytes > maxBytes
        invariant forall c :: c in chunks ==> c != []
        invariant totalBytes == |Flatten(chunks)| && head + totalBytes == |history|
        invariant Flatten(chunks) == history[head..]
        invariant head <= HeadOf(history, maxBytes)
        decreases totalBytes
      {
        var oldest := chunks[0];
        assert oldest in chunks && forall c :: c in chunks[1..] ==> c in chunks;
        var overshoot := totalBytes - maxBytes;
        if overshoot >= |oldest| {
          assert history[head..][|oldest|..] == history[head + |oldest|..];
          chunks := chunks[1..];
          totalBytes := totalBytes - |oldest|;
          head := head + |oldest|;
        } else {
          assert history[head..][overshoot..] == history[head + overshoot..];
          assert Flatten(chunks)[overshoot..] == oldest[overshoot..] + Flatten(chunks[1..]);
          chunks := [oldest[overshoot..]] + chunks[1..];
          totalBytes := totalBytes - overshoot;
          head := head + overshoot;
        }
      }
    }

    /** The skip loop answers from the chunks exactly what the full history would. */
    method Since(from: int) returns (slice: ReplaySlice)
      requires Valid()
      ensures slice == Replay(history, maxBytes, from)
    {
      hide Flatten;
      var effectiveSeq := Max(from, head);
      var tailSeq := TailSeq();
      if effectiveSeq >= tailSeq {
        return ReplaySlice([], effectiveSeq, tailSeq);
      }
      var out: seq<seq<byte>> := [];
      var remainingSkip := effectiveSeq - head;
      var i := 0;
      ghost var skip := remainingSkip;
      FlattenOfNothing<byte>();
      assert chunks[0..] == chunks && [] + Flatten(chunks)[skip..] == Flatten(chunks)[skip..];
      while i < |chunks|
        invariant 0 <= i <= |chunks| && 0 <= remainingSkip
        invariant remainingSkip > 0 ==> out == []
        invariant remainingSkip <= |Flatten(chunks[i..])|
        invariant Flatten(out) + Flatten(chunks[i..])[remainingSkip..] == Flatten(chunks)[skip..]
      {
        var chunk := chunks[i];
        ghost var rest := Flatten(chunks[i + 1..]);
        FlattenFrom(chunks, i);
        SkipInto(chunk, rest, remainingSkip);
        ConcatAssociates(Flatten(out), chunk[Min(remainingSkip, |chunk|)..], rest);
        if remainingSkip >= |chunk| {
          remainingSkip := remainingSkip - |chunk|;
        } else if remainingSkip > 0 {
          FlattenOfAppend(out, chunk[remainingSkip..]);
          out := out + [chunk[remainingSkip..]];
          remainingSkip := 0;
        } else {
          assert chunk[0..] == chunk;
          FlattenOfAppend(out, chunk);
          out := out + [chunk];
        }
        i := i + 1;
      }
      FlattenOfNothing<byte>();
      assert chunks[i..] == [];
      assert Flatten(chunks)[skip..] == history[effectiveSeq..];
      slice := ReplaySlice(Flatten(out), effectiveSeq, tailSeq);
    }
  }

  lemma FlattenFrom(chunks: seq<seq<byte>>, i: nat)
    requires i < |chunks|
    ensures Flatten(chunks[i..]) == chunks[i] + Flatten(chunks[i + 1..])
  {
    assert chunks[i..][0] == chunks[i] && chunks[i..][1..] == chunks[i + 1..];
  }

  lemma SkipInto(chunk: seq<byte>, rest: seq<byte>, k: nat)
    requires k <= |chunk| + |rest|
    ensures (chunk + rest)[k..] == if k >= |chunk| then rest[k - |chunk|..] else chunk[k..] + rest
    ensures rest[0..] == rest
  {
  }

  /** A replay leaves no gap and no overlap behind what the client holds, unless bytes were evicted past it. */
  lemma ReplayContinues(history: seq<byte>, capacity: nat, start: nat, since: nat)
    requires start <= since <= |history|
    ensures var r := Replay(history, capacity, since);
            && (r.effectiveSeq > since <==> since < HeadOf(history, capacity))
            && (r.effectiveSeq == since ==> history[start..since] + r.bytes == history[start..])
            && |r.bytes| == |history| - r.effectiveSeq
  {
  }
}
