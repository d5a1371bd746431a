/** One voice ring with the writer and the timer-driven reader interleaved byte by byte. */
module AudioRing {
  import opened Bytes

  const RING := 32768
  const CHUNK := 512   // bytes of one DMA buffer
  const FRAME := 4     // bytes of one stereo frame

  /** Place of the `i`-th byte of the history in the ring. */
  function Slot(i: nat): (r: nat)
    ensures r < RING
  {
    i % RING
  }

  /** `voice_available` on the two pointers. */
  function Available(head: nat, tail: nat): nat
    requires head < RING && tail < RING
  {
    if head >= tail then head - tail else RING - tail + head
  }

  /** The byte count `mix_voices` takes from a voice: whole frames only. */
  function ToRead(available: nat): nat { (if available < CHUNK then available else CHUNK) / FRAME * FRAME }

  /** The writer between calls, or copying the bytes it may place before publishing the head. */
  datatype Writer = WIdle | WCopy(data: seq<byte>, done: nat)

  /** The reader between ticks, or copying out before it advances the tail. */
  datatype Reader = RIdle | RCopy(n: nat, got: seq<byte>)

  /** The shared ring, and the whole history of bytes published and consumed. */
  datatype State = State(ring: seq<byte>, head: nat, tail: nat, w: Writer, r: Reader, accepted: seq<byte>,
      consumed: seq<byte>)

  datatype Step =
    | WriteStart(data: seq<byte>)   // read both pointers, cut the request to the free space
    | WriteByte                     // store one byte
    | WritePublish                  // advance the head
    | ReadStart                     // read both pointers, choose how much to take
    | ReadByte                      // load one byte
    | ReadAdvance                   // advance the tail

  predicate Shape(s: State) { |s.ring| == RING && s.head < RING && s.tail < RING }

  /** One atomic step; a step that does not fit where its side is does nothing. */
  function Next(s: State, x: Step): (r: State)
    requires Shape(s)
    ensures Shape(r)
  {
    match x
    case WriteStart(data) =>
      var free := RING - 1 - Available(s.head, s.tail);
      var n := if |data| > free then free else |data|;
      if s.w.WIdle? && n > 0 then s.(w := WCopy(data[..n], 0)) else s
    case WriteByte =>
      if s.w.WCopy? && s.w.done < |s.w.data|
      then s.(ring := s.ring[Slot(s.head + s.w.done) := s.w.data[s.w.done]], w := s.w.(done := s.w.done + 1))
      else s
    case WritePublish =>
      if s.w.WCopy? && s.w.done == |s.w.data|
      then s.(head := Slot(s.head + |s.w.data|), accepted := s.accepted + s.w.data, w := WIdle)
      else s
    case ReadStart =>
      var n := ToRead(Available(s.head, s.tail));
      if s.r.RIdle? && n > 0 then s.(r := RCopy(n, [])) else s
    case ReadByte =>
      if s.r.RCopy? && |s.r.got| < s.r.n
      then s.(r := s.r.(got := s.r.got + [s.ring[Slot(s.tail + |s.r.got|)]]))
      else s
    case ReadAdvance =>
      if s.r.RCopy? && |s.r.got| == s.r.n
      then s.(tail := Slot(s.tail + s.r.n), consumed := s.consumed + s.r.got, r := RIdle)
      else s
  }

  function Init(): State { State(seq(RING, _ => 0), 0, 0, WIdle, RIdle, [], []) }

  /** The bytes from tail to head. */
  function InRing(ring: seq<byte>, head: nat, tail: nat): (q: seq<byte>)
    requires |ring| == RING && head < RING && tail < RING
    ensures |q| == Available(head, tail)
  {
    if head >= tail then ring[tail..head] else ring[tail..] + ring[..head]
  }

  /** Place `j` after `data` was stored from `head` on, wrapping at the end. */
  function Overwritten(ring: seq<byte>, head: nat, data: seq<byte>, j: nat): byte
    requires |ring| == RING && head < RING && |data| < RING && j < RING
  {
    if head <= j < head + |data| then data[j - head]
    else if j + RING < head + |data| then data[j + RING - head]
    else ring[j]
  }

  function Wrap(x: nat): nat { if x < RING then x else x - RING }

  lemma InRingAt(ring: seq<byte>, head: nat, tail: nat, i: nat)
    requires |ring| == RING && head < RING && tail < RING && i < Available(head, tail)
    ensures Wrap(tail + i) < RING && InRing(ring, head, tail)[i] == ring[Wrap(tail + i)]
  {
  }

  /** The bytes waiting in the ring. */
  function Queued(s: State): (q: seq<byte>)
    requires Shape(s)
    ensures |q| == Available(s.head, s.tail)
  {
    InRing(s.ring, s.head, s.tail)
  }

  // ---- the invariant ----

  /** The pointers count the history modulo the ring size and at most RING - 1 bytes are outstanding. */
  predicate Counts(s: State) {
    && Shape(s) && s.head == Slot(|s.accepted|) && s.tail == Slot(|s.consumed|)
    && |s.consumed| <= |s.accepted| < |s.consumed| + RING && |s.consumed| % FRAME == 0
  }

  /** Everything consumed was accepted, in order, and the outstanding bytes are in their places. */
  predicate Contents(s: State)
    requires Shape(s) && |s.consumed| <= |s.accepted|
  {
    && s.consumed == s.accepted[..|s.consumed|]
    && (forall i :: |s.consumed| <= i < |s.accepted| ==> s.ring[Slot(i)] == s.accepted[i])
  }

  /** The bytes copied so far lie beyond the head, inside the free space. */
  predicate WriterOk(s: State)
    requires Shape(s)
  {
    s.w.WCopy? ==>
      && s.w.done <= |s.w.data| && |s.accepted| + |s.w.data| < |s.consumed| + RING
      && (forall k :: 0 <= k < s.w.done ==> s.ring[Slot(|s.accepted| + k)] == s.w.data[k])
  }

  /** The bytes read so far are the next ones of the history. */
  predicate ReaderOk(s: State) {
    s.r.RCopy? ==>
      && |s.r.got| <= s.r.n && s.r.n % FRAME == 0 && |s.consumed| + s.r.n <= |s.accepted|
      && (forall k :: 0 <= k < |s.r.got| ==> s.r.got[k] == s.accepted[|s.consumed| + k])
  }

  predicate Inv(s: State) { Counts(s) && Contents(s) && WriterOk(s) && ReaderOk(s) }

  lemma InitOk()
    ensures Inv(Init())
  {
  }

  lemma AvailableIs(s: State)
    requires Counts(s)
    ensures Available(s.head, s.tail) == |s.accepted| - |s.consumed|
  {
    ModDiff(|s.accepted|, |s.consumed|);
  }

  lemma ModDiff(a: nat, c: nat)
    requires c <= a < c + RING
    ensures var h := Slot(a); var t := Slot(c); a - c == if h >= t then h - t else RING - t + h
  {
  }

  /** Two positions less than a ring apart are in different places. */
  lemma Distinct(i: nat, j: nat)
    requires i < j < i + RING
    ensures Slot(i) != Slot(j)
  {
  }

  lemma Place(a: nat, k: nat)
    ensures Slot(Slot(a) + k) == Slot(a + k)
  {
  }

  lemma WriteByteOk(s: State)
    requires Inv(s)
    ensures Inv(Next(s, WriteByte))
  {
    hide Slot;
    var t := Next(s, WriteByte);
    if s.w.WCopy? && s.w.done < |s.w.data| {
      var a, d := |s.accepted|, s.w.done;
      Place(a, d);
      assert t.ring == s.ring[Slot(a + d) := s.w.data[d]];
      forall i | |s.consumed| <= i < a
        ensures t.ring[Slot(i)] == s.accepted[i]
      {
        Distinct(i, a + d);
      }
      forall k | 0 <= k < d
        ensures t.ring[Slot(a + k)] == s.w.data[k]
      {
        Distinct(a + k, a + d);
      }
    }
  }

  lemma WritePublishOk(s: State)
    requires Inv(s)
    ensures Inv(Next(s, WritePublish))
  {
    hide Slot, Contents, ReaderOk;
    if s.w.WCopy? && s.w.done == |s.w.data| {
      Place(|s.accepted|, |s.w.data|);
      PublishContents(s, Next(s, WritePublish));
      PublishReader(s, Next(s, WritePublish));
    }
  }

  lemma PublishContents(s: State, t: State)
    requires Inv(s) && s.w.WCopy? && s.w.done == |s.w.data| && Shape(t)
    requires t.ring == s.ring && t.consumed == s.consumed && t.accepted == s.accepted + s.w.data
    ensures Contents(t)
  {
    hide Slot, ReaderOk, WriterOk;
    assert t.accepted[..|s.consumed|] == s.accepted[..|s.consumed|];
    forall i | |s.consumed| <= i < |t.accepted|
      ensures t.ring[Slot(i)] == t.accepted[i]
    {
      if i >= |s.accepted| {
        WrittenAt(s, i);
      }
    }
  }

  /** A byte the writer has placed, by its position in the history to come. */
  lemma WrittenAt(s: State, i: nat)
    requires Shape(s) && WriterOk(s) && s.w.WCopy? && |s.accepted| <= i < |s.accepted| + s.w.done
    ensures s.w.done <= |s.w.data| && s.ring[Slot(i)] == s.w.data[i - |s.accepted|]
  {
    hide Slot;
    var k := i - |s.accepted|;
    assert s.ring[Slot(|s.accepted| + k)] == s.w.data[k];
  }

  lemma PublishReader(s: State, t: State)
    requires ReaderOk(s) && t.r == s.r && t.consumed == s.consumed && s.accepted <= t.accepted
    ensures ReaderOk(t)
  {
  }

  lemma ReadByteOk(s: State)
    requires Inv(s)
    ensures Inv(Next(s, ReadByte))
  {
    hide Slot;
    if s.r.RCopy? && |s.r.got| < s.r.n {
      Place(|s.consumed|, |s.r.got|);
    }
  }

  lemma ReadAdvanceOk(s: State)
    requires Inv(s)
    ensures Inv(Next(s, ReadAdvance))
  {
    hide Slot;
    if s.r.RCopy? && |s.r.got| == s.r.n {
      Place(|s.consumed|, s.r.n);
      assert s.accepted[..|s.consumed| + s.r.n] == s.consumed + s.r.got;
      WholeFrames(|s.consumed|, s.r.n);
    }
  }

  lemma WholeFrames(a: nat, n: nat)
    requires a % FRAME == 0 && n % FRAME == 0
    ensures (a + n) % FRAME == 0
  {
  }

  lemma StartOk(s: State, x: Step)
    requires Inv(s) && (x.WriteStart? || x.ReadStart?)
    ensures Inv(Next(s, x))
  {
    hide Slot;
    AvailableIs(s);
  }

  lemma NextOk(s: State, x: Step)
    requires Inv(s)
    ensures Inv(Next(s, x))
  {
    hide Inv, Next;
    match x
    case WriteStart(_) => StartOk(s, x);
    case WriteByte => WriteByteOk(s);
    case WritePublish => WritePublishOk(s);
    case ReadStart => StartOk(s, x);
    case ReadByte => ReadByteOk(s);
    case ReadAdvance => ReadAdvanceOk(s);
  }

  function Run(s: State, steps: seq<Step>): (r: State)
    requires Shape(s)
    ensures Shape(r)
    decreases |steps|
  {
    if steps == [] then s else Run(Next(s, steps[0]), steps[1..])
  }

  lemma {:induction false} RunInv(s: State, steps: seq<Step>)
    requires Inv(s)
    ensures Inv(Run(s, steps))
    decreases |steps|
  {
    hide Next, Inv;
    InvShape(s);
    if steps != [] {
      NextOk(s, steps[0]);
      RunInv(Next(s, steps[0]), steps[1..]);
    }
  }

  lemma InvShape(s: State)
    requires Inv(s)
    ensures Shape(s)
  {
  }

  /** For every interleaving and any write sizes: what was consumed followed by what is queued is what was
      accepted, in order, and the tail is on a frame boundary. */
  lemma RingFaithful(steps: seq<Step>)
    ensures var s := Run(Init(), steps); s.consumed + Queued(s) == s.accepted && s.tail % FRAME == 0
  {
    hide Next, Run, Init, Queued, Slot;
    InitOk();
    RunInv(Init(), steps);
    var s := Run(Init(), steps);
    QueuedIs(s);
    TailAligned(|s.consumed|);
  }

  lemma WrapsAround(x: nat)
    requires x < 2 * RING
    ensures Wrap(x) == Slot(x) == x % RING
  {
  }

  lemma QueuedIs(s: State)
    requires Inv(s)
    ensures s.consumed + Queued(s) == s.accepted
  {
    hide Slot, InRing;
    AvailableIs(s);
    var n := |s.accepted| - |s.consumed|;
    forall i | 0 <= i < n
      ensures Queued(s)[i] == s.accepted[|s.consumed| + i]
    {
      InRingAt(s.ring, s.head, s.tail, i);
      WrapsAround(s.tail + i);
      Place(|s.consumed|, i);
    }
    assert Queued(s) == s.accepted[|s.consumed|..];
  }

  lemma TailAligned(c: nat)
    requires c % FRAME == 0
    ensures Slot(c) % FRAME == 0
  {
  }

  // ---- uninterrupted calls ----

  function WriteSteps(data: seq<byte>): seq<Step>
  {
    [WriteStart(data)] + (seq(|data|, _ => WriteByte) + [WritePublish])
  }

  function ReadSteps(n: nat): seq<Step> { [ReadStart] + (seq(n, _ => ReadByte) + [ReadAdvance]) }

  lemma {:induction false} RunAppend(s: State, a: seq<Step>, b: seq<Step>)
    requires Shape(s)
    ensures Run(s, a + b) == Run(Run(s, a), b)
    decreases |a|
  {
    hide Next;
    if a == [] {
      assert a + b == b;
    } else {
      assert (a + b)[1..] == a[1..] + b;
      RunAppend(Next(s, a[0]), a[1..], b);
    }
  }

  lemma RunOne(s: State, x: Step, rest: seq<Step>)
    requires Shape(s)
    ensures Run(s, [x]) == Next(s, x) && Run(s, [x] + rest) == Run(Next(s, x), rest)
  {
    hide Next;
    assert ([x] + rest)[1..] == rest && [x][1..] == [];
  }

  /** Copying the remaining bytes one by one. */
  lemma {:induction false} CopyBytes(s: State, was: seq<byte>)
    requires Shape(s) && s.w.WCopy? && s.w.done <= |s.w.data| < RING && |was| == RING
    requires forall j :: 0 <= j < RING ==> s.ring[j] == Overwritten(was, s.head, s.w.data[..s.w.done], j)
    ensures var r := Run(s, seq(|s.w.data| - s.w.done, _ => WriteByte));
            && r == s.(ring := r.ring, w := WCopy(s.w.data, |s.w.data|))
            && (forall j :: 0 <= j < RING ==> r.ring[j] == Overwritten(was, s.head, s.w.data, j))
    decreases |s.w.data| - s.w.done
  {
    var n, d := |s.w.data| - s.w.done, s.w.done;
    if n == 0 {
      assert s.w.data[..d] == s.w.data;
    } else {
      var t := Next(s, WriteByte);
      ByteStored(s, was);
      var steps := seq(n, _ => WriteByte);
      assert steps[1..] == seq(n - 1, _ => WriteByte);
      CopyBytes(t, was);
    }
  }

  lemma ByteStored(s: State, was: seq<byte>)
    requires Shape(s) && s.w.WCopy? && s.w.done < |s.w.data| < RING && |was| == RING
    requires forall j :: 0 <= j < RING ==> s.ring[j] == Overwritten(was, s.head, s.w.data[..s.w.done], j)
    ensures var t := Next(s, WriteByte);
            && t == s.(ring := t.ring, w := WCopy(s.w.data, s.w.done + 1))
            && (forall j :: 0 <= j < RING ==> t.ring[j] == Overwritten(was, s.head, s.w.data[..s.w.done + 1], j))
  {
    WrapsAround(s.head + s.w.done);
  }

  /** The writer's steps without a pause: the ring with the data stored from the head on. */
  lemma WriteIsSteps(s: State, data: seq<byte>)
    requires Shape(s) && s.w.WIdle? && 0 < |data| < RING - Available(s.head, s.tail)
    ensures var r := Run(s, WriteSteps(data));
            && r == s.(ring := r.ring, head := Slot(s.head + |data|), accepted := s.accepted + data)
            && (forall j :: 0 <= j < RING ==> r.ring[j] == Overwritten(s.ring, s.head, data, j))
  {
    hide Run, Slot;
    var t := Next(s, WriteStart(data));
    assert data[..|data|] == data && t == s.(w := WCopy(data, 0));
    var bytes := seq(|data|, _ => WriteByte);
    RunOne(s, WriteStart(data), bytes + [WritePublish]);
    CopyBytes(t, s.ring);
    var u := Run(t, bytes);
    RunAppend(t, bytes, [WritePublish]);
    RunOne(u, WritePublish, []);
  }

  lemma {:induction false} LoadBytes(s: State)
    requires Shape(s) && s.r.RCopy? && |s.r.got| <= s.r.n <= Available(s.head, s.tail)
    requires s.r.got == Queued(s)[..|s.r.got|]
    ensures Run(s, seq(s.r.n - |s.r.got|, _ => ReadByte)) == s.(r := RCopy(s.r.n, Queued(s)[..s.r.n]))
    decreases s.r.n - |s.r.got|
  {
    hide InRing, Slot;
    var n, d := s.r.n - |s.r.got|, |s.r.got|;
    if n > 0 {
      var t := Next(s, ReadByte);
      InRingAt(s.ring, s.head, s.tail, d);
      WrapsAround(s.tail + d);
      assert t.r.got == Queued(s)[..d + 1];
      var steps := seq(n, _ => ReadByte);
      assert steps[1..] == seq(n - 1, _ => ReadByte);
      LoadBytes(t);
    }
  }

  /** The reader's steps without a pause: the front of the queue is taken. */
  lemma ReadIsSteps(s: State)
    requires Shape(s) && s.r.RIdle? && ToRead(Available(s.head, s.tail)) > 0
    ensures var n := ToRead(Available(s.head, s.tail));
            && n <= |Queued(s)|
            && Run(s, ReadSteps(n)) == s.(tail := Slot(s.tail + n), consumed := s.consumed + Queued(s)[..n])
  {
    hide Run, Slot, InRing;
    var n := ToRead(Available(s.head, s.tail));
    var t := Next(s, ReadStart);
    var bytes := seq(n, _ => ReadByte);
    RunOne(s, ReadStart, bytes + [ReadAdvance]);
    LoadBytes(t);
    RunAppend(t, bytes, [ReadAdvance]);
    RunOne(Run(t, bytes), ReadAdvance, []);
  }
}
