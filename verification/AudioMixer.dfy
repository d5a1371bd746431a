/** Per-process voices and the mixer: `voice_write`, `voice_read`, `voice_for_pid`, `mix_voices`, `audio_write`. */
module AudioMixer {
  import opened Bytes
  import opened AudioRing

  const VOICES := 4
  const SAMPLES := 256            // 16-bit samples in one DMA buffer
  const PRE_ROLL_BYTES := 8192
  const PRE_ROLL_TICKS := 10
  const WORD := 0x1_0000_0000_0000_0000

  /** What a voice means: its owner (0 for none), the bytes waiting, and the pre-roll state. */
  datatype View = View(pid: nat, queue: seq<byte>, preRoll: bool, lastWrite: nat)

  class Voice {
    const ring: array<byte>
    var pid: nat
    var head: nat
    var tail: nat
    var preRoll: bool
    var lastWrite: nat

    ghost predicate Sized()
      reads this
    {
      ring.Length == RING && head < RING && tail < RING
    }

    /** Between ticks the tail is on a frame boundary. */
    ghost predicate Valid()
      reads this
    {
      Sized() && tail % FRAME == 0
    }

    ghost function Queue(): (q: seq<byte>)
      requires Sized()
      reads this, ring
      ensures |q| == Available(head, tail)
    {
      InRing(ring[..], head, tail)
    }

    /** The voice as the shared ring of the step model, with a history. */
    ghost function Shared(accepted: seq<byte>, consumed: seq<byte>): State
      requires Sized()
      reads this, ring
    {
      State(ring[..], head, tail, WIdle, RIdle, accepted, consumed)
    }

    ghost function See(): View
      requires Sized()
      reads this, ring
    {
      View(pid, Queue(), preRoll, lastWrite)
    }

    constructor ()
      ensures Valid() && fresh(ring) && See() == View(0, [], false, 0)
    {
      ring := new byte[RING](_ => 0);
      pid, head, tail, preRoll, lastWrite := 0, 0, 0, false, 0;
    }

    /** memcpy into the ring. */
    method CopyIn(at: nat, data: seq<byte>)
      requires Valid() && at + |data| <= RING
      modifies ring
      ensures forall j :: 0 <= j < RING ==> ring[j] == if at <= j < at + |data| then data[j - at] else old(ring[j])
    {
      var k := 0;
      while k < |data|
        invariant k <= |data|
        invariant forall j :: 0 <= j < RING ==> ring[j] == if at <= j < at + k then data[j - at] else old(ring[j])
      {
        ring[at + k] := data[k];
        k := k + 1;
      }
    }

    /** `voice_write`: appends to the queue. It is the uninterrupted run of the writer's steps. */
    method Write(data: seq<byte>)
      requires Valid() && |data| < RING - Available(head, tail)
      modifies this`head, ring
      ensures Valid() && Queue() == old(Queue()) + data
      ensures data != [] ==> forall a, c :: Shared(a + data, c) == Run(old(Shared(a, c)), WriteSteps(data))
    {
      hide InRing, Run, Slot;
      ghost var was, h := ring[..], head;
      var first := RING - head;
      if |data| > first {
        CopyIn(head, data[..first]);
        CopyIn(0, data[first..]);
      } else {
        CopyIn(head, data);
      }
      forall j | 0 <= j < RING
        ensures ring[j] == Overwritten(was, head, data, j)
      {
      }
      Appended(was, ring[..], head, tail, data);
      head := (head + |data|) % RING;
      WrapsAround(h + |data|);
      if data != [] {
        forall a, c
          ensures Shared(a + data, c) == Run(old(Shared(a, c)), WriteSteps(data))
        {
          WriteIsSteps(State(was, h, tail, WIdle, RIdle, a, c), data);
          assert ring[..] == Run(State(was, h, tail, WIdle, RIdle, a, c), WriteSteps(data)).ring;
        }
      }
    }

    /** `voice_read`: takes the front of the queue, at most `n` bytes. Taking what a tick takes is the uninterrupted run
        of the reader's steps. */
    method Read(n: nat) returns (out: seq<byte>)
      requires Sized()
      modifies this`tail
      ensures Sized() && |out| == (if n > |old(Queue())| then |old(Queue())| else n)
      ensures out == old(Queue())[..|out|] && Queue() == old(Queue())[|out|..]
      ensures old(tail) % FRAME == 0 && |out| % FRAME == 0 ==> Valid()
      ensures 0 < |out| == ToRead(old(Available(head, tail))) ==>
                forall a, c :: Shared(a, c + out) == Run(old(Shared(a, c)), ReadSteps(|out|))
    {
      hide InRing, Run, Slot, ToRead;
      var m := Available(head, tail);
      if n < m {
        m := n;
      }
      if m == 0 {
        return [];
      }
      ghost var t := tail;
      TakenFront(ring[..], head, tail, m);
      var first := RING - tail;
      if m > first {
        out := ring[tail..] + ring[..m - first];
      } else {
        out := ring[tail..tail + m];
      }
      tail := (tail + m) % RING;
      WrapsAround(t + m);
      if m == ToRead(Available(head, t)) {
        forall a, c
          ensures Shared(a, c + out) == Run(old(Shared(a, c)), ReadSteps(m))
        {
          ReadIsSteps(State(ring[..], head, t, WIdle, RIdle, a, c));
        }
      }
    }
  }

  // ---- the ring as a queue ----

  lemma Appended(was: seq<byte>, now: seq<byte>, head: nat, tail: nat, data: seq<byte>)
    requires |was| == RING && |now| == RING && head < RING && tail < RING && |data| < RING - Available(head, tail)
    requires forall j :: 0 <= j < RING ==> now[j] == Overwritten(was, head, data, j)
    ensures InRing(now, (head + |data|) % RING, tail) == InRing(was, head, tail) + data
  {
    hide InRing;
    var h := (head + |data|) % RING;
    assert h == if head + |data| < RING then head + |data| else head + |data| - RING;
    var q := InRing(now, h, tail);
    var r := InRing(was, head, tail) + data;
    assert |q| == |r|;
    forall i | 0 <= i < |r|
      ensures q[i] == r[i]
    {
      InRingAt(now, h, tail, i);
      if i < Available(head, tail) {
        InRingAt(was, head, tail, i);
      }
    }
  }

  lemma TakenFront(ring: seq<byte>, head: nat, tail: nat, n: nat)
    requires |ring| == RING && head < RING && tail < RING && 0 < n <= Available(head, tail)
    ensures var q := InRing(ring, head, tail); var t := (tail + n) % RING;
            && InRing(ring, head, t) == q[n..] && (n % FRAME == 0 && tail % FRAME == 0 ==> t % FRAME == 0)
            && q[..n] == if n > RING - tail then ring[tail..] + ring[..n - (RING - tail)] else ring[tail..tail + n]
  {
    var t := (tail + n) % RING;
    assert t == if tail + n < RING then tail + n else tail + n - RING;
    var q := InRing(ring, head, tail);
    assert InRing(ring, head, t) == q[n..];
  }

  // ---- mixing ----

  /** A voice still filling up contributes nothing. */
  predicate Waiting(v: View, now: nat) {
    v.preRoll && |v.queue| < PRE_ROLL_BYTES && (now - v.lastWrite) % WORD < PRE_ROLL_TICKS
  }

  /** Bytes one tick takes from a voice. */
  function Take(v: View, now: nat): (n: nat)
    ensures n <= |v.queue| && n <= CHUNK && n % FRAME == 0
  {
    if v.pid == 0 || |v.queue| == 0 || Waiting(v, now) then 0 else ToRead(|v.queue|)
  }

  /** A voice after one tick. */
  function After(v: View, now: nat): View {
    if v.pid == 0 then v
    else if |v.queue| == 0 then v.(preRoll := true)
    else if Waiting(v, now) then v
    else v.(preRoll := false, queue := v.queue[Take(v, now)..])
  }

  /** A little-endian signed 16-bit sample. */
  function Sample(lo: byte, hi: byte): (x: int)
    ensures -32768 <= x <= 32767
  {
    var u := lo as int + 256 * (hi as int);
    if u >= 32768 then u - 65536 else u
  }

  /** The two bytes of a sample in the DMA buffer. */
  function Stored(x: int): (r: seq<byte>)
    requires -32768 <= x <= 32767
    ensures |r| == 2 && Sample(r[0], r[1]) == x
  {
    Bytes16(x % 0x1_0000)
  }

  /** A sample is stored back as the bytes it was read from. */
  lemma StoredBack(bytes: seq<byte>, off: nat)
    requires off + 2 <= |bytes|
    ensures Stored(Sample(bytes[off], bytes[off + 1])) == bytes[off..off + 2]
  {
    Bytes16Back(bytes, off);
  }

  /** Sample `i` of a buffer that holds `bytes` and zeros after them. */
  function SampleAt(bytes: seq<byte>, i: nat): (x: int)
    ensures -32768 <= x <= 32767
  {
    if 2 * i + 1 < |bytes| then Sample(bytes[2 * i], bytes[2 * i + 1]) else 0
  }

  /** The chunks of the voices that contribute to this tick, in slot order. */
  function Chunks(vs: seq<View>, now: nat): (cs: seq<seq<byte>>)
    ensures |cs| <= |vs|
  {
    if vs == [] then []
    else
      var v := vs[|vs| - 1];
      Chunks(vs[..|vs| - 1], now) + if Take(v, now) > 0 then [v.queue[..Take(v, now)]] else []
  }

  function SumAt(cs: seq<seq<byte>>, i: nat): int {
    if cs == [] then 0 else SumAt(cs[..|cs| - 1], i) + SampleAt(cs[|cs| - 1], i)
  }

  /** C division: towards zero. */
  function Quot(a: int, n: int): int
    requires n > 0
  {
    if a >= 0 then a / n else -(-a / n)
  }

  /** The average of the contributing samples. */
  function Average(cs: seq<seq<byte>>, i: nat): int { if |cs| > 1 then Quot(SumAt(cs, i), |cs|) else SumAt(cs, i) }

  /** The buffer holds the average of the chunks. */
  ghost predicate Mixed(out: seq<byte>, cs: seq<seq<byte>>) {
    forall i :: 0 <= i < SAMPLES ==> SampleAt(out, i) == Average(cs, i)
  }

  function Clamp(s: int): int { if s > 32767 then 32767 else if s < -32768 then -32768 else s }

  lemma {:induction false} SumBounded(cs: seq<seq<byte>>, i: nat)
    ensures -32768 * |cs| <= SumAt(cs, i) <= 32767 * |cs|
    decreases |cs|
  {
    if cs != [] {
      SumBounded(cs[..|cs| - 1], i);
    }
  }

  lemma QuotBounded(a: int, n: int)
    requires n > 0 && -32768 * n <= a <= 32767 * n
    ensures -32768 <= Quot(a, n) <= 32767
  {
    if a >= 0 {
      DivBounded(a, n, 32767);
    } else {
      DivBounded(-a, n, 32768);
    }
  }

  lemma DivBounded(a: nat, n: nat, k: nat)
    requires n > 0 && a <= k * n
    ensures 0 <= a / n <= k
  {
    var q := a / n;
    assert q * n <= a;
    if q > k {
      TimesMore(k + 1, q, n);
    }
  }

  lemma TimesMore(a: nat, b: nat, n: nat)
    requires a <= b
    ensures a * n <= b * n
  {
  }

  /** Dividing by the number of contributing voices leaves the clamp nothing to do. */
  lemma ClampIdle(cs: seq<seq<byte>>, i: nat)
    ensures Clamp(Average(cs, i)) == Average(cs, i)
  {
    SumBounded(cs, i);
    if |cs| > 1 {
      QuotBounded(SumAt(cs, i), |cs|);
    }
  }

  /** First slot owned by `pid`, or the number of slots. */
  function First(vs: seq<View>, pid: nat): (i: nat)
    ensures i <= |vs| && (i < |vs| ==> vs[i].pid == pid)
    ensures forall k :: 0 <= k < i ==> vs[k].pid != pid
  {
    if vs == [] then 0 else if vs[0].pid == pid then 0 else 1 + First(vs[1..], pid)
  }

  lemma {:induction false} FirstUnique(vs: seq<View>, pid: nat, i: nat)
    requires i <= |vs| && (i < |vs| ==> vs[i].pid == pid)
    requires forall k :: 0 <= k < i ==> vs[k].pid != pid
    ensures First(vs, pid) == i
  {
    if i > 0 {
      FirstUnique(vs[1..], pid, i - 1);
    }
  }

  /** The slot `voice_for_pid` finds: the first owned by `pid`, else the first free one, else none. */
  function SlotFor(vs: seq<View>, pid: nat): (i: nat)
    ensures i <= |vs|
  {
    if First(vs, pid) < |vs| then First(vs, pid) else First(vs, 0)
  }

  /** The state of that slot when it is handed back. */
  function Claimed(v: View, pid: nat, now: nat): View { if v.pid == pid then v else View(pid, [], true, now) }

  /** No process owns two voices. */
  predicate DistinctPids(vs: seq<View>) {
    forall i, j :: 0 <= i < j < |vs| && vs[i].pid != 0 ==> vs[i].pid != vs[j].pid
  }

  lemma ClaimDistinct(vs: seq<View>, pid: nat, now: nat)
    requires DistinctPids(vs) && SlotFor(vs, pid) < |vs|
    ensures var i := SlotFor(vs, pid); DistinctPids(vs[i := Claimed(vs[i], pid, now)])
  {
  }

  /** Bytes that `audio_write` takes of `data` for a voice. */
  function Taken(v: View, data: seq<byte>): nat {
    if |v.queue| >= RING - 1 then 0 else if |data| < RING - 1 - |v.queue| then |data| else RING - 1 - |v.queue|
  }

  /** The voices after a write by `pid`. */
  function Wrote(vs: seq<View>, pid: nat, data: seq<byte>, now: nat): (ws: seq<View>)
    ensures |ws| == |vs|
  {
    var k := SlotFor(vs, pid);
    if data == [] || k == |vs| then vs
    else
      var v := Claimed(vs[k], pid, now);
      var n := Taken(v, data);
      vs[k := if n == 0 then v else v.(queue := v.queue + data[..n], lastWrite := now)]
  }

  class Mixer {
    const voices: seq<Voice>
    ghost const rings: set<object>
    ghost var views: seq<View>

    /** Four separate voices. */
    ghost predicate Separate() {
      && |voices| == VOICES
      && (forall i :: 0 <= i < VOICES ==> voices[i].ring in rings)
      && (forall i, j :: 0 <= i < j < VOICES ==> voices[i] != voices[j] && voices[i].ring != voices[j].ring)
    }

    ghost predicate Valid()
      reads this, voices, rings
    {
      && Separate() && |views| == VOICES
      && (forall i :: 0 <= i < VOICES ==> voices[i].Valid() && voices[i].See() == views[i])
      && DistinctPids(views)
    }

    /** The zero-initialised table of voices. */
    constructor (vs: seq<Voice>)
      requires |vs| == VOICES && forall i, j :: 0 <= i < j < VOICES ==> vs[i] != vs[j] && vs[i].ring != vs[j].ring
      requires forall i :: 0 <= i < VOICES ==> vs[i].Valid() && vs[i].See() == View(0, [], false, 0)
      ensures Valid() && voices == vs && forall i :: 0 <= i < VOICES ==> views[i] == View(0, [], false, 0)
    {
      hide InRing;
      voices := vs;
      rings := set v | v in vs :: v.ring;
      views := seq(VOICES, _ => View(0, [], false, 0));
    }

    /** `voice_for_pid`: -1 when every slot belongs to another process. */
    method VoiceForPid(pid: nat, now: nat) returns (k: int)
      requires Valid()
      modifies this`views, voices
      ensures Valid()
      ensures k == if SlotFor(old(views), pid) < VOICES then SlotFor(old(views), pid) else -1
      ensures k >= 0 ==> views == old(views)[k := Claimed(old(views)[k], pid, now)] && views[k].pid == pid
      ensures k < 0 ==> views == old(views)
    {
      hide InRing, DistinctPids, First;
      var i, freeSlot := 0, -1;
      while i < VOICES
        invariant 0 <= i <= VOICES
        invariant forall j :: 0 <= j < i ==> views[j].pid != pid
        invariant freeSlot == if First(views, 0) < i then First(views, 0) else -1
        modifies {}
      {
        if voices[i].pid == pid {
          FirstUnique(views, pid, i);
          return i;
        }
        if voices[i].pid == 0 && freeSlot < 0 {
          FirstUnique(views, 0, i);
          freeSlot := i;
        }
        i := i + 1;
      }
      FirstUnique(views, pid, VOICES);
      k := freeSlot;
      if freeSlot >= 0 {
        ClaimDistinct(views, pid, now);
        Claim(freeSlot, pid, now);
      }
    }

    /** Initialise a free slot; the owner is stored last. */
    method Claim(k: nat, pid: nat, now: nat)
      requires Valid() && k < VOICES && DistinctPids(views[k := View(pid, [], true, now)])
      modifies this`views, voices
      ensures Valid() && views == old(views)[k := View(pid, [], true, now)]
    {
      hide DistinctPids, InRing;
      var v := voices[k];
      v.head := 0;
      v.tail := 0;
      v.preRoll := true;
      v.lastWrite := now;
      v.pid := pid;
      EmptyRing(v.ring[..]);
      views := views[k := View(pid, [], true, now)];
      assert forall i :: 0 <= i < VOICES && i != k ==> voices[i].See() == old(voices[i].See());
    }

    /** `audio_write`: the accepted bytes are appended to the caller's own voice. */
    method AudioWrite(present: bool, pid: nat, data: seq<byte>, now: nat) returns (n: nat)
      requires Valid()
      modifies this`views, voices, rings
      ensures Valid()
      ensures !present || data == [] || SlotFor(old(views), pid) == VOICES ==> n == 0 && views == old(views)
      ensures present ==> views == Wrote(old(views), pid, data, now)
      ensures present && data != [] && SlotFor(old(views), pid) < VOICES ==>
                var k := SlotFor(old(views), pid); var v := Claimed(old(views)[k], pid, now);
                && n == (if |data| < RING - 1 - |v.queue| then |data| else RING - 1 - |v.queue|)
                && views == old(views)[k := if n == 0 then v else v.(queue := v.queue + data[..n], lastWrite := now)]
    {
      hide InRing, DistinctPids, SlotFor, Available;
      if !present || |data| == 0 {
        return 0;
      }
      var k := VoiceForPid(pid, now);
      if k < 0 {
        return 0;
      }
      var v := voices[k];
      SomeRoom(v.head, v.tail);
      var free := RING - 1 - Available(v.head, v.tail);
      n := if |data| > free then free else |data|;
      assert n == Taken(views[k], data);
      if n == 0 {
        return 0;
      }
      Append(k, data[..n], now);
    }

    method Append(k: nat, data: seq<byte>, now: nat)
      requires Valid() && k < VOICES && |data| < RING - |views[k].queue|
      modifies this`views, voices, rings
      ensures Valid() && views == old(views)[k := old(views)[k].(queue := old(views)[k].queue + data, lastWrite := now)]
    {
      hide InRing, DistinctPids, Available;
      var v := voices[k];
      v.Write(data);
      v.lastWrite := now;
      SamePids(views, k, views[k].(queue := views[k].queue + data, lastWrite := now));
      views := views[k := views[k].(queue := views[k].queue + data, lastWrite := now)];
      assert forall i :: 0 <= i < VOICES && i != k ==> voices[i].See() == old(voices[i].See());
    }

    /** `audio_release_voice`. */
    method ReleaseVoice(pid: nat)
      requires Valid()
      modifies this`views, voices
      ensures Valid()
      ensures var i := First(old(views), pid);
              views == if i < VOICES then old(views)[i := View(0, [], false, 0)] else old(views)
    {
      hide InRing, DistinctPids, First;
      var i := 0;
      while i < VOICES
        invariant 0 <= i <= VOICES
        invariant forall j :: 0 <= j < i ==> views[j].pid != pid
        modifies {}
      {
        if voices[i].pid == pid {
          break;
        }
        i := i + 1;
      }
      FirstUnique(views, pid, i);
      if i < VOICES {
        Clear(i);
      }
    }

    method Clear(k: nat)
      requires Valid() && k < VOICES
      modifies this`views, voices
      ensures Valid() && views == old(views)[k := View(0, [], false, 0)]
    {
      hide DistinctPids, InRing;
      var v := voices[k];
      v.pid := 0;
      v.head := 0;
      v.tail := 0;
      v.preRoll := false;
      v.lastWrite := 0;
      EmptyRing(v.ring[..]);
      ClearDistinct(views, k);
      views := views[k := View(0, [], false, 0)];
      assert forall i :: 0 <= i < VOICES && i != k ==> voices[i].See() == old(voices[i].See());
    }

    /** One voice in one tick. */
    method MixOne(k: nat, now: nat) returns (took: seq<byte>)
      requires Valid() && k < VOICES
      modifies this`views, voices
      ensures Valid() && views == old(views)[k := After(old(views)[k], now)]
      ensures took == old(views)[k].queue[..Take(old(views)[k], now)]
    {
      hide InRing, DistinctPids, Available;
      ghost var was := views[k];
      SamePids(views, k, After(was, now));
      took := [];
      var v := voices[k];
      if v.pid != 0 {
        var avail := Available(v.head, v.tail);
        if avail == 0 {
          v.preRoll := true;
        } else if v.preRoll && avail < PRE_ROLL_BYTES && (now - v.lastWrite) % WORD < PRE_ROLL_TICKS {
          // still filling up
        } else {
          v.preRoll := false;
          took := v.Read(ToRead(avail));
        }
      }
      views := views[k := After(was, now)];
      assert forall i :: 0 <= i < VOICES && i != k ==> voices[i].See() == old(voices[i].See());
    }

    /** `mix_voices`: every sample is the truncated average over the contributing voices, and every voice
        advances by whole frames. */
    method MixVoices(now: nat) returns (out: seq<byte>)
      requires Valid()
      modifies this`views, voices
      ensures Valid() && forall i :: 0 <= i < VOICES ==> views[i] == After(old(views)[i], now)
      ensures |out| == CHUNK && Mixed(out, Chunks(old(views), now))
    {
      hide InRing, DistinctPids, After, Take, Average, SumAt, Chunks, SampleAt, Available;
      ghost var all := views;
      var acc := seq(SAMPLES, _ => 0);
      var v, active := 0, 0;
      NoChunks(now);
      while v < VOICES
        invariant Valid() && 0 <= v <= VOICES && |all| == VOICES
        invariant forall i :: 0 <= i < VOICES ==> views[i] == if i < v then After(all[i], now) else all[i]
        invariant |acc| == SAMPLES && active == |Chunks(all[..v], now)|
        invariant forall i :: 0 <= i < SAMPLES ==> acc[i] == SumAt(Chunks(all[..v], now), i)
      {
        var took := MixOne(v, now);
        NextChunk(all, v, now);
        if |took| > 0 {
          acc := AddSamples(acc, took, Chunks(all[..v], now));
          active := active + 1;
        }
        v := v + 1;
      }
      assert all[..v] == all;
      out := Finish(acc, active, Chunks(all, now));
    }
  }

  /** Add one chunk to the accumulator. */
  method AddSamples(acc: seq<int>, took: seq<byte>, ghost cs: seq<seq<byte>>) returns (sum: seq<int>)
    requires |acc| == SAMPLES && forall i :: 0 <= i < SAMPLES ==> acc[i] == SumAt(cs, i)
    ensures |sum| == SAMPLES && forall i :: 0 <= i < SAMPLES ==> sum[i] == SumAt(cs + [took], i)
  {
    hide SumAt, SampleAt;
    sum := acc;
    var i := 0;
    while i < SAMPLES
      invariant 0 <= i <= SAMPLES && |sum| == SAMPLES
      invariant forall k :: 0 <= k < SAMPLES ==> sum[k] == if k < i then SumAt(cs + [took], k) else SumAt(cs, k)
    {
      SumNext(cs, took, i);
      sum := sum[i := sum[i] + SampleAt(took, i)];
      i := i + 1;
    }
  }

  /** Divide by the number of contributing voices, clamp, and store. */
  method Finish(acc: seq<int>, active: nat, ghost cs: seq<seq<byte>>) returns (out: seq<byte>)
    requires |acc| == SAMPLES && active == |cs| && forall i :: 0 <= i < SAMPLES ==> acc[i] == SumAt(cs, i)
    ensures |out| == CHUNK && Mixed(out, cs)
  {
    hide SumAt, Quot, Sample, Stored;
    out := [];
    var i := 0;
    while i < SAMPLES
      invariant 0 <= i <= SAMPLES && |out| == 2 * i
      invariant forall k :: 0 <= k < i ==> SampleAt(out, k) == Average(cs, k)
    {
      ClampIdle(cs, i);
      var s := if active > 1 then Quot(acc[i], active) else acc[i];
      out := out + Stored(Clamp(s));
      i := i + 1;
    }
  }

  // ---- what is heard ----

  /** A voice that plays alone is passed on byte for byte, followed by silence. */
  lemma Alone(c: seq<byte>, out: seq<byte>)
    requires |c| <= CHUNK && |c| % FRAME == 0 && |out| == CHUNK && Mixed(out, [c])
    ensures out == c + seq(CHUNK - |c|, _ => 0)
  {
    hide Sample;
    forall i: nat | i < SAMPLES
      ensures out[2 * i] == (if 2 * i < |c| then c[2 * i] else 0)
      ensures out[2 * i + 1] == (if 2 * i < |c| then c[2 * i + 1] else 0)
    {
      assert [c][..0] == [];
      SumNext([], c, i);
      assert [] + [c] == [c];
      assert SampleAt(out, i) == SampleAt(c, i);
      StoredBack(out, 2 * i);
      if 2 * i < |c| {
        StoredBack(c, 2 * i);
        assert c[2 * i..2 * i + 2] == out[2 * i..2 * i + 2];
      } else {
        assert out[2 * i..2 * i + 2] == Stored(0) == [0, 0];
      }
    }
    forall j: nat | j < CHUNK
      ensures out[j] == (c + seq(CHUNK - |c|, _ => 0))[j]
    {
      assert j == 2 * (j / 2) || j == 2 * (j / 2) + 1;
    }
  }

  /** Voices that play the same are heard as one. */
  lemma Unison(cs: seq<seq<byte>>, c: seq<byte>, i: nat)
    requires cs != [] && forall k :: 0 <= k < |cs| ==> cs[k] == c
    ensures Average(cs, i) == SampleAt(c, i)
  {
    hide SampleAt;
    SumSame(cs, c, i);
    QuotExact(SampleAt(c, i), |cs|);
  }

  lemma {:induction false} SumSame(cs: seq<seq<byte>>, c: seq<byte>, i: nat)
    requires forall k :: 0 <= k < |cs| ==> cs[k] == c
    ensures SumAt(cs, i) == |cs| * SampleAt(c, i)
    decreases |cs|
  {
    hide SampleAt;
    if cs != [] {
      SumSame(cs[..|cs| - 1], c, i);
    }
  }

  lemma QuotExact(x: int, n: int)
    requires n > 0
    ensures Quot(n * x, n) == x
  {
    if x >= 0 {
      DivExact(x, n);
    } else {
      DivExact(-x, n);
      assert -(n * x) == n * -x;
    }
  }

  lemma DivExact(x: nat, n: nat)
    requires n > 0
    ensures n * x >= 0 && n * x / n == x
  {
    var a := n * x;
    assert a == x * n;
    DivBounded(a, n, x);
    var q := a / n;
    assert a < (q + 1) * n;
    if q < x {
      TimesMore(q + 1, x, n);
    }
  }

  /** A voice after a number of ticks, and what was taken from it. */
  function Ticks(v: View, nows: seq<nat>): View
    decreases |nows|
  {
    if nows == [] then v else Ticks(After(v, nows[0]), nows[1..])
  }

  function Heard(v: View, nows: seq<nat>): seq<byte>
    decreases |nows|
  {
    if nows == [] then [] else v.queue[..Take(v, nows[0])] + Heard(After(v, nows[0]), nows[1..])
  }

  /** However long a voice is mixed, nothing of it is lost, repeated or reordered. */
  lemma {:induction false} HeardInOrder(v: View, nows: seq<nat>)
    ensures Heard(v, nows) + Ticks(v, nows).queue == v.queue && Ticks(v, nows).pid == v.pid
    decreases |nows|
  {
    hide Waiting;
    if nows != [] {
      HeardInOrder(After(v, nows[0]), nows[1..]);
    }
  }

  /** A voice in use that is done waiting plays to its end, a buffer a tick, and leaves less than a frame. */
  lemma {:induction false} PlaysOut(v: View, nows: seq<nat>)
    requires v.pid != 0 && (nows != [] ==> !Waiting(v, nows[0])) && |v.queue| <= |nows| * CHUNK
    ensures |Ticks(v, nows).queue| < FRAME
    decreases |nows|
  {
    if nows != [] && v.queue != [] {
      var w := After(v, nows[0]);
      assert |w.queue| <= (|nows| - 1) * CHUNK || |w.queue| < FRAME;
      if |w.queue| <= (|nows| - 1) * CHUNK {
        PlaysOut(w, nows[1..]);
      } else {
        ShortStays(w, nows[1..]);
      }
    } else if nows != [] {
      ShortStays(v, nows);
    }
  }

  lemma {:induction false} ShortStays(v: View, nows: seq<nat>)
    requires |v.queue| < FRAME
    ensures |Ticks(v, nows).queue| < FRAME
    decreases |nows|
  {
    hide Waiting;
    if nows != [] {
      ShortStays(After(v, nows[0]), nows[1..]);
    }
  }

  /** Waiting ends at the latest ten ticks after the last write, or with 8192 bytes. */
  lemma WaitEnds(v: View, now: nat)
    requires v.lastWrite + 10 <= now < v.lastWrite + WORD || |v.queue| >= 8192
    ensures !Waiting(v, now)
  {
  }

  lemma SumNext(cs: seq<seq<byte>>, took: seq<byte>, i: nat)
    ensures SumAt(cs + [took], i) == SumAt(cs, i) + SampleAt(took, i)
  {
    assert (cs + [took])[..|cs|] == cs;
  }

  lemma NoChunks(now: nat)
    ensures Chunks([], now) == [] && forall i: nat :: SumAt([], i) == 0
  {
  }

  lemma NextChunk(vs: seq<View>, v: nat, now: nat)
    requires v < |vs|
    ensures var took := vs[v].queue[..Take(vs[v], now)];
            Chunks(vs[..v + 1], now) == if |took| > 0 then Chunks(vs[..v], now) + [took] else Chunks(vs[..v], now)
  {
    assert vs[..v + 1][..v] == vs[..v];
  }

  lemma SamePids(vs: seq<View>, k: nat, v: View)
    requires DistinctPids(vs) && k < |vs| && v.pid == vs[k].pid
    ensures DistinctPids(vs[k := v])
  {
  }

  lemma ClearDistinct(vs: seq<View>, k: nat)
    requires DistinctPids(vs) && k < |vs|
    ensures DistinctPids(vs[k := View(0, [], false, 0)])
  {
  }

  lemma SomeRoom(head: nat, tail: nat)
    requires head < RING && tail < RING
    ensures Available(head, tail) < RING
  {
  }

  lemma EmptyRing(ring: seq<byte>)
    requires |ring| == RING
    ensures InRing(ring, 0, 0) == []
  {
  }

  // ---- what a process writes and what is heard of it ----

  datatype Event = Play(pid: nat, data: seq<byte>, at: nat) | Tick(at: nat) | Release(pid: nat)

  /** The voices after an event. */
  function Happened(vs: seq<View>, e: Event): (ws: seq<View>)
    ensures |ws| == |vs|
  {
    match e
    case Play(pid, data, at) => Wrote(vs, pid, data, at)
    case Tick(at) => seq(|vs|, i requires 0 <= i < |vs| => After(vs[i], at))
    case Release(pid) => if First(vs, pid) < |vs| then vs[First(vs, pid) := View(0, [], false, 0)] else vs
  }

  /** What waits for process `pid`. */
  function Waits(vs: seq<View>, pid: nat): seq<byte> { if First(vs, pid) < |vs| then vs[First(vs, pid)].queue else [] }

  /** What was accepted from `pid` by an event. */
  function Accepted(vs: seq<View>, e: Event, pid: nat): seq<byte> {
    if e.Play? && e.pid == pid && SlotFor(vs, pid) < |vs|
    then e.data[..Taken(Claimed(vs[SlotFor(vs, pid)], pid, e.at), e.data)] else []
  }

  /** What was heard of it. */
  function Sounded(vs: seq<View>, e: Event, pid: nat): seq<byte> {
    if e.Tick? && First(vs, pid) < |vs| then vs[First(vs, pid)].queue[..Take(vs[First(vs, pid)], e.at)] else []
  }

  /** No event disturbs the stream of a process that is not released: the bytes accepted from it are heard or still
      wait, once and in order, whatever other processes do. */
  lemma StreamKept(vs: seq<View>, e: Event, pid: nat)
    requires DistinctPids(vs) && pid != 0 && e != Release(pid)
    ensures DistinctPids(Happened(vs, e))
    ensures Waits(vs, pid) + Accepted(vs, e, pid) == Sounded(vs, e, pid) + Waits(Happened(vs, e), pid)
  {
    hide Taken, Take, First, DistinctPids;
    match e
    case Play(q, data, at) => PlayKept(vs, q, data, at, pid);
    case Tick(at) =>
      var ws := Happened(vs, e);
      SamePidsAll(vs, ws);
      FirstUnique(ws, pid, First(vs, pid));
      if First(vs, pid) < |vs| {
        TickKept(vs[First(vs, pid)], at);
      }
    case Release(q) =>
      if First(vs, q) < |vs| {
        ClearDistinct(vs, First(vs, q));
        OtherSlot(vs, First(vs, q), View(0, [], false, 0), pid);
      }
  }

  lemma TickKept(v: View, at: nat)
    ensures v.queue == v.queue[..Take(v, at)] + After(v, at).queue && After(v, at).pid == v.pid
  {
    hide Waiting;
  }

  lemma SamePidsAll(vs: seq<View>, ws: seq<View>)
    requires |ws| == |vs| && DistinctPids(vs) && forall i :: 0 <= i < |vs| ==> ws[i].pid == vs[i].pid
    ensures DistinctPids(ws)
  {
  }

  lemma PlayKept(vs: seq<View>, q: nat, data: seq<byte>, at: nat, pid: nat)
    requires DistinctPids(vs) && pid != 0
    ensures var e := Play(q, data, at); var ws := Happened(vs, e);
            DistinctPids(ws) && Waits(vs, pid) + Accepted(vs, e, pid) == Waits(ws, pid)
  {
    hide First, DistinctPids;
    var k := SlotFor(vs, q);
    if data != [] && k < |vs| {
      var v := Claimed(vs[k], q, at);
      ClaimDistinct(vs, q, at);
      var w := Wrote(vs, q, data, at)[k];
      SamePids(vs[k := v], k, w);
      assert vs[k := v][k := w] == vs[k := w];
      if q == pid {
        FirstUnique(vs[k := w], pid, k);
      } else {
        OtherSlot(vs, k, w, pid);
      }
    }
  }

  /** Where a slot of others goes to another process, the slot of `pid` is where it was. */
  lemma OtherSlot(vs: seq<View>, k: nat, w: View, pid: nat)
    requires k < |vs| && vs[k].pid != pid && w.pid != pid
    ensures Waits(vs[k := w], pid) == Waits(vs, pid)
  {
    hide First;
    FirstUnique(vs[k := w], pid, First(vs, pid));
  }

  /** Over a whole run: all that was accepted and all that was heard. */
  function AllAccepted(vs: seq<View>, es: seq<Event>, pid: nat): seq<byte>
    decreases |es|
  {
    if es == [] then [] else Accepted(vs, es[0], pid) + AllAccepted(Happened(vs, es[0]), es[1..], pid)
  }

  function AllSounded(vs: seq<View>, es: seq<Event>, pid: nat): seq<byte>
    decreases |es|
  {
    if es == [] then [] else Sounded(vs, es[0], pid) + AllSounded(Happened(vs, es[0]), es[1..], pid)
  }

  function AfterAll(vs: seq<View>, es: seq<Event>): seq<View>
    decreases |es|
  {
    if es == [] then vs else AfterAll(Happened(vs, es[0]), es[1..])
  }

  /** What a process got accepted is, byte for byte, what was heard of it followed by what still waits, however many
      other processes play and stop meanwhile. */
  lemma {:induction false} StreamFaithful(vs: seq<View>, es: seq<Event>, pid: nat)
    requires DistinctPids(vs) && pid != 0 && forall i :: 0 <= i < |es| ==> es[i] != Release(pid)
    ensures Waits(vs, pid) + AllAccepted(vs, es, pid) == AllSounded(vs, es, pid) + Waits(AfterAll(vs, es), pid)
    decreases |es|
  {
    hide Waits, Accepted, Sounded, Happened, DistinctPids;
    if es != [] {
      var ws := Happened(vs, es[0]);
      StreamKept(vs, es[0], pid);
      StreamFaithful(ws, es[1..], pid);
      var a, s := Accepted(vs, es[0], pid), Sounded(vs, es[0], pid);
      var rest, more := AllAccepted(ws, es[1..], pid), AllSounded(ws, es[1..], pid);
      calc {
        Waits(vs, pid) + (a + rest);
        (Waits(vs, pid) + a) + rest;
        (s + Waits(ws, pid)) + rest;
        s + (Waits(ws, pid) + rest);
        s + (more + Waits(AfterAll(vs, es), pid));
        (s + more) + Waits(AfterAll(vs, es), pid);
      }
    }
  }
}
