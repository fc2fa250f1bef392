/**
 Streaming silence hold-back. Trailing zero samples are held instead of written, flushed when sound follows, and may be
 made up for at the start of the next utterance. The output site is the sequence of bytes it has received.
 */
module Audio {
  import opened Strings

  type byte = x: int | 0 <= x < 256

  const BYTES_PER_MSEC: nat := 48
  const HOLD_LIMIT: nat := 48000

  function Zeros(n: nat): (z: seq<byte>)
    ensures |z| == n && forall i :: 0 <= i < n ==> z[i] == 0
  {
    seq<byte>(n, _ => 0)
  }

  /** The fields that OnAudioData and Speak use. */
  datatype Sink = Sink(
    hasSite: bool, optimize: bool, compensated: bool, held: u32, compensation: u32,
    lastCompleted: u32, started: u32, written: seq<byte>)

  // ----- trailing silence

  /** Silence before byte `n`, sample by sample, counted to the end of the data. */
  function SilentFrom(data: seq<byte>, n: nat): (t: nat)
    requires n <= |data| && n % 2 == 0
    ensures |data| - n <= t <= |data|
  {
    if n == 0 then |data|
    else if data[n - 2] != 0 || data[n - 1] != 0 then |data| - n
    else SilentFrom(data, n - 2)
  }

  function TrailingSilence(data: seq<byte>): (t: nat)
    ensures t <= |data|
  {
    if |data| < 2 then 0 else SilentFrom(data, |data| - |data| % 2)
  }

  lemma {:induction false} SilentFromIsZero(data: seq<byte>, n: nat)
    requires n <= |data| && n % 2 == 0
    ensures var t := SilentFrom(data, n);
      (forall i :: |data| - t <= i < n ==> data[i] == 0) &&
      (t < |data| ==>
        (|data| - t) % 2 == 0 && |data| - t >= 2 && (data[|data| - t - 2] != 0 || data[|data| - t - 1] != 0))
  {
    if n > 0 && data[n - 2] == 0 && data[n - 1] == 0 {
      SilentFromIsZero(data, n - 2);
    }
  }

  /** The silent tail is the longest run of zero samples; for an even length that is all that is cut. */
  lemma TrailingSilenceIsMaximal(data: seq<byte>)
    requires |data| >= 2
    ensures var t, even := TrailingSilence(data), |data| - |data| % 2;
      (forall i :: |data| - t <= i < even ==> data[i] == 0) &&
      (t < |data| ==>
        (|data| - t) % 2 == 0 && |data| - t >= 2 && (data[|data| - t - 2] != 0 || data[|data| - t - 1] != 0)) &&
      t >= |data| % 2
  {
    SilentFromIsZero(data, |data| - |data| % 2);
  }

  // ----- one call

  /** Whether the previous utterance ended less than five seconds ago; ticks wrap around. */
  predicate InWindow(a: Sink, now: u32) {
    a.lastCompleted != 0 && U32(now - a.lastCompleted) < 5000
  }

  function CompensationFor(a: Sink, now: u32): u32 {
    var silenceMs := a.held / BYTES_PER_MSEC;
    var passedMs := U32(now - a.started);
    if silenceMs > passedMs then U32((silenceMs - passedMs) * BYTES_PER_MSEC) else 0
  }

  /** The first chunk of an utterance: make up for the silence held back before it, less the time that has passed. */
  function Compensate(a: Sink, now: u32): Sink {
    var c := if InWindow(a, now) then CompensationFor(a, now) else a.compensation;
    a.(compensation := c, written := a.written + (if InWindow(a, now) then Zeros(c) else []), held := 0,
      compensated := true)
  }

  function Entry(a: Sink, now: u32): Sink {
    if a.optimize && !a.compensated then Compensate(a, now) else a
  }

  function Flush(a: Sink): Sink {
    a.(written := a.written + Zeros(a.held), held := 0)
  }

  /** Without the optimisation, what is held is cut off the chunk, which must be long enough. */
  predicate CanDeliver(a: Sink, data: seq<byte>) {
    a.optimize || a.held <= |data|
  }

  /** What is left to do with the chunk once compensation is settled. */
  function Deliver(a: Sink, data: seq<byte>): Sink
    requires CanDeliver(a, data)
  {
    var silent := TrailingSilence(data);
    if !a.optimize then a.(written := a.written + data[..|data| - a.held])
    else if silent == |data| then
      if a.held < HOLD_LIMIT then a.(held := U32(a.held + silent)) else Flush(a).(written := Flush(a).written + data)
    else Flush(a).(held := U32(silent), written := Flush(a).written + data[..|data| - silent])
  }

  /** Silence is held only under the optimisation. */
  predicate Valid(a: Sink) {
    !a.optimize ==> a.held == 0
  }

  function OnAudio(a: Sink, data: seq<byte>, now: u32): Sink
    requires a.hasSite ==> CanDeliver(a, data)
  {
    if a.hasSite then Deliver(Entry(a, now), data) else a
  }

  class AudioWriter {
    var m_hasOutputSite: bool
    var m_siteBytes: seq<byte>
    var m_onlineDelayOptimization: bool
    var m_compensatedSilenceWritten: bool
    var m_lastSilentBytes: u32
    var m_compensatedSilentBytes: u32
    var m_lastSpeakCompletedTicks: u32
    var m_thisSpeakStartedTicks: u32

    constructor ()
      ensures View() == Sink(false, false, false, 0, 0, 0, 0, [])
    {
      m_hasOutputSite, m_siteBytes, m_onlineDelayOptimization, m_compensatedSilenceWritten := false, [], false, false;
      m_lastSilentBytes, m_compensatedSilentBytes, m_lastSpeakCompletedTicks, m_thisSpeakStartedTicks := 0, 0, 0, 0;
    }

    function View(): Sink
      reads this
    {
      Sink(m_hasOutputSite, m_onlineDelayOptimization, m_compensatedSilenceWritten, m_lastSilentBytes,
           m_compensatedSilentBytes, m_lastSpeakCompletedTicks, m_thisSpeakStartedTicks, m_siteBytes)
    }

    /** The trailing silence of 16-bit mono data, in bytes. */
    static method GetTrailingSilenceLengthMono(waveData: array<byte>) returns (length: nat)
      ensures length == TrailingSilence(waveData[..])
    {
      if waveData.Length < 2 {
        return 0;
      }
      var p := waveData.Length - waveData.Length % 2;
      while true
        invariant p % 2 == 0 && 2 <= p <= waveData.Length
        invariant SilentFrom(waveData[..], p) == TrailingSilence(waveData[..])
        decreases p
      {
        p := p - 2;
        if waveData[p] != 0 || waveData[p + 1] != 0 {
          return waveData.Length - p - 2;
        }
        if p == 0 {
          return waveData.Length;
        }
      }
    }

    method WriteSilence(n: nat)
      modifies this`m_siteBytes
      ensures m_siteBytes == old(m_siteBytes) + Zeros(n)
    {
      if n != 0 {
        var mem := new byte[n](_ => 0);
        assert mem[..] == Zeros(n);
        m_siteBytes := m_siteBytes + mem[..];
      } else {
        assert m_siteBytes + Zeros(0) == m_siteBytes;
      }
    }

    /** The start-of-utterance part of OnAudioData. */
    method CompensateSilence(currentTicks: u32)
      modifies this`m_siteBytes, this`m_compensatedSilentBytes, this`m_lastSilentBytes, this`m_compensatedSilenceWritten
      ensures View() == Compensate(old(View()), currentTicks)
    {
      hide Zeros;
      var passedMs := U32(currentTicks - m_thisSpeakStartedTicks);
      if m_lastSpeakCompletedTicks != 0 && U32(currentTicks - m_lastSpeakCompletedTicks) < 5000 {
        var silenceMs := m_lastSilentBytes / BYTES_PER_MSEC;
        m_compensatedSilentBytes := if silenceMs > passedMs then U32((silenceMs - passedMs) * BYTES_PER_MSEC) else 0;
        WriteSilence(m_compensatedSilentBytes);
      } else {
        assert m_siteBytes + [] == m_siteBytes;
      }
      m_lastSilentBytes := 0;
      m_compensatedSilenceWritten := true;
    }

    /** Receives one chunk of audio at time `currentTicks`; writes to the site succeed. */
    method OnAudioData(data: array<byte>, currentTicks: u32) returns (accepted: nat)
      requires m_hasOutputSite ==> CanDeliver(View(), data[..])
      requires data.Length < TWO_32
      modifies this
      ensures View() == OnAudio(old(View()), data[..], currentTicks) && (Valid(old(View())) ==> Valid(View()))
      ensures accepted == data.Length
    {
      hide Zeros;
      accepted := data.Length;
      if !m_hasOutputSite {
        return;
      }
      if m_onlineDelayOptimization {
        if !m_compensatedSilenceWritten {
          CompensateSilence(currentTicks);
        }
        assert View() == Entry(old(View()), currentTicks);
        var silentBytes := GetTrailingSilenceLengthMono(data);
        if silentBytes == data.Length {
          if m_lastSilentBytes < BYTES_PER_MSEC * 1000 {
            m_lastSilentBytes := U32(m_lastSilentBytes + silentBytes);
            return;
          }
          WriteSilence(m_lastSilentBytes);
          m_lastSilentBytes := 0;
        } else {
          WriteSilence(m_lastSilentBytes);
          m_lastSilentBytes := U32(silentBytes);
        }
      }
      // the subtraction does not underflow: the index below is checked
      m_siteBytes := m_siteBytes + data[..data.Length - m_lastSilentBytes];
    }

    /** The resets at the start of Speak. */
    method BeginSpeak(currentTicks: u32)
      modifies this
      ensures View() == Begin(old(View()), currentTicks)
    {
      m_hasOutputSite := true;
      m_compensatedSilenceWritten := false;
      m_compensatedSilentBytes := 0;
      m_lastSilentBytes := 0;
      m_thisSpeakStartedTicks := currentTicks;
    }
  }

  function Begin(a: Sink, now: u32): Sink {
    a.(hasSite := true, compensated := false, compensation := 0, held := 0, started := now)
  }

  /** Speak returns: the site is released and the time noted. */
  function End(a: Sink, now: u32): Sink {
    a.(hasSite := false, lastCompleted := now)
  }

  // ----- conservation

  /** What the site has received, once the held silence is counted as well. */
  function Delivered(a: Sink): seq<byte> {
    a.written + Zeros(a.held)
  }

  lemma ZerosConcat(m: nat, n: nat)
    ensures Zeros(m) + Zeros(n) == Zeros(m + n)
  {
  }

  /** The bytes cut off the chunk are exactly the zeros that are held, for chunks that lose no odd byte. */
  lemma TailIsZeros(data: seq<byte>)
    requires |data| % 2 == 0 || |data| == 1 || Last(data) == 0
    ensures var t := TrailingSilence(data); data == data[..|data| - t] + Zeros(t)
  {
    if |data| >= 2 {
      TrailingSilenceIsMaximal(data);
    }
  }

  /**
   When nothing is lost: nothing held without the optimisation; with it even length, a single byte, a zero last byte, or
   silence beyond the holding limit.
   */
  predicate LosesNothing(a: Sink, data: seq<byte>) {
    if !a.optimize then a.held == 0
    else
      |data| % 2 == 0 || |data| == 1 || Last(data) == 0 || (TrailingSilence(data) == |data| && a.held >= HOLD_LIMIT)
  }

  lemma SilentChunkConserves(a: Sink, data: seq<byte>)
    requires a.optimize && |data| + HOLD_LIMIT < TWO_32 && TrailingSilence(data) == |data|
    requires data == Zeros(|data|) || a.held >= HOLD_LIMIT
    ensures Delivered(Deliver(a, data)) == Delivered(a) + data
  {
    ZerosConcat(a.held, |data|);
    assert Delivered(a) + data + Zeros(0) == Delivered(a) + data;
    assert a.written + (Zeros(a.held) + Zeros(|data|)) == a.written + Zeros(a.held) + Zeros(|data|);
  }

  lemma SoundingChunkConserves(a: Sink, data: seq<byte>)
    requires a.optimize && |data| + HOLD_LIMIT < TWO_32 && TrailingSilence(data) < |data|
    requires var t := TrailingSilence(data); data == data[..|data| - t] + Zeros(t)
    ensures Delivered(Deliver(a, data)) == Delivered(a) + data
  {
    var t := TrailingSilence(data);
    assert Delivered(Deliver(a, data)) == a.written + Zeros(a.held) + data[..|data| - t] + Zeros(t);
    assert a.written + Zeros(a.held) + data[..|data| - t] + Zeros(t) == Delivered(a) + (data[..|data| - t] + Zeros(t));
  }

  /** An odd last byte that is not zero is replaced by a zero, unless the chunk is written whole. */
  lemma OddByteIsLost(a: Sink, data: seq<byte>)
    requires a.optimize && |data| + HOLD_LIMIT < TWO_32 && |data| % 2 == 1 && |data| > 1 && Last(data) != 0
    requires TrailingSilence(data) == |data| ==> a.held < HOLD_LIMIT
    ensures Delivered(Deliver(a, data)) != Delivered(a) + data
  {
    hide SilentFrom;
    TrailingSilenceIsMaximal(data);
    var d := Deliver(a, data);
    assert d.held > 0;
    assert Last(Delivered(d)) == Last(Zeros(d.held)) == 0;
    assert Last(Delivered(a) + data) == Last(data);
  }

  /** Nothing is lost, invented or reordered by holding and flushing, exactly under that condition. */
  lemma DeliverConserves(a: Sink, data: seq<byte>)
    requires CanDeliver(a, data) && |data| + HOLD_LIMIT < TWO_32
    ensures Delivered(Deliver(a, data)) == Delivered(a) + data <==> LosesNothing(a, data)
  {
    hide SilentFrom, Zeros;
    var t := TrailingSilence(data);
    if !a.optimize {
      NothingHeld(a, data);
      if a.held > 0 {
        assert |Delivered(Deliver(a, data))| < |Delivered(a) + data|;
      }
    } else if |data| % 2 == 0 || |data| == 1 || Last(data) == 0 {
      TailIsZeros(data);
      if t == |data| {
        assert data[..|data| - t] + Zeros(t) == Zeros(t);
        SilentChunkConserves(a, data);
      } else {
        SoundingChunkConserves(a, data);
      }
    } else if t == |data| && a.held >= HOLD_LIMIT {
      SilentChunkConserves(a, data);
    } else {
      OddByteIsLost(a, data);
    }
  }

  lemma NothingHeld(a: Sink, data: seq<byte>)
    requires !a.optimize && CanDeliver(a, data)
    ensures a.held == 0 ==> Delivered(Deliver(a, data)) == Delivered(a) + data
    ensures |Delivered(Deliver(a, data))| == |a.written| + |data|
  {
    if a.held == 0 {
      assert a.written + Zeros(0) == a.written;
      assert a.written + data + Zeros(0) == a.written + data;
    }
  }

  /** One call from any state: everything received is written or held, behind the compensating silence. */
  lemma CallConserves(a: Sink, data: seq<byte>, now: u32)
    requires Valid(a) && a.hasSite && |data| % 2 == 0 && |data| + HOLD_LIMIT < TWO_32
    ensures Delivered(OnAudio(a, data, now)) == Delivered(Entry(a, now)) + data
  {
    DeliverConserves(Entry(a, now), data);
  }

  /** The chunks of one utterance with the times they arrive at. */
  function Concat(chunks: seq<(seq<byte>, u32)>): seq<byte> {
    if chunks == [] then [] else Concat(Front(chunks)) + Last(chunks).0
  }

  function RunChunks(a: Sink, chunks: seq<(seq<byte>, u32)>): (r: Sink)
    requires Valid(a)
    ensures Valid(r) && r.hasSite == a.hasSite && r.optimize == a.optimize
  {
    if chunks == [] then a else OnAudio(RunChunks(a, Front(chunks)), Last(chunks).0, Last(chunks).1)
  }

  predicate EvenChunks(chunks: seq<(seq<byte>, u32)>) {
    forall i :: 0 <= i < |chunks| ==> |chunks[i].0| % 2 == 0 && |chunks[i].0| + HOLD_LIMIT < TWO_32
  }

  /** With the optimisation, whatever is held on entry. */
  lemma {:induction false} HoldingConserves(a: Sink, chunks: seq<(seq<byte>, u32)>)
    requires Valid(a) && a.hasSite && a.optimize && !a.compensated && a.compensation == 0
    requires chunks != [] && EvenChunks(chunks)
    ensures var r := RunChunks(a, chunks);
      Delivered(r) == a.written + Zeros(r.compensation) + Concat(chunks) && r.compensated
  {
    hide Deliver, Zeros, Delivered, Entry;
    var rest, data, now := Front(chunks), Last(chunks).0, Last(chunks).1;
    assert chunks[|chunks| - 1] == Last(chunks);
    var b := RunChunks(a, rest);
    CallConserves(b, data, now);
    EntryAndDelivery(b, data, now);
    if rest == [] {
      assert [] + data == data;
    } else {
      assert EvenChunks(rest) by {
        assert forall i :: 0 <= i < |rest| ==> rest[i] == chunks[i];
      }
      HoldingConserves(a, rest);
      var c := a.written + Zeros(b.compensation);
      assert c + Concat(rest) + data == c + (Concat(rest) + data);
    }
  }

  /** Without the optimisation every chunk is written as it comes, whatever its length. */
  lemma {:induction false} ChunksPassThrough(a: Sink, chunks: seq<(seq<byte>, u32)>)
    requires Valid(a) && a.hasSite && !a.optimize
    ensures RunChunks(a, chunks) == a.(written := a.written + Concat(chunks))
  {
    if chunks == [] {
      assert a.written + [] == a.written;
    } else {
      var rest, data := Concat(Front(chunks)), Last(chunks).0;
      ChunksPassThrough(a, Front(chunks));
      assert data[..|data| - 0] == data;
      assert a.written + rest + data == a.written + (rest + data);
    }
  }

  /**
   Over a whole utterance that enters with any amount of held silence, with and without the optimisation: bytes written,
   then the silence still held, are the compensating silence followed by every chunk received. Without the optimisation
   nothing is held and nothing is compensated.
   */
  lemma UtteranceConserves(a: Sink, chunks: seq<(seq<byte>, u32)>)
    requires Valid(a) && a.hasSite && !a.compensated && a.compensation == 0
    requires chunks != [] && (a.optimize ==> EvenChunks(chunks))
    ensures var r := RunChunks(a, chunks);
      Delivered(r) == a.written + Zeros(r.compensation) + Concat(chunks) &&
      r.compensated == a.optimize && (!a.optimize ==> r.held == 0 && r.compensation == 0)
  {
    hide RunChunks, Concat;
    if a.optimize {
      HoldingConserves(a, chunks);
    } else {
      ChunksPassThrough(a, chunks);
      assert a.written + Zeros(0) == a.written && a.written + Concat(chunks) + Zeros(0) == a.written + Concat(chunks);
    }
  }

  /** From Speak on, in either setting, what is written and held is all chunks behind what was written before. */
  lemma SpeakDelivers(a: Sink, now: u32, chunks: seq<(seq<byte>, u32)>)
    requires chunks != [] && (a.optimize ==> EvenChunks(chunks))
    ensures Delivered(RunChunks(Begin(a, now), chunks)) == a.written + Concat(chunks)
  {
    hide Zeros, Delivered, Concat, RunChunks;
    var b := Begin(a, now);
    UtteranceConserves(b, chunks);
    NothingMadeUp(b, chunks);
    NoZeros(a.written);
  }

  lemma NoZeros(s: seq<byte>)
    ensures s + Zeros(0) == s
  {
  }

  /** Without held silence the first chunk has nothing to make up for. */
  lemma {:induction false} NothingMadeUp(a: Sink, chunks: seq<(seq<byte>, u32)>)
    requires Valid(a) && a.compensation == 0 && (a.compensated || a.held == 0)
    ensures var r := RunChunks(a, chunks); r.compensation == 0 && (r.compensated || r.held == 0)
  {
    if chunks != [] {
      NothingMadeUp(a, Front(chunks));
    }
  }

  /** Compensation is settled by the first chunk and not touched afterwards. */
  lemma EntryAndDelivery(a: Sink, data: seq<byte>, now: u32)
    requires Valid(a) && a.hasSite && a.optimize
    ensures var r := OnAudio(a, data, now);
      r.compensated && (a.compensated ==> Entry(a, now) == a && r.compensation == a.compensation) &&
      (!a.compensated && a.compensation == 0 ==> Delivered(Entry(a, now)) == a.written + Zeros(r.compensation))
  {
    hide TrailingSilence, CompensationFor;
    var e := Entry(a, now);
    assert Deliver(e, data).compensated == e.compensated && Deliver(e, data).compensation == e.compensation;
    assert a.written + Zeros(0) == a.written;
    assert e.written + Zeros(0) == e.written;
  }

  // ----- what is held, and what is made up for

  predicate AllZero(data: seq<byte>, from: nat)
    requires from <= |data|
  {
    forall i :: from <= i < |data| ==> data[i] == 0
  }

  /**
   With the optimisation, a chunk of zero samples is held until a second of silence is; of any other chunk exactly the
   zero samples at its end are held, behind which nothing is written.
   */
  lemma SilenceIsHeld(a: Sink, data: seq<byte>, now: u32)
    requires Valid(a) && a.hasSite && a.optimize && |data| % 2 == 0 && |data| + 48000 < TWO_32
    ensures var e, r, n := Entry(a, now), OnAudio(a, data, now), |data|;
      if AllZero(data, 0) then
        if e.held < 48000 then r.written == e.written && r.held == e.held + n
        else r.written == e.written + Zeros(e.held) + data && r.held == 0
      else
        r.held <= n - 2 && r.written == e.written + Zeros(e.held) + data[..n - r.held] && AllZero(data, n - r.held) &&
        (data[n - r.held - 2] != 0 || data[n - r.held - 1] != 0)
  {
    hide TrailingSilence, Zeros;
    TailIs(data);
    var e := Entry(a, now);
    assert e.optimize && e.hasSite;
    hide Entry, AllZero;
    assert data[..|data|] == data;
  }

  /** The silent tail of a chunk of even length. */
  lemma TailIs(data: seq<byte>)
    requires |data| % 2 == 0
    ensures var t := TrailingSilence(data);
      AllZero(data, |data| - t) && (t == |data| <==> AllZero(data, 0)) &&
      (t < |data| ==> t <= |data| - 2 && (data[|data| - t - 2] != 0 || data[|data| - t - 1] != 0))
  {
    hide SilentFrom;
    if |data| >= 2 {
      TrailingSilenceIsMaximal(data);
    }
  }

  /**
   The first chunk of an utterance: if the last one ended less than five seconds ago, the silence still held, in whole
   milliseconds and less the time since Speak, is written, and otherwise nothing; what was held is given up.
   */
  lemma CompensationIs(a: Sink, now: u32)
    requires a.optimize && !a.compensated
    ensures var r, passed := Entry(a, now), (now - a.started) % TWO_32;
      var recent := a.lastCompleted != 0 && (now - a.lastCompleted) % TWO_32 < 5000;
      var ms := if recent && a.held / 48 > passed then a.held / 48 - passed else 0;
      r.held == 0 && r.compensated && r.written == a.written + Zeros(ms * 48) && (recent ==> r.compensation == ms * 48)
  {
    assert a.written + Zeros(0) == a.written == a.written + [];
    assert (a.held / 48) * 48 <= a.held;
  }

  // ----- bounds

  /** Compensation never exceeds the silence held before it, whatever the tick counters do. */
  lemma CompensationIsBounded(a: Sink, now: u32)
    ensures CompensationFor(a, now) <= a.held
    ensures |Entry(a, now).written| + Entry(a, now).held <= |a.written| + a.held
  {
    var ms, passed := a.held / BYTES_PER_MSEC, U32(now - a.started);
    assert ms * BYTES_PER_MSEC <= a.held;
  }

  /** No call, from any state and for any chunk, writes and holds more than it received on top of what was held. */
  lemma CallIsBounded(a: Sink, data: seq<byte>, now: u32)
    requires Valid(a)
    ensures var r := OnAudio(a, data, now); |r.written| + r.held <= |a.written| + a.held + |data|
    ensures a.held < HOLD_LIMIT + |data| ==> OnAudio(a, data, now).held < HOLD_LIMIT + |data|
  {
    CompensationIsBounded(a, now);
  }

  datatype Event = BeginAt(now: u32) | Chunk(data: seq<byte>, now: u32) | EndAt(now: u32)

  function Apply(a: Sink, e: Event): (r: Sink)
    requires Valid(a)
    ensures Valid(r)
  {
    match e
    case BeginAt(now) => Begin(a, now)
    case Chunk(data, now) => OnAudio(a, data, now)
    case EndAt(now) => End(a, now)
  }

  function Run(a: Sink, events: seq<Event>): (r: Sink)
    requires Valid(a)
    ensures Valid(r)
  {
    if events == [] then a else Apply(Run(a, Front(events)), Last(events))
  }

  function Received(events: seq<Event>): nat {
    if events == [] then 0 else Received(Front(events)) + if Last(events).Chunk? then |Last(events).data| else 0
  }

  function Longest(events: seq<Event>): nat {
    if events == [] then 0
    else
      var m := Longest(Front(events));
      if Last(events).Chunk? && |Last(events).data| > m then |Last(events).data| else m
  }

  /**
   Over any sequence of utterances, from any state: what is written never exceeds what was received or held before.
   */
  lemma {:induction false} TotalIsBounded(a: Sink, events: seq<Event>)
    requires Valid(a)
    ensures var r := Run(a, events); |r.written| + r.held <= |a.written| + a.held + Received(events)
  {
    if events != [] {
      TotalIsBounded(a, Front(events));
      if Last(events).Chunk? {
        CallIsBounded(Run(a, Front(events)), Last(events).data, Last(events).now);
      }
    }
  }

  /** Held silence stays below one second plus the longest chunk. */
  lemma {:induction false} HeldIsBounded(a: Sink, events: seq<Event>)
    requires Valid(a) && a.held < HOLD_LIMIT
    ensures Run(a, events).held < HOLD_LIMIT + Longest(events)
  {
    if events != [] {
      HeldIsBounded(a, Front(events));
      CompensationIsBounded(Run(a, Front(events)), Last(events).now);
    }
  }

  /**
   Speak clears the held count before the first chunk can use it, so from the first Speak on, whatever was held before,
   no compensating silence is ever written.
   */
  lemma {:induction false} SpeakNeverCompensates(a: Sink, now: u32, events: seq<Event>)
    requires Valid(a)
    ensures Run(Begin(a, now), events).compensation == 0
  {
    NothingToCompensate(Begin(a, now), events);
  }

  lemma {:induction false} NothingToCompensate(a: Sink, events: seq<Event>)
    requires Valid(a) && a.compensation == 0 && (a.compensated || a.held == 0)
    ensures var r := Run(a, events); r.compensation == 0 && (r.compensated || r.held == 0)
  {
    if events != [] {
      NothingToCompensate(a, Front(events));
    }
  }
}
