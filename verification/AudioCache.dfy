/** The lazily loaded audio handle: reading chunks through a bounded cache returns what
    slicing the whole waveform returns. Samples are mono, at the file's own rate. */
module AudioCache {
  import opened Outcomes
  import opened Numbers

  type Wave = seq<real>

  /** A slice bound, as the runtime reads it: negative bounds count from the end. */
  function Bound(i: int, length: nat): (r: nat)
    ensures r <= length
  {
    if i < 0 then Max(0, length + i) else Min(i, length)
  }

  /** `wave[begin:end]`. */
  function Slice(wave: Wave, begin: int, end: int): Wave {
    if Bound(begin, |wave|) <= Bound(end, |wave|) then wave[Bound(begin, |wave|)..Bound(end, |wave|)] else []
  }

  /** `load_audio` for `frames > 0` frames from `offset`: a negative offset reads from the
      start, and reading past the end stops there. */
  function Load(wave: Wave, offset: int, frames: int): Wave {
    var start := Max(offset, 0);
    if start >= |wave| || frames <= 0 then [] else wave[start..Min(start + frames, |wave|)]
  }

  /** Reading a chunk agrees with slicing. */
  ghost predicate Agree(wave: Wave, begin: int, end: int) {
    Load(wave, begin, end - begin) == Slice(wave, begin, end)
  }

  /** When reading `begin..end` agrees with slicing on every waveform of a length. */
  predicate AgreesOn(length: nat, begin: int, end: int) {
    begin >= 0 || length == 0 || (begin + length == 0 && end < 0) || (begin + length <= 0 && end >= length)
  }

  /** The condition is exact: outside it some waveform of that length tells the two apart. */
  lemma {:induction false} AgreementIsExact(length: nat, begin: int, end: int)
    requires begin < end
    ensures AgreesOn(length, begin, end) <==> forall wave: Wave :: |wave| == length ==> Agree(wave, begin, end)
  {
    if AgreesOn(length, begin, end) {
      forall wave: Wave | |wave| == length ensures Agree(wave, begin, end) {
      }
    } else {
      var ramp: Wave := seq(length, i => i as real);
      var loaded, sliced := Load(ramp, begin, end - begin), Slice(ramp, begin, end);
      assert loaded != [] && loaded[0] == 0.0;
      assert sliced != [] ==> sliced[0] == Bound(begin, length) as real;
      assert !Agree(ramp, begin, end);
    }
  }

  /** A negative start that the two readings treat differently. */
  lemma NegativeStartDisagrees()
    ensures Load([1.0, 2.0], -1, 2) == [1.0, 2.0] && Slice([1.0, 2.0], -1, 1) == []
  {
  }

  // ------------------------------------------------------------ the handle

  /** Which reads of this call fail. */
  datatype Faults = Faults(chunkRead: bool, fullRead: bool)

  function Frame(ms: real, rate: int): int {
    RoundHalfEven((ms / 1000.0) * rate as real)
  }

  /** What an eagerly loaded handle returns for a chunk. */
  function EagerChunk(wave: Wave, rate: int, beginMs: real, endMs: real): Wave {
    var begin, end := Frame(beginMs, rate), Frame(endMs, rate);
    if end <= begin then [] else Slice(wave, begin, end)
  }

  /** The samples of a chunk that starts in the file: those between the nearest frames to its
      bounds, as far as the file goes. */
  lemma {:induction false} ChunkSamples(wave: Wave, rate: int, beginMs: real, endMs: real, begin: int, end: int)
    requires NearestEven(beginMs * rate as real / 1000.0, begin) && NearestEven(endMs * rate as real / 1000.0, end)
    requires begin >= 0
    ensures begin == Frame(beginMs, rate) && end == Frame(endMs, rate)
    ensures var r := EagerChunk(wave, rate, beginMs, endMs);
            && (if end <= begin || |wave| <= begin then r == []
                else |r| == (if end < |wave| then end else |wave|) - begin)
            && forall k :: 0 <= k < |r| ==> begin + k < |wave| && r[k] == wave[begin + k]
  {
    RoundIsNearestEven(beginMs / 1000.0 * rate as real, begin);
    RoundIsNearestEven(endMs / 1000.0 * rate as real, end);
    assert beginMs / 1000.0 * rate as real == beginMs * rate as real / 1000.0;
    assert endMs / 1000.0 * rate as real == endMs * rate as real / 1000.0;
  }

  type Key = (int, int)

  ghost predicate Distinct(keys: seq<Key>) {
    forall i, j :: 0 <= i < j < |keys| ==> keys[i] != keys[j]
  }

  /** The order list after `key` was added: the oldest key goes when the limit is exceeded. */
  function Admit(order: seq<Key>, key: Key, limit: int): seq<Key> {
    var longer := order + [key];
    if |longer| > limit then longer[1..] else longer
  }

  lemma {:induction false} OldestLeaves(keys: seq<Key>, oldest: Key, rest: seq<Key>)
    requires keys != [] && Distinct(keys) && oldest == keys[0] && rest == keys[1..]
    ensures Distinct(rest) && forall key :: key in rest <==> key in keys && key != oldest
  {
    assert keys == [oldest] + rest;
    assert forall i :: 0 <= i < |rest| ==> rest[i] == keys[i + 1];
  }

  class AudioFile {
    const wave: Wave
    const rate: int
    const limit: int
    var tensor: Wave
    var lazy: bool
    var cache: map<Key, Wave>
    var order: seq<Key>

    /** The cached keys are the order list, without repeats and within the limit, and every
        cached chunk is what one of the two readings returns. */
    ghost predicate Valid()
      reads this
    {
      && (if lazy then tensor == [] else tensor == wave)
      && Distinct(order) && |order| <= Max(limit, 0)
      && (forall key :: key in cache <==> key in order)
      && (forall key :: key in cache ==> CachedRight(key, cache[key]))
    }

    ghost predicate CachedRight(key: Key, data: Wave) {
      key.0 < key.1 && (data == Load(wave, key.0, key.1 - key.0) || data == Slice(wave, key.0, key.1))
    }

    /** A chunk that is not cached and cannot be read on its own. */
    ghost predicate FallsBack(beginMs: real, endMs: real, faults: Faults)
      reads this
    {
      && lazy && Frame(beginMs, rate) < Frame(endMs, rate) && faults.chunkRead
      && (Frame(beginMs, rate), Frame(endMs, rate)) !in order
    }

    /** `ASRAudioFile.lazy`. */
    constructor (wave: Wave, rate: int, limit: int)
      ensures Valid() && this.wave == wave && this.rate == rate && this.limit == limit
      ensures lazy && order == []
    {
      this.wave, this.rate, this.limit := wave, rate, limit;
      tensor, lazy, cache, order := [], true, map[], [];
    }

    /** `chunk`; `None` is the error of a fallback whose full load fails too. */
    method Chunk(beginMs: real, endMs: real, faults: Faults) returns (r: Option<Wave>)
      requires Valid()
      modifies this
      ensures Valid()
      ensures r.None? <==> old(FallsBack(beginMs, endMs, faults)) && faults.fullRead
      ensures lazy <==> old(lazy) && !(old(FallsBack(beginMs, endMs, faults)) && !faults.fullRead)
      ensures r.Some? ==> r.value == EagerChunk(wave, rate, beginMs, endMs)
                          || (old(lazy) && r.value ==
                              Load(wave, Frame(beginMs, rate), Frame(endMs, rate) - Frame(beginMs, rate)))
      ensures r.Some? && AgreesOn(|wave|, Frame(beginMs, rate), Frame(endMs, rate)) ==>
                r.value == EagerChunk(wave, rate, beginMs, endMs)
      ensures var key := (Frame(beginMs, rate), Frame(endMs, rate));
              if r.Some? && old(lazy) && key.0 < key.1 && key !in old(order)
              then order == Admit(old(order), key, limit) else order == old(order)
    {
      var begin, end := Frame(beginMs, rate), Frame(endMs, rate);
      if end <= begin {
        return Some([]);
      }
      if !lazy {
        return Some(Slice(tensor, begin, end));
      }
      var key := (begin, end);
      if key in cache {
        return Some(cache[key]);
      }
      r := ReadOrLoad(begin, end, faults);
      if r.Some? {
        Remember(key, r.value);
      }
    }

    /** Read a chunk on its own, or load the whole file and slice it. */
    method ReadOrLoad(begin: int, end: int, faults: Faults) returns (r: Option<Wave>)
      requires Valid() && lazy
      modifies this`tensor, this`lazy
      ensures Valid()
      ensures r.None? <==> faults.chunkRead && faults.fullRead
      ensures lazy <==> !faults.chunkRead || faults.fullRead
      ensures r.Some? && faults.chunkRead ==> r.value == Slice(wave, begin, end)
      ensures r.Some? && !faults.chunkRead ==> r.value == Load(wave, begin, end - begin)
    {
      if !faults.chunkRead {
        return Some(Load(wave, begin, end - begin));
      }
      if tensor == [] {
        if faults.fullRead {
          return None;
        }
        tensor := wave;
        lazy := false;
      }
      return Some(Slice(tensor, begin, end));
    }

    /** Store a chunk that was not cached, dropping the oldest one over the limit. */
    method Remember(key: Key, data: Wave)
      requires Valid() && key !in order && CachedRight(key, data)
      modifies this`cache, this`order
      ensures Valid() && order == Admit(old(order), key, limit)
      ensures if |old(order)| < limit then order == old(order) + [key] else order == (old(order) + [key])[1..]
    {
      cache := cache[key := data];
      order := order + [key];
      if |order| > limit {
        var oldest := order[0];
        order := order[1..];
        cache := cache - {oldest};
        OldestLeaves(old(order) + [key], oldest, order);
      }
    }

    /** `all`: the whole waveform, or nothing when it cannot be loaded. */
    method All(faults: Faults) returns (r: Wave)
      requires Valid()
      modifies this`tensor, this`lazy
      ensures Valid()
      ensures r == if old(lazy) && faults.fullRead then [] else wave
      ensures lazy <==> old(lazy) && faults.fullRead
    {
      if !lazy {
        return tensor;
      }
      if tensor == [] {
        if faults.fullRead {
          return [];
        }
        tensor := wave;
        lazy := false;
      }
      return tensor;
    }
  }

  // ------------------------------------------------------------------ runs

  /** A caller's request. Full loads succeed; chunk reads may fail. */
  datatype Call = ChunkCall(beginMs: real, endMs: real, readFails: bool) | AllCall

  function Answer(wave: Wave, rate: int, call: Call): Wave {
    match call
    case ChunkCall(beginMs, endMs, _) => EagerChunk(wave, rate, beginMs, endMs)
    case AllCall => wave
  }

  ghost predicate Plain(wave: Wave, rate: int, call: Call) {
    call.ChunkCall? ==> AgreesOn(|wave|, Frame(call.beginMs, rate), Frame(call.endMs, rate))
  }

  /** Any sequence of calls on a lazy handle gets, call by call, what an eager handle would
      have answered, whichever chunk reads fail. */
  method Serve(wave: Wave, rate: int, limit: int, calls: seq<Call>) returns (answers: seq<Wave>)
    ensures |answers| == |calls|
    ensures forall i :: 0 <= i < |calls| && Plain(wave, rate, calls[i]) ==> answers[i] == Answer(wave, rate, calls[i])
  {
    var file := new AudioFile(wave, rate, limit);
    answers := [];
    for i := 0 to |calls|
      invariant fresh(file) && file.Valid() && file.wave == wave && file.rate == rate && |answers| == i
      invariant forall j :: 0 <= j < i && Plain(wave, rate, calls[j]) ==> answers[j] == Answer(wave, rate, calls[j])
    {
      match calls[i] {
        case ChunkCall(beginMs, endMs, readFails) =>
          var answer := file.Chunk(beginMs, endMs, Faults(readFails, false));
          answers := answers + [answer.value];
        case AllCall =>
          var answer := file.All(Faults(false, false));
          answers := answers + [answer];
      }
    }
  }
}
