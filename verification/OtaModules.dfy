/** The code of the download on the upper board: stored offsets, the module for its own flash, the module for the lower board. */
module OtaModules {
  import opened Common
  import opened Flash
  import Ota

  datatype Spec = Spec(version: string, offset: nat)

  datatype Outcome = Done | Failed | Interrupted

  datatype Fetch = Fails | Gives(n: nat)

  datatype Read = Data(bytes: Bytes) | Exception | Silence

  /**
   * The stream of an image: `script` says how each read will go. When it is used up, nothing more happens,
   * as when the power fails.
   */
  class Stream {
    const image: Bytes
    var at: nat
    var script: seq<Fetch>

    constructor (i: Bytes, s: seq<Fetch>)
      ensures image == i && at == 0 && script == s
    {
      image, at, script := i, 0, s;
    }

    method Seek(pos: nat)
      modifies this`at
      ensures at == pos
    {
      at := pos;
    }

    /** `readData`: a failed read leaves the position, a successful one returns at most `len` bytes and moves past them. */
    method ReadData(len: nat) returns (r: Read)
      requires at <= |image|
      modifies this
      ensures at <= |image| && script == if old(script) == [] then [] else old(script)[1..]
      ensures r.Data? ==> |r.bytes| <= len && Ota.Slice(image, old(at), r.bytes) && at == old(at) + |r.bytes|
      ensures r.Data? <==> old(script) != [] && old(script)[0].Gives?
      ensures r.Data? ==> |r.bytes| == Common.Min(old(script)[0].n, Common.Min(len, |image| - old(at)))
      ensures !r.Data? ==> at == old(at)
      ensures r == Silence <==> old(script) == []
    {
      if script == [] {
        return Silence;
      }
      var f := script[0];
      script := script[1..];
      if f.Fails? {
        return Exception;
      }
      var n := Common.Min(f.n, Common.Min(len, |image| - at));
      r := Data(image[at..at + n]);
      at := at + n;
    }
  }

  /** What is left of the script when the reads that fail have been repeated. */
  function Tried(script: seq<Fetch>): seq<Fetch> {
    if script == [] || script[0].Gives? then script else Tried(script[1..])
  }

  /** Every read delivers whole words, or what is left. */
  ghost predicate WordScript(s: seq<Fetch>) { forall i :: 0 <= i < |s| && s[i].Gives? ==> s[i].n % 4 == 0 }

  /** `OtaModule::retryFetch`: failed reads are repeated from `rollback`. */
  method RetryFetch(stream: Stream, len: nat, rollback: nat) returns (r: Read)
    requires stream.at == rollback <= |stream.image|
    modifies stream
    ensures |stream.script| <= |old(stream.script)| && (r.Data? ==> |stream.script| < |old(stream.script)|)
    ensures !r.Exception? && (r.Silence? ==> stream.at == rollback && stream.script == [])
    ensures r.Data? ==> |r.bytes| <= len && Ota.Slice(stream.image, rollback, r.bytes) && stream.at == rollback + |r.bytes|
    ensures r.Silence? <==> Tried(old(stream.script)) == []
    ensures r.Data? ==>
              var left := Tried(old(stream.script));
              stream.script == left[1..] && left[0].Gives? && |r.bytes| == Min(left[0].n, Min(len, |stream.image| - rollback))
    ensures WordScript(old(stream.script)) && len % 4 == 0 ==>
              && WordScript(stream.script)
              && (r.Data? ==> |r.bytes| % 4 == 0 || rollback + |r.bytes| == |stream.image|)
  {
    while true
      invariant stream.at == rollback && |stream.script| <= |old(stream.script)| && Tried(stream.script) == Tried(old(stream.script))
      invariant WordScript(old(stream.script)) ==> WordScript(stream.script)
      decreases |stream.script|
    {
      r := stream.ReadData(len);
      if !r.Exception? {
        return;
      }
      stream.Seek(rollback);
    }
  }

  /** The stored offsets of the modules, `Config::OTA` in the persistent storage. */
  class Store {
    var offsets: map<string, Spec>

    constructor ()
      ensures offsets == map[]
    {
      offsets := map[];
    }

    /** `Ota::getLastOffset`: an offset counts only for the version it was stored for. */
    function LastOffset(name: string, version: string): nat
      reads this
    {
      if name in offsets && offsets[name].version == version then offsets[name].offset else 0
    }

    /** `Ota::setLastOffset` */
    method SetLastOffset(name: string, version: string, offset: nat)
      modifies this
      ensures LastOffset(name, version) == offset && (forall v :: v != version ==> LastOffset(name, v) == 0)
      ensures forall m, v :: m != name ==> LastOffset(m, v) == old(LastOffset(m, v))
    {
      offsets := offsets[name := Spec(version, offset)];
    }

    /** `Ota::updateProgress`, with the module's `lastProgress` */
    method UpdateProgress(name: string, version: string, pos: nat, last: nat) returns (l: nat)
      requires last <= pos
      modifies this
      ensures (LastOffset(name, version), l) == Ota.Progress(old(LastOffset(name, version)), last, pos)
    {
      l := last;
      if pos - last >= Ota.CHECK_SIZE {
        var savedPos := pos - pos % Ota.CHECK_SIZE;
        SetLastOffset(name, version, savedPos);
        l := savedPos;
      }
    }
  }

  const UPPER_BUF: nat := 100

  /**
   * The store and the position of a download agree; if all reads are whole words, what is passed is right and the rest is
   * blank or right.
   */
  ghost predicate Passed(words: bool, f: Bytes, image: Bytes, saved: nat, last: nat, pos: nat) {
    && (words ==> Ota.Clean(f, image) && Ota.Matches(f, image, pos)) && saved <= pos && last <= pos
    && saved % Ota.CHECK_SIZE == 0 && (last == saved || last == 0)
  }

  lemma PassedMore(words: bool, f: Bytes, image: Bytes, saved: nat, last: nat, pos: nat)
    requires Passed(words, f, image, saved, last, pos)
    ensures var (s, l) := Ota.Progress(saved, last, pos);
            saved <= s && Passed(words, f, image, s, l, pos) && pos - s < Ota.CHECK_SIZE
  {
    Ota.ProgressOk(saved, last, pos);
    Ota.ProgressClose(saved, last, pos);
  }

  /** One chunk is written to the partition; the result of the driver is not looked at. */
  method WriteChunk(flash: array<Cell>, image: Bytes, pos: nat, buf: Bytes, d: Bytes)
    requires |d| <= |buf| && buf[..|d|] == d && Words(|d|) <= |buf| && flash.Length % 4 == 0
    modifies flash
    ensures old(Ota.Clean(flash[..], image) && Ota.Matches(flash[..], image, pos)) && Ota.WordsTo(image, pos, d)
            ==> Ota.Clean(flash[..], image) && Ota.Matches(flash[..], image, pos + |d|)
  {
    ghost var f := flash[..];
    var _, n := WriteFlash(flash, pos, buf, |d|, Words(|d|) / 4);
    if Ota.Clean(f, image) && Ota.Matches(f, image, pos) && Ota.WordsTo(image, pos, d) {
      ChunkRight(f, flash[..], image, pos, buf, d, n);
    }
  }

  /** Blank or right cells take the bytes of the image, so that only a byte behind the data can differ. */
  lemma ChunkTaken(f: Bytes, image: Bytes, pos: nat, buf: Bytes, d: Bytes, n: nat)
    requires Ota.Clean(f, image) && Ota.Slice(image, pos, d) && pos + |d| <= |f|
    requires |d| <= |buf| && buf[..|d|] == d && n <= Words(|d|) <= |buf|
    requires n == Words(|d|) || Differs(f, pos, buf[..n])
    ensures |d| <= n && forall i :: 0 <= i < |d| ==> Burn(f[pos + i], buf[i]) == image[pos + i]
  {
    forall i | 0 <= i < |d| ensures Burn(f[pos + i], buf[i]) == buf[i] == image[pos + i] {
      assert d[i] == buf[i];
      BurnBlank(image[pos + i]);
      BurnSame(image[pos + i]);
    }
    WordsValue(|d|);
  }

  lemma ChunkRight(f: Bytes, r: Bytes, image: Bytes, pos: nat, buf: Bytes, d: Bytes, n: nat)
    requires Ota.Clean(f, image) && Ota.Matches(f, image, pos) && Ota.WordsTo(image, pos, d) && pos + |d| <= |f|
    requires |d| <= |buf| && buf[..|d|] == d && n <= Words(|d|) <= |buf| && r == Burned(f, pos, buf[..n])
    requires n == Words(|d|) || Differs(f, pos, buf[..n])
    ensures Ota.Clean(r, image) && Ota.Matches(r, image, pos + |d|)
  {
    ChunkTaken(f, image, pos, buf, d, n);
    WordsValue(|d|);
    forall i | 0 <= i < |image| ensures r[i] == (if Within(i, pos, |d|) then image[i] else f[i]) {
      if Within(i, pos, |d|) { assert r[i] == Burn(f[pos + (i - pos)], buf[i - pos]); }
    }
  }

  /** One round of the loop of `OtaUpperModule::start` with data: write what was fetched, move on, record progress. */
  method WriteAndAdvance(flash: array<Cell>, store: Store, image: Bytes, version: string, pos: nat, last: nat, buf: Bytes, d: Bytes,
                         ghost words: bool)
    returns (newPos: nat, newLast: nat, newBuf: Bytes)
    requires Passed(words, flash[..], image, store.LastOffset("upper", version), last, pos)
    requires (words ==> Ota.WordsTo(image, pos, d)) && |d| <= |buf| == UPPER_BUF && flash.Length % 4 == 0
    modifies flash, store
    ensures newPos == pos + |d| && |newBuf| == UPPER_BUF
    ensures Passed(words, flash[..], image, store.LastOffset("upper", version), newLast, newPos)
    ensures old(store.LastOffset("upper", version)) <= store.LastOffset("upper", version)
    ensures newPos - store.LastOffset("upper", version) < Ota.CHECK_SIZE
  {
    newBuf := d + buf[|d|..];
    assert newBuf[..|d|] == d && Words(|d|) <= UPPER_BUF;
    WriteChunk(flash, image, pos, newBuf, d);
    newPos := pos + |d|;
    PassedMore(words, flash[..], image, store.LastOffset("upper", version), last, newPos);
    newLast := store.UpdateProgress("upper", version, newPos, last);
  }

  /** If all reads are whole words, the stream will keep to that, and the position is on a word or at the end. */
  ghost predicate OnWord(words: bool, script: seq<Fetch>, pos: nat, size: nat) {
    words ==> WordScript(script) && (pos % 4 == 0 || pos == size)
  }

  /** How an attempt ends that finds nothing more to fetch. */
  function Ending(size: nat, pos: nat): (nat, Outcome) { (pos, if pos == size then Done else Failed) }

  /** How far an attempt comes from `pos`, and how it ends, by what the stream does. */
  function Goes(size: nat, pos: nat, script: seq<Fetch>): (nat, Outcome)
    requires pos <= size
    decreases |script|
  {
    if script == [] then (pos, Interrupted)
    else if script[0].Fails? then Goes(size, pos, script[1..])
    else
      var n := Min(script[0].n, Min(UPPER_BUF, size - pos));
      if n == 0 then Ending(size, pos) else Goes(size, pos + n, script[1..])
  }

  lemma {:induction false} GoesTried(size: nat, pos: nat, script: seq<Fetch>)
    requires pos <= size
    ensures Goes(size, pos, script) == Goes(size, pos, Tried(script))
    decreases |script|
  {
    if script != [] && script[0].Fails? { GoesTried(size, pos, script[1..]); }
  }

  /** The next bytes: the position they are for is on a word. */
  method FetchNext(stream: Stream, pos: nat, ghost words: bool) returns (got: Read)
    requires stream.at == pos <= |stream.image| && OnWord(words, stream.script, pos, |stream.image|)
    modifies stream
    ensures !got.Exception? && (got.Silence? ==> stream.script == [] && stream.at == pos)
    ensures got.Data? ==>
              && |stream.script| < |old(stream.script)| && |got.bytes| <= UPPER_BUF && stream.at == pos + |got.bytes| <= |stream.image|
              && OnWord(words, stream.script, stream.at, |stream.image|)
              && (words && got.bytes != [] ==> Ota.WordsTo(stream.image, pos, got.bytes))
    ensures Goes(|stream.image|, pos, old(stream.script)) ==
            if got.Silence? then (pos, Interrupted) else if got.bytes == [] then Ending(|stream.image|, pos)
            else Goes(|stream.image|, stream.at, stream.script)
  {
    ghost var script := stream.script;
    got := RetryFetch(stream, UPPER_BUF, pos);
    GoesTried(|stream.image|, pos, script);
  }

  /** What the claims about the flash need: pages that divide the checkpoint distance, and reads of whole words. */
  ghost predicate Fitting(p: nat, script: seq<Fetch>)
    requires 0 < p
  {
    Ota.CHECK_SIZE % p == 0 && WordScript(script)
  }

  /**
   * `OtaUpperModule::start` with the stored offset, on pages of `p` bytes of which the driver can erase `good`: an image
   * that does not fit, or an erase that fails, is reported and nothing stored; success leaves the whole image; whenever
   * the loop stops, the stored offset has not gone back, is less than a checkpoint behind, and all below it is right.
   */
  method UpperStart(flash: array<Cell>, store: Store, stream: Stream, version: string, offset: nat, p: nat, good: nat) returns (r: Outcome)
    requires 0 < p && flash.Length % 4 == 0
    requires offset == stream.at == store.LastOffset("upper", version) <= |stream.image| && offset % Ota.CHECK_SIZE == 0
    requires |stream.image| <= flash.Length ==> Ota.Matches(flash[..], stream.image, offset)
    modifies flash, store, stream
    ensures |stream.image| > flash.Length ==> r == Failed && flash[..] == old(flash[..])
    ensures |stream.image| > flash.Length || Pages(|stream.image| - offset, p) > good ==>
              r == Failed && store.LastOffset("upper", version) == offset
    ensures |stream.image| <= flash.Length && Fitting(p, old(stream.script)) ==>
              && Ota.Matches(flash[..], stream.image, store.LastOffset("upper", version))
              && (Pages(|stream.image| - offset, p) <= good ==> Ota.Clean(flash[..], stream.image))
              && (r == Done ==> flash[..|stream.image|] == stream.image)
    ensures |stream.image| <= flash.Length && Pages(|stream.image| - offset, p) <= good ==>
              (stream.at, r) == Goes(|stream.image|, offset, old(stream.script)) && stream.at < store.LastOffset("upper", version) + Ota.CHECK_SIZE
    ensures offset <= store.LastOffset("upper", version) && store.LastOffset("upper", version) % Ota.CHECK_SIZE == 0
  {
    var ok := ErasePartition(flash, stream.image, offset, p, good);
    if !ok {
      return Failed;
    }
    Ota.FourDivides(offset);
    r := DownloadLoop(flash, store, stream, version, offset, Fitting(p, stream.script));
  }

  method ErasePartition(flash: array<Cell>, image: Bytes, offset: nat, p: nat, good: nat) returns (ok: bool)
    requires 0 < p && offset % Ota.CHECK_SIZE == 0 && offset <= |image|
    requires |image| <= flash.Length ==> Ota.Matches(flash[..], image, offset)
    modifies flash
    ensures ok <==> |image| <= flash.Length && Pages(|image| - offset, p) <= good
    ensures |image| > flash.Length ==> flash[..] == old(flash[..])
    ensures |image| <= flash.Length && Ota.CHECK_SIZE % p == 0 ==>
              Ota.Matches(flash[..], image, offset) && (ok ==> Ota.Clean(flash[..], image))
  {
    ghost var f := flash[..];
    ok := EraseBank(flash, offset, |image| - offset, p, good);
    if |image| <= flash.Length && Ota.CHECK_SIZE % p == 0 {
      Ota.CheckpointOnPage(offset, p);
      Ota.EraseEffect(f, image, offset, Min(good, Pages(|image| - offset, p)), p);
    }
  }

  method DownloadLoop(flash: array<Cell>, store: Store, stream: Stream, version: string, offset: nat, ghost words: bool)
    returns (r: Outcome)
    requires flash.Length % 4 == 0 && offset == stream.at <= |stream.image| && offset % 4 == 0
    requires Passed(words, flash[..], stream.image, store.LastOffset("upper", version), 0, offset) && (words ==> WordScript(stream.script))
    requires store.LastOffset("upper", version) == offset
    modifies flash, store, stream
    ensures words && r == Done ==> flash[..|stream.image|] == stream.image
    ensures (stream.at, r) == Goes(|stream.image|, offset, old(stream.script)) && stream.at < store.LastOffset("upper", version) + Ota.CHECK_SIZE
    ensures offset <= store.LastOffset("upper", version) && store.LastOffset("upper", version) % Ota.CHECK_SIZE == 0
    ensures words ==> Ota.Matches(flash[..], stream.image, store.LastOffset("upper", version)) && Ota.Clean(flash[..], stream.image)
  {
    var buf: Bytes := seq(UPPER_BUF, _ => 0);
    var currPos: nat, last: nat := offset, 0;
    while true
      invariant Passed(words, flash[..], stream.image, store.LastOffset("upper", version), last, currPos)
      invariant stream.at == currPos <= |stream.image| && |buf| == UPPER_BUF && offset <= store.LastOffset("upper", version)
      invariant OnWord(words, stream.script, currPos, |stream.image|)
      invariant Goes(|stream.image|, currPos, stream.script) == Goes(|stream.image|, offset, old(stream.script))
      invariant currPos < store.LastOffset("upper", version) + Ota.CHECK_SIZE
      decreases |stream.script|
    {
      var got := FetchNext(stream, currPos, words);
      if got.Silence? {
        return Interrupted;
      }
      if |got.bytes| == 0 {
        break;
      }
      currPos, last, buf := WriteAndAdvance(flash, store, stream.image, version, currPos, last, buf, got.bytes, words);
    }
    if currPos == |stream.image| {
      assert words ==> flash[..|stream.image|] == stream.image;
      return Done;
    }
    return Failed;
  }

  // ---------------------------------------------------------------- the module for the lower board

  /** What a callback of the module leads to: a request to the lower board, or the end of the attempt. */
  datatype Sent = EraseRequest(size: nat, offset: nat) | WriteRequest(addr: nat, data: Bytes) | Ended(outcome: Outcome)

  class LowerModule {
    const size: nat
    const version: string
    var currPos: nat
    var recvedLen: nat
    var buf: Bytes
    var lastProgress: nat

    constructor (sz: nat, v: string, offset: nat)
      ensures size == sz && version == v && currPos == offset && recvedLen == 0 && buf == [] && lastProgress == 0
    {
      size, version, currPos, recvedLen, buf, lastProgress := sz, v, offset, 0, [], 0;
    }

    /** The attempt of the protocol state is what this module is in the middle of, and the offset is the one in the store. */
    ghost predicate Shows(s: Ota.State, stream: Stream, store: Store)
      reads this, stream, store
    {
      && s.saved == store.LastOffset("lower", version) && size == |stream.image| && |buf| == recvedLen && s.attempt.Some?
      && var a := s.attempt.value; a.pos == currPos && a.last == lastProgress && a.at == stream.at && a.buf == buf
    }

    /** The callback of a write, with an error: the step Expire of the protocol. */
    method OnTimeout(ghost stream: Stream, ghost store: Store, ghost s: Ota.State, ghost p: nat) returns (r: Sent)
      requires Shows(s, stream, store) && 0 < p && s.attempt.value.phase == Ota.Writing
      ensures var t := Ota.Step(s, Ota.Expire, stream.image, p);
              && Shows(t, stream, store) && t.flash == s.flash
              && r.WriteRequest? && t.queue == s.queue + [Ota.Write(r.addr, r.data, s.epoch)]
    {
      r := WriteRequest(currPos, buf);
    }

    /** The callback of the erase, with an error: the step Expire of the protocol. */
    method OnEraseError(ghost stream: Stream, ghost store: Store, ghost s: Ota.State, ghost p: nat) returns (r: Sent)
      requires Shows(s, stream, store) && 0 < p && s.attempt.value.phase == Ota.Erasing
      ensures r == Ended(Failed) && Ota.Step(s, Ota.Expire, stream.image, p) == s.(attempt := None)
    {
      r := Ended(Failed);
    }

    /**
     * The callback with a reply, to the erase or to a write: the step Reply of the protocol, and then, after any number of
     * failed reads, the step Read. When the stream falls silent, it is left at the position from which to read.
     */
    method OnReply(stream: Stream, store: Store, ghost s: Ota.State, ghost p: nat) returns (r: Sent)
      requires Shows(s, stream, store) && 0 < p && Ota.Enabled(s, Ota.Reply, size)
      requires currPos + recvedLen == stream.at <= size
      modifies this, stream, store
      ensures var t := Ota.Step(s, Ota.Reply, stream.image, p);
              && Ota.Enabled(t, Ota.Read(|buf|), size) && t.saved == store.LastOffset("lower", version)
              && match r
                 case EraseRequest(_, _) => false
                 case WriteRequest(addr, d) =>
                   var u := Ota.Step(t, Ota.Read(|buf|), stream.image, p);
                   && Shows(u, stream, store) && u.flash == s.flash && d != []
                   && u.queue == s.queue + [Ota.Write(addr, d, s.epoch)]
                 case Ended(o) =>
                   && buf == [] && (o == Done <==> Ota.Finishes(t, Ota.Read(0), size) && o != Interrupted)
                   && (o == Interrupted ==> Shows(t, stream, store) && stream.script == [])
      ensures WordScript(old(stream.script)) ==> Ota.WordReads(Ota.Step(s, Ota.Reply, stream.image, p), Ota.Read(|buf|), size)
    {
      currPos := currPos + recvedLen;
      recvedLen, buf := 0, [];
      lastProgress := store.UpdateProgress("lower", version, currPos, lastProgress);
      var got := RetryFetch(stream, Ota.BUF_SIZE, currPos);
      if got.Silence? {
        return Ended(Interrupted);
      }
      buf := got.bytes;
      recvedLen := |buf|;
      if recvedLen == 0 {
        return if currPos == size then Ended(Done) else Ended(Failed);
      }
      return WriteRequest(currPos, buf);
    }
  }

  /** `Ota::start` and `OtaLowerModule::start` up to the request to erase: the step Start of the protocol. */
  method LowerStart(stream: Stream, store: Store, version: string, ghost s: Ota.State, ghost p: nat)
    returns (m: LowerModule, r: Sent)
    requires s.attempt == None && s.saved == store.LastOffset("lower", version) && 0 < p
    modifies stream
    ensures m.version == version && r.EraseRequest? && r.size == |stream.image|
    ensures var t := Ota.Step(s, Ota.Start, stream.image, p);
            m.Shows(t, stream, store) && t.flash == s.flash && t.queue == s.queue + [Ota.Erase(r.offset, t.epoch)]
  {
    var offset := store.LastOffset("lower", version);
    stream.Seek(offset);
    m := new LowerModule(|stream.image|, version, offset);
    r := EraseRequest(|stream.image|, offset);
  }

  // ---------------------------------------------------------------- the lower board

  /** The handler of an erase: the step Exec of the protocol, or Fault if the driver gives up after `good` pages. */
  method HandleErase(flash: array<Cell>, size: nat, offset: nat, p: nat, good: nat, ghost epoch: nat) returns (ok: bool)
    requires 0 < p && offset <= size
    modifies flash
    ensures ok <==> size <= flash.Length && Pages(size - offset, p) <= good
    ensures size > flash.Length ==> flash[..] == old(flash[..])
    ensures size <= flash.Length ==>
              var q := Ota.Erase(offset, epoch);
              flash[..] == Ota.Effect(old(flash[..]), q, if ok then Ota.Whole(q, size, p) else good, [], size, p)
  {
    ok := EraseBank(flash, offset, size - offset, p, good);
  }

  /**
   * The handler of a write, with what happens to lie behind the data in memory, when the hardware can program `good` words:
   * the step Exec of the protocol, if the data is inside the flash, the cells take it and the hardware does not fail;
   * otherwise the words before the failure, which is not reported.
   */
  method HandleWrite(flash: array<Cell>, addr: nat, data: Bytes, pad: Bytes, good: nat, ghost size: nat, ghost p: nat, ghost epoch: nat)
    requires 0 < p && |pad| >= 3 && flash.Length % 4 == 0
    modifies flash
    ensures addr + |data| > flash.Length ==> flash[..] == old(flash[..])
    ensures addr + |data| <= flash.Length && Takes(old(flash[..]), addr, data) ==>
              flash[..] == Ota.Effect(old(flash[..]), Ota.Write(addr, data, epoch), Min(4 * good, |data|), pad, size, p)
  {
    ghost var f := flash[..];
    var mem := data + pad;
    WordsValue(|data|);
    var _, n := WriteFlash(flash, addr, mem, |data|, good);
    if addr % 4 == 0 && addr + |data| <= flash.Length {
      if Takes(f, addr, data) { WrittenPart(f, addr, data, pad, n, good); }
    } else {
      assert flash[..] == f;
    }
  }

  lemma WrittenPart(f: Bytes, addr: nat, data: Bytes, pad: Bytes, n: nat, good: nat)
    requires |pad| >= 3 && addr % 4 == 0 && addr + |data| <= |f| && Takes(f, addr, data) && n <= Words(|data|) <= |data + pad| && n % 4 == 0
    requires n == Words(|data|) || n == 4 * good || Differs(f, addr, (data + pad)[..n])
    requires n <= 4 * good
    ensures var k := Min(4 * good, |data|);
            (data + pad)[..n] == if k < |data| then Padded(data[..k / 4 * 4], []) else Padded(data, pad)
  {
    WordsValue(|data|);
    if 4 * good < |data| {
      if n != 4 * good {
        DiffersBehind(f, addr, data, pad, n);
      }
      assert (data + pad)[..n] == data[..n];
    } else {
      if n != Words(|data|) && n != 4 * good {
        DiffersBehind(f, addr, data, pad, n);
        LastWord(|data|, n);
      }
      if n == 4 * good && n != Words(|data|) && n > |data| { LastWord(|data|, n); }
    }
  }

  /** A byte that does not read back is one behind the data. */
  lemma DiffersBehind(f: Bytes, addr: nat, data: Bytes, pad: Bytes, n: nat)
    requires addr + |data| <= |f| && Takes(f, addr, data) && n <= |data + pad| && Differs(f, addr, (data + pad)[..n])
    ensures |data| < n
  {
    var d := (data + pad)[..n];
    var i :| 0 <= i < |d| && addr + i < |f| && Burn(f[addr + i], d[i]) != d[i];
    assert i >= |data|;
  }

  lemma WordsValue(n: nat)
    ensures Words(n) == if n % 4 == 0 then n else n + 4 - n % 4
  {
  }

  lemma LastWord(size: nat, n: nat)
    requires size < n <= Words(size) && n % 4 == 0
    ensures n == Words(size)
  {
    WordsValue(size);
  }

  /** In a safe state the cells take the data of every write under way. */
  lemma SafeTakes(s: Ota.State, image: Bytes, i: nat)
    requires Ota.Safe(s, image) && i < |s.queue| && s.queue[i].Write?
    ensures s.queue[i].addr + |s.queue[i].data| <= |s.flash| && Takes(s.flash, s.queue[i].addr, s.queue[i].data)
  {
    assert Ota.RequestOk(s.queue[i], s, image);
    var (a, d) := (s.queue[i].addr, s.queue[i].data);
    forall j | 0 <= j < |d| ensures Burn(s.flash[a + j], d[j]) == d[j] {
      assert d[j] == image[a + j];
      BurnBlank(d[j]);
      BurnSame(d[j]);
    }
  }
}
