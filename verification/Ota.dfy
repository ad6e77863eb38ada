/**
 * The resumable firmware download: attempts of the upper board to fetch an image and have the lower board write it to
 * flash, over a link that keeps the order of requests but may lose them, with restarts of either board at any point.
 */
module Ota {
  import opened Common
  import opened Flash

  const CHECK_SIZE: nat := 10240    // kCheckSize: how often the position is saved
  const BUF_SIZE: nat := 128        // kBufSize of the module for the lower board

  /** A request to the lower board, with the number of the attempt that made it. */
  datatype Request = Erase(offset: nat, epoch: nat) | Write(addr: nat, data: Bytes, epoch: nat)

  datatype Phase = Erasing | Fetching | Writing

  /**
   * An attempt: `pos` is `currPos`, `last` is `lastProgress`, `at` the position of the stream, `buf` the bytes fetched
   * last; `acked` says that the request waited for has been carried out, so that its reply may come.
   */
  datatype Attempt = Attempt(pos: nat, last: nat, at: nat, phase: Phase, buf: Bytes, acked: bool)

  /** `saved` is the stored offset of this version; `clean` that an erase has been carried out since the version began. */
  datatype State = State(flash: Bytes, saved: nat, attempt: Option<Attempt>, queue: seq<Request>, epoch: nat, clean: bool)

  datatype Op =
    | Start                       // Ota::start: resume from the stored offset
    | Exec(pad: Bytes)            // the lower board carries out the oldest request
    | Lose                        // the oldest request is lost
    | Cut(k: nat, pad: Bytes)     // the lower board restarts after k pages or bytes of the oldest request
    | Fault(k: nat)               // the lower board erases k pages for the oldest request, then fails and says so, or is not heard
    | Reply                       // a reply reaches the upper board
    | Expire                      // a reply does not come in time, or tells of an error
    | Read(n: nat)                // the stream delivers n bytes
    | ReadFail                    // the stream fails, and is set back
    | Reboot                      // the upper board restarts

  function Init(flash: Bytes): State { State(flash, 0, None, [], 0, false) }

  // ---------------------------------------------------------------- the steps

  /** `Ota::updateProgress`: the stored offset and `lastProgress` after progress to `pos`. */
  function Progress(saved: nat, last: nat, pos: nat): (nat, nat)
    requires last <= pos
  {
    if pos - last >= CHECK_SIZE then (pos - pos % CHECK_SIZE, pos - pos % CHECK_SIZE) else (saved, last)
  }

  /** The first `k` units of a request: pages of an erase, bytes of a write. */
  function Effect(f: Bytes, r: Request, k: nat, pad: Bytes, size: nat, p: nat): Bytes
    requires 0 < p
  {
    match r
    case Erase(o, _) => ErasedPages(f, o, if size < o then 0 else Common.Min(k, Pages(size - o, p)), p)
    case Write(a, d, _) => if k < |d| then Programmed(f, a, d[..k / 4 * 4], []) else Programmed(f, a, d, pad)
  }

  function Whole(r: Request, size: nat, p: nat): nat
    requires 0 < p
  {
    match r
    case Erase(o, _) => if size < o then 0 else Pages(size - o, p)
    case Write(_, d, _) => |d|
  }

  /** Whether a request is the one the attempt waits for. */
  predicate Awaited(a: Attempt, epoch: nat, r: Request) {
    r.epoch == epoch &&
    match r
    case Erase(_, _) => a.phase == Erasing
    case Write(addr, d, _) => a.phase == Writing && addr == a.pos && d == a.buf
  }

  function Executed(s: State, pad: Bytes, size: nat, p: nat): State
    requires 0 < p && s.queue != []
  {
    var r := s.queue[0];
    s.(flash := Effect(s.flash, r, Whole(r, size, p), pad, size, p), queue := s.queue[1..], clean := s.clean || r.Erase?,
       attempt := if s.attempt.Some? && Awaited(s.attempt.value, s.epoch, r) then Some(s.attempt.value.(acked := true)) else s.attempt)
  }

  /** The reply to the awaited request: the position moves past what was written, and progress is recorded. */
  function Replied(s: State, a: Attempt): State
    requires a.last <= a.pos
  {
    var pos := a.pos + |a.buf|;
    var (saved, last) := Progress(s.saved, a.last, pos);
    s.(saved := saved, attempt := Some(Attempt(pos, last, a.at, Fetching, [], false)))
  }

  function Fetched(s: State, a: Attempt, n: nat, image: Bytes): State
    requires a.at + n <= |image|
  {
    if n == 0 then s.(attempt := None)
    else
      var buf := image[a.at..a.at + n];
      s.(attempt := Some(a.(at := a.at + n, phase := Writing, buf := buf, acked := false)), queue := s.queue + [Write(a.pos, buf, s.epoch)])
  }

  /** A read that ends the attempt with success: nothing more to fetch, at the full size. */
  predicate Finishes(s: State, op: Op, size: nat) {
    op == Read(0) && s.attempt.Some? && s.attempt.value.phase == Fetching && s.attempt.value.pos == size
  }

  predicate Enabled(s: State, op: Op, size: nat) {
    match op
    case Start => s.attempt == None
    case Exec(_) => s.queue != []
    case Lose => s.queue != []
    case Cut(_, _) => s.queue != []
    case Fault(_) => s.queue != [] && s.queue[0].Erase?
    case Reply => s.attempt.Some? && s.attempt.value.acked && s.attempt.value.phase != Fetching && s.attempt.value.last <= s.attempt.value.pos
    case Expire => s.attempt.Some? && s.attempt.value.phase != Fetching
    case Read(n) => s.attempt.Some? && s.attempt.value.phase == Fetching && n <= BUF_SIZE && s.attempt.value.at + n <= size
    case ReadFail => s.attempt.Some? && s.attempt.value.phase == Fetching
    case Reboot => true
  }

  function Step(s: State, op: Op, image: Bytes, p: nat): State
    requires 0 < p && Enabled(s, op, |image|)
  {
    match op
    case Start => s.(attempt := Some(Attempt(s.saved, 0, s.saved, Erasing, [], false)),
                     epoch := s.epoch + 1, queue := s.queue + [Erase(s.saved, s.epoch + 1)])
    case Exec(pad) => Executed(s, pad, |image|, p)
    case Lose => s.(queue := s.queue[1..])
    case Cut(k, pad) => s.(flash := Effect(s.flash, s.queue[0], k, pad, |image|, p), queue := [])
    case Fault(k) => s.(flash := Effect(s.flash, s.queue[0], k, [], |image|, p), queue := s.queue[1..])
    case Reply => Replied(s, s.attempt.value)
    case Expire =>
      var a := s.attempt.value;
      if a.phase == Erasing then s.(attempt := None) else s.(queue := s.queue + [Write(a.pos, a.buf, s.epoch)])
    case Read(n) => Fetched(s, s.attempt.value, n, image)
    case ReadFail => s.(attempt := Some(s.attempt.value.(at := s.attempt.value.pos)))
    case Reboot => s.(attempt := None)
  }

  // ---------------------------------------------------------------- what every run keeps

  /** The first `n` bytes of the flash are those of the image. */
  predicate Matches(f: Bytes, image: Bytes, n: nat) {
    n <= |image| <= |f| && forall i :: 0 <= i < n ==> f[i] == image[i]
  }

  /** Every byte is blank or right. */
  predicate Clean(f: Bytes, image: Bytes) {
    |image| <= |f| && forall i :: 0 <= i < |image| ==> f[i] == BLANK || f[i] == image[i]
  }

  predicate Slice(image: Bytes, at: nat, d: Bytes) { at + |d| <= |image| && d == image[at..at + |d|] }

  predicate RequestOk(r: Request, s: State, image: Bytes) {
    r.epoch <= s.epoch &&
    match r
    case Erase(o, _) => o == s.saved
    case Write(a, d, _) => s.clean && a % 4 == 0 && Slice(image, a, d) && (|d| % 4 == 0 || a + |d| == |image|)
  }

  predicate NoErase(queue: seq<Request>) { forall i :: 0 <= i < |queue| ==> queue[i].Write? }

  /** Behind the erase of the current attempt there is no other. */
  predicate LastErase(queue: seq<Request>, epoch: nat) {
    forall i, j :: 0 <= i < j < |queue| && queue[i].Erase? && queue[i].epoch == epoch ==> queue[j].Write?
  }

  predicate AttemptOk(a: Attempt, s: State, image: Bytes) {
    && a.pos <= |image| && a.last <= a.pos && a.last % CHECK_SIZE == 0 && s.saved <= a.pos
    && (a.pos % 4 == 0 || a.pos == |image|)
    && match a.phase
       case Erasing => a.pos == s.saved && a.at == a.pos && a.buf == [] && (a.acked ==> s.clean && NoErase(s.queue))
       case Fetching => s.clean && NoErase(s.queue) && Matches(s.flash, image, a.pos) && a.at == a.pos && a.buf == []
       case Writing =>
         && s.clean && NoErase(s.queue) && Matches(s.flash, image, a.pos) && a.buf != [] && Slice(image, a.pos, a.buf)
         && a.pos % 4 == 0 && (|a.buf| % 4 == 0 || a.pos + |a.buf| == |image|) && a.at == a.pos + |a.buf|
         && (a.acked ==> Matches(s.flash, image, a.pos + |a.buf|))
  }

  predicate QueueOk(s: State, image: Bytes) {
    (forall i :: 0 <= i < |s.queue| ==> RequestOk(s.queue[i], s, image)) && LastErase(s.queue, s.epoch)
  }

  /** Safe: what is below the stored offset is right, what was erased once is blank or right, and what the attempt has passed is right. */
  predicate Safe(s: State, image: Bytes) {
    && s.saved % CHECK_SIZE == 0 && s.saved <= |image| && Matches(s.flash, image, s.saved)
    && (s.clean ==> Clean(s.flash, image)) && QueueOk(s, image)
    && (s.attempt.Some? ==> AttemptOk(s.attempt.value, s, image))
  }

  /** The stream delivers whole words, but at the end of the image. */
  predicate WordReads(s: State, op: Op, size: nat) {
    op.Read? && s.attempt.Some? ==> op.n % 4 == 0 || s.attempt.value.at + op.n == size
  }

  // ---------------------------------------------------------------- flash

  lemma CheckpointOnPage(o: nat, p: nat)
    requires 0 < p && CHECK_SIZE % p == 0 && o % CHECK_SIZE == 0
    ensures o % p == 0
  {
    DivMod(CHECK_SIZE, p);
    MultipleOf(o, CHECK_SIZE / p, p);
  }

  /** Erasing pages from a stored offset on keeps what is below it, and all it leaves is blank or as before. */
  lemma EraseEffect(f: Bytes, image: Bytes, o: nat, k: nat, p: nat)
    requires 0 < p && o % p == 0 && Matches(f, image, o) && k <= Pages(|image| - o, p)
    ensures Matches(ErasedPages(f, o, k, p), image, o)
    ensures Clean(f, image) || k == Pages(|image| - o, p) ==> Clean(ErasedPages(f, o, k, p), image)
  {
    CoverPages(|image| - o, p);
  }

  predicate WordsTo(image: Bytes, a: nat, d: Bytes) { a % 4 == 0 && Slice(image, a, d) && (|d| % 4 == 0 || a + |d| == |image|) }

  lemma WriteByte(f: Bytes, image: Bytes, a: nat, d: Bytes, pad: Bytes, i: nat)
    requires Clean(f, image) && WordsTo(image, a, d) && i < |image|
    ensures var r := Programmed(f, a, d, pad);
            && |r| == |f| && (Within(i, a, |d|) ==> r[i] == image[i]) && (!Within(i, a, |d|) ==> r[i] == f[i])
  {
    if Within(i, a, |d|) {
      assert d[i - a] == image[i];
      BurnBlank(image[i]);
      BurnSame(image[i]);
    }
  }

  /** Writing a piece of the image makes its bytes right, and harms none. */
  lemma WriteEffect(f: Bytes, image: Bytes, a: nat, d: Bytes, pad: Bytes)
    requires Clean(f, image) && WordsTo(image, a, d)
    ensures Clean(Programmed(f, a, d, pad), image)
    ensures forall n :: Matches(f, image, n) ==> Matches(Programmed(f, a, d, pad), image, n)
    ensures Matches(f, image, a) ==> Matches(Programmed(f, a, d, pad), image, a + |d|)
  {
    forall i | 0 <= i < |image| ensures var r := Programmed(f, a, d, pad);
        |r| == |f| && (Within(i, a, |d|) ==> r[i] == image[i]) && (!Within(i, a, |d|) ==> r[i] == f[i])
    {
      WriteByte(f, image, a, d, pad, i);
    }
  }

  /** Whatever part of a request is carried out, a safe flash stays safe. */
  lemma EffectOk(s: State, image: Bytes, p: nat, k: nat, pad: Bytes, r: Request)
    requires 0 < p && CHECK_SIZE % p == 0 && Safe(s, image) && RequestOk(r, s, image)
    ensures var f := Effect(s.flash, r, k, pad, |image|, p);
            && Matches(f, image, s.saved) && (s.clean ==> Clean(f, image))
            && (r.Write? ==> forall n :: Matches(s.flash, image, n) ==> Matches(f, image, n))
  {
    match r
    case Erase(o, _) =>
      CheckpointOnPage(o, p);
      EraseEffect(s.flash, image, o, Common.Min(k, Pages(|image| - o, p)), p);
    case Write(a, d, _) =>
      var m := if k < |d| then k / 4 * 4 else |d|;
      assert Slice(image, a, d[..m]);
      WriteEffect(s.flash, image, a, d[..m], if k < |d| then [] else pad);
      assert d[..|d|] == d;
  }

  // ---------------------------------------------------------------- one step

  lemma StartOk(s: State, image: Bytes, p: nat)
    requires 0 < p && Safe(s, image) && Enabled(s, Start, |image|)
    ensures Safe(Step(s, Start, image, p), image)
  {
    var t := Step(s, Start, image, p);
    forall i | 0 <= i < |t.queue| ensures RequestOk(t.queue[i], t, image) {
      if i < |s.queue| { assert RequestOk(s.queue[i], s, image); }
    }
    assert forall i :: 0 <= i < |s.queue| ==> s.queue[i].epoch <= s.epoch;
    FourDivides(s.saved);
  }

  lemma FourDivides(o: nat)
    requires o % CHECK_SIZE == 0
    ensures o % 4 == 0
  {
    MultipleOf(o, CHECK_SIZE / 4, 4);
  }

  /** What is left of the queue when the oldest request is gone. */
  lemma QueueTail(s: State, t: State, image: Bytes)
    requires QueueOk(s, image) && s.queue != [] && t.queue == s.queue[1..]
    requires t.saved == s.saved && t.epoch == s.epoch && (s.clean ==> t.clean)
    ensures QueueOk(t, image) && (NoErase(s.queue) ==> NoErase(t.queue))
    ensures s.queue[0].Erase? && s.queue[0].epoch == s.epoch ==> NoErase(t.queue)
  {
    forall i | 0 <= i < |t.queue| ensures RequestOk(t.queue[i], t, image) {
      assert RequestOk(s.queue[i + 1], s, image);
    }
  }

  lemma ExecEraseOk(s: State, image: Bytes, p: nat, pad: Bytes)
    requires 0 < p && CHECK_SIZE % p == 0 && Safe(s, image) && s.queue != [] && s.queue[0].Erase?
    ensures Safe(Executed(s, pad, |image|, p), image)
  {
    var (t, r) := (Executed(s, pad, |image|, p), s.queue[0]);
    assert RequestOk(r, s, image);
    QueueTail(s, t, image);
    CheckpointOnPage(r.offset, p);
    EraseEffect(s.flash, image, r.offset, Pages(|image| - r.offset, p), p);
  }

  lemma ExecWriteOk(s: State, image: Bytes, p: nat, pad: Bytes)
    requires 0 < p && Safe(s, image) && s.queue != [] && s.queue[0].Write?
    ensures Safe(Executed(s, pad, |image|, p), image)
  {
    var (t, r) := (Executed(s, pad, |image|, p), s.queue[0]);
    assert RequestOk(r, s, image);
    QueueTail(s, t, image);
    WriteEffect(s.flash, image, r.addr, r.data, pad);
    assert t.flash == Programmed(s.flash, r.addr, r.data, pad);
  }

  lemma CutOk(s: State, image: Bytes, p: nat, k: nat, pad: Bytes)
    requires 0 < p && CHECK_SIZE % p == 0 && Safe(s, image) && s.queue != []
    ensures Safe(Step(s, Cut(k, pad), image, p), image)
  {
    assert RequestOk(s.queue[0], s, image);
    EffectOk(s, image, p, k, pad, s.queue[0]);
  }

  lemma FaultOk(s: State, image: Bytes, p: nat, k: nat)
    requires 0 < p && CHECK_SIZE % p == 0 && Safe(s, image) && Enabled(s, Fault(k), |image|)
    ensures Safe(Step(s, Fault(k), image, p), image)
  {
    assert RequestOk(s.queue[0], s, image);
    EffectOk(s, image, p, k, [], s.queue[0]);
    QueueTail(s, Step(s, Fault(k), image, p), image);
  }

  lemma ProgressOk(saved: nat, last: nat, pos: nat)
    requires last <= pos && saved <= pos && last % CHECK_SIZE == 0 && saved % CHECK_SIZE == 0
    ensures var (s, l) := Progress(saved, last, pos);
            && saved <= s <= pos && l <= pos && s % CHECK_SIZE == 0 && l % CHECK_SIZE == 0
            && pos - l < CHECK_SIZE && (s == l || (s, l) == (saved, last)) && (pos < last + CHECK_SIZE ==> s == saved)
  {
  }

  /** A module that has recorded all progress, or begins at the stored offset, has less than a checkpoint to lose afterwards. */
  lemma ProgressClose(saved: nat, last: nat, pos: nat)
    requires saved <= pos && saved % CHECK_SIZE == 0 && (last == saved || last == 0)
    ensures var (s, l) := Progress(saved, last, pos); s == l && pos - s < CHECK_SIZE
  {
  }

  /** Writes under way do not depend on the stored offset. */
  lemma WritesKept(s: State, t: State, image: Bytes)
    requires QueueOk(s, image) && NoErase(s.queue) && t.queue == s.queue && t.epoch == s.epoch && t.clean == s.clean
    ensures QueueOk(t, image)
  {
    forall i | 0 <= i < |t.queue| ensures RequestOk(t.queue[i], t, image) {
      assert RequestOk(s.queue[i], s, image);
    }
  }

  /** What an attempt has passed when the reply to its request comes. */
  lemma Acknowledged(a: Attempt, s: State, image: Bytes)
    requires AttemptOk(a, s, image) && a.acked && a.phase != Fetching && Matches(s.flash, image, s.saved)
    ensures var pos := a.pos + |a.buf|;
            && s.clean && NoErase(s.queue) && Matches(s.flash, image, pos) && a.at == pos && s.saved <= pos && a.last <= pos
            && (pos % 4 == 0 || pos == |image|)
  {
  }

  /** Progress is recorded only over bytes that are right, and the stored offset does not go back. */
  lemma ReplyOk(s: State, image: Bytes, p: nat)
    requires 0 < p && Safe(s, image) && Enabled(s, Reply, |image|)
    ensures Safe(Step(s, Reply, image, p), image) && s.saved <= Step(s, Reply, image, p).saved
  {
    var (a, t) := (s.attempt.value, Step(s, Reply, image, p));
    Acknowledged(a, s, image);
    ProgressOk(s.saved, a.last, a.pos + |a.buf|);
    WritesKept(s, t, image);
    ReplyMatches(s.flash, image, a.pos + |a.buf|, t.saved);
    assert AttemptOk(t.attempt.value, t, image);
  }

  lemma ReplyMatches(f: Bytes, image: Bytes, pos: nat, saved: nat)
    requires Matches(f, image, pos) && saved <= pos
    ensures Matches(f, image, saved)
  {
  }

  lemma ResendOk(s: State, t: State, image: Bytes, a: nat, d: Bytes)
    requires QueueOk(s, image) && t.queue == s.queue + [Write(a, d, s.epoch)] && t.epoch == s.epoch
    requires t.saved == s.saved && t.clean == s.clean && s.clean && WordsTo(image, a, d)
    ensures QueueOk(t, image) && (NoErase(s.queue) ==> NoErase(t.queue))
  {
    forall i | 0 <= i < |t.queue| ensures RequestOk(t.queue[i], t, image) {
      if i < |s.queue| { assert RequestOk(s.queue[i], s, image); }
    }
  }

  lemma ReadOk(s: State, image: Bytes, p: nat, n: nat)
    requires 0 < p && Safe(s, image) && Enabled(s, Read(n), |image|) && WordReads(s, Read(n), |image|)
    ensures Safe(Step(s, Read(n), image, p), image)
  {
    var a := s.attempt.value;
    if n > 0 {
      ResendOk(s, Step(s, Read(n), image, p), image, a.pos, image[a.at..a.at + n]);
    }
  }

  lemma ExpireOk(s: State, image: Bytes, p: nat)
    requires 0 < p && Safe(s, image) && Enabled(s, Expire, |image|)
    ensures Safe(Step(s, Expire, image, p), image)
  {
    var a := s.attempt.value;
    if a.phase == Writing {
      ResendOk(s, Step(s, Expire, image, p), image, a.pos, a.buf);
    }
  }

  /** Every step keeps a safe state safe, and the stored offset where it is or further on. */
  lemma StepSafe(s: State, op: Op, image: Bytes, p: nat)
    requires 0 < p && CHECK_SIZE % p == 0 && Safe(s, image) && Enabled(s, op, |image|) && WordReads(s, op, |image|)
    ensures Safe(Step(s, op, image, p), image) && s.saved <= Step(s, op, image, p).saved
  {
    match op
    case Start => StartOk(s, image, p);
    case Exec(pad) => if s.queue[0].Erase? { ExecEraseOk(s, image, p, pad); } else { ExecWriteOk(s, image, p, pad); }
    case Lose => QueueTail(s, Step(s, op, image, p), image);
    case Cut(k, pad) => CutOk(s, image, p, k, pad);
    case Fault(k) => FaultOk(s, image, p, k);
    case Reply => ReplyOk(s, image, p);
    case Expire => ExpireOk(s, image, p);
    case Read(n) => ReadOk(s, image, p, n);
    case ReadFail =>
    case Reboot =>
  }

  // ---------------------------------------------------------------- whole runs

  ghost predicate RunOk(s: State, ops: seq<Op>, image: Bytes, p: nat)
    requires 0 < p
    decreases ops
  {
    ops == [] ||
    (Enabled(s, ops[0], |image|) && WordReads(s, ops[0], |image|) && RunOk(Step(s, ops[0], image, p), ops[1..], image, p))
  }

  ghost function Run(s: State, ops: seq<Op>, image: Bytes, p: nat): State
    requires 0 < p && RunOk(s, ops, image, p)
    decreases ops
  {
    if ops == [] then s else Run(Step(s, ops[0], image, p), ops[1..], image, p)
  }

  lemma {:induction false} RunSafe(s: State, ops: seq<Op>, image: Bytes, p: nat)
    requires 0 < p && CHECK_SIZE % p == 0 && RunOk(s, ops, image, p) && Safe(s, image)
    ensures Safe(Run(s, ops, image, p), image) && s.saved <= Run(s, ops, image, p).saved
    decreases ops
  {
    if ops != [] {
      StepSafe(s, ops[0], image, p);
      RunSafe(Step(s, ops[0], image, p), ops[1..], image, p);
    }
  }

  /**
   * Whatever was in the flash, and whatever fails and restarts on the way: the bytes below the stored offset are those
   * of the image, bytes erased once are blank or right, and an attempt that reports success leaves the whole image.
   */
  lemma DownloadSafe(flash: Bytes, ops: seq<Op>, image: Bytes, p: nat)
    requires 0 < p && CHECK_SIZE % p == 0 && |image| <= |flash| && RunOk(Init(flash), ops, image, p)
    ensures var s := Run(Init(flash), ops, image, p);
            && Matches(s.flash, image, s.saved) && (s.clean ==> Clean(s.flash, image))
            && (s.attempt.Some? && s.attempt.value.phase != Erasing ==> Matches(s.flash, image, s.attempt.value.pos))
            && (forall op :: Finishes(s, op, |image|) ==> s.flash[..|image|] == image)
  {
    RunSafe(Init(flash), ops, image, p);
    var s := Run(Init(flash), ops, image, p);
    if Matches(s.flash, image, |image|) { assert s.flash[..|image|] == image; }
  }

  /**
   * An attempt ends when there is nothing more to read, when its erase fails or is not answered, and by a restart; and it
   * begins again only from the stored offset.
   */
  lemma AttemptEnds(s: State, op: Op, image: Bytes, p: nat)
    requires 0 < p && Enabled(s, op, |image|)
    ensures var t := Step(s, op, image, p);
            && (s.attempt.Some? ==>
                  (t.attempt == None <==> op == Read(0) || op == Reboot || (op == Expire && s.attempt.value.phase == Erasing)))
            && (s.attempt == None && t.attempt.Some? ==>
                  t.attempt.value.pos == t.attempt.value.at == s.saved && t.queue == s.queue + [Erase(s.saved, t.epoch)])
  {
  }

  // ---------------------------------------------------------------- how much a restart costs

  /** An attempt that is past its erase has stored all its progress but for less than a checkpoint. */
  predicate Close(s: State) {
    && s.saved % CHECK_SIZE == 0
    && (s.attempt.Some? ==>
          var a := s.attempt.value;
          if a.phase == Erasing then a.pos == s.saved && a.last == 0 && a.buf == []
          else a.last == s.saved <= a.pos && a.pos - s.saved < CHECK_SIZE)
  }

  lemma StepClose(s: State, op: Op, image: Bytes, p: nat)
    requires 0 < p && Close(s) && Enabled(s, op, |image|)
    ensures Close(Step(s, op, image, p))
  {
    if op == Reply {
      var a := s.attempt.value;
      ProgressClose(s.saved, a.last, a.pos + |a.buf|);
      ProgressOk(s.saved, a.last, a.pos + |a.buf|);
    }
  }

  lemma {:induction false} RunClose(s: State, ops: seq<Op>, image: Bytes, p: nat)
    requires 0 < p && Close(s) && RunOk(s, ops, image, p)
    ensures Close(Run(s, ops, image, p))
    decreases ops
  {
    if ops != [] {
      StepClose(s, ops[0], image, p);
      RunClose(Step(s, ops[0], image, p), ops[1..], image, p);
    }
  }

  /** For every run and any page size: an attempt that is past its erase, cut off there, is resumed less than 10 KiB before. */
  lemma LittleLost(flash: Bytes, ops: seq<Op>, image: Bytes, p: nat)
    requires 0 < p && RunOk(Init(flash), ops, image, p)
    requires var s := Run(Init(flash), ops, image, p); s.attempt.Some? && s.attempt.value.phase != Erasing
    ensures var s := Run(Init(flash), ops, image, p);
            var t := Step(Step(s, Reboot, image, p), Start, image, p);
            && t.attempt.Some? && t.attempt.value.pos == t.attempt.value.at <= s.attempt.value.pos
            && s.attempt.value.pos < t.attempt.value.pos + 10240
  {
    RunClose(Init(flash), ops, image, p);
  }
}
