/** Where the download is not safe: pages that do not divide the checkpoint distance, and reads that are not whole words. */
module OtaLimits {
  import opened Common
  import opened Flash
  import opened Ota

  /** A write leaves its bytes right exactly if its address is word-aligned, or they were right before. */
  lemma WriteTakes(f: Bytes, image: Bytes, a: nat, d: Bytes, pad: Bytes)
    requires Clean(f, image) && Slice(image, a, d)
    ensures Slice(Programmed(f, a, d, pad), a, d) <==> a % 4 == 0 || Slice(f, a, d)
  {
    var r := Programmed(f, a, d, pad);
    if a % 4 == 0 {
      forall i | a <= i < a + |d| ensures r[i] == d[i - a] {
        assert d[i - a] == image[i];
        BurnBlank(image[i]);
        BurnSame(image[i]);
      }
      assert r[a..a + |d|] == d;
    }
  }

  const SMALL: Bytes := [1, 2, 3, 4]

  /** The first attempt on a blank flash of four bytes, about to fetch. */
  function Begun(flash: Bytes, pos: nat): State {
    State(flash, 0, Some(Attempt(pos, 0, pos, Fetching, [], false)), [], 1, true)
  }

  /** Fetching two bytes at `pos`, writing them, with `pad` behind them in the memory of the lower board, and hearing of it. */
  function TwoBytes(s: State, pad: Bytes, p: nat): State
    requires 0 < p && Enabled(s, Read(2), 4)
  {
    var t := Step(s, Read(2), SMALL, p);
    var u := if t.queue != [] then Step(t, Exec(pad), SMALL, p) else t;
    if Enabled(u, Reply, 4) then Step(u, Reply, SMALL, p) else u
  }

  lemma TwoBytesAt0(pad: Bytes, p: nat)
    requires 0 < p && |pad| >= 3
    ensures TwoBytes(Begun([BLANK, BLANK, BLANK, BLANK], 0), pad, p) == Begun([1, 2, pad[0], pad[1]], 2)
  {
    var s := Begun([BLANK, BLANK, BLANK, BLANK], 0);
    var t := Step(s, Read(2), SMALL, p);
    assert SMALL[0..2] == [1, 2];
    assert t.queue == [Write(0, [1, 2], 1)];
    var u := Step(t, Exec(pad), SMALL, p);
    BurnBlank(1);
    BurnBlank(2);
    BurnBlank(pad[0]);
    BurnBlank(pad[1]);
    assert Padded([1, 2], pad) == [1, 2, pad[0], pad[1]];
    assert u.flash == [1, 2, pad[0], pad[1]] && u.queue == [];
  }

  lemma TwoBytesAt2(f: Bytes, pad: Bytes, p: nat)
    requires 0 < p && |f| == 4
    ensures TwoBytes(Begun(f, 2), pad, p) == Begun(f, 4)
  {
    var s := Begun(f, 2);
    var t := Step(s, Read(2), SMALL, p);
    assert SMALL[2..4] == [3, 4];
    assert t.queue == [Write(2, [3, 4], 1)];
    var u := Step(t, Exec(pad), SMALL, p);
    assert u.flash == s.flash && u.queue == [];
  }

  /** Whatever a flash of four bytes held, the first attempt gets there. */
  lemma BegunReached(f: Bytes, p: nat)
    requires 0 < p && |f| == 4
    ensures RunOk(Init(f), Script(0), SMALL, p)
    ensures Run(Init(f), Script(0), SMALL, p) == Begun([BLANK, BLANK, BLANK, BLANK], 0)
  {
    var t := Step(Init(f), Start, SMALL, p);
    assert t.queue == [Erase(0, 1)];
    var u := Step(t, Exec([]), SMALL, p);
    CoverPages(4, p);
    assert u.flash == [BLANK, BLANK, BLANK, BLANK] && u.queue == [];
    RunThree(Init(f), Start, Exec([]), Reply, SMALL, p);
  }

  /**
   * Reads of two bytes, from any flash of four bytes: the first write fills its word up with what follows the data in
   * memory, the second is refused by the driver, nobody is told, and the attempt reports success with half of the image
   * in flash, unless what follows the data happens to be the other half.
   */
  lemma ShortReadsBreak(f: Bytes, pad: Bytes, p: nat)
    requires 0 < p && |f| == 4 && |pad| >= 3
    ensures RunOk(Init(f), Script(0), SMALL, p)
    ensures var s := Run(Init(f), Script(0), SMALL, p);
            && Safe(s, SMALL) && Enabled(s, Read(2), 4) && Enabled(TwoBytes(s, pad, p), Read(2), 4)
            && var t := TwoBytes(TwoBytes(s, pad, p), pad, p);
               Finishes(t, Read(0), 4) && (t.flash == SMALL <==> pad[..2] == SMALL[2..])
  {
    BegunReached(f, p);
    TwoBytesAt0(pad, p);
    TwoBytesAt2([1, 2, pad[0], pad[1]], pad, p);
    assert pad[..2] == [pad[0], pad[1]] && SMALL[2..] == [3, 4];
  }

  // ---------------------------------------------------------------- pages

  /** After `n` full chunks of the first attempt, before the first checkpoint is passed. */
  ghost predicate After(s: State, n: nat, image: Bytes) {
    && s.queue == [] && s.epoch == 1 && s.clean && Clean(s.flash, image) && Matches(s.flash, image, BUF_SIZE * n)
    && (if n < 80 then s.saved == 0 else s.saved == CHECK_SIZE)
    && s.attempt == Some(Attempt(BUF_SIZE * n, s.saved, BUF_SIZE * n, Fetching, [], false))
  }

  ghost function Chunk(): seq<Op> { [Read(BUF_SIZE), Exec([]), Reply] }

  lemma ChunkOk(s: State, n: nat, image: Bytes, p: nat)
    requires 0 < p && n < 80 && CHECK_SIZE < |image| && After(s, n, image)
    ensures RunOk(s, Chunk(), image, p) && After(Run(s, Chunk(), image, p), n + 1, image)
  {
    var pos := BUF_SIZE * n;
    var d := image[pos..pos + BUF_SIZE];
    var t := Step(s, Read(BUF_SIZE), image, p);
    assert t.queue == [Write(pos, d, 1)];
    var u := Step(t, Exec([]), image, p);
    assert u.queue == [] && u.attempt.value.acked;
    WriteEffect(s.flash, image, pos, d, []);
    assert u.flash == Programmed(s.flash, pos, d, []);
    var v := Step(u, Reply, image, p);
    assert After(v, n + 1, image);
    RunThree(s, Read(BUF_SIZE), Exec([]), Reply, image, p);
  }

  lemma RunThree(s: State, a: Op, b: Op, c: Op, image: Bytes, p: nat)
    requires 0 < p && Enabled(s, a, |image|) && WordReads(s, a, |image|)
    requires var t := Step(s, a, image, p); Enabled(t, b, |image|) && WordReads(t, b, |image|)
    requires var u := Step(Step(s, a, image, p), b, image, p); Enabled(u, c, |image|) && WordReads(u, c, |image|)
    ensures RunOk(s, [a, b, c], image, p)
    ensures Run(s, [a, b, c], image, p) == Step(Step(Step(s, a, image, p), b, image, p), c, image, p)
  {
    var t := Step(s, a, image, p);
    var u := Step(t, b, image, p);
    var v := Step(u, c, image, p);
    assert [a, b, c][1..] == [b, c] && [b, c][1..] == [c] && [c][1..] == [];
    assert RunOk(v, [], image, p) && Run(v, [], image, p) == v;
    assert RunOk(u, [c], image, p) && Run(u, [c], image, p) == v;
    assert RunOk(t, [b, c], image, p) && Run(t, [b, c], image, p) == v;
  }

  lemma {:induction false} RunJoin(s: State, a: seq<Op>, b: seq<Op>, image: Bytes, p: nat)
    requires 0 < p && RunOk(s, a, image, p) && RunOk(Run(s, a, image, p), b, image, p)
    ensures RunOk(s, a + b, image, p) && Run(s, a + b, image, p) == Run(Run(s, a, image, p), b, image, p)
    decreases a
  {
    if a == [] {
      assert a + b == b;
    } else {
      assert (a + b)[1..] == a[1..] + b;
      RunJoin(Step(s, a[0], image, p), a[1..], b, image, p);
    }
  }

  /** The first attempt: erase, then `n` chunks. */
  ghost function Script(n: nat): seq<Op> { if n == 0 then [Start, Exec([]), Reply] else Script(n - 1) + Chunk() }

  lemma FirstErase(flash: Bytes, image: Bytes, p: nat)
    requires 0 < p && CHECK_SIZE < |image| <= |flash|
    ensures RunOk(Init(flash), Script(0), image, p) && After(Run(Init(flash), Script(0), image, p), 0, image)
  {
    var t := Step(Init(flash), Start, image, p);
    assert t.queue == [Erase(0, 1)];
    var u := Step(t, Exec([]), image, p);
    assert Matches(flash, image, 0);
    EraseEffect(flash, image, 0, Pages(|image|, p), p);
    assert u.flash == ErasedPages(flash, 0, Pages(|image|, p), p) && u.queue == [];
    assert After(Step(u, Reply, image, p), 0, image);
    RunThree(Init(flash), Start, Exec([]), Reply, image, p);
  }

  lemma {:induction false} ScriptOk(flash: Bytes, n: nat, image: Bytes, p: nat)
    requires 0 < p && n <= 80 && CHECK_SIZE < |image| <= |flash|
    ensures RunOk(Init(flash), Script(n), image, p) && After(Run(Init(flash), Script(n), image, p), n, image)
  {
    if n == 0 {
      FirstErase(flash, image, p);
    } else {
      ScriptOk(flash, n - 1, image, p);
      var s := Run(Init(flash), Script(n - 1), image, p);
      ChunkOk(s, n - 1, image, p);
      RunJoin(Init(flash), Script(n - 1), Chunk(), image, p);
    }
  }

  ghost function Restart(): seq<Op> { [Reboot, Start, Exec([])] }

  lemma RestartErases(s: State, image: Bytes, p: nat)
    requires 0 < p && CHECK_SIZE < |image| && After(s, 80, image)
    ensures RunOk(s, Restart(), image, p)
    ensures var u := Run(s, Restart(), image, p);
            u.saved == CHECK_SIZE && u.flash == Erased(s.flash, CHECK_SIZE, |image| - CHECK_SIZE, p)
  {
    var t := Step(Step(s, Reboot, image, p), Start, image, p);
    assert t.queue == [Erase(CHECK_SIZE, 2)];
    RunThree(s, Reboot, Start, Exec([]), image, p);
  }

  /** The bytes of the page of the first checkpoint that are below it are blank in the image. */
  predicate BlankBelow(image: Bytes, p: nat)
    requires 0 < p && CHECK_SIZE <= |image|
  {
    forall i :: PageOf(CHECK_SIZE, p) <= i < CHECK_SIZE ==> image[i] == BLANK
  }

  lemma ErasedMatches(f: Bytes, image: Bytes, p: nat)
    requires 0 < p && CHECK_SIZE < |image| && Matches(f, image, CHECK_SIZE)
    ensures Matches(Erased(f, CHECK_SIZE, |image| - CHECK_SIZE, p), image, CHECK_SIZE)
            <==> CHECK_SIZE % p == 0 || BlankBelow(image, p)
  {
    var (n, page) := (|image| - CHECK_SIZE, PageOf(CHECK_SIZE, p));
    CoverPages(n, p);
    AtLeastOnePage(n, p);
    var r := Erased(f, CHECK_SIZE, n, p);
    assert forall i :: 0 <= i < page ==> r[i] == f[i] == image[i];
    assert forall i :: page <= i < CHECK_SIZE ==> Within(i, page, Pages(n, p) * p) && r[i] == BLANK;
  }

  lemma AtLeastOnePage(n: nat, p: nat)
    requires 0 < p && 0 < n
    ensures Pages(n, p) * p >= p && CHECK_SIZE < PageOf(CHECK_SIZE, p) + p
  {
    CoverPages(n, p);
    assert Pages(n, p) >= 1;
    AtLeastOne(p, Pages(n, p));
  }

  /** A download to the first checkpoint, a restart, and the erase of the resumed attempt. */
  ghost function Resumed(): seq<Op> { Script(80) + Restart() }

  /**
   * This run is safe exactly if the page size divides the checkpoint distance, or the image is blank where it does not:
   * otherwise the resumed attempt erases bytes below the stored offset, which are never fetched again.
   */
  lemma PagesMustDivide(flash: Bytes, image: Bytes, p: nat)
    requires 0 < p && CHECK_SIZE < |image| <= |flash|
    ensures RunOk(Init(flash), Resumed(), image, p)
    ensures var s := Run(Init(flash), Resumed(), image, p);
            Matches(s.flash, image, s.saved) <==> CHECK_SIZE % p == 0 || BlankBelow(image, p)
  {
    ScriptOk(flash, 80, image, p);
    var s := Run(Init(flash), Script(80), image, p);
    RestartErases(s, image, p);
    RunJoin(Init(flash), Script(80), Restart(), image, p);
    ErasedMatches(s.flash, image, p);
  }
}
