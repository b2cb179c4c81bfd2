/** Where the scans of explorebits.py stop: the sync word, the first Type-2
    header, and the frames dumped after it, as functions of the buffer. */
module Locate {
  import opened Wrappers
  import opened Bytes
  import opened Packets

  const SYNC: nat := 0xAA99_5566

  /** The last offset the sync scan tries. */
  const SYNC_LIMIT: nat := 500

  /** The bytes of the sync word, in stream order. */
  const SyncBytes: seq<Byte> := [0xAA, 0x99, 0x55, 0x66]

  predicate SyncAt(buf: seq<Byte>, k: nat)
  {
    k + 4 <= |buf| && buf[k..k + 4] == SyncBytes
  }

  /** A read compares equal to the sync word exactly where its four bytes begin;
      a short read near the end is too small to match. */
  lemma WordIsSync(buf: seq<Byte>, k: nat)
    ensures WordAt(buf, k) == SYNC <==> SyncAt(buf, k)
  {
    if k + 4 <= |buf| {
      var s := buf[k..k + 4];
      BeValue4(s);
      BeValue4(SyncBytes);
      if WordAt(buf, k) == SYNC {
        BeBytesOfBeValue(s);
        BeBytesOfBeValue(SyncBytes);
      }
    }
  }

  /** The least offset from k to SYNC_LIMIT at which a read gives the sync word. */
  function FirstSyncFrom(buf: seq<Byte>, k: nat): (r: Option<nat>)
    ensures r.Some? ==> k <= r.value <= SYNC_LIMIT && WordAt(buf, r.value) == SYNC
    decreases SYNC_LIMIT + 1 - k
  {
    if k > SYNC_LIMIT then None
    else if WordAt(buf, k) == SYNC then Some(k)
    else FirstSyncFrom(buf, k + 1)
  }

  /** The sync scan of `readbit`, from offset 0. */
  function FirstSync(buf: seq<Byte>): (r: Option<nat>)
    ensures r.Some? ==> r.value <= SYNC_LIMIT && WordAt(buf, r.value) == SYNC
  {
    FirstSyncFrom(buf, 0)
  }

  lemma {:induction false} FirstSyncFromSound(buf: seq<Byte>, k: nat, m: nat)
    requires FirstSyncFrom(buf, k) == Some(m)
    ensures k <= m <= SYNC_LIMIT && SyncAt(buf, m)
    ensures forall j :: k <= j < m ==> !SyncAt(buf, j)
    decreases SYNC_LIMIT + 1 - k
  {
    WordIsSync(buf, k);
    if WordAt(buf, k) != SYNC {
      FirstSyncFromSound(buf, k + 1, m);
    }
  }

  lemma {:induction false} FirstSyncFromComplete(buf: seq<Byte>, k: nat, m: nat)
    requires k <= m <= SYNC_LIMIT && SyncAt(buf, m)
    ensures FirstSyncFrom(buf, k).Some? && FirstSyncFrom(buf, k).value <= m
    decreases m - k
  {
    WordIsSync(buf, k);
    if k < m && WordAt(buf, k) != SYNC {
      FirstSyncFromComplete(buf, k + 1, m);
    }
    WordIsSync(buf, m);
  }

  /** The sync scan finds the first occurrence of AA 99 55 66 that begins at
      an offset from 0 to 500, and finds nothing when none begins there. */
  lemma FirstSyncSpec(buf: seq<Byte>)
    ensures FirstSync(buf).Some? ==>
      FirstSync(buf).value <= SYNC_LIMIT && SyncAt(buf, FirstSync(buf).value)
      && forall j :: 0 <= j < FirstSync(buf).value ==> !SyncAt(buf, j)
    ensures FirstSync(buf).None? <==> forall j :: 0 <= j <= SYNC_LIMIT ==> !SyncAt(buf, j)
  {
    if FirstSync(buf).Some? {
      FirstSyncFromSound(buf, 0, FirstSync(buf).value);
    }
    forall j | 0 <= j <= SYNC_LIMIT && SyncAt(buf, j)
      ensures FirstSync(buf).Some?
    {
      FirstSyncFromComplete(buf, 0, j);
    }
  }

  /** The word i positions after p has a Type-2 header's top bits. */
  predicate Type2At(buf: seq<Byte>, p: nat, i: nat)
  {
    KindOf(WordAt(buf, p + 4 * i)) == Type2
  }

  /** Word j from p is word j - 1 from p + 4. */
  lemma Type2AtShift(buf: seq<Byte>, p: nat, j: nat)
    requires j > 0
    ensures Type2At(buf, p, j) == Type2At(buf, p + 4, j - 1)
  {
    assert p + 4 * j == (p + 4) + 4 * (j - 1);
  }

  /** `type2` from p: the offset just past the first word, tried at p, p+4,
      p+8, ..., whose top bits mark a Type-2 header. None when the scan runs
      off the end of the buffer first, where every read gives 0 and the
      source's loop never ends. */
  function FindType2(buf: seq<Byte>, p: nat): (r: Option<nat>)
    ensures r.Some? ==> r.value >= p + 4
    decreases |buf| - p
  {
    if p >= |buf| then None
    else if KindOf(WordAt(buf, p)) == Type2 then Some(p + 4)
    else FindType2(buf, p + 4)
  }

  /** What FindType2 finds is just past a word-aligned Type-2 word. */
  lemma {:induction false} FindType2Found(buf: seq<Byte>, p: nat)
    requires FindType2(buf, p).Some?
    ensures var q := FindType2(buf, p).value;
      (q - p) % 4 == 0 && KindOf(WordAt(buf, q - 4)) == Type2
    decreases |buf| - p
  {
    var q := FindType2(buf, p).value;
    if KindOf(WordAt(buf, p)) == Type2 {
      assert q - 4 == p;
    } else {
      assert q == FindType2(buf, p + 4).value;
      FindType2Found(buf, p + 4);
      assert q - p == (q - (p + 4)) + 4;
    }
  }

  /** What FindType2 finds is the first Type-2 word at a word offset from p;
      words in between, payload words included, are all tried. */
  lemma {:induction false} FindType2Sound(buf: seq<Byte>, p: nat)
    requires FindType2(buf, p).Some?
    ensures var q := FindType2(buf, p).value;
      forall j: nat :: p + 4 * j < q - 4 ==> !Type2At(buf, p, j)
    decreases |buf| - p
  {
    if KindOf(WordAt(buf, p)) != Type2 {
      var p' := p + 4;
      FindType2Sound(buf, p');
      var q := FindType2(buf, p).value;
      forall j: nat | p + 4 * j < q - 4
        ensures !Type2At(buf, p, j)
      {
        if j > 0 {
          Type2AtShift(buf, p, j);
        }
      }
    }
  }

  /** A Type-2 word at index i, with none before it, is the one found. */
  lemma FindType2Complete(buf: seq<Byte>, p: nat, i: nat)
    requires Type2At(buf, p, i)
    requires forall j :: 0 <= j < i ==> !Type2At(buf, p, j)
    ensures FindType2(buf, p) == Some(p + 4 * (i + 1))
  {
    assert p + 4 * i < |buf| by {
      assert WordAt(buf, p + 4 * i) != 0;
    }
    if FindType2(buf, p).None? {
      FindType2None(buf, p);
      assert false;
    } else {
      var q := FindType2(buf, p).value;
      FindType2Found(buf, p);
      FindType2Sound(buf, p);
      var j := (q - 4 - p) / 4;
      assert p + 4 * j == q - 4;
      assert Type2At(buf, p, j);
      assert j >= i;
      assert j <= i;
    }
  }

  /** Nothing found: no word-aligned read from p inside the buffer is a Type-2 header. */
  lemma {:induction false} FindType2None(buf: seq<Byte>, p: nat)
    requires FindType2(buf, p).None?
    ensures forall i: nat :: p + 4 * i < |buf| ==> !Type2At(buf, p, i)
    decreases |buf| - p
  {
    if p < |buf| {
      var p' := p + 4;
      FindType2None(buf, p');
      forall i: nat | p + 4 * i < |buf|
        ensures !Type2At(buf, p, i)
      {
        if i > 0 {
          Type2AtShift(buf, p, i);
        }
      }
    }
  }

  /** A Type-1 write to FAR whose one payload word happens to carry Type-2 top
      bits: the locator stops at that payload word, which `parseframe` would
      have consumed as data. */
  lemma Type2InPayload(buf: seq<Byte>)
    requires buf == [0x30, 0x00, 0x20, 0x01, 0x40, 0x00, 0x00, 0x05]
    ensures FindType2(buf, 0) == Some(8) && Type2Count(WordAt(buf, 4)) == 5
    ensures Parse(buf, 0).next == 8 && PayloadOf(Parse(buf, 0).trace) == [0x4000_0005]
  {
    BeValue4(buf[0..4]);
    BeValue4(buf[4..8]);
    var w0, w1 := WordAt(buf, 0), WordAt(buf, 4);
    assert w0 == 0x3000_2001;
    assert w1 == 0x4000_0005;
    assert KindOf(w0) == Type1 && Type1Count(w0) == 1 && Register(w0) == 1;
    assert KindOf(w1) == Type2 && Type2Count(w1) == 5;
    assert FindType2(buf, 4) == Some(8);
    ParseCursor(buf, 0);
    assert Parse(buf, 0).next == 8;
    ParsePayloadType1(buf, 0);
    assert Words(buf, 4, 1) == [w1];
    assert PayloadOf(Parse(buf, 0).trace) == Words(buf, 4, 1);
  }

  /** The words of one frame. */
  const FRAME_WORDS: nat := 101

  /** The record of frame i of a dump from offset s, numbered from index. */
  function FrameAt(buf: seq<Byte>, s: nat, index: nat, i: nat): Event
  {
    FrameRecord(index + i, Words(buf, s + 4 * FRAME_WORDS * i, FRAME_WORDS))
  }

  /** The records of k frames dumped from offset s, numbered from index. */
  function Frames(buf: seq<Byte>, s: nat, index: nat, k: nat): (fs: seq<Event>)
    ensures |fs| == k
  {
    if k == 0 then [] else Frames(buf, s, index, k - 1) + [FrameAt(buf, s, index, k - 1)]
  }

  /** Record i of a dump has index `index + i` and holds the 101 words at
      `s + 404 i`. */
  lemma {:induction false} FramesRecord(buf: seq<Byte>, s: nat, index: nat, k: nat, i: nat)
    requires i < k
    ensures Frames(buf, s, index, k)[i] == FrameRecord(index + i, Words(buf, s + 4 * FRAME_WORDS * i, FRAME_WORDS))
    decreases k
  {
    if i < k - 1 {
      FramesRecord(buf, s, index, k - 1, i);
    }
  }

  /** One more frame appends the record of the frame at offset at. */
  lemma FramesSnoc(buf: seq<Byte>, s: nat, index: nat, k: nat, at: nat)
    requires at == s + 4 * FRAME_WORDS * k
    ensures Frames(buf, s, index, k + 1)
      == Frames(buf, s, index, k) + [FrameRecord(index + k, Words(buf, at, FRAME_WORDS))]
  {
  }

  /** How many frames `while position < end: dumpframe()` dumps when end is d
      bytes ahead: the least k with 404 k >= d. */
  function FramesTo(d: int): (k: nat)
    ensures d <= 0 ==> k == 0
    ensures d > 0 ==> 4 * FRAME_WORDS * (k - 1) < d <= 4 * FRAME_WORDS * k
  {
    if d <= 0 then 0 else (d + 4 * FRAME_WORDS - 1) / (4 * FRAME_WORDS)
  }

  lemma FramesToUnique(d: int, k: nat)
    requires (d <= 0 && k == 0) || (d > 0 && 404 * (k - 1) < d <= 404 * k)
    ensures FramesTo(d) == k
  {
  }

  /** As written, the loop bound adds a word count to a byte offset: a region
      of 202 words, two frames, gets one frame dumped. */
  lemma FrameBoundAsWritten()
    ensures FramesTo(202) == 1
  {
  }

  /** With the bound in bytes, a region of whole frames is dumped frame by
      frame and the cursor ends exactly at its end. */
  lemma FrameBoundIntended(count: nat)
    requires count % FRAME_WORDS == 0
    ensures FramesTo(4 * count) == count / FRAME_WORDS
    ensures 4 * FRAME_WORDS * FramesTo(4 * count) == 4 * count
  {
    var k := count / FRAME_WORDS;
    assert 4 * count == 404 * k;
    FramesToUnique(4 * count, k);
  }

  /** What the frame dump of `main` does from cursor p with framecount f:
      the Type-2 count it finds, what it prints, how many frames it dumps
      and where the cursor ends. `inBytes` selects the end of the run:
      `position + count` as written, or `position + 4 * count`. */
  datatype Dump = Dump(count: Option<nat>, trace: seq<Event>, frames: nat, end: nat)

  function DumpOf(buf: seq<Byte>, p: nat, f: nat, inBytes: bool): (d: Dump)
    ensures d.count.Some? <==> FindType2(buf, p).Some?
    ensures d.count.None? ==> d.trace == [] && d.frames == 0
    ensures d.count.Some? ==> |d.trace| == 2 + d.frames
  {
    match FindType2(buf, p)
    case None => Dump(None, [], 0, p)
    case Some(s) =>
      var count := Type2Count(WordAt(buf, s - 4));
      var k := FramesTo(if inBytes then 4 * count else count);
      Dump(Some(count), [Type2Header, Type2Run(s, count)] + Frames(buf, s, f, k), k, s + 4 * FRAME_WORDS * k)
  }

  /** Dumping with the end in bytes covers the whole run: the cursor stops
      at the first frame boundary at or past the run's end, and for a run of
      whole frames exactly at its end. As written, the frames dumped cover
      `count` bytes rounded up to whole frames: all of a run of at most one
      frame, and about a quarter of a long run. */
  lemma DumpCoverage(buf: seq<Byte>, p: nat, f: nat)
    requires FindType2(buf, p).Some?
    ensures var s := FindType2(buf, p).value;
      var d := DumpOf(buf, p, f, true);
      var count := d.count.value;
      && s + 4 * count <= d.end < s + 4 * count + 4 * FRAME_WORDS
      && (count % FRAME_WORDS == 0 ==> d.end == s + 4 * count)
    ensures var s := FindType2(buf, p).value;
      var d := DumpOf(buf, p, f, false);
      var count := d.count.value;
      count > 0 ==> s + count <= d.end < s + count + 4 * FRAME_WORDS
  {
    var s := FindType2(buf, p).value;
    var count := Type2Count(WordAt(buf, s - 4));
    DumpOfEnd(buf, p, f, true);
    DumpOfEnd(buf, p, f, false);
    FramesToCovers(4 * count);
    FramesToCovers(count);
    if count % FRAME_WORDS == 0 {
      FrameBoundIntended(count);
    }
  }

  /** Where a dump ends once the Type-2 header is found at s - 4. */
  lemma DumpOfEnd(buf: seq<Byte>, p: nat, f: nat, inBytes: bool)
    requires FindType2(buf, p).Some?
    ensures var s := FindType2(buf, p).value;
      var d := DumpOf(buf, p, f, inBytes);
      s >= 4 && d.count == Some(Type2Count(WordAt(buf, s - 4)))
      && d.end == s + 4 * FRAME_WORDS * FramesTo(if inBytes then 4 * d.count.value else d.count.value)
  {
  }

  /** The frames dumped towards an end d bytes ahead reach it and overshoot
      by less than one frame. */
  lemma FramesToCovers(d: nat)
    ensures d <= 4 * FRAME_WORDS * FramesTo(d) < d + 4 * FRAME_WORDS
  {
  }
}
