/** The disassembler session of explorebits.py: the bitstream it walks and
    the two module globals, `position` and `framecount`, that its steps
    update. Printing is replaced by a returned trace of events. */
module Explore {
  import opened Wrappers
  import opened Bytes
  import opened Registers
  import opened Packets
  import opened Locate
  import opened Container

  /** Where the sync scan leaves the cursor: just past the sync word, or
      one past the last offset tried. */
  function SyncEnd(buf: seq<Byte>): (e: nat)
    ensures 4 <= e <= SYNC_LIMIT + 4
    ensures FirstSync(buf).Some? ==> WordAt(buf, e - 4) == SYNC
  {
    if FirstSync(buf).Some? then FirstSync(buf).value + 4 else SYNC_LIMIT + 1
  }

  /** What the sync scan prints: the not-found notice when there is no
      sync word, then the cursor. */
  function SyncTrace(buf: seq<Byte>): (t: seq<Event>)
    ensures |t| == (if FirstSync(buf).Some? then 1 else 2)
    ensures t[|t| - 1] == SyncPosition(SyncEnd(buf))
    ensures FirstSync(buf).None? ==> t[0] == SyncNotFound
  {
    (if FirstSync(buf).Some? then [] else [SyncNotFound]) + [SyncPosition(SyncEnd(buf))]
  }

  class Explorer {
    /** The bitstream, already read from its file. */
    const buf: seq<Byte>
    /** The byte cursor every step reads at and moves. */
    var position: nat
    /** The index of the next frame `DumpFrame` prints. */
    var framecount: nat

    /** The globals start at zero. */
    constructor (bitstream: seq<Byte>)
      ensures buf == bitstream && position == 0 && framecount == 0
    {
      buf := bitstream;
      position := 0;
      framecount := 0;
    }

    /** The sync scan of `readbit`: a big-endian read at every byte offset
        from 0; on the sync word the cursor is put just past it, and the scan
        gives up once it has passed offset 500. */
    method ReadBit() returns (found: bool, trace: seq<Event>)
      modifies this
      ensures found <==> FirstSync(buf).Some?
      ensures found ==> position == FirstSync(buf).value + 4
      ensures !found ==> position == SYNC_LIMIT + 1
      ensures position == SyncEnd(buf) && trace == SyncTrace(buf)
      ensures framecount == old(framecount)
    {
      position := 0;
      found := false;
      trace := [];
      while true
        invariant position <= SYNC_LIMIT
        invariant FirstSync(buf) == FirstSyncFrom(buf, position)
        invariant !found && trace == []
        invariant framecount == old(framecount)
        decreases SYNC_LIMIT - position
      {
        var command := WordAt(buf, position);
        position := position + 1;
        if command == SYNC {
          position := position + 3;
          found := true;
          break;
        }
        if position > SYNC_LIMIT {
          trace := [SyncNotFound];
          break;
        }
      }
      trace := trace + [SyncPosition(position)];
    }

    /** `parseframe`: one packet at the cursor. */
    method ParseFrame() returns (trace: seq<Event>)
      modifies this
      ensures position == Parse(buf, old(position)).next
      ensures trace == Parse(buf, old(position)).trace
      ensures framecount == old(framecount)
    {
      ghost var p := position;
      var command := WordAt(buf, position);
      ParseCases(buf, p, command);
      position := position + 4;
      var kind := KindOf(command);
      if kind == Type1 {
        var rest := Type1Packet(command);
        trace := [Command(command)] + rest;
        assert Parse(buf, p) == Step(position, trace);
      } else if kind.Type2? {
        var count := Type2Count(command);
        var _, body := ReadPayload(count);
        trace := [Command(command), Type2Header] + body;
        assert Parse(buf, p) == Step(position, trace);
      } else {
        trace := [Command(command), UnknownType];
        assert Parse(buf, p) == Step(position, trace);
      }
    }

    /** The Type-1 branch of `parseframe`, entered with the cursor just past
        the command word: the opcode and register line, the payload, and the
        CIPHERTEXT or BSPI follow-up. */
    method Type1Packet(command: nat) returns (trace: seq<Event>)
      requires position >= 4
      modifies this
      ensures position == Type1Rest(buf, command, old(position)).next
      ensures trace == Type1Rest(buf, command, old(position)).trace
      ensures framecount == old(framecount)
    {
      var opcode := Opcode(command);
      var register := Register(command);
      var count := Type1Count(command);
      var op := OpName(opcode);
      var name := DecodeReg(register);
      var header: seq<Event>;
      if op == Read || op == Write {
        header := [Access(op, name, count)];
        if name == UNKNOWN {
          header := header + [UnknownAddress(register)];
        }
      } else {
        header := [OpOnly(op)];
      }
      assert header == Header(op, register, count);
      var data, body := ReadPayload(count);
      var quirk: seq<Event> := [];
      if name == CIPHERTEXT {
        quirk := [CiphertextSkip(data)];
        position := position + 4 * data;
      } else if name == BSPI {
        match BspiMode(data)
        case Some(mode) =>
          quirk := [SpiMode(mode)];
        case None =>
      }
      assert quirk == Quirk(register, data);
      trace := header + body + quirk;
    }

    /** The payload handling that `parseframe` repeats for both packet types:
        fewer than 32 words are read and printed, more are skipped. `data` is
        the last word read, -1 when none was. */
    method ReadPayload(count: nat) returns (data: int, trace: seq<Event>)
      modifies this
      ensures position == old(position) + 4 * count
      ensures data == LastPayload(buf, old(position), count)
      ensures trace == Body(buf, old(position), count)
      ensures framecount == old(framecount)
    {
      data := -1;
      trace := [];
      if count < 32 {
        for i := 0 to count
          invariant position == old(position) + 4 * i
          invariant trace == PayloadEvents(Words(buf, old(position), i))
          invariant data == LastPayload(buf, old(position), i)
          invariant framecount == old(framecount)
        {
          data := WordAt(buf, position);
          position := position + 4;
          trace := trace + [Payload(data)];
        }
      } else {
        trace := [Skipped(count)];
        position := position + 4 * count;
      }
    }

    /** `type2`: read word after word until one has Type-2 top bits, leave
        the cursor just past it and return its 26-bit count. None when the
        cursor runs off the end first (there the source loops forever). */
    method Type2() returns (r: Option<nat>, trace: seq<Event>)
      modifies this
      ensures r.Some? <==> FindType2(buf, old(position)).Some?
      ensures r.Some? ==> position == FindType2(buf, old(position)).value
      ensures r.Some? ==> position >= 4 && r.value == Type2Count(WordAt(buf, position - 4))
      ensures r.Some? ==> trace == [Type2Header, Type2Run(position, r.value)]
      ensures r.None? ==> position >= |buf| && trace == []
      ensures framecount == old(framecount)
    {
      ghost var start := position;
      var kind := UnknownKind;
      var command := 0;
      while !kind.Type2?
        invariant !kind.Type2? ==> FindType2(buf, start) == FindType2(buf, position)
        invariant kind.Type2? ==>
          position >= 4 && command == WordAt(buf, position - 4) && FindType2(buf, start) == Some(position)
        invariant framecount == old(framecount)
        decreases |buf| - position
      {
        if position >= |buf| {
          return None, [];
        }
        command := WordAt(buf, position);
        position := position + 4;
        kind := KindOf(command);
      }
      var count := Type2Count(command);
      trace := [Type2Header, Type2Run(position, count)];
      r := Some(count);
    }

    /** `setup`: the sync scan, then the scan for the first Type-2 header. */
    method Setup() returns (r: Option<nat>, trace: seq<Event>)
      modifies this
      ensures r.Some? <==> FindType2(buf, SyncEnd(buf)).Some?
      ensures r.Some? ==>
        var s := FindType2(buf, SyncEnd(buf)).value;
        s >= 4 && position == s && r.value == Type2Count(WordAt(buf, s - 4))
        && trace == SyncTrace(buf) + [Type2Header, Type2Run(s, r.value)]
      ensures r.None? ==> trace == SyncTrace(buf)
      ensures framecount == old(framecount)
    {
      var _, t := ReadBit();
      ghost var start := position;
      assert start == SyncEnd(buf) && t == SyncTrace(buf);
      var t2;
      r, t2 := Type2();
      trace := t + t2;
      assert r.None? ==> t2 == [] && trace == t;
    }

    /** `scan(frame)`: move the cursor over whole frames without reading them. */
    method Scan(frame: nat) returns (trace: seq<Event>)
      modifies this
      ensures position == old(position) + frame * FRAME_WORDS * 4
      ensures framecount == old(framecount)
      ensures trace == [NewPosition(position)]
    {
      position := position + frame * FRAME_WORDS * 4;
      trace := [NewPosition(position)];
    }

    /** `dumpframe`: print the frame index, then the 101 words at the cursor. */
    method DumpFrame() returns (trace: seq<Event>)
      modifies this
      ensures position == old(position) + 4 * FRAME_WORDS
      ensures framecount == old(framecount) + 1
      ensures trace == [FrameRecord(old(framecount), Words(buf, old(position), FRAME_WORDS))]
    {
      var index := framecount;
      framecount := framecount + 1;
      var words: seq<nat> := [];
      for i := 0 to FRAME_WORDS
        invariant position == old(position) + 4 * i
        invariant words == Words(buf, old(position), i)
        invariant framecount == old(framecount) + 1
      {
        var command := WordAt(buf, position);
        position := position + 4;
        words := words + [command];
      }
      trace := [FrameRecord(index, words)];
    }

    /** `while position < end: dumpframe(bit)`. */
    method DumpUntil(end: int) returns (trace: seq<Event>)
      modifies this
      ensures position == old(position) + 4 * FRAME_WORDS * FramesTo(end - old(position))
      ensures framecount == old(framecount) + FramesTo(end - old(position))
      ensures trace == Frames(buf, old(position), old(framecount), FramesTo(end - old(position)))
    {
      ghost var p0, f0 := position, framecount;
      ghost var k: nat := 0;
      trace := [];
      while position < end
        invariant position == p0 + 4 * FRAME_WORDS * k && framecount == f0 + k
        invariant k == 0 || p0 + 4 * FRAME_WORDS * (k - 1) < end
        invariant trace == Frames(buf, p0, f0, k)
        decreases end - position
      {
        ghost var at := position;
        var t := DumpFrame();
        assert t == [FrameRecord(f0 + k, Words(buf, at, FRAME_WORDS))];
        assert 4 * FRAME_WORDS * (k + 1) == 4 * FRAME_WORDS * k + 4 * FRAME_WORDS;
        FramesSnoc(buf, p0, f0, k, at);
        trace := trace + t;
        k := k + 1;
      }
      FramesToUnique(end - p0, k);
    }

    /** The frame dump of `main`, as written: the end of the Type-2 run is
        taken as `position + count`, a word count added to a byte offset. */
    method FrameDump() returns (r: Option<nat>, trace: seq<Event>)
      modifies this
      ensures var d := DumpOf(buf, old(position), old(framecount), false);
        r == d.count && trace == d.trace && framecount == old(framecount) + d.frames
        && (r.Some? ==> position == d.end)
    {
      var t;
      r, t := Type2();
      if r.None? {
        return None, t;
      }
      var count := r.value;
      var end := position + count;
      var frames := DumpUntil(end);
      trace := t + frames;
    }

    /** The frame dump with the end of the run in bytes, `position + 4 * count`. */
    method FrameDumpIntended() returns (r: Option<nat>, trace: seq<Event>)
      modifies this
      ensures var d := DumpOf(buf, old(position), old(framecount), true);
        r == d.count && trace == d.trace && framecount == old(framecount) + d.frames
        && (r.Some? ==> position == d.end)
    {
      var t;
      r, t := Type2();
      if r.None? {
        return None, t;
      }
      var count := r.value;
      var end := position + 4 * count;
      var frames := DumpUntil(end);
      trace := t + frames;
    }
  }

  /** The file kinds `main` tells apart by extension. */
  datatype Extension = BitFile | ClearFile | OtherFile

  /** The bytes `main` disassembles: a .bit file whole, a .clr file without
      its cryptographic header and trailer. */
  function Stream(file: seq<Byte>, ext: Extension): seq<Byte>
  {
    if ext == ClearFile then StripClear(file) else file
  }

  /** Where the Type-2 scan starts: past the sync word of a .bit file, at
      offset 0 of a decrypted payload, which is not scanned for sync. */
  function Start(stream: seq<Byte>, ext: Extension): nat
  {
    if ext == BitFile then SyncEnd(stream) else 0
  }

  /** What `main` prints before the frame dump: the sync scan's report for
      a .bit file, nothing for a .clr file. */
  function Prelude(stream: seq<Byte>, ext: Extension): seq<Event>
  {
    if ext == BitFile then SyncTrace(stream) else []
  }

  /** `main` with the file already read: pick the stream by extension, scan
      for sync (.bit only), find the Type-2 run and dump frames until the
      cursor reaches the run's end as the source computes it. */
  method Disassemble(file: seq<Byte>, ext: Extension) returns (r: Option<nat>, trace: seq<Event>)
    ensures ext == OtherFile ==> r.None? && trace == [UnrecognizedExtension]
    ensures ext != OtherFile ==>
      var stream := Stream(file, ext);
      var d := DumpOf(stream, Start(stream, ext), 0, false);
      r == d.count && trace == Prelude(stream, ext) + d.trace
  {
    if ext == OtherFile {
      return None, [UnrecognizedExtension];
    }
    var stream := if ext == ClearFile then StripClear(file) else file;
    var session := new Explorer(stream);
    var pre: seq<Event> := [];
    if ext == BitFile {
      var _, t := session.ReadBit();
      pre := t;
    }
    var t2;
    r, t2 := session.FrameDump();
    trace := pre + t2;
  }
}
