/** Configuration packets: the fields of a command word and what one call of
    `parseframe` does with the packet at a given offset, as a function of the
    buffer and the offset. Words are naturals below 2^32; masking and
    shifting by powers of two are written as division and remainder. */
module Packets {
  import opened Bytes
  import opened Registers

  datatype Kind = Type1 | Type2 | UnknownKind

  datatype Op = NOP | Read | Write | Reserved

  /** What the disassembler prints, one event per printed line. */
  datatype Event =
    | Command(word: nat)                          // the command word in hex
    | Access(op: Op, name: RegName, count: nat)    // "Read/Write : REG  len: n"
    | OpOnly(op: Op)                              // "NOP" or "Reserved"
    | UnknownAddress(code: nat)                   // the raw field of an UNKNOWN register
    | Payload(word: nat)                          // one payload word in hex
    | Skipped(count: nat)                         // "...skipped n words..."
    | CiphertextSkip(skip: int)                   // "...skipping n words of ciphertext..."
    | SpiMode(mode: ReadMode)                     // SPI read mode of a BSPI write
    | Type2Header                                 // "Type2"
    | UnknownType                                 // "UNKNOWN TYPE"
    | Type2Run(position: nat, count: nat)         // where the Type-2 run starts and its length
    | NewPosition(position: nat)                  // `scan`'s report
    | FrameRecord(index: nat, words: seq<nat>)    // one line of `dumpframe`
    | SyncNotFound                                // "sync header not found"
    | SyncPosition(position: nat)                 // "position: " after the sync scan
    | UnrecognizedExtension                       // neither .bit nor .clr

  /** `command & 0xE0000000` compared with 0x20000000 and 0x40000000: for a
      32-bit word, the top three bits are w / 2^29. */
  function KindOf(w: nat): (k: Kind)
    ensures k == Type1 <==> 0x2000_0000 <= w < 0x4000_0000
    ensures k == Type2 <==> 0x4000_0000 <= w < 0x6000_0000
  {
    var top := w / 0x2000_0000;
    if top == 1 then Type1 else if top == 2 then Type2 else UnknownKind
  }

  /** `(command >> 27) & 0x3` */
  function Opcode(w: nat): (r: nat)
    ensures r < 4
  {
    (w / 0x800_0000) % 4
  }

  /** `(command >> 13) & 0x3FFF` */
  function Register(w: nat): (r: nat)
    ensures r < 0x4000
  {
    (w / 0x2000) % 0x4000
  }

  /** `command & 0x7FF` */
  function Type1Count(w: nat): (r: nat)
    ensures r < 0x800
  {
    w % 0x800
  }

  /** `0x3ffffff & command` */
  function Type2Count(w: nat): (r: nat)
    ensures r < 0x400_0000
  {
    w % 0x400_0000
  }

  /** Bits 12 and 11, which a Type-1 header reserves and the decoder ignores. */
  function ReservedBits(w: nat): (r: nat)
    ensures r < 4
  {
    (w / 0x800) % 4
  }

  /** The opcode names of `parseframe`: an access line is printed exactly
      for opcodes 1 and 2. */
  function OpName(opcode: nat): (op: Op)
    ensures op == NOP <==> opcode == 0
    ensures (op == Read || op == Write) <==> (opcode == 1 || opcode == 2)
    ensures op == Reserved <==> opcode > 2
  {
    if opcode == 0 then NOP else if opcode == 1 then Read else if opcode == 2 then Write else Reserved
  }

  /** A Type-1 header from its fields, `0x20000000 | op << 27 | reg << 13 | count`;
      the fields do not overlap, so the or is a sum. */
  function Assemble(opcode: nat, register: nat, count: nat): nat
  {
    0x2000_0000 + opcode * 0x800_0000 + register * 0x2000 + count
  }

  /** The fields of an assembled header read back as they were put in. */
  lemma FieldsOfAssemble(opcode: nat, register: nat, count: nat)
    requires opcode < 4 && register < 0x4000 && count < 0x800
    ensures Assemble(opcode, register, count) < 0x1_0000_0000
    ensures KindOf(Assemble(opcode, register, count)) == Type1
    ensures Opcode(Assemble(opcode, register, count)) == opcode
    ensures Register(Assemble(opcode, register, count)) == register
    ensures Type1Count(Assemble(opcode, register, count)) == count
    ensures ReservedBits(Assemble(opcode, register, count)) == 0
  {
    var w := Assemble(opcode, register, count);
    assert w / 0x800 == 0x4_0000 + opcode * 0x1_0000 + register * 4;
    assert w / 0x2000 == 0x1_0000 + opcode * 0x4000 + register;
    assert w / 0x800_0000 == 4 + opcode;
  }

  /** A Type-1 word is re-assembled from its fields exactly when its reserved
      bits 12-11 are zero. */
  lemma AssembleOfFields(w: nat)
    requires w < 0x1_0000_0000 && KindOf(w) == Type1
    ensures Assemble(Opcode(w), Register(w), Type1Count(w)) == w <==> ReservedBits(w) == 0
  {
    var a := w / 0x2000;
    var b := ReservedBits(w);
    var c := Type1Count(w);
    assert w == 0x800 * (w / 0x800) + c;
    assert w / 0x800 == 4 * a + b;
    assert a == 0x4000 * (w / 0x800_0000) + Register(w);
    assert w / 0x800_0000 == 4 + Opcode(w);
    assert w == Assemble(Opcode(w), Register(w), c) + 0x800 * b;
  }

  /** The words at q, q+4, ..., q+4(n-1), as consecutive reads return them. */
  function Words(buf: seq<Byte>, q: nat, n: nat): (ws: seq<nat>)
    ensures |ws| == n
    ensures forall i :: 0 <= i < n ==> ws[i] == WordAt(buf, q + 4 * i)
  {
    if n == 0 then [] else Words(buf, q, n - 1) + [WordAt(buf, q + 4 * (n - 1))]
  }

  /** One payload print per word. */
  function PayloadEvents(ws: seq<nat>): (es: seq<Event>)
    ensures |es| == |ws|
    ensures forall i :: 0 <= i < |ws| ==> es[i] == Payload(ws[i])
  {
    if ws == [] then [] else PayloadEvents(ws[..|ws| - 1]) + [Payload(ws[|ws| - 1])]
  }

  /** The payload words a trace shows, in order. */
  function PayloadOf(trace: seq<Event>): seq<nat>
  {
    if trace == [] then []
    else PayloadOf(trace[..|trace| - 1]) + (if trace[|trace| - 1].Payload? then [trace[|trace| - 1].word] else [])
  }

  /** The SPI read modes a trace shows, in order. */
  function ModesOf(trace: seq<Event>): seq<ReadMode>
  {
    if trace == [] then []
    else ModesOf(trace[..|trace| - 1]) + (if trace[|trace| - 1].SpiMode? then [trace[|trace| - 1].mode] else [])
  }

  lemma {:induction false} PayloadOfAppend(a: seq<Event>, b: seq<Event>)
    ensures PayloadOf(a + b) == PayloadOf(a) + PayloadOf(b)
    decreases |b|
  {
    if b != [] {
      var b' := b[..|b| - 1];
      assert (a + b)[..|a + b| - 1] == a + b';
      PayloadOfAppend(a, b');
    } else {
      assert a + b == a;
    }
  }

  lemma {:induction false} ModesOfAppend(a: seq<Event>, b: seq<Event>)
    ensures ModesOf(a + b) == ModesOf(a) + ModesOf(b)
    decreases |b|
  {
    if b != [] {
      var b' := b[..|b| - 1];
      assert (a + b)[..|a + b| - 1] == a + b';
      ModesOfAppend(a, b');
    } else {
      assert a + b == a;
    }
  }

  lemma {:induction false} PayloadOfPayloadEvents(ws: seq<nat>)
    ensures PayloadOf(PayloadEvents(ws)) == ws
    ensures ModesOf(PayloadEvents(ws)) == []
    decreases |ws|
  {
    if ws != [] {
      var init := ws[..|ws| - 1];
      var es := PayloadEvents(ws);
      assert es[..|es| - 1] == PayloadEvents(init);
      PayloadOfPayloadEvents(init);
      assert ws == init + [ws[|ws| - 1]];
    }
  }

  /** The last payload word read, or the source's -1 when none was read
      (no payload, or a payload of 32 words or more, which is skipped). */
  function LastPayload(buf: seq<Byte>, q: nat, n: nat): (data: int)
    ensures data >= -1
  {
    if 0 < n < 32 then WordAt(buf, q + 4 * (n - 1)) else -1
  }

  /** A payload shorter than 32 words is printed word by word; a longer one is skipped. */
  function Body(buf: seq<Byte>, q: nat, n: nat): (body: seq<Event>)
    ensures n < 32 ==> |body| == n && forall e :: e in body ==> e.Payload?
    ensures n >= 32 ==> body == [Skipped(n)]
  {
    if n < 32 then PayloadEvents(Words(buf, q, n)) else [Skipped(n)]
  }

  /** The header line of a Type-1 packet: the access line for Read and
      Write, followed by the raw field of an unknown register; the bare
      opcode name otherwise. */
  function Header(op: Op, register: nat, n: nat): (h: seq<Event>)
    ensures |h| == (if (op == Read || op == Write) && register !in KnownCodes then 2 else 1)
    ensures op == Read || op == Write ==> h[0] == Access(op, DecodeReg(register), n)
    ensures op == NOP || op == Reserved ==> h[0] == OpOnly(op)
  {
    if op == Read || op == Write then
      [Access(op, DecodeReg(register), n)]
      + (if DecodeReg(register) == UNKNOWN then [UnknownAddress(register)] else [])
    else [OpOnly(op)]
  }

  /** The CIPHERTEXT and BSPI follow-ups, whatever the opcode. The source
      compares register names; DecodeReg gives those names to exactly these
      two codes. */
  function Quirk(register: nat, data: int): (q: seq<Event>)
    ensures register == CIPHERTEXT_CODE ==> q == [CiphertextSkip(data)]
    ensures register == BSPI_CODE ==> q == (if data in BspiTable then [SpiMode(BspiTable[data])] else [])
    ensures register != CIPHERTEXT_CODE && register != BSPI_CODE ==> q == []
  {
    if register == CIPHERTEXT_CODE then [CiphertextSkip(data)]
    else if register == BSPI_CODE then
      match BspiMode(data)
      case Some(mode) => [SpiMode(mode)]
      case None => []
    else []
  }

  datatype Step = Step(next: nat, trace: seq<Event>)

  /** The Type-1 branch of `parseframe` after the command word w, with the
      cursor at q, just past w: where the cursor ends up and what follows the
      command line. */
  function Type1Rest(buf: seq<Byte>, w: nat, q: nat): (r: Step)
    requires q >= 4
    ensures r.next >= q - 4
  {
    var n := Type1Count(w);
    var register := Register(w);
    var data := LastPayload(buf, q, n);
    var after := q + 4 * n;
    Step(if register == CIPHERTEXT_CODE then after + 4 * data else after,
         Header(OpName(Opcode(w)), register, n) + Body(buf, q, n) + Quirk(register, data))
  }

  /** One call of `parseframe` with the cursor at p: where the cursor ends up
      and what is printed. The cursor never ends before the command word. */
  function Parse(buf: seq<Byte>, p: nat): (r: Step)
    ensures r.next >= p
  {
    var w := WordAt(buf, p);
    var q := p + 4;
    match KindOf(w)
    case UnknownKind => Step(q, [Command(w), UnknownType])
    case Type2 =>
      var n := Type2Count(w);
      Step(q + 4 * n, [Command(w), Type2Header] + Body(buf, q, n))
    case Type1 =>
      var s := Type1Rest(buf, w, q);
      Step(s.next, [Command(w)] + s.trace)
  }

  /** `Parse` unfolded once, branch by branch, for the word w read at p. */
  lemma ParseCases(buf: seq<Byte>, p: nat, w: nat)
    requires w == WordAt(buf, p)
    ensures KindOf(w) == Type1 ==>
      Parse(buf, p) == Step(Type1Rest(buf, w, p + 4).next, [Command(w)] + Type1Rest(buf, w, p + 4).trace)
    ensures KindOf(w) == Type2 ==>
      Parse(buf, p) == Step(p + 4 + 4 * Type2Count(w), [Command(w), Type2Header] + Body(buf, p + 4, Type2Count(w)))
    ensures KindOf(w) == UnknownKind ==> Parse(buf, p) == Step(p + 4, [Command(w), UnknownType])
  {
  }

  /** The count of a Type-1 or Type-2 header. */
  function CountOf(w: nat): nat
  {
    if KindOf(w) == Type1 then Type1Count(w) else Type2Count(w)
  }

  /** A word of unknown type is consumed alone: the cursor moves one word. */
  lemma ParseUnknown(buf: seq<Byte>, p: nat)
    requires KindOf(WordAt(buf, p)) == UnknownKind
    ensures Parse(buf, p).next == p + 4
    ensures Parse(buf, p).trace == [Command(WordAt(buf, p)), UnknownType]
  {
  }

  /** A trace without payload prints shows no payload words. */
  lemma {:induction false} PayloadOfNone(t: seq<Event>)
    requires forall i :: 0 <= i < |t| ==> !t[i].Payload?
    ensures PayloadOf(t) == []
    decreases |t|
  {
    if t != [] {
      PayloadOfNone(t[..|t| - 1]);
    }
  }

  /** A trace without SPI mode prints shows no modes. */
  lemma {:induction false} ModesOfNone(t: seq<Event>)
    requires forall i :: 0 <= i < |t| ==> !t[i].SpiMode?
    ensures ModesOf(t) == []
    decreases |t|
  {
    if t != [] {
      ModesOfNone(t[..|t| - 1]);
    }
  }

  /** The three parts of a Type-1 trace: command and header, body, follow-up. */
  lemma Type1Trace(buf: seq<Byte>, p: nat)
    requires KindOf(WordAt(buf, p)) == Type1
    ensures var w := WordAt(buf, p);
      var n := Type1Count(w);
      Parse(buf, p).trace
        == ([Command(w)] + Header(OpName(Opcode(w)), Register(w), n))
           + Body(buf, p + 4, n)
           + Quirk(Register(w), LastPayload(buf, p + 4, n))
  {
    var w := WordAt(buf, p);
    var n := Type1Count(w);
    var header := Header(OpName(Opcode(w)), Register(w), n);
    var body := Body(buf, p + 4, n);
    var quirk := Quirk(Register(w), LastPayload(buf, p + 4, n));
    Regroup([Command(w)], header, body, quirk);
  }

  lemma Regroup(a: seq<Event>, b: seq<Event>, c: seq<Event>, d: seq<Event>)
    ensures a + (b + c + d) == (a + b) + c + d
  {
  }

  lemma BodyParts(buf: seq<Byte>, q: nat, n: nat)
    ensures PayloadOf(Body(buf, q, n)) == (if n < 32 then Words(buf, q, n) else [])
    ensures ModesOf(Body(buf, q, n)) == []
    ensures Skipped(n) in Body(buf, q, n) <==> n >= 32
  {
    var body := Body(buf, q, n);
    if n < 32 {
      PayloadOfPayloadEvents(Words(buf, q, n));
      assert forall i :: 0 <= i < |body| ==> body[i].Payload?;
    } else {
      PayloadOfNone(body);
      ModesOfNone(body);
    }
  }

  lemma HeaderParts(w: nat, op: Op, register: nat, n: nat)
    ensures var header := [Command(w)] + Header(op, register, n);
      PayloadOf(header) == [] && ModesOf(header) == [] && Skipped(n) !in header
  {
    var header := [Command(w)] + Header(op, register, n);
    assert forall i :: 0 <= i < |header| ==> !header[i].Payload? && !header[i].SpiMode? && !header[i].Skipped?;
    PayloadOfNone(header);
    ModesOfNone(header);
  }

  lemma QuirkParts(register: nat, data: int, n: nat)
    ensures var quirk := Quirk(register, data);
      PayloadOf(quirk) == [] && Skipped(n) !in quirk
      && ModesOf(quirk) == (if register == BSPI_CODE && data in BspiTable then [BspiTable[data]] else [])
  {
    var quirk := Quirk(register, data);
    assert |quirk| <= 1;
    assert forall i :: 0 <= i < |quirk| ==> !quirk[i].Payload? && !quirk[i].Skipped?;
    PayloadOfNone(quirk);
    if |quirk| == 1 {
      assert quirk[..0] == [];
      assert ModesOf(quirk) == ModesOf([]) + (if quirk[0].SpiMode? then [quirk[0].mode] else []);
    } else {
      ModesOfNone(quirk);
    }
  }

  lemma ParsePayloadType2(buf: seq<Byte>, p: nat)
    requires KindOf(WordAt(buf, p)) == Type2
    ensures var n := Type2Count(WordAt(buf, p));
      PayloadOf(Parse(buf, p).trace) == (if n < 32 then Words(buf, p + 4, n) else [])
      && ((Skipped(n) in Parse(buf, p).trace) <==> n >= 32)
  {
    var w := WordAt(buf, p);
    var n := Type2Count(w);
    var body := Body(buf, p + 4, n);
    var head := [Command(w), Type2Header];
    assert Parse(buf, p).trace == head + body;
    BodyParts(buf, p + 4, n);
    HeadParts(head, body, n);
  }

  /** The two header lines of a Type-2 packet carry no payload and no skip notice. */
  lemma HeadParts(head: seq<Event>, body: seq<Event>, n: nat)
    requires |head| == 2 && head[0].Command? && head[1] == Type2Header
    ensures PayloadOf(head + body) == PayloadOf(body)
    ensures Skipped(n) in head + body <==> Skipped(n) in body
  {
    PayloadOfNone(head);
    PayloadOfAppend(head, body);
  }

  /** Payload words and skip notices come from the body alone when header
      and follow-up carry neither. */
  lemma PartsPayload(header: seq<Event>, body: seq<Event>, quirk: seq<Event>, n: nat)
    requires PayloadOf(header) == [] && PayloadOf(quirk) == []
    requires Skipped(n) !in header && Skipped(n) !in quirk
    ensures PayloadOf(header + body + quirk) == PayloadOf(body)
    ensures Skipped(n) in header + body + quirk <==> Skipped(n) in body
  {
    PayloadOfAppend(header, body);
    PayloadOfAppend(header + body, quirk);
  }

  /** SPI modes come from the follow-up alone when header and body show none. */
  lemma PartsModes(header: seq<Event>, body: seq<Event>, quirk: seq<Event>)
    requires ModesOf(header) == [] && ModesOf(body) == []
    ensures ModesOf(header + body + quirk) == ModesOf(quirk)
  {
    ModesOfAppend(header, body);
    ModesOfAppend(header + body, quirk);
  }

  lemma ParsePayloadType1(buf: seq<Byte>, p: nat)
    requires KindOf(WordAt(buf, p)) == Type1
    ensures var n := Type1Count(WordAt(buf, p));
      PayloadOf(Parse(buf, p).trace) == (if n < 32 then Words(buf, p + 4, n) else [])
      && ((Skipped(n) in Parse(buf, p).trace) <==> n >= 32)
  {
    var w := WordAt(buf, p);
    var q := p + 4;
    var n := Type1Count(w);
    var register := Register(w);
    var data := LastPayload(buf, q, n);
    var op := OpName(Opcode(w));
    var body := Body(buf, q, n);
    var header := [Command(w)] + Header(op, register, n);
    var quirk := Quirk(register, data);
    Type1Trace(buf, p);
    BodyParts(buf, q, n);
    HeaderParts(w, op, register, n);
    QuirkParts(register, data, n);
    PartsPayload(header, body, quirk, n);
  }

  /** The payload threshold, for Type-1 packets of every opcode and for
      Type-2 packets: fewer than 32 words are all printed, in order; 32 or
      more are skipped and none is printed. */
  lemma ParsePayload(buf: seq<Byte>, p: nat)
    requires KindOf(WordAt(buf, p)) != UnknownKind
    ensures var n := CountOf(WordAt(buf, p));
      PayloadOf(Parse(buf, p).trace) == (if n < 32 then Words(buf, p + 4, n) else [])
    ensures var n := CountOf(WordAt(buf, p));
      (Skipped(n) in Parse(buf, p).trace) <==> n >= 32
  {
    if KindOf(WordAt(buf, p)) == Type2 {
      ParsePayloadType2(buf, p);
    } else {
      ParsePayloadType1(buf, p);
    }
  }

  /** The cursor after a packet: one word for the header and one per payload
      word, skipped or not; for CIPHERTEXT, further `4 * data` bytes, data
      being the last payload word read or -1. */
  lemma ParseCursor(buf: seq<Byte>, p: nat)
    requires KindOf(WordAt(buf, p)) != UnknownKind
    ensures var w := WordAt(buf, p);
      var n := CountOf(w);
      Parse(buf, p).next
        == if KindOf(w) == Type1 && Register(w) == CIPHERTEXT_CODE
           then p + 4 + 4 * n + 4 * LastPayload(buf, p + 4, n)
           else p + 4 + 4 * n
  {
  }

  /** CIPHERTEXT with no payload word read: the -1 sentinel moves the cursor
      back one word, so a count of 0 leaves it on the command word itself. */
  lemma CiphertextWithoutData(buf: seq<Byte>, p: nat)
    requires KindOf(WordAt(buf, p)) == Type1 && Register(WordAt(buf, p)) == CIPHERTEXT_CODE
    requires var n := Type1Count(WordAt(buf, p)); n == 0 || n >= 32
    ensures Parse(buf, p).next == p + 4 * Type1Count(WordAt(buf, p))
    ensures CiphertextSkip(-1) in Parse(buf, p).trace
  {
    var t := Parse(buf, p).trace;
    assert t[|t| - 1] == CiphertextSkip(-1);
  }

  /** BSPI: the cursor moves as for any register, and the SPI mode the last
      payload word selects is shown, none when it is not a read opcode. */
  lemma ParseBspi(buf: seq<Byte>, p: nat)
    requires KindOf(WordAt(buf, p)) == Type1 && Register(WordAt(buf, p)) == BSPI_CODE
    ensures var n := Type1Count(WordAt(buf, p));
      Parse(buf, p).next == p + 4 + 4 * n
    ensures var n := Type1Count(WordAt(buf, p));
      var d := LastPayload(buf, p + 4, n);
      ModesOf(Parse(buf, p).trace) == (if d in BspiTable then [BspiTable[d]] else [])
  {
    var w := WordAt(buf, p);
    var q := p + 4;
    var n := Type1Count(w);
    var register := Register(w);
    var data := LastPayload(buf, q, n);
    var op := OpName(Opcode(w));
    var header := [Command(w)] + Header(op, register, n);
    var body := Body(buf, q, n);
    var quirk := Quirk(register, data);
    ParseCursor(buf, p);
    assert ModesOf(Parse(buf, p).trace) == ModesOf(quirk) by {
      Type1Trace(buf, p);
      HeaderParts(w, op, register, n);
      BodyParts(buf, q, n);
      PartsModes(header, body, quirk);
    }
    QuirkParts(register, data, n);
  }

  /** A Write to CIPHERTEXT of one payload word 5: the cursor moves the
      command word, the payload word and 5 more words. */
  lemma CiphertextExample()
    ensures Parse([0x30, 0x03, 0x40, 0x01, 0x00, 0x00, 0x00, 0x05], 0).next == 28
  {
    var buf: seq<Byte> := [0x30, 0x03, 0x40, 0x01, 0x00, 0x00, 0x00, 0x05];
    BeValue4(buf[0..4]);
    BeValue4(buf[4..8]);
    var w := WordAt(buf, 0);
    assert w == 0x3003_4001;
    assert WordAt(buf, 4) == 5;
    assert KindOf(w) == Type1 && Register(w) == CIPHERTEXT_CODE && Type1Count(w) == 1;
  }
}
