/** The container headers explorebits.py strips before it disassembles:
    the 0x34-byte header of a plain .bin file, and the 0x40-byte header and
    0xA0-byte trailer around the decrypted payload of a .clr file. */
module Container {
  import opened Bytes

  /** A Python slice bound: a negative bound counts from the end, and the
      result is clamped to 0..n. */
  function SliceBound(i: int, n: nat): (b: nat)
    ensures b <= n
    ensures 0 <= i <= n ==> b == i
    ensures -(n as int) <= i < 0 ==> b == n + i
    ensures i > n ==> b == n
    ensures i < -(n as int) ==> b == 0
  {
    var j := if i < 0 then n + i else i;
    if j < 0 then 0 else if j > n then n else j
  }

  /** `s[lo:hi]` as Python evaluates it: empty when the normalised bounds cross. */
  function PySlice(s: seq<Byte>, lo: int, hi: int): (r: seq<Byte>)
    ensures var a, b := SliceBound(lo, |s|), SliceBound(hi, |s|);
      |r| == (if a <= b then b - a else 0)
      && forall i :: 0 <= i < |r| ==> r[i] == s[a + i]
  {
    var a, b := SliceBound(lo, |s|), SliceBound(hi, |s|);
    if a <= b then s[a..b] else []
  }

  const PLAIN_HEADER: nat := 0x34
  const CLEAR_HEADER: nat := 0x40
  const CLEAR_TRAILER: nat := 0xA0

  /** `readbin`: `bitstream[0x34:]`. */
  function StripPlain(file: seq<Byte>): (r: seq<Byte>)
    ensures |r| == if |file| >= PLAIN_HEADER then |file| - PLAIN_HEADER else 0
  {
    PySlice(file, PLAIN_HEADER, |file|)
  }

  /** `read_decrypt`: `bitstream[0x40:-0xA0]`. */
  function StripClear(file: seq<Byte>): (r: seq<Byte>)
    ensures |r| == if |file| >= CLEAR_HEADER + CLEAR_TRAILER then |file| - CLEAR_HEADER - CLEAR_TRAILER else 0
  {
    PySlice(file, CLEAR_HEADER, -(CLEAR_TRAILER as int))
  }

  /** A plain file loses exactly its header; a file no longer than the
      header leaves nothing. */
  lemma StripPlainSpec(file: seq<Byte>)
    ensures |file| >= PLAIN_HEADER ==> StripPlain(file) == file[PLAIN_HEADER..]
    ensures |file| <= PLAIN_HEADER ==> StripPlain(file) == []
  {
    var r := StripPlain(file);
    if |file| >= PLAIN_HEADER {
      assert r == file[PLAIN_HEADER..];
    }
  }

  /** A .clr file loses its header and its trailer; one too short to hold
      both, header and trailer overlapping, leaves nothing. */
  lemma StripClearSpec(file: seq<Byte>)
    ensures |file| >= CLEAR_HEADER + CLEAR_TRAILER ==>
      StripClear(file) == file[CLEAR_HEADER..|file| - CLEAR_TRAILER]
    ensures |file| <= CLEAR_HEADER + CLEAR_TRAILER ==> StripClear(file) == []
  {
    var r := StripClear(file);
    if |file| >= CLEAR_HEADER + CLEAR_TRAILER {
      assert r == file[CLEAR_HEADER..|file| - CLEAR_TRAILER];
    }
  }

  /** Stripping a header and trailer and putting them back gives the file. */
  lemma StripClearFrame(file: seq<Byte>)
    requires |file| >= CLEAR_HEADER + CLEAR_TRAILER
    ensures file == file[..CLEAR_HEADER] + StripClear(file) + file[|file| - CLEAR_TRAILER..]
  {
    StripClearSpec(file);
  }
}
