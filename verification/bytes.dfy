/** Little-endian byte layouts of the fixed-width fields in the WQ01 and
    RIFF/WAVE headers, as an x86 host writes them with `ofstream::write`
    and reads them back with `reinterpret_cast`. */
module Bytes {
  import opened Common

  /** The bytes of an ASCII string. */
  function Ascii(s: string): (b: seq<Byte>)
    requires forall i :: 0 <= i < |s| ==> s[i] as int < 256
    ensures |b| == |s|
    ensures forall i :: 0 <= i < |s| ==> b[i] == s[i] as int
  {
    if |s| == 0 then [] else [s[0] as int] + Ascii(s[1..])
  }

  /** A `uint16_t` in memory order. */
  function LE16(v: nat): (b: seq<Byte>)
    requires v < 0x1_0000
    ensures |b| == 2
  {
    [v % 256, v / 256]
  }

  /** A `uint32_t` in memory order. */
  function LE32(v: nat): (b: seq<Byte>)
    requires v < 0x1_0000_0000
    ensures |b| == 4
  {
    [v % 256, v / 256 % 256, v / 256 / 256 % 256, v / 256 / 256 / 256]
  }

  /** The `uint16_t` stored at byte offset `off`. */
  function U16At(b: seq<Byte>, off: nat): (v: nat)
    requires off + 2 <= |b|
    ensures v < 0x1_0000
  {
    (b[off] as int) + 256 * (b[off + 1] as int)
  }

  /** The `uint32_t` stored at byte offset `off`. */
  function U32At(b: seq<Byte>, off: nat): (v: nat)
    requires off + 4 <= |b|
    ensures v < 0x1_0000_0000
  {
    (b[off] as int) + 256 * (b[off + 1] as int) + 0x1_0000 * (b[off + 2] as int) + 0x100_0000 * (b[off + 3] as int)
  }

  /** The `int16_t` stored at byte offset `off`. */
  function S16At(b: seq<Byte>, off: nat): Int16
    requires off + 2 <= |b|
  {
    var u := U16At(b, off);
    if u >= 0x8000 then u - 0x1_0000 else u
  }

  /** The two bytes an `int16_t` occupies. */
  function S16Bytes(s: Int16): (b: seq<Byte>)
    ensures |b| == 2
  {
    LE16(if s < 0 then s + 0x1_0000 else s)
  }

  lemma LE16Read(b: seq<Byte>, off: nat, v: nat)
    requires v < 0x1_0000 && off + 2 <= |b| && b[off..off + 2] == LE16(v)
    ensures U16At(b, off) == v
  {
    assert b[off] == v % 256 && b[off + 1] == v / 256;
  }

  lemma LE32Read(b: seq<Byte>, off: nat, v: nat)
    requires v < 0x1_0000_0000 && off + 4 <= |b| && b[off..off + 4] == LE32(v)
    ensures U32At(b, off) == v
  {
    var q1 := v / 256;
    var q2 := q1 / 256;
    assert b[off] == v % 256 && v == 256 * q1 + v % 256;
    assert b[off + 1] == q1 % 256 && q1 == 256 * q2 + q1 % 256;
    assert b[off + 2] == q2 % 256 && q2 == 256 * (q2 / 256) + q2 % 256;
    assert b[off + 3] == q2 / 256;
  }

  lemma S16Read(b: seq<Byte>, off: nat, s: Int16)
    requires off + 2 <= |b| && b[off..off + 2] == S16Bytes(s)
    ensures S16At(b, off) == s
  {
    LE16Read(b, off, if s < 0 then s + 0x1_0000 else s);
  }

  /** A run of bytes placed at offset `at` reads the same in place as on its own. */
  lemma SliceWithin<T>(s: seq<T>, at: nat, b: seq<T>, lo: nat, hi: nat)
    requires at + |b| <= |s| && s[at..at + |b|] == b && lo <= hi <= |b|
    ensures s[at + lo..at + hi] == b[lo..hi]
  {
    forall i | 0 <= i < hi - lo
      ensures s[at + lo..at + hi][i] == b[lo..hi][i]
    {
      assert s[at..at + |b|][lo + i] == s[at + lo + i];
    }
  }

  lemma U16Within(s: seq<Byte>, at: nat, b: seq<Byte>, off: nat)
    requires at + |b| <= |s| && s[at..at + |b|] == b && off + 2 <= |b|
    ensures U16At(s, at + off) == U16At(b, off)
  {
    assert s[at + off] == b[off] && s[at + off + 1] == b[off + 1];
  }

  lemma U32Within(s: seq<Byte>, at: nat, b: seq<Byte>, off: nat)
    requires at + |b| <= |s| && s[at..at + |b|] == b && off + 4 <= |b|
    ensures U32At(s, at + off) == U32At(b, off)
  {
    assert s[at + off] == b[off] && s[at + off + 1] == b[off + 1];
    assert s[at + off + 2] == b[off + 2] && s[at + off + 3] == b[off + 3];
  }

  /** A field read from a prefix does not depend on what follows it. */
  lemma FieldsOfPrefix(a: seq<Byte>, b: seq<Byte>, off: nat)
    requires off + 4 <= |a|
    ensures U16At(a + b, off) == U16At(a, off) && U32At(a + b, off) == U32At(a, off)
  {
    assert (a + b)[off..off + 4] == a[off..off + 4];
  }
}
