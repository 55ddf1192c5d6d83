/** Bytes and the little-endian fields that the kernel reaches by casting a byte pointer. */
module Bytes {

  type byte = x: int | 0 <= x < 256

  /** `*((uint16_t *)(b + o))` on a little-endian machine. */
  function U16(b: seq<byte>, o: nat): (v: nat)
    requires o + 2 <= |b|
    ensures v < 0x1_0000
  {
    b[o] as int + 256 * b[o + 1] as int
  }

  /** `*((uint32_t *)(b + o))` on a little-endian machine. */
  function U32(b: seq<byte>, o: nat): (v: nat)
    requires o + 4 <= |b|
    ensures v < 0x1_0000_0000
  {
    b[o] as int + 256 * b[o + 1] as int + 0x1_0000 * b[o + 2] as int + 0x100_0000 * b[o + 3] as int
  }

  // Arithmetic on unsigned fields wraps around.

  function Inc16(v: nat): (r: nat) requires v < 0x1_0000 ensures r < 0x1_0000 {
    if v == 0xFFFF then 0 else v + 1
  }

  function Dec16(v: nat): (r: nat) requires v < 0x1_0000 ensures r < 0x1_0000 {
    if v == 0 then 0xFFFF else v - 1
  }

  function Sub32(v: nat, d: nat): (r: nat) requires v < 0x1_0000_0000 && d < 0x1_0000_0000 ensures r < 0x1_0000_0000 {
    if d <= v then v - d else v - d + 0x1_0000_0000
  }

  /** `b'` is `b` with new contents in `[o, o + n)` and nothing else changed. */
  ghost predicate OnlyAt(b: seq<byte>, b': seq<byte>, o: nat, n: nat) {
    |b'| == |b| && forall i :: 0 <= i < |b| && !(o <= i < o + n) ==> b'[i] == b[i]
  }

  function Put16(b: seq<byte>, o: nat, v: nat): (r: seq<byte>)
    requires o + 2 <= |b| && v < 0x1_0000
    ensures OnlyAt(b, r, o, 2) && U16(r, o) == v
  {
    b[o := v % 256][o + 1 := v / 256]
  }

  function Put32(b: seq<byte>, o: nat, v: nat): (r: seq<byte>)
    requires o + 4 <= |b| && v < 0x1_0000_0000
    ensures OnlyAt(b, r, o, 4) && U32(r, o) == v
  {
    var v1 := v / 256;
    var v2 := v1 / 256;
    b[o := v % 256][o + 1 := v1 % 256][o + 2 := v2 % 256][o + 3 := v2 / 256]
  }

  /** `kaos_memcpy(b + o, src, |src|)`. */
  function PutBytes(b: seq<byte>, o: nat, src: seq<byte>): (r: seq<byte>)
    requires o + |src| <= |b|
    ensures OnlyAt(b, r, o, |src|) && r[o..o + |src|] == src
  {
    seq(|b|, i requires 0 <= i < |b| => if o <= i < o + |src| then src[i - o] else b[i])
  }

  /** A copy that starts inside or right after an earlier one and reaches past it amounts to one longer copy. */
  lemma PutOver(b: seq<byte>, o: nat, first: seq<byte>, k: nat, second: seq<byte>)
    requires k <= |first| <= k + |second| && o + k + |second| <= |b|
    ensures PutBytes(PutBytes(b, o, first), o + k, second) == PutBytes(b, o, first[..k] + second)
  {
  }

  method Store16(a: array<byte>, o: nat, v: nat)
    requires o + 2 <= a.Length && v < 0x1_0000
    modifies a
    ensures a[..] == Put16(old(a[..]), o, v)
  {
    a[o] := v % 256;
    a[o + 1] := v / 256;
  }

  method Store32(a: array<byte>, o: nat, v: nat)
    requires o + 4 <= a.Length && v < 0x1_0000_0000
    modifies a
    ensures a[..] == Put32(old(a[..]), o, v)
  {
    a[o] := v % 256;
    a[o + 1] := v / 256 % 256;
    a[o + 2] := v / 0x1_0000 % 256;
    a[o + 3] := v / 0x100_0000;
  }

  /** `kaos_memcpy(a + o, src, |src|)`. */
  method CopyIn(a: array<byte>, o: nat, src: seq<byte>)
    requires o + |src| <= a.Length
    modifies a
    ensures a[..] == PutBytes(old(a[..]), o, src)
  {
    for i := 0 to |src|
      invariant a[..] == PutBytes(old(a[..]), o, src[..i])
    {
      a[o + i] := src[i];
      assert src[..i + 1] == src[..i] + [src[i]];
    }
    assert src[..|src|] == src;
  }
}
