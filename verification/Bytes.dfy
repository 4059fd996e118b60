/** Machine bytes, little-endian 16-bit fields and the additive checksum that
    every serial frame of the touch protocol ends with. */
module Bytes {

  type byte = x: int | 0 <= x < 256
  type u16 = x: int | 0 <= x < 0x1_0000

  datatype Option<+T> = None | Some(value: T)

  /** `v & 0xff`, for any two's complement `v`. */
  function Low(v: int): byte {
    v % 256
  }

  /** `(v >> 8) & 0xff`, for any two's complement `v`. */
  function High(v: int): byte {
    v / 256 % 256
  }

  function Word(lo: byte, hi: byte): u16 {
    lo + 256 * hi
  }

  /** Addition of two XBH_U8 values. */
  function Add8(a: byte, b: byte): byte {
    if a + b < 256 then a + b else a + b - 256
  }

  /** The 8-bit sum of a byte string. */
  function Sum8(s: seq<byte>): byte {
    if s == [] then 0 else Add8(Sum8(s[..|s| - 1]), s[|s| - 1])
  }

  /** The plain sum of a byte string. */
  function Total(s: seq<byte>): nat {
    if s == [] then 0 else Total(s[..|s| - 1]) + s[|s| - 1]
  }

  lemma {:induction false} SumIsTotal(s: seq<byte>)
    ensures Sum8(s) == Total(s) % 0x100
  {
    if s != [] {
      SumIsTotal(s[..|s| - 1]);
    }
  }

  lemma Sum8Snoc(s: seq<byte>, b: byte)
    ensures Sum8(s + [b]) == Add8(Sum8(s), b)
  {
    assert (s + [b])[..|s|] == s;
  }

  lemma {:induction false} Sum8Append(a: seq<byte>, b: seq<byte>)
    ensures Sum8(a + b) == Add8(Sum8(a), Sum8(b))
  {
    if b == [] {
      assert a + b == a;
    } else {
      var front, last := b[..|b| - 1], b[|b| - 1];
      Sum8Append(a, front);
      Sum8Snoc(a + front, last);
      assert a + b == (a + front) + [last];
    }
  }

  /** CalcCheckSum: the source adds the bytes from the last one down. */
  method CalcCheckSum(buffer: array<byte>, size: nat) returns (sum: byte)
    requires size <= buffer.Length
    ensures sum == Total(buffer[..size]) % 0x100 == Sum8(buffer[..size])
  {
    SumIsTotal(buffer[..size]);
    sum := 0;
    var left := size;
    while left > 0
      invariant 0 <= left <= size
      invariant sum == Sum8(buffer[left..size])
    {
      left := left - 1;
      Sum8Append([buffer[left]], buffer[left + 1..size]);
      assert [buffer[left]] + buffer[left + 1..size] == buffer[left..size];
      Sum8Snoc([], buffer[left]);
      assert [] + [buffer[left]] == [buffer[left]];
      sum := Add8(sum, buffer[left]);
    }
  }

  /** The same sum accumulated upwards, as the receive loop and the LG encoder do it. */
  method AddUp(buffer: array<byte>, size: nat) returns (sum: byte)
    requires size <= buffer.Length
    ensures sum == Total(buffer[..size]) % 0x100 == Sum8(buffer[..size])
  {
    SumIsTotal(buffer[..size]);
    sum := 0;
    for k := 0 to size
      invariant sum == Sum8(buffer[..k])
    {
      Sum8Snoc(buffer[..k], buffer[k]);
      assert buffer[..k + 1] == buffer[..k] + [buffer[k]];
      sum := Add8(sum, buffer[k]);
    }
  }

  /** `b` with `part` written over it at position `at`. */
  function Splice(b: seq<byte>, at: nat, part: seq<byte>): seq<byte>
    requires at + |part| <= |b|
  {
    b[..at] + part + b[at + |part|..]
  }

  lemma SpliceTwice(b: seq<byte>, at: nat, first: seq<byte>, second: seq<byte>)
    requires at + |first| + |second| <= |b|
    ensures Splice(Splice(b, at, first), at + |first|, second) == Splice(b, at, first + second)
  {}

  /** Two stretches of a stream written one behind the other, and what then stands there. */
  lemma SpliceStream(b: seq<byte>, s: seq<byte>, from: nat, mid: nat, to: nat)
    requires from <= mid <= to <= |s| && to - from <= |b|
    ensures Splice(Splice(b, 0, s[from..mid]), mid - from, s[mid..to]) == Splice(b, 0, s[from..to])
    ensures Splice(b, 0, s[from..to])[..to - from] == s[from..to]
  {
    SpliceTwice(b, 0, s[from..mid], s[mid..to]);
    assert s[from..mid] + s[mid..to] == s[from..to];
  }

  lemma StretchIndex(s: seq<byte>, from: nat, to: nat, k: nat)
    requires from <= to <= |s| && k < to - from
    ensures s[from..to][k] == s[from + k]
  {}

  lemma SpliceUpdate(b: seq<byte>, at: nat, part: seq<byte>, k: nat, v: byte)
    requires at + |part| <= |b| && k < |part|
    ensures Splice(b, at, part)[at + k := v] == Splice(b, at, part[k := v])
    ensures Splice(b, at, part)[at + k] == part[k]
  {}

  lemma SpliceNone(b: seq<byte>, at: nat)
    requires at <= |b|
    ensures Splice(b, at, []) == b
  {}

  lemma SpliceOne(b: seq<byte>, at: nat, v: byte)
    requires at < |b|
    ensures Splice(b, at, [v]) == b[at := v]
  {}

  lemma SpliceNext(b: seq<byte>, at: nat, src: seq<byte>, k: nat)
    requires at + |src| <= |b| && k < |src|
    ensures |Splice(b, at, src[..k])| == |b|
    ensures Splice(b, at, src[..k + 1]) == Splice(b, at, src[..k])[at + k := src[k]]
  {
    SpliceOne(Splice(b, at, src[..k]), at + k, src[k]);
    SpliceTwice(b, at, src[..k], [src[k]]);
    assert src[..k + 1] == src[..k] + [src[k]];
  }

  /** memcpy. */
  method CopyBytes(dst: array<byte>, at: nat, src: seq<byte>)
    requires at + |src| <= dst.Length
    modifies dst
    ensures dst[..] == Splice(old(dst[..]), at, src)
  {
    SpliceNone(dst[..], at);
    hide Splice;
    for k := 0 to |src|
      invariant dst[..] == Splice(old(dst[..]), at, src[..k])
    {
      SpliceNext(old(dst[..]), at, src, k);
      dst[at + k] := src[k];
    }
    assert src[..|src|] == src;
  }
}
