/**
 * Fixed-width unsigned integers stored in bytes, and reads from a byte source.
 *
 * The file object of the original parser (its `read`, `tell` and `seek`) is
 * modelled as the whole file content `data` and an absolute cursor `pos`;
 * the cursor may lie past the end of the file, as after a seek past EOF.
 */
module Bytes {
  import opened Errors

  /** One octet of the input, as an unsigned number. */
  newtype byte = b: int | 0 <= b < 0x100

  function Pow256(k: nat): (p: nat)
    ensures p > 0
  {
    if k == 0 then 1 else 256 * Pow256(k - 1)
  }

  lemma {:induction false} PowersOf256()
    ensures Pow256(1) == 0x100 && Pow256(2) == 0x1_0000 && Pow256(3) == 0x100_0000
    ensures Pow256(4) == 0x1_0000_0000 && Pow256(8) == 0x1_0000_0000_0000_0000
  {
  }

  /** The unsigned value of `s` read most significant byte first. */
  function BigEndian(s: seq<byte>): nat
    decreases |s|
  {
    if s == [] then 0 else BigEndian(s[..|s| - 1]) * 256 + s[|s| - 1] as int
  }

  /** `k` bytes hold a value below 256 to the power `k`. */
  lemma {:induction false} BigEndianBound(s: seq<byte>)
    ensures BigEndian(s) < Pow256(|s|)
    decreases |s|
  {
    if s != [] {
      BigEndianBound(s[..|s| - 1]);
    }
  }

  /** The `k`-byte big-endian representation of `n`. */
  function ToBigEndian(n: nat, k: nat): (s: seq<byte>)
    requires n < Pow256(k)
    ensures |s| == k
  {
    if k == 0 then [] else ToBigEndian(n / 256, k - 1) + [(n % 256) as byte]
  }

  /** Big-endian encoding is inverted by decoding. */
  lemma {:induction false} BigEndianOfToBigEndian(n: nat, k: nat)
    requires n < Pow256(k)
    ensures BigEndian(ToBigEndian(n, k)) == n
  {
    if k > 0 {
      BigEndianOfToBigEndian(n / 256, k - 1);
      var s := ToBigEndian(n, k);
      assert s[..|s| - 1] == ToBigEndian(n / 256, k - 1);
    }
  }

  /** Big-endian decoding is injective: the bytes are recovered from their value. */
  lemma {:induction false} ToBigEndianOfBigEndian(s: seq<byte>)
    ensures BigEndian(s) < Pow256(|s|) && ToBigEndian(BigEndian(s), |s|) == s
  {
    BigEndianBound(s);
    if s != [] {
      var init := s[..|s| - 1];
      ToBigEndianOfBigEndian(init);
      assert BigEndian(s) / 256 == BigEndian(init);
      assert s == init + [s[|s| - 1]];
    }
  }

  /**
   * The value of a `c_uint32` stored in four bytes. The original reads it in
   * the machine's native order; the model fixes little-endian, the order
   * section 8.6 of RFC 9639 prescribes for Vorbis comment lengths.
   */
  function Uint32Le(b: seq<byte>): (n: nat)
    requires |b| == 4
    ensures n < 0x1_0000_0000
  {
    b[0] as nat + 0x100 * (b[1] as nat + 0x100 * (b[2] as nat + 0x100 * b[3] as nat))
  }

  /** The four bytes that store `n` as a little-endian `c_uint32`. */
  function ToUint32Le(n: nat): (b: seq<byte>)
    requires n < 0x1_0000_0000
    ensures |b| == 4 && Uint32Le(b) == n
  {
    var n1 := n / 0x100;
    var n2 := n1 / 0x100;
    DivMod256(n1, n % 0x100);
    DivMod256(n2, n1 % 0x100);
    DivMod256(n2 / 0x100, n2 % 0x100);
    [(n % 0x100) as byte, (n1 % 0x100) as byte, (n2 % 0x100) as byte, (n2 / 0x100) as byte]
  }

  /** A 32-bit word is recovered from its value: the little-endian encoding is injective. */
  lemma {:induction false} ToUint32LeOfUint32Le(b: seq<byte>)
    requires |b| == 4
    ensures ToUint32Le(Uint32Le(b)) == b
  {
    var n2 := b[2] as nat + 0x100 * b[3] as nat;
    var n1 := b[1] as nat + 0x100 * n2;
    DivMod256(b[3] as nat, b[2] as nat);
    DivMod256(n2, b[1] as nat);
    DivMod256(n1, b[0] as nat);
  }

  /** Dividing by 256 separates a byte from the digits above it. */
  lemma {:induction false} DivMod256(hi: nat, lo: nat)
    requires lo < 0x100
    ensures (hi * 0x100 + lo) / 0x100 == hi && (hi * 0x100 + lo) % 0x100 == lo
    ensures (0x100 * hi + lo) / 0x100 == hi && (lo + 0x100 * hi) % 0x100 == lo
  {
  }

  /**
   * A fixed-size read of `n` bytes at `pos` (`read_ctype_from_file`): the
   * ctypes `from_buffer` of a short buffer raises, so a source that ends
   * first is a truncation error.
   */
  function ReadExact(data: seq<byte>, pos: nat, n: nat): (r: Result<seq<byte>>)
    ensures r.Ok? <==> pos + n <= |data|
    ensures r.Ok? ==> |r.value| == n
    ensures r.Err? ==> r.error == Truncated
  {
    if pos + n <= |data| then Ok(data[pos..pos + n]) else Err(Truncated)
  }

  /**
   * `read(n)` on a file: at most `n` bytes from `pos`, fewer only when the end
   * of the file is reached; nothing at or past the end.
   */
  function ReadUpTo(data: seq<byte>, pos: nat, n: nat): (s: seq<byte>)
    ensures |s| <= n
    ensures |s| < n ==> pos + |s| >= |data|
    decreases n
  {
    if n == 0 || pos >= |data| then [] else [data[pos]] + ReadUpTo(data, pos + 1, n - 1)
  }

  /** What `read(n)` returns is the slice of the file from the cursor on, cut at `n` bytes. */
  lemma {:induction false} ReadUpToIsSlice(data: seq<byte>, pos: nat, n: nat)
    ensures ReadUpTo(data, pos, n)
      == if pos >= |data| then [] else if pos + n <= |data| then data[pos..pos + n] else data[pos..]
    decreases n
  {
    if n > 0 && pos < |data| {
      ReadUpToIsSlice(data, pos + 1, n - 1);
      var rest := ReadUpTo(data, pos + 1, n - 1);
      assert ReadUpTo(data, pos, n) == [data[pos]] + rest;
      if pos + n <= |data| {
        assert rest == data[pos + 1..pos + n];
        assert data[pos..pos + n] == [data[pos]] + data[pos + 1..pos + n];
      } else {
        assert rest == data[pos + 1..];
        assert data[pos..] == [data[pos]] + data[pos + 1..];
      }
    }
  }

  /** A slice is the slice up to any point within it, followed by the rest. */
  lemma {:induction false} SliceConcat(s: seq<byte>, i: nat, j: nat, k: nat)
    requires i <= j <= k <= |s|
    ensures s[i..k] == s[i..j] + s[j..k]
  {
    assert forall n | 0 <= n < k - i :: s[i..k][n] == (s[i..j] + s[j..k])[n];
  }

  /** `part` occurs in `data` at offset `pos`. */
  predicate At(data: seq<byte>, pos: nat, part: seq<byte>) {
    pos + |part| <= |data| && forall j | 0 <= j < |part| :: data[pos + j] == part[j]
  }

  /** An occurrence is a slice of `data`. */
  lemma {:induction false} AtIsSlice(data: seq<byte>, pos: nat, part: seq<byte>)
    ensures At(data, pos, part) <==> pos + |part| <= |data| && data[pos..pos + |part|] == part
  {
    if pos + |part| <= |data| && data[pos..pos + |part|] == part {
      forall j | 0 <= j < |part|
        ensures data[pos + j] == part[j]
      {
        assert data[pos..pos + |part|][j] == data[pos + j];
      }
    }
  }

  /** An occurrence is what `read(n)` returns there. */
  lemma {:induction false} AtIsReadUpTo(data: seq<byte>, pos: nat, part: seq<byte>)
    ensures At(data, pos, part) <==> pos + |part| <= |data| && ReadUpTo(data, pos, |part|) == part
  {
    AtIsSlice(data, pos, part);
    ReadUpToIsSlice(data, pos, |part|);
  }

  /**
   * A fixed-size read where `part` is stored returns `part`. `at` is that
   * position as the caller's goal writes it: like `next`, `end` and
   * `blocksAt` in the Decoder and Encoder lemmas, it is fixed by a
   * precondition and only spares the verifier proving two spellings of one
   * position equal.
   */
  lemma {:induction false} ReadExactOfAt(data: seq<byte>, pos: nat, part: seq<byte>, at: nat)
    requires At(data, pos, part) && at == pos
    ensures ReadExact(data, at, |part|) == Ok(part)
  {
    AtIsSlice(data, pos, part);
  }

  /** Splitting an occurrence of `a + b` into the occurrences of `a` and of `b`. */
  lemma {:induction false} AtConcat(data: seq<byte>, pos: nat, a: seq<byte>, b: seq<byte>)
    requires At(data, pos, a + b)
    ensures At(data, pos, a) && At(data, pos + |a|, b)
  {
    forall j | 0 <= j < |a|
      ensures data[pos + j] == a[j]
    {
      assert (a + b)[j] == a[j];
    }
    forall j | 0 <= j < |b|
      ensures data[pos + |a| + j] == b[j]
    {
      assert (a + b)[|a| + j] == b[j];
    }
  }

  /** Where `a + b + c` is stored, so are its three parts, one after the other. */
  lemma {:induction false} AtConcat3(data: seq<byte>, pos: nat, a: seq<byte>, b: seq<byte>, c: seq<byte>)
    requires At(data, pos, a + b + c)
    ensures At(data, pos, a) && At(data, pos + |a|, b) && At(data, pos + |a| + |b|, c)
  {
    AtConcat(data, pos, a + b, c);
    AtConcat(data, pos, a, b);
  }

  /** A sequence is stored at the start of itself followed by anything. */
  lemma {:induction false} AtStart(a: seq<byte>, rest: seq<byte>)
    ensures At(a + rest, 0, a)
  {
    forall j | 0 <= j < |a|
      ensures (a + rest)[0 + j] == a[j]
    {
    }
  }

  /** Three sequences written one after the other, then anything, are each stored where they were written. */
  lemma {:induction false} AtThree(a: seq<byte>, b: seq<byte>, c: seq<byte>, rest: seq<byte>)
    ensures At(a + b + c + rest, 0, a)
    ensures At(a + b + c + rest, |a|, b)
    ensures At(a + b + c + rest, |a| + |b|, c)
  {
    var data := a + b + c + rest;
    AtStart(a + b + c, rest);
    AtConcat(data, 0, a + b, c);
    AtConcat(data, 0, a, b);
  }

  /**
   * Where `a + b` is stored, so is `a`, and a read of `n` bytes at the end
   * of `a` returns `b`; `at` and `n` are the position and size of that read
   * as the reader computes them.
   */
  lemma {:induction false} ReadExactAfter(data: seq<byte>, pos: nat, a: seq<byte>, b: seq<byte>, at: nat, n: nat)
    requires At(data, pos, a + b) && at == pos + |a| && n == |b|
    ensures At(data, pos, a) && ReadExact(data, at, n) == Ok(b)
  {
    AtConcat(data, pos, a, b);
    ReadExactOfAt(data, pos + |a|, b, at);
  }
}
