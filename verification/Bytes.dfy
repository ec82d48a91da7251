/** Little-endian words in byte buffers: the in-memory layout shared by the heap's block
    headers, the Multiboot2 information structure and PE images. */
module Bytes {

  type byte = x: int | 0 <= x < 256

  datatype Option<+T> = None | Some(value: T)

  const U16: nat := 0x1_0000
  const U32: nat := 0x1_0000_0000
  const U64: nat := 0x1_0000_0000_0000_0000

  function Pow256(n: nat): (r: nat)
    ensures r > 0
  {
    if n == 0 then 1 else 256 * Pow256(n - 1)
  }

  lemma WordSizes()
    ensures Pow256(1) == 256 && Pow256(2) == U16 && Pow256(4) == U32 && Pow256(8) == U64
  {
    assert Pow256(3) == 256 * Pow256(2);
    assert Pow256(5) == 256 * Pow256(4);
    assert Pow256(7) == 256 * Pow256(6);
  }

  // The number whose little-endian bytes are s
  function Decode(s: seq<byte>): nat {
    if s == [] then 0 else s[0] + 256 * Decode(s[1..])
  }

  // The n low-order bytes of v, least significant first
  function Encode(v: nat, n: nat): (s: seq<byte>)
    ensures |s| == n
  {
    if n == 0 then [] else [v % 256] + Encode(v / 256, n - 1)
  }

  lemma ModSplit(v: nat, m: nat)
    requires m > 0
    ensures v % (256 * m) == v % 256 + 256 * ((v / 256) % m)
  {
    var q, r := v / 256, v % 256;
    var a, b := q / m, q % m;
    assert v == 256 * (a * m + b) + r;
    assert 256 * (a * m + b) + r == a * (256 * m) + (256 * b + r);
    assert 256 * b + r < 256 * m;
    ModUnique(v, 256 * m, a, 256 * b + r);
  }

  lemma ModUnique(v: nat, m: nat, a: nat, r: nat)
    requires 0 <= r < m && v == a * m + r
    ensures v % m == r && v / m == a
  {
    MulGap(v / m, a, m);
    MulGap(a, v / m, m);
  }

  lemma {:induction false} MulGap(a: nat, b: nat, m: nat)
    ensures a < b ==> a * m + m <= b * m
  {
    if a + 1 >= b {
    } else {
      MulGap(a, b - 1, m);
      assert b * m == (b - 1) * m + m;
    }
  }

  lemma {:induction false} DecodeEncode(v: nat, n: nat)
    ensures Decode(Encode(v, n)) == v % Pow256(n)
  {
    if n == 0 {
    } else {
      DecodeEncode(v / 256, n - 1);
      assert Encode(v, n)[1..] == Encode(v / 256, n - 1);
      ModSplit(v, Pow256(n - 1));
    }
  }

  // The n-byte word stored at offset o
  function Get(m: seq<byte>, o: nat, n: nat): nat
    requires o + n <= |m|
    decreases |m| - o
  {
    if n == 0 then 0 else m[o] + 256 * Get(m, o + 1, n - 1)
  }

  // Store the n low-order bytes of v at offset o
  function Put(m: seq<byte>, o: nat, n: nat, v: nat): (r: seq<byte>)
    requires o + n <= |m|
    ensures |r| == |m|
    ensures forall i :: 0 <= i < |m| && !(o <= i < o + n) ==> r[i] == m[i]
    decreases |m| - o
  {
    if n == 0 then m else Put(m[o := v % 256], o + 1, n - 1, v / 256)
  }

  lemma {:induction false} GetIsDecode(m: seq<byte>, o: nat, n: nat)
    requires o + n <= |m|
    ensures Get(m, o, n) == Decode(m[o..o + n])
    decreases n
  {
    if n == 0 {
    } else {
      GetIsDecode(m, o + 1, n - 1);
      assert m[o..o + n][1..] == m[o + 1..o + n];
    }
  }

  lemma {:induction false} GetPut(m: seq<byte>, o: nat, n: nat, v: nat)
    requires o + n <= |m|
    ensures Get(Put(m, o, n, v), o, n) == v % Pow256(n)
    decreases n
  {
    if n == 0 {
    } else {
      GetPut(m[o := v % 256], o + 1, n - 1, v / 256);
      ModSplit(v, Pow256(n - 1));
    }
  }

  // A word is untouched by any change outside its bytes
  lemma {:induction false} GetFrame(m: seq<byte>, m': seq<byte>, o: nat, n: nat)
    requires o + n <= |m| && o + n <= |m'|
    requires forall i :: o <= i < o + n ==> m'[i] == m[i]
    ensures Get(m', o, n) == Get(m, o, n)
    decreases n
  {
    if n == 0 {
    } else {
      GetFrame(m, m', o + 1, n - 1);
    }
  }

  lemma {:induction false} GetBound(m: seq<byte>, o: nat, n: nat)
    requires o + n <= |m|
    ensures Get(m, o, n) < Pow256(n)
    decreases n
  {
    if n == 0 {
    } else {
      GetBound(m, o + 1, n - 1);
    }
  }

  // Rewriting a word with its own value changes nothing
  lemma {:induction false} PutGet(m: seq<byte>, o: nat, n: nat)
    requires o + n <= |m|
    ensures Put(m, o, n, Get(m, o, n)) == m
    decreases n
  {
    if n == 0 {
    } else {
      var v := Get(m, o, n);
      assert v % 256 == m[o] && v / 256 == Get(m, o + 1, n - 1);
      assert m[o := v % 256] == m;
      PutGet(m, o + 1, n - 1);
    }
  }

  // A value that fits in its word is read back as written.
  lemma GetPutFits(m: seq<byte>, o: nat, n: nat, v: nat)
    requires o + n <= |m| && v < Pow256(n)
    ensures Get(Put(m, o, n, v), o, n) == v
  {
    GetPut(m, o, n, v);
    ModUnique(v, Pow256(n), 0, v);
  }

  function Zeros(n: nat): (r: seq<byte>)
    ensures |r| == n && forall i :: 0 <= i < n ==> r[i] == 0
  {
    seq(n, i => 0)
  }

  lemma {:induction false} EncodeZero(n: nat)
    ensures Encode(0, n) == Zeros(n)
  {
    if n == 0 {
    } else {
      EncodeZero(n - 1);
      assert Zeros(n) == [0] + Zeros(n - 1);
    }
  }

  lemma GetLeft(a: seq<byte>, b: seq<byte>, o: nat, n: nat)
    requires o + n <= |a|
    ensures Get(a + b, o, n) == Get(a, o, n)
  {
    GetFrame(a, a + b, o, n);
  }

  lemma {:induction false} GetRight(a: seq<byte>, b: seq<byte>, o: nat, n: nat)
    requires o + n <= |b|
    ensures Get(a + b, |a| + o, n) == Get(b, o, n)
    decreases n
  {
    if n == 0 {
    } else {
      GetRight(a, b, o + 1, n - 1);
      assert (a + b)[|a| + o] == b[o] && |a| + (o + 1) == |a| + o + 1;
    }
  }

  lemma {:induction false} GetZeros(m: seq<byte>, o: nat, n: nat)
    requires o + n <= |m| && forall i :: o <= i < o + n ==> m[i] == 0
    ensures Get(m, o, n) == 0
    decreases n
  {
    if n == 0 {
    } else {
      GetZeros(m, o + 1, n - 1);
    }
  }
}
