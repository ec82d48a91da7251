/** Values packed one after the other, and records of equal length: how the structures that the
    kernel reads are laid out by whoever writes them. */
module Packing {
  import opened Bytes

  // Widths and values
  type Fields = seq<(nat, nat)>

  // struct.pack of the first k fields: little-endian, no padding
  function PackTo(fs: Fields, k: nat): seq<byte>
    requires k <= |fs|
    decreases |fs|, k
  {
    if k == 0 then [] else PackTo(fs, k - 1) + Encode(fs[k - 1].1, fs[k - 1].0)
  }

  function Pack(fs: Fields): seq<byte> { PackTo(fs, |fs|) }

  // Where field k starts
  function Off(fs: Fields, k: nat): nat
    requires k <= |fs|
    decreases k
  {
    if k == 0 then 0 else Off(fs, k - 1) + fs[k - 1].0
  }

  lemma {:induction false} PackToLength(fs: Fields, k: nat)
    requires k <= |fs|
    ensures |PackTo(fs, k)| == Off(fs, k)
  {
    if k == 0 {
    } else {
      PackToLength(fs, k - 1);
    }
  }

  lemma PackLength(fs: Fields, k: nat)
    requires k == |fs|
    ensures |Pack(fs)| == Off(fs, k)
  {
    PackToLength(fs, k);
  }

  lemma GetEncoded(v: nat, n: nat)
    requires v < Pow256(n)
    ensures Get(Encode(v, n), 0, n) == v
  {
    GetIsDecode(Encode(v, n), 0, n);
    assert Encode(v, n)[0..n] == Encode(v, n);
    DecodeEncode(v, n);
    ModUnique(v, Pow256(n), 0, v);
  }

  lemma {:induction false} GetFieldTo(fs: Fields, k: nat, j: nat)
    requires k < j <= |fs| && fs[k].1 < Pow256(fs[k].0)
    ensures Off(fs, k) + fs[k].0 <= |PackTo(fs, j)|
    ensures Get(PackTo(fs, j), Off(fs, k), fs[k].0) == fs[k].1
    decreases j
  {
    var (front, n, v) := (PackTo(fs, j - 1), fs[j - 1].0, fs[j - 1].1);
    var last := Encode(v, n);
    if k < j - 1 {
      GetFieldTo(fs, k, j - 1);
      GetLeft(front, last, Off(fs, k), fs[k].0);
    } else {
      PackToLength(fs, k);
      GetRight(front, last, 0, n);
      GetEncoded(v, n);
    }
  }

  // A packed field is read back where it starts.
  lemma GetField(fs: Fields, k: nat, o: nat, n: nat, v: nat)
    requires k < |fs| && o == Off(fs, k) && fs[k] == (n, v) && v < Pow256(n)
    ensures o + n <= |Pack(fs)| && Get(Pack(fs), o, n) == v
  {
    GetFieldTo(fs, k, |fs|);
  }

  // ----- records -----

  // The records one after the other
  function Flat(rs: seq<seq<byte>>): seq<byte> {
    if rs == [] then [] else rs[0] + Flat(rs[1..])
  }

  ghost predicate Uniform(rs: seq<seq<byte>>, w: nat) { forall i :: 0 <= i < |rs| ==> |rs[i]| == w }

  lemma {:induction false} FlatLength(rs: seq<seq<byte>>, w: nat)
    requires Uniform(rs, w)
    ensures |Flat(rs)| == |rs| * w
  {
    if rs == [] {
    } else {
      assert Uniform(rs[1..], w);
      FlatLength(rs[1..], w);
      assert |rs| * w == w + |rs[1..]| * w;
    }
  }

  // A word of record i is read back at its place in that record.
  lemma {:induction false} GetRecord(rs: seq<seq<byte>>, w: nat, i: nat, o: nat, n: nat)
    requires Uniform(rs, w) && i < |rs| && o + n <= w
    ensures i * w + o + n <= |Flat(rs)| && Get(Flat(rs), i * w + o, n) == Get(rs[i], o, n)
    decreases |rs|
  {
    var (r, rest) := (rs[0], rs[1..]);
    if i == 0 {
      GetLeft(r, Flat(rest), o, n);
    } else {
      assert Uniform(rest, w);
      GetRecord(rest, w, i - 1, o, n);
      assert i * w + o == w + ((i - 1) * w + o);
      GetRight(r, Flat(rest), (i - 1) * w + o, n);
    }
  }

  // Words of a piece of a buffer are words of the buffer.
  lemma {:induction false} GetInside(m: seq<byte>, at: nat, p: seq<byte>, o: nat, n: nat)
    requires at + |p| <= |m| && p == m[at..at + |p|] && o + n <= |p|
    ensures Get(m, at + o, n) == Get(p, o, n)
    decreases n
  {
    if n == 0 {
    } else {
      GetInside(m, at, p, o + 1, n - 1);
      assert p[o] == m[at + o] && at + (o + 1) == at + o + 1;
    }
  }
}
