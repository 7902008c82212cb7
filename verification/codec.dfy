// Little-endian integers and the on-disk form of inodes (include/chisai-core/inode.h),
// directory tables (include/chisai-core/dir.h) and indirect blocks.
module Codec {
  import opened Arith

  newtype byte = x: int | 0 <= x < 256

  type Bytes = seq<byte>

  /** One past the largest value of `w` bytes. */
  function Bound(w: nat): (n: nat)
    ensures n > 0
  {
    if w == 0 then 1 else 256 * Bound(w - 1)
  }

  /** `w` bytes of `v`, least significant first. */
  function ToLE(w: nat, v: nat): (s: Bytes)
    ensures |s| == w
  {
    if w == 0 then [] else [(v % 256) as byte] + ToLE(w - 1, v / 256)
  }

  function FromLE(s: Bytes): (v: nat)
  {
    if s == [] then 0 else s[0] as nat + 256 * FromLE(s[1..])
  }

  lemma {:induction false} FromToLE(w: nat, v: nat)
    requires v < Bound(w)
    ensures FromLE(ToLE(w, v)) == v
  {
    if w != 0 {
      FromToLE(w - 1, v / 256);
      assert ToLE(w, v)[1..] == ToLE(w - 1, v / 256);
    }
  }

  lemma {:induction false} ToFromLE(s: Bytes)
    ensures FromLE(s) < Bound(|s|) && ToLE(|s|, FromLE(s)) == s
  {
    if s != [] {
      ToFromLE(s[1..]);
      LowByte(s[0], FromLE(s[1..]));
      assert s == [s[0]] + s[1..];
    }
  }

  lemma LowByte(x: byte, v: nat)
    ensures (x as nat + 256 * v) % 256 == x as nat && (x as nat + 256 * v) / 256 == v
  {
  }

  /** The lowest byte comes first. */
  lemma {:induction false} ToLEBytes(w: nat, v: nat, k: nat)
    requires k < w
    ensures ToLE(w, v)[k] == (v / Bound(k) % 256) as byte
  {
    if k != 0 {
      ToLEBytes(w - 1, v / 256, k - 1);
      assert ToLE(w, v)[1..] == ToLE(w - 1, v / 256);
      DivTwice(v, 256, Bound(k - 1));
    }
  }

  lemma DivTwice(v: nat, m: nat, n: nat)
    requires m > 0 && n > 0
    ensures m * n > 0 && v / m / n == v / (m * n)
  {
    var q, r := v / m, v % m;
    var q', r' := q / n, q % n;
    DivModJoin(v, m);
    DivModJoin(q, n);
    assert v == (q' * n + r') * m + r;
    assert (q' * n + r') * m == q' * (n * m) + r' * m;
    assert n * m == m * n;
    MulMono(r' + 1, n, m);
    assert (r' + 1) * m == r' * m + m;
    DivModUnique(v, m * n, q', r' * m + r);
  }

  // ---------- fields at fixed positions ----------

  /** A record is a sequence of fields of given widths, laid end to end. */
  function EncodeFields(widths: seq<nat>, values: seq<nat>): (s: Bytes)
    requires |values| == |widths|
    ensures |s| == Width(widths)
  {
    if widths == [] then [] else ToLE(widths[0], values[0]) + EncodeFields(widths[1..], values[1..])
  }

  function Width(widths: seq<nat>): nat {
    if widths == [] then 0 else widths[0] + Width(widths[1..])
  }

  function DecodeFields(widths: seq<nat>, s: Bytes): (values: seq<nat>)
    requires |s| == Width(widths)
    ensures |values| == |widths|
  {
    if widths == [] then [] else [FromLE(s[..widths[0]])] + DecodeFields(widths[1..], s[widths[0]..])
  }

  predicate Fits(widths: seq<nat>, values: seq<nat>) {
    |values| == |widths| && forall k :: 0 <= k < |values| ==> values[k] < Bound(widths[k])
  }

  lemma {:induction false} DecodeEncode(widths: seq<nat>, values: seq<nat>)
    requires Fits(widths, values)
    ensures DecodeFields(widths, EncodeFields(widths, values)) == values
  {
    if widths != [] {
      var s := EncodeFields(widths, values);
      assert s[..widths[0]] == ToLE(widths[0], values[0]);
      assert s[widths[0]..] == EncodeFields(widths[1..], values[1..]);
      FromToLE(widths[0], values[0]);
      assert Fits(widths[1..], values[1..]) by {
        forall k | 0 <= k < |values[1..]|
          ensures values[1..][k] < Bound(widths[1..][k])
        {
          assert values[k + 1] < Bound(widths[k + 1]);
        }
      }
      DecodeEncode(widths[1..], values[1..]);
      assert values == [values[0]] + values[1..];
    }
  }

  lemma {:induction false} DecodeFits(widths: seq<nat>, s: Bytes)
    requires |s| == Width(widths)
    ensures Fits(widths, DecodeFields(widths, s))
  {
    if widths != [] {
      ToFromLE(s[..widths[0]]);
      DecodeFits(widths[1..], s[widths[0]..]);
    }
  }

  const TWO_32: nat := 0x1_0000_0000
  const TWO_64: nat := 0x1_0000_0000_0000_0000

  lemma BoundsAre()
    ensures Bound(4) == TWO_32 && Bound(8) == TWO_64
  {
    assert Bound(2) == 256 * 256;
    assert Bound(4) == 256 * (256 * Bound(2));
    assert Bound(6) == 256 * (256 * Bound(4));
    assert Bound(8) == 256 * (256 * Bound(6));
  }

  // ---------- inodes ----------

  const DIRECT_BLKS: nat := 12

  type Direct = d: seq<nat> | |d| == DIRECT_BLKS witness seq(DIRECT_BLKS, _ => 0)

  /** The fields of `struct inode`; file times and owners are not stored. */
  datatype Inode = Inode(mode: nat, nlink: nat, blkcnt: nat, size: nat,
                         direct: Direct, indirect: nat, doubleIndirect: nat)
  {
    /** Every field fits its width on the device. */
    predicate Valid() {
      && mode < TWO_32 && indirect < TWO_32 && doubleIndirect < TWO_32
      && nlink < TWO_64 && blkcnt < TWO_64 && size < TWO_64
      && forall k :: 0 <= k < DIRECT_BLKS ==> direct[k] < TWO_32
    }

    /** mode, 4 bytes of padding, nlink, blkcnt, size, then the block numbers. */
    function Fields(): (f: seq<nat>)
      ensures |f| == 19
    {
      [mode, 0, nlink, blkcnt, size] + direct + [indirect, doubleIndirect]
    }
  }

  const INODE_WIDTHS: seq<nat> := [4, 4, 8, 8, 8] + Words(14)
  const INODE_BYTES: nat := 88

  /** The widths of `n` 32-bit fields. */
  function Words(n: nat): (w: seq<nat>)
    ensures |w| == n && Width(w) == 4 * n
  {
    if n == 0 then [] else
      var w := [4] + Words(n - 1);
      assert w[1..] == Words(n - 1);
      w
  }

  lemma InodeWidth()
    ensures |INODE_WIDTHS| == 19 && Width(INODE_WIDTHS) == INODE_BYTES
  {
    var w := Words(14);
    WidthCons(8, w);
    WidthCons(8, [8] + w);
    WidthCons(8, [8] + ([8] + w));
    WidthCons(4, [8] + ([8] + ([8] + w)));
    WidthCons(4, [4] + ([8] + ([8] + ([8] + w))));
    assert INODE_WIDTHS == [4] + ([4] + ([8] + ([8] + ([8] + w))));
  }

  lemma WidthCons(x: nat, w: seq<nat>)
    ensures Width([x] + w) == x + Width(w)
  {
    assert ([x] + w)[1..] == w;
  }

  function EncodeInode(x: Inode): (s: Bytes)
    ensures |s| == INODE_BYTES
  {
    InodeWidth();
    EncodeFields(INODE_WIDTHS, x.Fields())
  }

  function DecodeInode(s: Bytes): (x: Inode)
    requires |s| == INODE_BYTES
  {
    InodeWidth();
    var f := DecodeFields(INODE_WIDTHS, s);
    Inode(f[0], f[2], f[3], f[4], f[5..17], f[17], f[18])
  }

  lemma {:induction false} WordsAre(k: nat, n: nat)
    requires n < k
    ensures Words(k)[n] == 4
  {
    if n != 0 { WordsAre(k - 1, n - 1); }
  }

  lemma FieldsFit(x: Inode)
    requires x.Valid()
    ensures Fits(INODE_WIDTHS, x.Fields())
  {
    BoundsAre();
    forall k | 0 <= k < 19
      ensures x.Fields()[k] < Bound(INODE_WIDTHS[k])
    {
      if k >= 5 { BlockFieldFits(x, k - 5); }
    }
  }

  lemma BlockFieldFits(x: Inode, k: nat)
    requires x.Valid() && k < 14
    ensures INODE_WIDTHS[5 + k] == 4 && x.Fields()[5 + k] < TWO_32
  {
    WordsAre(14, k);
  }

  /** A stored inode reads back as itself. */
  lemma InodeRoundTrip(x: Inode)
    requires x.Valid()
    ensures DecodeInode(EncodeInode(x)) == x
  {
    InodeWidth();
    FieldsFit(x);
    DecodeEncode(INODE_WIDTHS, x.Fields());
    assert x.Fields()[5..17] == x.direct;
  }

  /** Where the fields of an encoded inode stand. */
  lemma InodeLayout(x: Inode)
    ensures var s := EncodeInode(x);
            && s[0..4] == ToLE(4, x.mode) && s[8..16] == ToLE(8, x.nlink) && s[16..24] == ToLE(8, x.blkcnt)
            && s[24..32] == ToLE(8, x.size) && s[80..84] == ToLE(4, x.indirect)
            && s[84..88] == ToLE(4, x.doubleIndirect)
            && forall k :: 0 <= k < DIRECT_BLKS ==> s[32 + 4 * k..36 + 4 * k] == ToLE(4, x.direct[k])
  {
    hide EncodeInode, EncodeFields, ToLE;
    InodeHead(x);
    BlockFieldAt(x, 12);
    BlockFieldAt(x, 13);
    forall k | 0 <= k < DIRECT_BLKS
      ensures EncodeInode(x)[32 + 4 * k..36 + 4 * k] == ToLE(4, x.direct[k])
    {
      BlockFieldAt(x, k);
    }
  }

  lemma InodeHead(x: Inode)
    ensures var s := EncodeInode(x);
            && s[0..4] == ToLE(4, x.mode) && s[8..16] == ToLE(8, x.nlink) && s[16..24] == ToLE(8, x.blkcnt)
            && s[24..32] == ToLE(8, x.size)
  {
    hide EncodeFields, ToLE, Words;
    InodeWidth();
    HeadWidths();
    var w, f := INODE_WIDTHS, x.Fields();
    FieldAt(w, f, 0); FieldAt(w, f, 2); FieldAt(w, f, 3); FieldAt(w, f, 4);
  }

  /** The block numbers of an inode stand one behind the other. */
  lemma BlockFieldAt(x: Inode, k: nat)
    requires k < 14
    ensures EncodeInode(x)[32 + 4 * k..36 + 4 * k] == ToLE(4, x.Fields()[5 + k])
  {
    hide EncodeFields, ToLE, Words;
    InodeWidth();
    WordsAre(14, k);
    WordWidths(k);
    FieldAt(INODE_WIDTHS, x.Fields(), 5 + k);
  }

  /** Field `n` of a record stands behind the widths of those before it. */
  lemma {:induction false} FieldAt(widths: seq<nat>, values: seq<nat>, n: nat)
    requires |values| == |widths| && n < |widths|
    ensures Width(widths[..n]) + widths[n] <= Width(widths)
    ensures var p := Width(widths[..n]);
            EncodeFields(widths, values)[p..p + widths[n]] == ToLE(widths[n], values[n])
  {
    hide ToLE;
    var s := EncodeFields(widths, values);
    if n == 0 {
      assert s[..widths[0]] == ToLE(widths[0], values[0]);
    } else {
      FieldAt(widths[1..], values[1..], n - 1);
      assert widths[1..][..n - 1] == widths[..n][1..];
      assert s[widths[0]..] == EncodeFields(widths[1..], values[1..]);
    }
  }

  lemma {:induction false} WidthOfBoth(a: seq<nat>, b: seq<nat>)
    ensures Width(a + b) == Width(a) + Width(b)
  {
    if a == [] {
      assert a + b == b;
    } else {
      WidthOfBoth(a[1..], b);
      assert (a + b)[1..] == a[1..] + b;
    }
  }

  lemma HeadWidths()
    ensures var w := INODE_WIDTHS;
            Width(w[..0]) == 0 && Width(w[..2]) == 8 && Width(w[..3]) == 16 && Width(w[..4]) == 24
  {
    var w := INODE_WIDTHS;
    WidthOfOne(4); WidthOfOne(8);
    WidthOfBoth([4], [4]);
    WidthOfBoth([4] + [4], [8]);
    WidthOfBoth([4] + [4] + [8], [8]);
    assert w[..2] == [4] + [4] && w[..3] == [4] + [4] + [8] && w[..4] == [4] + [4] + [8] + [8];
  }

  lemma WidthOfOne(x: nat)
    ensures Width([x]) == x
  {
  }

  lemma WordWidths(k: nat)
    requires k <= 14
    ensures Width(INODE_WIDTHS[..5 + k]) == 32 + 4 * k
  {
    hide Words;
    var w := INODE_WIDTHS;
    HeadWidths();
    WidthOfOne(8);
    WidthOfBoth(w[..4], [8]);
    WidthOfBoth(w[..5], Words(k));
    WordsPrefix(14, k);
    assert w[..5] == w[..4] + [8] && w[..5 + k] == w[..5] + Words(k);
  }

  lemma {:induction false} WordsPrefix(n: nat, k: nat)
    requires k <= n
    ensures Words(n)[..k] == Words(k)
  {
    if k != 0 {
      WordsPrefix(n - 1, k - 1);
      assert Words(n)[1..] == Words(n - 1);
      assert Words(n)[..k] == [4] + Words(n)[1..][..k - 1];
    }
  }

  // ---------- block numbers inside an indirect block ----------

  /** Entry `k` of a table of 4-byte block numbers. */
  function Entry(blk: Bytes, k: nat): (v: nat) {
    if 4 * k + 4 <= |blk| then FromLE(blk[4 * k..4 * k + 4]) else 0
  }

  /** Overwrite a stretch of bytes. */
  function Splice(s: Bytes, off: nat, data: Bytes): (r: Bytes)
    ensures |r| == |s|
  {
    if off + |data| <= |s| then s[..off] + data + s[off + |data|..] else s
  }

  function SetEntry(blk: Bytes, k: nat, v: nat): (r: Bytes)
    ensures |r| == |blk|
  {
    Splice(blk, 4 * k, ToLE(4, v))
  }

  lemma EntryAfterSet(blk: Bytes, k: nat, v: nat, j: nat)
    requires 4 * k + 4 <= |blk| && 4 * j + 4 <= |blk| && v < Bound(4)
    ensures Entry(SetEntry(blk, k, v), j) == if j == k then v else Entry(blk, j)
  {
    var r := SetEntry(blk, k, v);
    if j == k {
      assert r[4 * k..4 * k + 4] == ToLE(4, v);
      FromToLE(4, v);
    } else {
      assert r[4 * j..4 * j + 4] == blk[4 * j..4 * j + 4];
    }
  }
}
