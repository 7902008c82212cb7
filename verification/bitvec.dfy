// A byte-packed bitmap updated in place (utils/bitvec.c).
module BitVector {
  import opened Bits

  class BitVec {
    const inner: array<bv8>

    /** The flags the buffer stands for. */
    function Model(): (f: seq<bool>)
      reads inner
      ensures |f| == 8 * inner.Length
    {
      Flags(inner[..])
    }

    constructor (bytes: seq<bv8>)
      ensures fresh(inner) && inner[..] == bytes
    {
      var buffer := new bv8[|bytes|](i requires 0 <= i < |bytes| => bytes[i]);
      inner := buffer;
    }

    method Get(index: nat) returns (bit: bool)
      requires index < 8 * inner.Length
      ensures bit == Model()[index]
    {
      var split := index / 8;
      var pos := index % 8;
      FlagAt(inner[..], split, pos);
      bit := (inner[split] >> pos) & 1 == 1;
    }

    method Set(index: nat)
      requires index < 8 * inner.Length
      modifies inner
      ensures Model() == old(Model())[index := true]
    {
      hide WithBit;
      var split := index / 8;
      var pos := index % 8;
      ghost var s := inner[..];
      FlagsSet(s, split, pos);
      inner[split] := WithBit(inner[split], pos);
      assert inner[..] == s[split := WithBit(s[split], pos)];
    }

    method Reset(index: nat)
      requires index < 8 * inner.Length
      modifies inner
      ensures Model() == old(Model())[index := false]
    {
      hide WithoutBit;
      var split := index / 8;
      var pos := index % 8;
      ghost var s := inner[..];
      FlagsReset(s, split, pos);
      inner[split] := WithoutBit(inner[split], pos);
      assert inner[..] == s[split := WithoutBit(s[split], pos)];
    }

    method CountZeros() returns (sum: nat)
      ensures sum == CountClear(Model())
    {
      sum := 0;
      ghost var bytes := inner[..];
      for i := 0 to inner.Length
        invariant sum == CountClearTo(Flags(bytes), 8 * i)
      {
        CountClearOfByte(bytes, i);
        sum := sum + (8 - PopCount(inner[i]));
      }
    }

    /** One plus the index of the least clear flag, or 0 when every flag is set. */
    method FindFirstSet() returns (r: nat)
      ensures r == FirstClear(Model())
    {
      var ffs := 0;
      ghost var bytes := inner[..];
      for i := 0 to inner.Length
        invariant ffs == 8 * i
        invariant FirstClear(Flags(bytes)) == FirstClearFrom(Flags(bytes), 8 * i)
      {
        ScanByte(bytes, i);
        var tmp := Ffs(!(inner[i] as bv32));
        if tmp < 9 {
          return ffs + tmp;
        }
        ffs := ffs + 8;
      }
      return 0;
    }
  }
}
