/** The Reface DX voice parameter table: every addressable byte of a voice, in
    the order of the flat patch image (index i of a patch is the parameter at
    Parameters[i]). Addresses follow the (high, mid, low) layout of Yamaha's
    reface data list. */
module ParameterTable {
  import opened Midi

  datatype Address = Address(high: byte, mid: byte, low: byte)

  /** The addresses (high, mid, x) for x from lo up to, but not including, hi. */
  function Block(high: byte, mid: byte, lo: nat, hi: nat): (r: seq<Address>)
    requires lo <= hi <= 0x100
    ensures |r| == hi - lo
    ensures forall i :: 0 <= i < |r| ==> r[i] == Address(high, mid, lo + i)
    decreases hi - lo
  {
    if lo == hi then [] else [Address(high, mid, lo)] + Block(high, mid, lo + 1, hi)
  }

  /** The ten characters of the voice name. */
  const NameBlock: seq<Address> := Block(0x30, 0x00, 0x00, 0x0A)
  /** The common voice parameters; offsets 0x0A and 0x0B are not transferred. */
  const GlobalBlock: seq<Address> := Block(0x30, 0x00, 0x0C, 0x23)
  /** The parameters of operators 1 to 4. */
  const Operator1Block: seq<Address> := Block(0x31, 0x00, 0x00, 0x19)
  const Operator2Block: seq<Address> := Block(0x31, 0x01, 0x00, 0x19)
  const Operator3Block: seq<Address> := Block(0x31, 0x02, 0x00, 0x19)
  const Operator4Block: seq<Address> := Block(0x31, 0x03, 0x00, 0x19)

  const Parameters: seq<Address> :=
    NameBlock + GlobalBlock + Operator1Block + Operator2Block + Operator3Block + Operator4Block

  /** The size of a patch image: one byte per table entry. */
  const SyxSize: nat := |Parameters|

  /** The table position of an address, decoded from the address alone; None for
      an address the table does not contain. */
  function TableIndex(a: Address): (r: Option<nat>)
    ensures r.Some? ==> r.value < 133
  {
    if a.high == 0x30 && a.mid == 0x00 && a.low < 0x0A then Some(a.low)
    else if a.high == 0x30 && a.mid == 0x00 && 0x0C <= a.low < 0x23 then Some(10 + (a.low - 0x0C))
    else if a.high == 0x31 && a.mid < 4 && a.low < 0x19 then Some(33 + 25 * a.mid + a.low)
    else None
  }

  /** The table holds 10 name, 23 global and 4 x 25 operator entries. */
  lemma TableSize()
    ensures |NameBlock| == 10 && |GlobalBlock| == 23
    ensures |Operator1Block| == |Operator2Block| == |Operator3Block| == |Operator4Block| == 25
    ensures SyxSize == 10 + 23 + 4 * 25 == 133
  {
  }

  /** The blocks lie in the table in order: name, global, operators 1 to 4. */
  lemma TableShape()
    ensures SyxSize == 133
    ensures Parameters[..10] == NameBlock
    ensures Parameters[10..33] == GlobalBlock
    ensures Parameters[33..58] == Operator1Block && Parameters[58..83] == Operator2Block
    ensures Parameters[83..108] == Operator3Block && Parameters[108..133] == Operator4Block
  {
    TableSize();
    var a := NameBlock + GlobalBlock;
    var b := a + Operator1Block;
    var c := b + Operator2Block;
    var d := c + Operator3Block;
    assert Parameters == d + Operator4Block;
    assert Parameters[..10] == a[..10] == NameBlock;
    assert Parameters[10..33] == a[10..33] == GlobalBlock;
    assert Parameters[33..58] == b[33..58] == Operator1Block;
    assert Parameters[58..83] == c[58..83] == Operator2Block;
    assert Parameters[83..108] == d[83..108] == Operator3Block;
  }

  /** The name transfer runs over a prefix of the full table. */
  lemma NameBlockIsPrefix()
    ensures |NameBlock| <= |Parameters| && NameBlock == Parameters[..|NameBlock|]
  {
    TableSize();
    TableShape();
  }

  /** Entry i of the table, written out from its index. */
  lemma ParameterAt(i: nat)
    requires i < SyxSize
    ensures i < 10 ==> Parameters[i] == Address(0x30, 0x00, i)
    ensures 10 <= i < 33 ==> Parameters[i] == Address(0x30, 0x00, 0x0C + (i - 10))
    ensures 33 <= i < 58 ==> Parameters[i] == Address(0x31, 0x00, i - 33)
    ensures 58 <= i < 83 ==> Parameters[i] == Address(0x31, 0x01, i - 58)
    ensures 83 <= i < 108 ==> Parameters[i] == Address(0x31, 0x02, i - 83)
    ensures 108 <= i ==> Parameters[i] == Address(0x31, 0x03, i - 108)
  {
    TableShape();
    if i < 10 {
      assert Parameters[i] == Parameters[..10][i];
    } else if i < 33 {
      assert Parameters[i] == Parameters[10..33][i - 10];
    } else if i < 58 {
      assert Parameters[i] == Parameters[33..58][i - 33];
    } else if i < 83 {
      assert Parameters[i] == Parameters[58..83][i - 58];
    } else if i < 108 {
      assert Parameters[i] == Parameters[83..108][i - 83];
    } else {
      assert Parameters[i] == Parameters[108..133][i - 108];
    }
  }

  /** Entry j of operator k's block sits at index 33 + 25k + j. */
  lemma OperatorParameterAt(k: nat, j: nat)
    requires k < 4 && j < 25
    ensures 33 + 25 * k + j < SyxSize
    ensures Parameters[33 + 25 * k + j] == Address(0x31, k, j)
  {
    TableSize();
    ParameterAt(33 + 25 * k + j);
  }

  /** TableIndex finds every table entry at its own index. */
  lemma TableIndexFinds(i: nat)
    requires i < SyxSize
    ensures TableIndex(Parameters[i]) == Some(i)
  {
    ParameterAt(i);
  }

  /** Any address TableIndex places is the table entry at that place. */
  lemma TableIndexPlaces(a: Address)
    requires TableIndex(a).Some?
    ensures TableIndex(a).value < SyxSize && Parameters[TableIndex(a).value] == a
  {
    var i := TableIndex(a).value;
    TableSize();
    ParameterAt(i);
    if a.high == 0x31 {
      if a.mid == 0 {
        assert i == 33 + a.low;
      } else if a.mid == 1 {
        assert i == 58 + a.low;
      } else if a.mid == 2 {
        assert i == 83 + a.low;
      } else {
        assert i == 108 + a.low;
      }
    }
  }

  /** No two table entries share an address, so each device parameter is
      transferred exactly once. */
  lemma AddressesDistinct(i: nat, j: nat)
    requires i < SyxSize && j < SyxSize && i != j
    ensures Parameters[i] != Parameters[j]
  {
    TableIndexFinds(i);
    TableIndexFinds(j);
  }
}
