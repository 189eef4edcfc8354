/** Bytes and the integers they spell, `int.from_bytes`. */
module Bytes {
  type Byte = b: int | 0 <= b < 256

  /** `int.from_bytes(data, "big")` */
  function Big(data: seq<Byte>): nat {
    if data == [] then 0 else Big(data[..|data| - 1]) * 256 + data[|data| - 1]
  }

  /** `int.from_bytes(data, "little")` */
  function Little(data: seq<Byte>): nat {
    if data == [] then 0 else data[0] + 256 * Little(data[1..])
  }

  /** `n.to_bytes(width, "big")` */
  function BigBytes(n: nat, width: nat): (r: seq<Byte>)
    ensures |r| == width
  {
    if width == 0 then [] else BigBytes(n / 256, width - 1) + [n % 256]
  }

  /** `n.to_bytes(width, "little")` */
  function LittleBytes(n: nat, width: nat): (r: seq<Byte>)
    ensures |r| == width
  {
    if width == 0 then [] else [n % 256] + LittleBytes(n / 256, width - 1)
  }

  function Power256(width: nat): nat {
    if width == 0 then 1 else 256 * Power256(width - 1)
  }

  lemma {:induction false} BigOfBytes(n: nat, width: nat)
    requires n < Power256(width)
    ensures Big(BigBytes(n, width)) == n
  {
    if width > 0 {
      BigOfBytes(n / 256, width - 1);
      assert BigBytes(n, width)[..width - 1] == BigBytes(n / 256, width - 1);
    }
  }

  lemma {:induction false} LittleOfBytes(n: nat, width: nat)
    requires n < Power256(width)
    ensures Little(LittleBytes(n, width)) == n
  {
    if width > 0 {
      LittleOfBytes(n / 256, width - 1);
      assert LittleBytes(n, width)[1..] == LittleBytes(n / 256, width - 1);
    }
  }

  lemma {:induction false} BytesOfBig(data: seq<Byte>)
    ensures Big(data) < Power256(|data|) && BigBytes(Big(data), |data|) == data
  {
    if data != [] {
      var n := |data| - 1;
      BytesOfBig(data[..n]);
      assert Big(data) / 256 == Big(data[..n]) && Big(data) % 256 == data[n];
      assert data == data[..n] + [data[n]];
    }
  }

  lemma {:induction false} BytesOfLittle(data: seq<Byte>)
    ensures Little(data) < Power256(|data|) && LittleBytes(Little(data), |data|) == data
  {
    if data != [] {
      BytesOfLittle(data[1..]);
      assert Little(data) / 256 == Little(data[1..]) && Little(data) % 256 == data[0];
      assert data == [data[0]] + data[1..];
    }
  }

  lemma Big2(data: seq<Byte>)
    requires |data| == 2
    ensures Big(data) == data[0] as int * 256 + data[1]
    ensures BigBytes(Big(data), 2) == data
  {
    assert data[..1] == [data[0]];
    assert [data[0]][..0] == [];
    assert Big([data[0]]) == data[0];
    var n := Big(data);
    assert n / 256 == data[0] && n % 256 == data[1];
    assert BigBytes(n / 256, 1) == BigBytes(n / 256 / 256, 0) + [n / 256 % 256];
  }
}
