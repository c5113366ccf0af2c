/** `writeToAddress`: a number written big-endian into a fixed number of
    bytes of a file, the file modelled as an array of bytes. */
module ByteWriter {

  import opened Seeds

  newtype Byte = x: int | 0 <= x < 256

  /** The last `n` bytes of `val`, most significant first. */
  function BigEndian(val: nat, n: nat): (r: seq<Byte>)
    ensures |r| == n
  {
    if n == 0 then [] else BigEndian(val / 256, n - 1) + [(val % 256) as Byte]
  }

  /** The number a big-endian byte string stands for. */
  function BigEndianValue(bs: seq<Byte>): nat {
    if bs == [] then 0 else BigEndianValue(bs[..|bs| - 1]) * 256 + bs[|bs| - 1] as nat
  }

  lemma Pow2Byte(n: nat)
    requires n > 0
    ensures Pow2(8 * n) == Pow2(8 * (n - 1)) * 256
  {
    Pow2Add(8 * (n - 1), 8);
    assert Pow2(8) == 256;
  }

  /** A value that fits in `n` bytes reads back from its `n` bytes. */
  lemma {:induction false} BigEndianRoundTrip(val: nat, n: nat)
    requires val < Pow2(8 * n)
    ensures BigEndianValue(BigEndian(val, n)) == val
  {
    if n > 0 {
      Pow2Byte(n);
      BigEndianRoundTrip(val / 256, n - 1);
      var bs := BigEndian(val, n);
      assert bs[..|bs| - 1] == BigEndian(val / 256, n - 1);
    } else {
      assert Pow2(0) == 1;
    }
  }

  /** `writeToAddress(file, address, val, numBytes)`: `false` and nothing
      written when `val` needs more than `numBytes` bytes; otherwise its
      bytes, most significant first, written from `address` on. */
  method WriteToAddress(file: array<Byte>, address: nat, val: nat, numBytes: nat) returns (ok: bool)
    requires address + numBytes <= file.Length
    modifies file
    ensures ok <==> BitLength(val) <= 8 * numBytes
    ensures !ok ==> file[..] == old(file[..])
    ensures ok ==> file[..] == old(file[..address]) + BigEndian(val, numBytes) + old(file[address + numBytes..])
  {
    if BitLength(val) > numBytes * 8 {
      return false;
    }
    WriteBytes(file, address, val, numBytes);
    return true;
  }

  /** The writing loop of `writeToAddress`: the last byte of `val` at the
      last address, then one byte further up and one address down, `numBytes`
      times. */
  method WriteBytes(file: array<Byte>, address: nat, val: nat, numBytes: nat)
    requires address + numBytes <= file.Length
    modifies file
    ensures file[..] == old(file[..address]) + BigEndian(val, numBytes) + old(file[address + numBytes..])
  {
    var end := address + numBytes;
    var addr: int := end - 1;
    var cur := val;
    ghost var written: seq<Byte> := [];
    for i := 0 to numBytes
      invariant addr == end - 1 - i
      invariant BigEndian(val, numBytes) == BigEndian(cur, numBytes - i) + written
      invariant written == file[end - i..end]
      invariant forall k | 0 <= k < end - i :: file[k] == old(file[k])
      invariant forall k | end <= k < file.Length :: file[k] == old(file[k])
    {
      var b := (cur % 256) as Byte;
      PrependByte(val, numBytes, cur, numBytes - i, written);
      file[addr] := b;
      written := [b] + written;
      assert written == file[end - i - 1..end];
      addr := addr - 1;
      cur := cur / 256;
    }
    Splice(file[..], old(file[..]), address, end, written);
  }

  /** A byte string that agrees with `before` outside `address..end` and
      holds `mid` there. */
  lemma Splice(now: seq<Byte>, before: seq<Byte>, address: nat, end: nat, mid: seq<Byte>)
    requires address <= end <= |now| == |before|
    requires forall k | 0 <= k < address :: now[k] == before[k]
    requires forall k | end <= k < |now| :: now[k] == before[k]
    requires now[address..end] == mid
    ensures now == before[..address] + mid + before[end..]
  {
    assert now == now[..address] + now[address..end] + now[end..];
  }

  /** One step of the writing loop: the lowest byte of `cur` moves from
      the bytes still to write to the front of those written. */
  lemma PrependByte(val: nat, n: nat, cur: nat, k: nat, written: seq<Byte>)
    requires k > 0 && BigEndian(val, n) == BigEndian(cur, k) + written
    ensures BigEndian(val, n) == BigEndian(cur / 256, k - 1) + ([(cur % 256) as Byte] + written)
  {
  }

  /** What the write leaves at `address` reads back as `val`. */
  lemma WrittenReadsBack(val: nat, numBytes: nat)
    requires BitLength(val) <= 8 * numBytes
    ensures BigEndianValue(BigEndian(val, numBytes)) == val
  {
    BitLengthFits(val, 8 * numBytes);
    BigEndianRoundTrip(val, numBytes);
  }
}
