/** Byte buffers, the file cursor's `read`, and the 4-byte `struct` 'I' field (little-endian). */
module Bytes {
  import opened Wrappers
  import opened Errors

  type byte = x: int | 0 <= x < 0x100
  type Bytes = seq<byte>

  const U32Limit: nat := 0x1_0000_0000

  function Min(a: nat, b: nat): nat { if a <= b then a else b }

  /** `f.read(n)` on a file positioned at `pos`: at most `n` bytes, fewer at end of file. */
  function ReadAt(data: Bytes, pos: nat, n: nat): (chunk: Bytes)
    requires pos <= |data|
    ensures |chunk| == Min(n, |data| - pos)
  {
    data[pos..pos + Min(n, |data| - pos)]
  }

  /** The four bytes `struct.pack('I', n)` writes, least significant first. */
  function U32(n: nat): (r: Bytes)
    requires n < U32Limit
    ensures |r| == 4
  {
    [n % 0x100, (n / 0x100) % 0x100, (n / 0x1_0000) % 0x100, n / 0x100_0000]
  }

  /** The value `struct.unpack('I', b)` reads from exactly four bytes. */
  function FromU32(b: Bytes): (n: nat)
    requires |b| == 4
    ensures n < U32Limit
  {
    b[0] as int + 0x100 * b[1] as int + 0x1_0000 * b[2] as int + 0x100_0000 * b[3] as int
  }

  /** `struct.pack('I', n)`, which raises `struct.error` when `n` does not fit in 32 bits. */
  function Pack(n: nat): (r: Result<Bytes, Error>)
    ensures r.Success? <==> n < U32Limit
    ensures r.Success? ==> |r.value| == 4 && FromU32(r.value) == n
    ensures r.Failure? ==> r.error == StructPackRange
  {
    if n < U32Limit then
      U32RoundTrip(n);
      Success(U32(n))
    else Failure(StructPackRange)
  }

  /** `struct.unpack('I', f.read(4))` at `pos`: fails unless four bytes remain. */
  function UnpackAt(data: Bytes, pos: nat): (r: Result<nat, Error>)
    requires pos <= |data|
    ensures r.Success? <==> pos + 4 <= |data|
    ensures r.Success? ==> r.value < U32Limit && U32(r.value) == data[pos..pos + 4]
    ensures r.Success? ==> r.value == FromU32(data[pos..pos + 4])
    ensures r.Failure? ==> r.error == StructUnpackSize
  {
    var chunk := ReadAt(data, pos, 4);
    if |chunk| == 4 then
      U32Inverse(chunk);
      Success(FromU32(chunk))
    else Failure(StructUnpackSize)
  }

  lemma U32RoundTrip(n: nat)
    requires n < U32Limit
    ensures FromU32(U32(n)) == n
  {
    var b := U32(n);
    var q1 := n / 0x100;
    var q2 := q1 / 0x100;
    DivBy2(n, q2, n % 0x100 + 0x100 * (q1 % 0x100));
    assert n / 0x1_0000 == q2;
    DivBy3(n, q2 / 0x100, n % 0x100 + 0x100 * (q1 % 0x100) + 0x1_0000 * (q2 % 0x100));
    assert n / 0x100_0000 == q2 / 0x100;
    assert b[0] as int + 0x100 * b[1] as int + 0x1_0000 * b[2] as int + 0x100_0000 * b[3] as int == n;
  }

  lemma U32Inverse(b: Bytes)
    requires |b| == 4
    ensures U32(FromU32(b)) == b
  {
    var n := FromU32(b);
    var b0, b1, b2, b3 := b[0] as int, b[1] as int, b[2] as int, b[3] as int;
    DivBy1(n, b1 + 0x100 * b2 + 0x1_0000 * b3, b0);
    DivBy1(b1 + 0x100 * b2 + 0x1_0000 * b3, b2 + 0x100 * b3, b1);
    DivBy2(n, b2 + 0x100 * b3, b0 + 0x100 * b1);
    DivBy1(b2 + 0x100 * b3, b3, b2);
    DivBy3(n, b3, b0 + 0x100 * b1 + 0x1_0000 * b2);
    var u := U32(n);
    assert u[0] == b[0] && u[1] == b[1] && u[2] == b[2] && u[3] == b[3];
  }

  /** Division by 2^8, 2^16 and 2^24 from a quotient and a remainder in range. */
  lemma DivBy1(x: int, q: int, r: int)
    requires 0 <= r < 0x100 && x == r + 0x100 * q
    ensures x / 0x100 == q && x % 0x100 == r
  {
  }

  lemma DivBy2(x: int, q: int, r: int)
    requires 0 <= r < 0x1_0000 && x == r + 0x1_0000 * q
    ensures x / 0x1_0000 == q && x % 0x1_0000 == r
  {
  }

  lemma DivBy3(x: int, q: int, r: int)
    requires 0 <= r < 0x100_0000 && x == r + 0x100_0000 * q
    ensures x / 0x100_0000 == q && x % 0x100_0000 == r
  {
  }
}
