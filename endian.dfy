/** endian_number.h: conversion between network byte order (most significant
    byte first) and the byte order of the host, for 8-, 16- and 32-bit
    values. The host's byte order is a compile-time property of the source;
    here it is a parameter. */
module Endian {
  import opened Arith
  import opened Field

  /** The byte order of the host the program is built for. */
  datatype ByteOrder = BigEndian | LittleEndian

  type Byte = x: nat | x < 256

  // ---------------------------------------------------------------------
  // Bytes in memory

  /** The value of two bytes read in network order. */
  function Network16(b: seq<Byte>): (r: nat)
    requires |b| == 2
    ensures r < U16
  {
    (b[0] as nat) * 256 + b[1] as nat
  }

  /** The value of four bytes read in network order. */
  function Network32(b: seq<Byte>): (r: nat)
    requires |b| == 4
    ensures r < U32
  {
    Network16(b[..2]) * U16 + Network16(b[2..])
  }

  /** The two bytes of x in network order. */
  function Bytes16(x: nat): (b: seq<Byte>)
    requires x < U16
    ensures |b| == 2
  {
    [x / 256, x % 256]
  }

  /** The four bytes of x in network order. */
  function Bytes32(x: nat): (b: seq<Byte>)
    requires x < U32
    ensures |b| == 4
  {
    Bytes16(x / U16) + Bytes16(x % U16)
  }

  /** What a native 16-bit load from memory holding the bytes b yields. */
  function Load16(host: ByteOrder, b: seq<Byte>): (r: nat)
    requires |b| == 2
    ensures r < U16
  {
    if host == BigEndian then Network16(b) else Network16([b[1], b[0]])
  }

  /** What a native 32-bit load from memory holding the bytes b yields. */
  function Load32(host: ByteOrder, b: seq<Byte>): (r: nat)
    requires |b| == 4
    ensures r < U32
  {
    if host == BigEndian then Network32(b) else Network32([b[3], b[2], b[1], b[0]])
  }

  /** The bytes in memory of a 16-bit value stored natively. */
  function Store16(host: ByteOrder, x: nat): (b: seq<Byte>)
    requires x < U16
    ensures |b| == 2
  {
    var b := Bytes16(x);
    if host == BigEndian then b else [b[1], b[0]]
  }

  /** The bytes in memory of a 32-bit value stored natively. */
  function Store32(host: ByteOrder, x: nat): (b: seq<Byte>)
    requires x < U32
    ensures |b| == 4
  {
    var b := Bytes32(x);
    if host == BigEndian then b else [b[3], b[2], b[1], b[0]]
  }

  lemma Bytes16Network(b: seq<Byte>)
    requires |b| == 2
    ensures Bytes16(Network16(b)) == b
  {
    DivModUnique(Network16(b), 256, b[0], b[1]);
  }

  lemma Network16Bytes(x: nat)
    requires x < U16
    ensures Network16(Bytes16(x)) == x
  {
  }

  lemma Bytes32Network(b: seq<Byte>)
    requires |b| == 4
    ensures Bytes32(Network32(b)) == b
  {
    DivModUnique(Network32(b), U16, Network16(b[..2]), Network16(b[2..]));
    Bytes16Network(b[..2]);
    Bytes16Network(b[2..]);
  }

  lemma Network32Bytes(x: nat)
    requires x < U32
    ensures Network32(Bytes32(x)) == x
  {
    var b := Bytes32(x);
    assert b[..2] == Bytes16(x / U16) && b[2..] == Bytes16(x % U16);
    Network16Bytes(x / U16);
    Network16Bytes(x % U16);
  }

  /** Storing natively and loading back gives the value on either host. */
  lemma LoadStore16(host: ByteOrder, x: nat)
    requires x < U16
    ensures Load16(host, Store16(host, x)) == x
  {
    Network16Bytes(x);
  }

  lemma LoadStore32(host: ByteOrder, x: nat)
    requires x < U32
    ensures Load32(host, Store32(host, x)) == x
  {
    var b := Bytes32(x);
    Network32Bytes(x);
    if host == LittleEndian {
      assert [b[3], b[2], b[1], b[0]][3] == b[0];
      assert [b[0], b[1], b[2], b[3]] == b;
    }
  }

  // ---------------------------------------------------------------------
  // convert

  /** endian_number<uint8_t>::convert: a single byte has no byte order. */
  function Convert8(num: Byte): (r: Byte)
    ensures r == num
  {
    num
  }

  /** ntohs on a little-endian host: the two bytes exchanged. */
  function Swap16(x: nat): (r: nat)
    requires x < U16
    ensures r < U16
  {
    (x % 256) * 256 + x / 256
  }

  /** ntohl on a little-endian host: the four bytes reversed. */
  function Swap32(x: nat): (r: nat)
    requires x < U32
    ensures r < U32
  {
    Swap16(x % U16) * U16 + Swap16(x / U16)
  }

  /** endian_number<uint16_t>::convert: the identity on a big-endian host,
      ntohs otherwise; the 16-bit result is widened to 32 bits. */
  function Convert16(host: ByteOrder, num: nat): (r: nat)
    requires num < U16
    ensures r < U16
  {
    if host == BigEndian then num else Swap16(num)
  }

  /** endian_number<uint32_t>::convert: the identity on a big-endian host,
      ntohl otherwise. */
  function Convert32(host: ByteOrder, num: nat): (r: nat)
    requires num < U32
    ensures r < U32
  {
    if host == BigEndian then num else Swap32(num)
  }

  /** Swapping is reversing the network-order bytes. */
  lemma Swap16Bytes(x: nat)
    requires x < U16
    ensures Bytes16(Swap16(x)) == [Bytes16(x)[1], Bytes16(x)[0]]
  {
    DivModUnique(Swap16(x), 256, x % 256, x / 256);
  }

  lemma Swap32Bytes(x: nat)
    requires x < U32
    ensures var b := Bytes32(x); Bytes32(Swap32(x)) == [b[3], b[2], b[1], b[0]]
  {
    DivModUnique(Swap32(x), U16, Swap16(x % U16), Swap16(x / U16));
    Swap16Bytes(x % U16);
    Swap16Bytes(x / U16);
  }

  // ---------------------------------------------------------------------
  // What the conversions promise

  /** Reading network-order bytes natively and converting gives their
      network-order value, on either host: this is how frames are decoded. */
  lemma Convert16Decodes(host: ByteOrder, b: seq<Byte>)
    requires |b| == 2
    ensures Convert16(host, Load16(host, b)) == Network16(b)
  {
    if host == LittleEndian {
      var x := Network16([b[1], b[0]]);
      Bytes16Network([b[1], b[0]]);
      Swap16Bytes(x);
      Network16Bytes(Swap16(x));
    }
  }

  lemma Convert32Decodes(host: ByteOrder, b: seq<Byte>)
    requires |b| == 4
    ensures Convert32(host, Load32(host, b)) == Network32(b)
  {
    if host == LittleEndian {
      var r := [b[3], b[2], b[1], b[0]];
      var x := Network32(r);
      Bytes32Network(r);
      Swap32Bytes(x);
      Network32Bytes(Swap32(x));
      assert [r[3], r[2], r[1], r[0]] == b;
    }
  }

  /** Converting and storing natively lays the value out in network order,
      on either host: this is how frames are encoded. */
  lemma Convert16Encodes(host: ByteOrder, x: nat)
    requires x < U16
    ensures Store16(host, Convert16(host, x)) == Bytes16(x)
  {
    if host == LittleEndian {
      Swap16Bytes(x);
    }
  }

  lemma Convert32Encodes(host: ByteOrder, x: nat)
    requires x < U32
    ensures Store32(host, Convert32(host, x)) == Bytes32(x)
  {
    if host == LittleEndian {
      Swap32Bytes(x);
    }
  }

  /** convert is its own inverse, so one function serves both directions. */
  lemma Convert16Involutive(host: ByteOrder, x: nat)
    requires x < U16
    ensures Convert16(host, Convert16(host, x)) == x
  {
    if host == LittleEndian {
      Swap16Bytes(x);
      Swap16Bytes(Swap16(x));
      Network16Bytes(Swap16(Swap16(x)));
      Network16Bytes(x);
    }
  }

  lemma Convert32Involutive(host: ByteOrder, x: nat)
    requires x < U32
    ensures Convert32(host, Convert32(host, x)) == x
  {
    if host == LittleEndian {
      Swap32Bytes(x);
      Swap32Bytes(Swap32(x));
      Network32Bytes(Swap32(Swap32(x)));
      Network32Bytes(x);
    }
  }
}
