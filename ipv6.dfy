/**
 * The IPv6 header codec: the in-memory header (hop limit, upper-layer
 * protocol, payload length and the two addresses), its initialisation, the
 * address setters, the packer that opens 40 bytes at the front of a caller's
 * buffer and writes the fixed header of section 3 of RFC 8200 there, the
 * unpacker that reads it back, and the dispatch to a caller's mutator hook.
 */
module Ipv6 {
  import opened Options
  import opened Ipv6Address
  import opened NetBuffer

  /** The fixed header occupies 40 bytes on the wire. */
  const HeaderLength: nat := 40

  /** Byte 0 of a packed header: version 6 in the high nibble, the rest zero. */
  const VersionByte: bv8 := 0x60

  /** The status of a failed pack or unpack, other than a failed shift. */
  const Failed: int := -1

  /** The upper-layer protocols the codec knows about. */
  datatype Protocol = Tcp | Udp | Unknown

  /** The contents of a header object, as a value. */
  datatype HeaderValue = HeaderValue(
    hopLimit: bv8,
    protocol: Protocol,
    length: nat,
    source: Octets,
    destination: Octets)

  /**
   * The Next Header byte the packer writes: 0x06 for TCP and 0x17 for UDP;
   * any other protocol has none.
   */
  function WireCode(p: Protocol): (r: Option<bv8>)
    ensures r.None? <==> p == Unknown
  {
    match p
    case Tcp => Some(0x06)
    case Udp => Some(0x17)
    case Unknown => None
  }

  /**
   * The protocol the unpacker reads from a Next Header byte: 6 is TCP and
   * 17 is UDP; any other byte has no mapping.
   */
  function ProtocolOf(code: bv8): (r: Option<Protocol>)
    ensures r.Some? <==> code == 6 || code == 17
    ensures code == 6 ==> r == Some(Tcp)
    ensures code == 17 ==> r == Some(Udp)
    ensures r != Some(Unknown)
  {
    if code == 6 then Some(Tcp)
    else if code == 17 then Some(Udp)
    else None
  }

  /**
   * Bytes 0 to 5 of a packed header: version 6, zero traffic class and flow
   * label, then the low 16 bits of the payload length `n`, high byte first.
   */
  function LengthPrefix(n: nat): (r: seq<bv8>)
    ensures |r| == 6
  {
    [VersionByte, 0, 0, 0, ((n / 256) % 256) as bv8, (n % 256) as bv8]
  }

  /** The 40 bytes the packer writes for header `f` over a payload of `n` bytes. */
  function HeaderBytes(f: HeaderValue, n: nat): (r: seq<bv8>)
    requires f.protocol != Unknown
    ensures |r| == HeaderLength
  {
    LengthPrefix(n) + [WireCode(f.protocol).value, f.hopLimit] + f.source + f.destination
  }

  /** The payload length the unpacker reads from bytes 4 (high) and 5 (low). */
  function PayloadLength(hi: bv8, lo: bv8): (n: nat)
    ensures n < 65536
  {
    hi as nat * 256 + lo as nat
  }

  /**
   * The status the unpacker returns and the header it leaves, given the
   * header `g` it started from and the bytes in use in the buffer.
   */
  function UnpackInto(g: HeaderValue, bytes: seq<bv8>): (r: (int, HeaderValue))
    ensures r.0 == 0 || r.0 == Failed
    ensures r.0 == 0 <==>
              |bytes| >= HeaderLength && bytes[0] & 0xf0 == VersionByte && (bytes[6] == 6 || bytes[6] == 17)
    ensures r.0 == 0 ==>
              r.1.protocol != Unknown && r.1.hopLimit == bytes[7] &&
              r.1.source == bytes[8..24] && r.1.destination == bytes[24..40]
    ensures r.0 != 0 ==>
              r.1.hopLimit == g.hopLimit && r.1.source == g.source && r.1.destination == g.destination
    ensures r.1 != g ==> |bytes| >= HeaderLength && r.1.length == PayloadLength(bytes[4], bytes[5])
    ensures |bytes| < HeaderLength || bytes[0] & 0xf0 != VersionByte ==> r == (Failed, g)
    ensures r.0 == 0 ==>
              Some(r.1.protocol) == ProtocolOf(bytes[6]) && r.1.length == PayloadLength(bytes[4], bytes[5])
    ensures |bytes| >= HeaderLength && bytes[0] & 0xf0 == VersionByte && ProtocolOf(bytes[6]).None? ==>
              r == (Failed, g.(length := PayloadLength(bytes[4], bytes[5]), protocol := Unknown))
  {
    if |bytes| < HeaderLength || bytes[0] & 0xf0 != VersionByte then
      (Failed, g)
    else
      var length := PayloadLength(bytes[4], bytes[5]);
      match ProtocolOf(bytes[6])
      case None => (Failed, g.(length := length, protocol := Unknown))
      case Some(p) => (0, HeaderValue(bytes[7], p, length, bytes[8..24], bytes[24..40]))
  }

  /** The hook a mutator offers for this header: the caller's context and an optional callback. */
  datatype Mutator<!C> = Mutator(data: C, mutateIpv6: Option<(C, HeaderValue) -> (int, HeaderValue)>)

  /** An IPv6 header object, whose fields the codec updates in place. */
  class Ipv6Header {
    var hopLimit: bv8
    var protocol: Protocol
    var length: nat
    const source: array<bv8>
    const destination: array<bv8>

    /** Each address is its own 16-octet storage. */
    ghost predicate Valid() {
      source.Length == 16 && destination.Length == 16 && source != destination
    }

    /** The header's contents as a value. */
    function View(): HeaderValue
      reads this, source, destination
      requires Valid()
    {
      HeaderValue(hopLimit, protocol, length, source[..], destination[..])
    }

    /** Storage for a header whose fields are not yet initialised. */
    constructor ()
      ensures Valid() && fresh(source) && fresh(destination)
    {
      source := new bv8[16];
      destination := new bv8[16];
    }

    /** Resets the header to its defaults: hop limit 255, TCP, both addresses zero. */
    method Init()
      requires Valid()
      modifies this, source, destination
      ensures Valid()
      ensures hopLimit == 255 && protocol == Tcp && length == old(length)
      ensures source[..] == ZeroOctets && destination[..] == ZeroOctets
    {
      hopLimit := 255;
      protocol := Tcp;
      InitAddress(source);
      InitAddress(destination);
    }

    /** Parses `text` into the source address; nothing else changes. */
    method SetSource(text: string) returns (err: int)
      requires Valid() && ScannedDigits(text) <= 32
      modifies source
      ensures err == 0 || err == -1
      ensures err == 0 <==> WellFormed(text)
      ensures source[..] == ParseFrom(old(source[..]), 0, text).octets
    {
      err := ParseAddress(source, text);
    }

    /** Parses `text` into the destination address; nothing else changes. */
    method SetDestination(text: string) returns (err: int)
      requires Valid() && ScannedDigits(text) <= 32
      modifies destination
      ensures err == 0 || err == -1
      ensures err == 0 <==> WellFormed(text)
      ensures destination[..] == ParseFrom(old(destination[..]), 0, text).octets
    {
      err := ParseAddress(destination, text);
    }

    /**
     * Opens 40 bytes at the front of `buffer` and writes the header there.
     * When the 40 bytes do not fit, nothing changes. When the protocol has
     * no Next Header code the buffer has already grown and bytes 0 to 7 are
     * written, so the failure is not undone.
     */
    method Pack(buffer: Buffer) returns (err: int)
      requires Valid() && buffer.Valid()
      requires buffer.data != source && buffer.data != destination
      modifies buffer, buffer.data
      ensures buffer.Valid() && buffer.reserved == old(buffer.reserved)
      ensures old(buffer.size) + HeaderLength > old(buffer.reserved) ==>
                err == (if old(buffer.reserved) < old(buffer.size) then Failed else ShiftFailed) &&
                buffer.size == old(buffer.size) && buffer.data[..] == old(buffer.data[..])
      ensures old(buffer.size) + HeaderLength <= old(buffer.reserved) ==>
                buffer.size == old(buffer.size) + HeaderLength &&
                buffer.data[HeaderLength..buffer.size] == old(buffer.Contents()) &&
                buffer.data[buffer.size..] == old(buffer.data[..])[buffer.size..]
      ensures old(buffer.size) + HeaderLength <= old(buffer.reserved) && protocol != Unknown ==>
                err == 0 && buffer.data[..HeaderLength] == HeaderBytes(View(), old(buffer.size))
      ensures old(buffer.size) + HeaderLength <= old(buffer.reserved) && protocol == Unknown ==>
                err == Failed && buffer.data[..8] == LengthPrefix(old(buffer.size)) + [0, 0]
    {
      if buffer.reserved < buffer.size {
        return Failed;
      }
      var dataSize := buffer.size;
      err := buffer.Shift(HeaderLength);
      if err != 0 {
        return err;
      }
      var header := buffer.data;
      ghost var shifted := header[..];
      WriteFixedFields(header, dataSize);
      if protocol == Tcp {
        header[6] := 0x06;
      } else if protocol == Udp {
        header[6] := 0x17;
      } else {
        // unsupported protocol
        assert header[..8] == header[..6] + [header[6], header[7]];
        return Failed;
      }
      header[7] := hopLimit & 0xff;
      CopyAddresses(header, source, destination);
      AssembleHeader(header[..], LengthPrefix(dataSize), WireCode(protocol).value, hopLimit, source[..], destination[..]);
      TailKept(header[..], shifted, buffer.size);
      err := 0;
    }

    /**
     * Reads a header from the front of `buffer`, which it leaves untouched:
     * fails when fewer than 40 bytes are in use or the version nibble is not
     * 6; records the payload length before checking the Next Header byte.
     */
    method Unpack(buffer: Buffer) returns (err: int)
      requires Valid() && buffer.Valid()
      requires buffer.data != source && buffer.data != destination
      modifies this, source, destination
      ensures Valid()
      ensures (err, View()) == UnpackInto(old(View()), buffer.Contents())
    {
      if buffer.size < HeaderLength {
        return Failed;
      }
      var header := buffer.data;
      ghost var bytes := buffer.Contents();
      if header[0] & 0xf0 != VersionByte {
        // not an IPv6 header
        return Failed;
      }
      length := ReadLength(header[4], header[5]);
      var nextHeader := header[6];
      if nextHeader == 6 {
        protocol := Tcp;
      } else if nextHeader == 17 {
        protocol := Udp;
      } else {
        protocol := Unknown;
        return Failed;
      }
      hopLimit := header[7];
      for i := 0 to 16
        modifies source, destination
        invariant forall j | 0 <= j < i :: source[j] == header[8 + j] && destination[j] == header[24 + j]
      {
        source[i] := header[8 + i];
        destination[i] := header[8 + i + 16];
      }
      assert source[..] == bytes[8..24];
      assert destination[..] == bytes[24..40];
      return 0;
    }

    /**
     * Hands the header to the mutator's callback, if there is one, and
     * returns its status; without a callback it returns 0 and changes nothing.
     */
    method Mutate<C>(mutator: Mutator<C>) returns (err: int)
      requires Valid()
      modifies this, source, destination
      ensures Valid()
      ensures mutator.mutateIpv6.None? ==> err == 0 && View() == old(View())
      ensures mutator.mutateIpv6.Some? ==> (err, View()) == mutator.mutateIpv6.value(mutator.data, old(View()))
    {
      if mutator.mutateIpv6.None? {
        return 0;
      }
      var result := mutator.mutateIpv6.value(mutator.data, View());
      Store(result.1);
      err := result.0;
    }

    /** Writes the header value a callback produced back into this object. */
    method Store(v: HeaderValue)
      requires Valid()
      modifies this, source, destination
      ensures Valid() && View() == v
    {
      hopLimit := v.hopLimit;
      protocol := v.protocol;
      length := v.length;
      forall i | 0 <= i < 16 {
        source[i] := v.source[i];
      }
      forall i | 0 <= i < 16 {
        destination[i] := v.destination[i];
      }
    }
  }

  /**
   * Bytes 0 to 7 as the packer first writes them: zeroed, then version 6
   * and the low 16 bits of the payload length `dataSize` ORed in.
   */
  method WriteFixedFields(header: array<bv8>, dataSize: nat)
    requires 8 <= header.Length
    modifies header
    ensures header[..6] == LengthPrefix(dataSize)
    ensures header[6] == 0 && header[7] == 0
    ensures forall j | 8 <= j < header.Length :: header[j] == old(header[j])
  {
    for i := 0 to 8
      invariant forall j | 0 <= j < i :: header[j] == 0
      invariant forall j | 8 <= j < header.Length :: header[j] == old(header[j])
    {
      header[i] := 0;
    }
    header[0] := header[0] | VersionByte;
    // bits 8 to 15, then bits 0 to 7, of the payload length
    header[4] := header[4] | ((dataSize / 256) % 256) as bv8;
    header[5] := header[5] | (dataSize % 256) as bv8;
  }

  /** Copies the source address to bytes 8 to 23 and the destination to bytes 24 to 39. */
  method CopyAddresses(header: array<bv8>, source: array<bv8>, destination: array<bv8>)
    requires HeaderLength <= header.Length && source.Length == 16 && destination.Length == 16
    requires header != source && header != destination
    modifies header
    ensures header[8..24] == source[..] && header[24..40] == destination[..]
    ensures forall j | 0 <= j < 8 :: header[j] == old(header[j])
    ensures forall j | HeaderLength <= j < header.Length :: header[j] == old(header[j])
  {
    for i := 0 to 16
      invariant forall j | 0 <= j < i :: header[8 + j] == source[j] && header[24 + j] == destination[j]
      invariant forall j | 0 <= j < 8 :: header[j] == old(header[j])
      invariant forall j | HeaderLength <= j < header.Length :: header[j] == old(header[j])
    {
      header[8 + i] := source[i];
      header[8 + i + 16] := destination[i];
    }
  }

  /** Reads the payload length as the unpacker does, by shifting and ORing into a 32-bit word. */
  method ReadLength(hi: bv8, lo: bv8) returns (n: nat)
    ensures n == PayloadLength(hi, lo)
  {
    var word: bv32 := 0;
    word := word | (hi as bv32) << 8;
    word := word | (lo as bv32) << 0;
    ShiftOrIsSum(hi, lo);
    WordValue(word, hi, lo);
    n := word as nat;
  }

  /** The two bytes occupy disjoint bits of the word, so ORing them in adds them. */
  lemma ShiftOrIsSum(hi: bv8, lo: bv8)
    ensures (0 | (hi as bv32) << 8) | (lo as bv32) << 0 == (hi as bv32) * 256 + (lo as bv32)
  {
  }

  lemma WordValue(w: bv32, hi: bv8, lo: bv8)
    requires w == (hi as bv32) * 256 + (lo as bv32)
    ensures w as nat == PayloadLength(hi, lo)
  {
  }

  /** The 40 header bytes, assembled from their fields. */
  lemma AssembleHeader(h: seq<bv8>, prefix: seq<bv8>, code: bv8, hop: bv8, src: seq<bv8>, dst: seq<bv8>)
    requires HeaderLength <= |h| && |prefix| == 6 && |src| == 16 && |dst| == 16
    requires forall j | 0 <= j < 6 :: h[j] == prefix[j]
    requires h[6] == code && h[7] == hop
    requires h[8..24] == src && h[24..40] == dst
    ensures h[..HeaderLength] == prefix + [code, hop] + src + dst
  {
    assert h[..6] == prefix;
    assert h[..HeaderLength] == h[..6] + h[6..8] + h[8..24] + h[24..40];
  }

  /** Bytes from offset 40 on that agree one by one agree as the payload and as the rest of the storage. */
  lemma TailKept(h: seq<bv8>, s: seq<bv8>, size: nat)
    requires |h| == |s| && HeaderLength <= size <= |h|
    requires forall j | HeaderLength <= j < |h| :: h[j] == s[j]
    ensures h[HeaderLength..size] == s[HeaderLength..size] && h[size..] == s[size..]
  {
  }

  // ----- Round trips -----

  /** The length bytes the packer writes read back as the payload length modulo 2^16. */
  lemma LengthFieldRoundTrip(n: nat)
    ensures PayloadLength(LengthPrefix(n)[4], LengthPrefix(n)[5]) == n % 65536
  {
    ByteCast((n / 256) % 256);
    ByteCast(n % 256);
    LowSixteenBits(n);
  }

  /** Reading a length and writing it again gives back the same two bytes. */
  lemma LengthFieldRewrite(hi: bv8, lo: bv8)
    ensures LengthPrefix(PayloadLength(hi, lo))[4] == hi
    ensures LengthPrefix(PayloadLength(hi, lo))[5] == lo
  {
    HighByteValue(hi, lo);
    CastOfValue((PayloadLength(hi, lo) / 256) % 256, hi);
    LowByteValue(hi, lo);
    CastOfValue(PayloadLength(hi, lo) % 256, lo);
  }

  lemma HighByteValue(hi: bv8, lo: bv8)
    ensures (PayloadLength(hi, lo) / 256) % 256 == hi as int
  {
    SplitBytes(hi as int, lo as int);
  }

  lemma LowByteValue(hi: bv8, lo: bv8)
    ensures PayloadLength(hi, lo) % 256 == lo as int
  {
    SplitBytes(hi as int, lo as int);
  }

  /** Narrowing the value of a byte gives that byte back. */
  lemma CastOfValue(x: int, b: bv8)
    requires x == b as int
    ensures x as bv8 == b
  {
    ByteCastBack(b);
  }

  /** Narrowing a value below 256 to a byte keeps it. */
  lemma ByteCast(x: int)
    requires 0 <= x < 256
    ensures (x as bv8) as int == x
  {
    ByteCastBack(ByteWitness(x));
  }

  /** A byte whose value is `x`, counted up from zero. */
  ghost function ByteWitness(x: nat): (b: bv8)
    requires x < 256
    ensures b as int == x
  {
    if x == 0 then 0 else (ByteIncrement(ByteWitness(x - 1)); ByteWitness(x - 1) + 1)
  }

  lemma ByteIncrement(b: bv8)
    requires b as int < 255
    ensures (b + 1) as int == b as int + 1
  {
  }

  lemma ByteCastBack(b: bv8)
    ensures (b as int) as bv8 == b
  {
  }

  /** The two low bytes of `n`, high byte first, make up `n` modulo 2^16. */
  lemma LowSixteenBits(n: nat)
    ensures ((n / 256) % 256) * 256 + n % 256 == n % 65536
  {
    var q, r := n / 256, n % 256;
    var q2, h := q / 256, q % 256;
    assert n == q * 256 + r;
    assert q == q2 * 256 + h;
    assert n == q2 * 65536 + (h * 256 + r);
    ModOfSum(n, q2, h * 256 + r);
  }

  lemma ModOfSum(n: nat, q: nat, r: nat)
    requires n == q * 65536 + r && r < 65536
    ensures n % 65536 == r
  {
  }

  lemma SplitBytes(hi: int, lo: int)
    requires 0 <= hi < 256 && 0 <= lo < 256
    ensures (hi * 256 + lo) / 256 % 256 == hi && (hi * 256 + lo) % 256 == lo
  {
  }

  /**
   * The two code tables agree only on TCP: every byte the unpacker maps to a
   * protocol is one the packer has a code for, but the packer writes that
   * byte back only for TCP.
   */
  lemma CodesAgreeOnlyForTcp(c: bv8, p: Protocol)
    requires ProtocolOf(c) == Some(p)
    ensures WireCode(p).Some? && (WireCode(p).value == c <==> p == Tcp)
  {
  }

  /**
   * Unpacking what the packer wrote: a TCP header comes back whole, with
   * the payload length reduced modulo 2^16; a UDP header is refused, because
   * its Next Header byte is written as 0x17 but read as 17, and the
   * unpacker records an unknown protocol.
   */
  lemma PackThenUnpack(g: HeaderValue, f: HeaderValue, n: nat, payload: seq<bv8>)
    requires f.protocol != Unknown
    ensures UnpackInto(g, HeaderBytes(f, n) + payload) ==
              if f.protocol == Tcp then (0, f.(length := n % 65536))
              else (Failed, g.(length := n % 65536, protocol := Unknown))
  {
    var b := HeaderBytes(f, n) + payload;
    assert b[0] == VersionByte && b[4] == LengthPrefix(n)[4] && b[5] == LengthPrefix(n)[5];
    assert b[6] == WireCode(f.protocol).value && b[7] == f.hopLimit;
    assert b[8..24] == f.source && b[24..40] == f.destination;
    LengthFieldRoundTrip(n);
  }

  /**
   * Packing what the unpacker read: a header read from well-formed bytes
   * (version byte 0x60, zero traffic class and flow label) packs back to the
   * same 40 bytes exactly when its Next Header byte was 6; a UDP header
   * read from byte 17 packs with byte 0x17 instead.
   */
  lemma UnpackThenPack(g: HeaderValue, bytes: seq<bv8>)
    requires |bytes| >= HeaderLength && bytes[..4] == [VersionByte, 0, 0, 0]
    requires bytes[6] == 6 || bytes[6] == 17
    ensures UnpackInto(g, bytes).0 == 0
    ensures HeaderBytes(UnpackInto(g, bytes).1, UnpackInto(g, bytes).1.length) == bytes[..HeaderLength]
            <==> bytes[6] == 6
    ensures bytes[6] == 17 ==>
              UnpackInto(g, bytes).1.protocol == Udp &&
              HeaderBytes(UnpackInto(g, bytes).1, UnpackInto(g, bytes).1.length)[6] == 0x17
  {
    assert bytes[0] == VersionByte;
    var f := UnpackInto(g, bytes).1;
    LengthFieldRewrite(bytes[4], bytes[5]);
    var h := HeaderBytes(f, f.length);
    if bytes[6] == 6 {
      AssembleHeader(bytes, LengthPrefix(f.length), 0x06, f.hopLimit, f.source, f.destination);
    } else {
      assert h[6] == 0x17 != bytes[..HeaderLength][6];
    }
  }
}
