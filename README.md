# IPv6 header codec and protocol-stack initialisation of BareMetal-networking

This project models two pieces of the BareMetal OS network stack in Dafny and proves properties of them.

The first piece is the IPv6 codec in `src/ipv6.c`. It covers:

- the 16-octet address and its text parser;
- the header object (hop limit, upper-layer protocol, payload length, source and destination addresses), its initialisation and its address setters;
- the packer, which opens 40 bytes at the front of a caller-owned buffer and writes the fixed header of section 3 of RFC 8200 there;
- the unpacker, which reads that header back;
- the dispatch to a caller's mutator callback.

The second piece is `libnet_stack_init` in `src/stack.c`. It resets every slot of the stack's fixed-capacity protocol array and empties the stack.

Modules:

- `NetBuffer` (`buffer.dfy`): the caller's buffer, a fixed storage array with `size` bytes in use and `reserved` bytes of capacity, and its front-opening `Shift`.
- `Ipv6Address` (`ipv6_address.dfy`): address text and the parser.
  - `ParseFrom` is the reference definition of what the parser leaves in the octets and whether it succeeds.
  - `ParseAddress` is the parser's loop, proved against that definition.
  - The lemmas prove where each digit lands, failure on bad characters, indifference to colons, and a round trip through the fully expanded text form.
- `Ipv6` (`ipv6.dfy`): the header class `Ipv6Header`, with methods that update it in place.
  - `HeaderBytes` is the reference byte layout and `UnpackInto` the reference decoder.
  - The round-trip lemmas connect the two.
- `Stack` (`stack.dfy`): the protocol array plus count, and its initialisation.
- `Options` (`options.dfy`): the optional value used for a nullable callback and for protocol codes that have no mapping.

Where the code departs from the header format or from what its own comments suggest, the model follows the code:

- **UDP code.** The packer writes the UDP Next Header byte as `0x17`, which is 23. The unpacker accepts only decimal 17, and 17 is UDP's IANA protocol number. A packed UDP header therefore does not unpack: it comes back as an unknown protocol with status -1 (`Ipv6.PackThenUnpack`). Conversely, byte 17 unpacks as UDP, and that header packs back with byte `0x17` (`Ipv6.UnpackThenPack`). Only TCP has the same byte in both tables (`Ipv6.CodesAgreeOnlyForTcp`).
- **Pack precondition.** `reserved >= size` is not a precondition of pack: the code checks it and returns -1, and the model does the same.
- **Error codes.** The code reports every failure as -1, or as whatever the shift returns. It has no distinct error kinds.
- **Address text.** Colons carry no position: the k-th hex digit of the whole text goes to octet k / 2. So `::` is not expanded, and a group with fewer than four digits shifts every later digit.

## Model

| member | source | states |
|---|---|---|
| Ipv6Address.DecodeHexDigit | src/ipv6.c:33-41 | A character is reported as a digit exactly when it is 0-9, A-F or a-f. The value returned is that digit's nibble, below 16. |
| Ipv6Address.InitAddress | src/ipv6.c:12-16 | All 16 octets of the address are zero afterwards. |
| Ipv6Address.ParseAddress | src/ipv6.c:18-54 | The octets end as the reference parse of the text from their old contents. The status is 0 exactly when every character is a hex digit or a colon, and -1 otherwise. |
| Ipv6Address.ParseSucceedsIffWellFormed | src/ipv6.c:25-41 | From any starting octets and digit index, the parse succeeds if and only if the text holds nothing but hex digits and colons. |
| Ipv6Address.ScannedDigitsCount | src/ipv6.c:25-50 | The parser never consumes more hex digits than the text has. On accepted text it consumes all of them. |
| Ipv6Address.ParsePlacement | src/ipv6.c:43-50 | The parser ORs into the octets already present. Octet j ends as its old value ORed with digit 2j in the high nibble and digit 2j+1 in the low nibble, with digits counted over the whole text from the starting index. |
| Ipv6Address.ParseThirtyTwoDigits | src/ipv6.c:43-50 | From a zeroed address, accepted text with exactly 32 hex digits succeeds. Every octet j is then digit 2j shifted left by 4, ORed with digit 2j+1. |
| Ipv6Address.ParseStopsAtInvalid | src/ipv6.c:39-41 | At the first character that is neither a hex digit nor a colon, the parse fails. It keeps the octets written before that point and ignores the rest of the text. |
| Ipv6Address.ParseIgnoresColons | src/ipv6.c:30-31 | Colons have no effect: parsing the text gives the same octets, status and digit count as parsing it with every colon removed. |
| Ipv6Address.DoubleColonNotExpanded | src/ipv6.c:23-31 | "::1" is not read as the loopback address. Its one digit lands in the high nibble of octet 0. |
| Ipv6Address.FormatRoundTrip | src/ipv6.c:18-54 | For every address, its fully expanded text (eight colon-separated groups of four hex digits) parses from a zeroed address back to exactly that address, with success. |
| NetBuffer.Buffer.Shift | src/ipv6.c:84-86 | If the bytes in use plus n exceed the reserved capacity, it fails with -1 and changes nothing. Otherwise the bytes in use move forward by n unchanged, the first n bytes are zero, size grows by n, and the storage past the new size is untouched. |
| Ipv6.Ipv6Header.Init | src/ipv6.c:56-62 | Hop limit 255, protocol TCP, both addresses all zero. The payload length keeps its value. |
| Ipv6.Ipv6Header.SetSource | src/ipv6.c:64-68 | Only the source address changes, to the parse of the text. The status is 0 or -1, and 0 exactly for text of hex digits and colons. |
| Ipv6.Ipv6Header.SetDestination | src/ipv6.c:70-74 | Only the destination address changes, to the parse of the text. The status is 0 or -1, and 0 exactly for text of hex digits and colons. |
| Ipv6.Ipv6Header.Pack | src/ipv6.c:76-119 | Reserved below size: -1, nothing changes. Shift fails: the shift's -1, nothing changes. Header fits: size grows by exactly 40, the old payload sits unchanged at offset 40, the storage past it is untouched; then TCP and UDP return 0 with bytes 0-39 the reference layout over the old size, and an unknown protocol returns -1 after growing the buffer, with bytes 0-7 already written. |
| Ipv6.WriteFixedFields | src/ipv6.c:90-100 | Bytes 0-5 become 0x60, 0, 0, 0 and the high and low byte of the payload length modulo 2^16. Bytes 6-7 become zero. Every byte from 8 on is untouched. |
| Ipv6.CopyAddresses | src/ipv6.c:112-116 | Bytes 8-23 become the source address and bytes 24-39 the destination. Bytes 0-7 and everything from 40 on are untouched. |
| Ipv6.WireCode | src/ipv6.c:102-108 | A protocol has a Next Header byte exactly when it is TCP or UDP. |
| Ipv6.ProtocolOf | src/ipv6.c:138-149 | Byte 6 maps to TCP and byte 17 to UDP. No other byte maps to a protocol, and no byte maps to the unknown protocol. |
| Ipv6.ReadLength | src/ipv6.c:133-136 | ORing byte 4 shifted left by 8 with byte 5 into a 32-bit word gives byte4 * 256 + byte5. |
| Ipv6.UnpackInto | src/ipv6.c:121-160 | Status 0 exactly when at least 40 bytes are in use, the high nibble of byte 0 is 6, and byte 6 is 6 or 17. On success the hop limit and both addresses come from bytes 7, 8-23 and 24-39. Also on success, the protocol is the one byte 6 maps to and the length is read from bytes 4-5. Fewer than 40 bytes or a wrong version nibble: status -1 and the header unchanged. A version-6 header whose byte 6 has no mapping: status -1, the length read from bytes 4-5 and the protocol Unknown, everything else kept. |
| Ipv6.Ipv6Header.Unpack | src/ipv6.c:121-160 | The status and the new header are those `UnpackInto` gives for the old header and the bytes in use. The buffer is not modified. |
| Ipv6.Ipv6Header.Mutate | src/ipv6.c:162-169 | With no callback it returns 0 and changes nothing. Otherwise the header becomes the callback's result and the status is the callback's status, unchanged. |
| Ipv6.LengthFieldRoundTrip | src/ipv6.c:98-100 | The two length bytes the packer writes for a payload of n bytes read back as n modulo 2^16. |
| Ipv6.LengthFieldRewrite | src/ipv6.c:133-136 | A length read from two bytes is written back as the same two bytes. |
| Ipv6.CodesAgreeOnlyForTcp | src/ipv6.c:102-149 | Every byte the unpacker maps to a protocol is one the packer has a code for. The packer writes that same byte only for TCP. |
| Ipv6.PackThenUnpack | src/ipv6.c:76-160 | Unpacking a packed TCP header, with any payload after it, succeeds and gives back the header with length = payload size modulo 2^16. A packed UDP header fails to unpack: its byte 0x17 is not 17. The unpacker then records the length and the unknown protocol and keeps everything else. |
| Ipv6.UnpackThenPack | src/ipv6.c:76-160 | Take bytes with version byte 0x60, zero traffic class and flow label, and Next Header 6 or 17. They unpack with success. Re-packing the result over a payload whose size equals the length read reproduces the 40 bytes if and only if the Next Header byte was 6. The packer itself writes the buffer's size there instead (src/ipv6.c:82, 99-100), so that equality is an assumption of this statement. When the byte was 17 the result is UDP, and it packs with byte 0x17. |
| Stack.ResetSlot | src/stack.c:12 | The slot becomes an unused entry. No other slot changes. |
| Stack.ProtocolStack.Init | src/stack.c:9-15 | Whatever the prior contents, the stack ends valid and empty (count 0) with every slot reset. Nothing outside the protocol array and the count is touched. (The loop goes through the slots in ascending order; the contract does not state the order.) |
| Stack.InitForgetsHistory | src/stack.c:9-15 | Two stacks of the same capacity are identical after initialisation, whatever they held before. |

## Left out

- The body of `netstack_buffer_shift` is not part of this model. `NetBuffer.Buffer.Shift` is given a verified body with the behaviour `pack` relies on: an overlapping copy of the bytes in use, last byte first, then zeroing of the opened bytes. The shift's source is not available, so the zeroing of the opened bytes is an assumption. `Pack`'s contracts do not depend on it.
- `libnet_protocol_init` and the protocol-entry layout are not part of this model. A slot is reset to an `Unused` entry. The entry's variants only name the layer kinds, Ethernet, IPv6 and TCP, without their per-layer contents.
- The value of `LIBNET_PROTOCOL_MAX` is not part of this model. The capacity is the length of the slot array, fixed when the stack is allocated.
- The stack's push, mutate, pack and done operations, the Ethernet and TCP codecs, and the CRC-32 function are not part of this model. The demo driver (which also writes its packet to a file) and the two test harnesses only exercise them.
- Mutator callbacks are caller-supplied. They are modelled as an arbitrary total function from a context and a header value to a status and a new header value. Their contents, and any effect beyond the header, are not modelled.
- Ipv6Address.ParseAddress requires that the parser consume at most 32 hex digits before it stops. Beyond that the C code writes past the 16 octets, which is undefined behaviour and is not modelled.
- Ipv6.Ipv6Header.Pack and Ipv6.Ipv6Header.Unpack require the buffer's storage to be distinct from the two address arrays, as separate C objects are. Aliasing between them is not modelled.
- The struct declarations are not part of this model. The hop limit is taken as 8 bits, per the header layout, so the packer's `& 0xff` changes nothing. The payload length and the buffer sizes are unbounded naturals. The 16-bit truncation of the length written by the packer is modelled explicitly, modulo 2^16.
- A C string with its length becomes a Dafny string, whose own length plays the role of the size argument.
- Allocating a header object or a stack stands in for the caller providing the struct's memory. The constructors promise nothing about field contents before initialisation.
