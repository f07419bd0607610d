# IPv4 header builder — Dafny model

This project models the `IP` class of `IPHeader.py`. The class builds a
fixed-layout IPv4 header in the Internet Header Format of section 3.1 of
RFC 791. The header has no options, and its checksum is left at zero.

The class does three things:

- The constructor sets every field to a fixed default: version 4, header
  length 5 words, type of service 0, total length 40, identification
  `0xabcd`, flags 0, fragment offset 0, TTL 64, protocol 1 (ICMP) and
  checksum 0. It also derives the two packed fields from their parts.
- `setProtocol` takes a protocol name in any letter case. It maps the
  name to its IANA protocol number and returns the same object, so calls
  can be chained. An unknown name raises `ValueError` before anything is
  assigned.
- `generateTcpHeader` packs the fields into 20 bytes in network byte
  order (`!BBHHHBBH4s4s`). Despite its name, it emits the IP header.

Everything is in one module, `IPHeader` (`ipheader.dfy`):

- The class `IP` has the source's fields, typed by their wire widths.
- `Valid()` is the object invariant. It says the packed fields `ihl` and
  `flagAndFragmentOffset` agree with their parts, both addresses are
  4 bytes long, and the protocol number is one of the twelve known ones.
- `Defaults()` says every fixed field holds its default.
- `SetProtocol` may modify only `protocol` (`modifies this`protocol`).
  It returns `Ok(this)` for chaining, or `Err` where the source raises.
- `GenerateTcpHeader` is a function. Its contract gives the offset at
  which each field can be read back.
- `ProtocolCode` is the name-to-number chain. `ProtocolName` is the
  registry read in the other direction, and the two are proved inverse.

## Model

| member | source | states |
|---|---|---|
| `IPHeader.IP.constructor` | IPHeader.py:12-46 | every fixed field holds its default, `ihl` is `0x45`, `flagAndFragmentOffset` is 0, protocol is 1 (ICMP), the addresses are the given 4-byte values, and the invariant holds |
| `IPHeader.IP.SetProtocol` | IPHeader.py:48-73 | a name whose lowercase form is one of the twelve sets `protocol` to that name's number and returns this same object; any other name returns the `ValueError` message and leaves `protocol` as it was; no other field can change; the invariant is kept |
| `IPHeader.IP.GenerateTcpHeader` | IPHeader.py:75-88 | the header is exactly 20 bytes: byte 0 is `ihl`, byte 1 tos, bytes 2-3 total length, 4-5 identification, 6-7 flags and offset (each big-endian), byte 8 TTL, byte 9 protocol, bytes 10-11 checksum, bytes 12-15 source and 16-19 destination address verbatim |
| `IPHeader.BigEndian16` | IPHeader.py:84-88 | an `H` field is two bytes, most significant first, that read back as the value |
| `IPHeader.HeaderDeterminesFields` | IPHeader.py:84-88 | two valid headers serialise to the same bytes exactly when all their fields agree, including version, header length, flags and fragment offset inside the packed fields |
| `IPHeader.DefaultHeader` | IPHeader.py:30-46 | a header with the defaults serialises to `45 00 00 28 ab cd 00 00 40`, then the protocol number, then `00 00`, then the two addresses |
| `IPHeader.FixedFieldsReproducible` | IPHeader.py:30-44 | two default headers with the same protocol agree on their first 12 bytes; only the address bytes can differ |
| `IPHeader.PackedNibblesDetermine` | IPHeader.py:30-32 | the byte `version*16 + preihl` determines both version and header length |
| `IPHeader.PackedFlagsDetermine` | IPHeader.py:38-40 | the 16 bits `flag*8192 + fragmentOffset` determine both flags and fragment offset |
| `IPHeader.LowerChar` | IPHeader.py:53 | an ASCII capital becomes its small letter; every other character is unchanged; no result is a capital |
| `IPHeader.ToLower` | IPHeader.py:53 | lowercasing keeps the length and lowercases each character in place |
| `IPHeader.ToLowerIdempotent` | IPHeader.py:56 | lowercasing an already lowercased name changes nothing |
| `IPHeader.ToLowerOfLowercase` | IPHeader.py:56 | a name without capitals is its own lowercase form |
| `IPHeader.ToLowerIgnoresCase` | IPHeader.py:53 | two names lowercase alike exactly when they have the same length and agree letter by letter up to case |
| `IPHeader.ProtocolCode` | IPHeader.py:58-69 | each of the twelve names gets the number that the reverse registry maps back to that same name (icmp 1, igmp 2, tcp 6, igrp 9, udp 17, gre 47, esp 50, ah 51, skip 57, eigrp 88, ospf 89, l2tp 115) |
| `IPHeader.ProtocolNameIsInverse` | IPHeader.py:58-69 | every registry number with a name is the code of that name, which is an accepted name |
| `IPHeader.ProtocolCodeInjective` | IPHeader.py:58-69 | two accepted names get the same number only if they are the same name |
| `IPHeader.UpperCaseNameAccepted` | IPHeader.py:53-60 | "TCP" lowercases to an accepted name and selects protocol 6 |
| `IPHeader.MixedCaseNameAccepted` | IPHeader.py:53-62 | "Udp" and "udp" lowercase alike and select protocol 17 |
| `IPHeader.UnknownNamesRefused` | IPHeader.py:53-54 | "sctp", the empty name and "tcp " (trailing blank) are not accepted |
| `IPHeader.Demo` | IPHeader.py:90-94 | the script's two runs, "udp" then "tcp" on fresh objects, give `45 00 00 28 ab cd 00 00 40 11 00 00` and `45 00 00 28 ab cd 00 00 40 06 00 00`, each followed by the source and destination addresses |

## Left out

- Address resolution (`inet_aton(gethostbyname(gethostname()))`, IPHeader.py:45-46) is operating-system and network I/O. The constructor takes the two 4-byte addresses as parameters instead. Resolution failure is therefore not modelled.
- Printing in the script's main block (IPHeader.py:90-94) is console output. `Demo` returns the bytes instead of printing them.
- IPHeader.ToLower: only ASCII letters are lowercased, not the full Unicode rules of Python's `str.lower()`. For example, Python lowercases the Kelvin sign U+212A to `k`, so it accepts "SKIP" (its K the Kelvin sign) as "skip"; the model refuses that name.
- The internals of `struct.pack` are not modelled. The byte layout is written out directly. Fields are typed by their wire widths, so the `struct.error` that `pack` raises for an out-of-range value cannot arise. The `4s` padding or truncation of an address that is not 4 bytes cannot arise either, because `inet_aton` always yields 4 bytes.
- Python lets any caller assign the object's attributes directly. The model covers only the class's own methods, which are the only code that assigns the fields.
- The packed fields use `+` after a shift in the source. With the parts in range this equals bitwise or, so both are written as `version*16 + preihl` and `flag*8192 + fragmentOffset`.

## Notes on the source

- The doc comment at IPHeader.py:81 says the `H` format is 4 bytes. The code packs `H` as 2 bytes, giving a 20-byte header, and the model follows the code.
- The header checksum sits at bytes 10-11, after TTL (byte 8) and protocol (byte 9). A description that puts the checksum at bytes 8-9 does not match the code.
