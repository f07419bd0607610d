/** A model of the `IP` class of IPHeader.py: a fixed-layout IPv4 header
    (the Internet Header Format of section 3.1 of RFC 791, no options, the
    checksum left at zero) that holds its fields, lets the protocol number
    be chosen by name, and packs everything into 20 network-order bytes. */
module IPHeader {

  // Unsigned integer widths. Each is the range that the header field can
  // hold on the wire, and for the packed fields the range that the format
  // letters of `struct.pack('!BBHHHBBH4s4s', ...)` accept ('B' one byte,
  // 'H' two bytes).
  type U3 = x: int | 0 <= x < 8
  type U4 = x: int | 0 <= x < 0x10
  type Byte = x: int | 0 <= x < 0x100
  type U13 = x: int | 0 <= x < 0x2000
  type U16 = x: int | 0 <= x < 0x1_0000

  datatype Option<T> = None | Some(value: T)

  /** The outcome of a call that either hands back a value or raises. */
  datatype Result<T> = Ok(value: T) | Err(message: string)

  /** The message of the `ValueError` raised for an unknown protocol name. */
  const UnsupportedProtocol: string := "Specify Correct Protocol"

  // ---------------------------------------------------------------------
  // Lowercasing (ASCII only)
  // ---------------------------------------------------------------------

  predicate IsUpper(c: char) {
    'A' <= c <= 'Z'
  }

  /** One character of `str.lower()`, restricted to ASCII letters. */
  function LowerChar(c: char): (d: char)
    ensures !IsUpper(d)
    ensures !IsUpper(c) ==> d == c
    ensures IsUpper(c) ==> 'a' <= d <= 'z' && d as int - 'a' as int == c as int - 'A' as int
  {
    if IsUpper(c) then (c as int - 'A' as int + 'a' as int) as char else c
  }

  /** `str.lower()` on ASCII text: every character lowercased, in place. */
  function ToLower(s: string): (r: string)
    ensures |r| == |s|
    ensures forall i :: 0 <= i < |s| ==> r[i] == LowerChar(s[i])
  {
    if s == [] then [] else [LowerChar(s[0])] + ToLower(s[1..])
  }

  /** Lowercasing twice is lowercasing once. */
  lemma ToLowerIdempotent(s: string)
    ensures ToLower(ToLower(s)) == ToLower(s)
  {
  }

  /** Text without upper-case ASCII letters is its own lowercase form. */
  lemma ToLowerOfLowercase(s: string)
    requires forall i :: 0 <= i < |s| ==> !IsUpper(s[i])
    ensures ToLower(s) == s
  {
  }

  /** Two names that differ only in the case of their letters lowercase to
      the same text; conversely, names with the same lowercase form have the
      same length and agree letter by letter once lowercased. */
  lemma ToLowerIgnoresCase(a: string, b: string)
    ensures ToLower(a) == ToLower(b) <==>
            (|a| == |b| && forall i :: 0 <= i < |a| ==> LowerChar(a[i]) == LowerChar(b[i]))
  {
  }

  // ---------------------------------------------------------------------
  // Protocol names and numbers
  // ---------------------------------------------------------------------

  /** The names `setProtocol` accepts, after lowercasing. */
  const ProtocolNames: seq<string> :=
    ["icmp", "igmp", "tcp", "igrp", "udp", "gre", "esp", "ah", "skip", "eigrp", "ospf", "l2tp"]

  /** The if/elif chain of `setProtocol`: the number that the "Assigned
      Internet Protocol Numbers" registry of IANA gives each accepted name.
      The chain is only reached after the membership test, so it has no
      fall-through case. */
  function ProtocolCode(name: string): (code: Byte)
    requires name in ProtocolNames
    ensures ProtocolName(code) == Some(name)
  {
    if name == "icmp" then 0x01
    else if name == "igmp" then 0x02
    else if name == "tcp" then 0x06
    else if name == "igrp" then 0x09
    else if name == "udp" then 0x11
    else if name == "gre" then 0x2f
    else if name == "esp" then 0x32
    else if name == "ah" then 0x33
    else if name == "skip" then 0x39
    else if name == "eigrp" then 0x58
    else if name == "ospf" then 0x59
    else /* the membership test leaves only "l2tp" */ 0x73
  }

  /** The registry read the other way: the name of a protocol number, for
      the twelve numbers the class knows. */
  function ProtocolName(code: Byte): Option<string> {
    match code
    case 1 => Some("icmp")
    case 2 => Some("igmp")
    case 6 => Some("tcp")
    case 9 => Some("igrp")
    case 17 => Some("udp")
    case 47 => Some("gre")
    case 50 => Some("esp")
    case 51 => Some("ah")
    case 57 => Some("skip")
    case 88 => Some("eigrp")
    case 89 => Some("ospf")
    case 115 => Some("l2tp")
    case _ => None
  }

  /** Every number with a name is the code of that name, so names and codes
      are in one-to-one correspondence (together with the ensures of
      ProtocolCode). */
  lemma ProtocolNameIsInverse(code: Byte)
    ensures ProtocolName(code).Some? ==>
            ProtocolName(code).value in ProtocolNames &&
            ProtocolCode(ProtocolName(code).value) == code
  {
  }

  /** Distinct accepted names get distinct protocol numbers. */
  lemma ProtocolCodeInjective(a: string, b: string)
    requires a in ProtocolNames && b in ProtocolNames
    ensures ProtocolCode(a) == ProtocolCode(b) <==> a == b
  {
  }

  /** Any letter case of a known name is accepted: "TCP" is TCP. */
  lemma UpperCaseNameAccepted()
    ensures ToLower("TCP") == "tcp" && ProtocolCode(ToLower("TCP")) == 6
  {
  }

  /** "Udp" and "udp" both select UDP. */
  lemma MixedCaseNameAccepted()
    ensures ToLower("Udp") == ToLower("udp") == "udp" && ProtocolCode(ToLower("Udp")) == 17
  {
  }

  /** A name outside the twelve, the empty name and a name with a trailing
      blank are all refused. */
  lemma UnknownNamesRefused()
    ensures ToLower("sctp") !in ProtocolNames
    ensures ToLower("") !in ProtocolNames
    ensures ToLower("tcp ") !in ProtocolNames
  {
  }

  // ---------------------------------------------------------------------
  // Network byte order
  // ---------------------------------------------------------------------

  /** A 16-bit value as two bytes, most significant first ('!H'). */
  function BigEndian16(x: U16): (b: seq<Byte>)
    ensures |b| == 2 && b[0] as int * 0x100 + b[1] == x
  {
    [x / 0x100, x % 0x100]
  }

  /** The 16-bit value that the two bytes at offset i read as, in network
      byte order. */
  function U16At(s: seq<Byte>, i: nat): int
    requires i + 1 < |s|
  {
    s[i] as int * 0x100 + s[i + 1]
  }

  // ---------------------------------------------------------------------
  // The header object
  // ---------------------------------------------------------------------

  class IP {
    var version: U4
    var preihl: U4
    /** Version and header length in 32-bit words, packed into one byte. */
    var ihl: Byte
    var tos: Byte
    var totalLength: U16
    var identification: U16
    var flag: U3
    var fragmentOffset: U13
    /** Flags and fragment offset, packed into 16 bits. */
    var flagAndFragmentOffset: U16
    var ttl: Byte
    var protocol: Byte
    var headerChecksum: U16
    var sourceAddress: seq<Byte>
    var destinationAddress: seq<Byte>

    /** The object invariant: both packed fields agree with their parts,
        the addresses are four bytes long, and the protocol number is one
        of the twelve the class knows. */
    ghost predicate Valid()
      reads this
    {
      ihl == version * 0x10 + preihl &&
      flagAndFragmentOffset == flag * 0x2000 + fragmentOffset &&
      |sourceAddress| == 4 && |destinationAddress| == 4 &&
      ProtocolName(protocol).Some?
    }

    /** The fixed values every field but the protocol and the addresses
        has: nothing in the class ever changes them. */
    ghost predicate Defaults()
      reads this
    {
      version == 4 && preihl == 5 && tos == 0 && totalLength == 0x28 &&
      identification == 0xabcd && flag == 0 && fragmentOffset == 0 &&
      ttl == 0x40 && headerChecksum == 0
    }

    /** A header with the default fields, protocol ICMP, and the two given
        4-byte addresses (which the source obtains by resolving the local
        host name). */
    constructor (src: seq<Byte>, dst: seq<Byte>)
      requires |src| == 4 && |dst| == 4
      ensures Valid() && Defaults()
      ensures ihl == 0x45 && flagAndFragmentOffset == 0
      ensures protocol == 1
      ensures sourceAddress == src && destinationAddress == dst
    {
      var v: U4, p: U4 := 0x4, 0x5;
      version := v;
      preihl := p;
      ihl := v * 0x10 + p;

      tos := 0x0;
      totalLength := 0x28;
      identification := 0xabcd;

      var f: U3, o: U13 := 0x0, 0x0;
      flag := f;
      fragmentOffset := o;
      flagAndFragmentOffset := f * 0x2000 + o;

      ttl := 0x40;
      protocol := 0x1;
      headerChecksum := 0x0;
      sourceAddress := src;
      destinationAddress := dst;
    }

    /** Chooses the protocol by name, ignoring letter case. A known name
        sets `protocol` to its number and hands back this same object so
        calls can be chained; an unknown name raises before anything is
        assigned. Only `protocol` may change. */
    method SetProtocol(name: string) returns (r: Result<IP>)
      requires Valid()
      modifies this`protocol
      ensures Valid()
      ensures ToLower(name) in ProtocolNames ==>
              r == Ok(this) && protocol == ProtocolCode(ToLower(name))
      ensures ToLower(name) !in ProtocolNames ==>
              r == Err(UnsupportedProtocol) && protocol == old(protocol)
    {
      if ToLower(name) !in ProtocolNames {
        return Err(UnsupportedProtocol);
      }
      var lowered := ToLower(name);
      protocol := ProtocolCode(lowered);
      return Ok(this);
    }

    /** The 20-byte header in network byte order, as
        `pack('!BBHHHBBH4s4s', ...)` lays it out (the name is the source's:
        the bytes are the IP header). Each field can be read back from its
        offset. */
    function GenerateTcpHeader(): (header: seq<Byte>)
      reads this
      requires Valid()
      ensures |header| == 20
      ensures header[0] == ihl && header[1] == tos
      ensures U16At(header, 2) == totalLength
      ensures U16At(header, 4) == identification
      ensures U16At(header, 6) == flagAndFragmentOffset
      ensures header[8] == ttl && header[9] == protocol
      ensures U16At(header, 10) == headerChecksum
      ensures header[12..16] == sourceAddress
      ensures header[16..20] == destinationAddress
    {
      [ihl, tos] +
      BigEndian16(totalLength) + BigEndian16(identification) +
      BigEndian16(flagAndFragmentOffset) +
      [ttl, protocol] +
      BigEndian16(headerChecksum) +
      sourceAddress + destinationAddress
    }
  }

  // ---------------------------------------------------------------------
  // Properties of the header
  // ---------------------------------------------------------------------

  /** Two headers hold the same values in every field. */
  ghost predicate SameFields(a: IP, b: IP)
    reads a, b
  {
    a.version == b.version && a.preihl == b.preihl && a.ihl == b.ihl &&
    a.tos == b.tos && a.totalLength == b.totalLength &&
    a.identification == b.identification &&
    a.flag == b.flag && a.fragmentOffset == b.fragmentOffset &&
    a.flagAndFragmentOffset == b.flagAndFragmentOffset &&
    a.ttl == b.ttl && a.protocol == b.protocol &&
    a.headerChecksum == b.headerChecksum &&
    a.sourceAddress == b.sourceAddress &&
    a.destinationAddress == b.destinationAddress
  }

  /** The packed byte determines version and header length. */
  lemma PackedNibblesDetermine(v1: U4, p1: U4, v2: U4, p2: U4)
    requires v1 * 0x10 + p1 == v2 * 0x10 + p2
    ensures v1 == v2 && p1 == p2
  {
  }

  /** The packed 16 bits determine the flags and the fragment offset. */
  lemma PackedFlagsDetermine(f1: U3, o1: U13, f2: U3, o2: U13)
    requires f1 * 0x2000 + o1 == f2 * 0x2000 + o2
    ensures f1 == f2 && o1 == o2
  {
  }

  /** The serialised header loses nothing: two valid headers give the same
      20 bytes exactly when every one of their fields agrees, the parts of
      the packed fields included. */
  lemma HeaderDeterminesFields(a: IP, b: IP)
    requires a.Valid() && b.Valid()
    ensures a.GenerateTcpHeader() == b.GenerateTcpHeader() <==> SameFields(a, b)
  {
  }

  /** A header with the default fields serialises to the fixed prefix
      45 00 00 28 ab cd 00 00 40, the protocol number, a zero checksum,
      then the source and destination addresses verbatim. */
  lemma DefaultHeader(ip: IP)
    requires ip.Valid() && ip.Defaults()
    ensures ip.GenerateTcpHeader() ==
            [0x45, 0x00, 0x00, 0x28, 0xab, 0xcd, 0x00, 0x00, 0x40, ip.protocol, 0x00, 0x00] +
            ip.sourceAddress + ip.destinationAddress
  {
  }

  /** Headers with the default fields and the same protocol agree on their
      first twelve bytes: they can differ only in the address bytes 12 to
      19. */
  lemma FixedFieldsReproducible(a: IP, b: IP)
    requires a.Valid() && a.Defaults() && b.Valid() && b.Defaults()
    requires a.protocol == b.protocol
    ensures a.GenerateTcpHeader()[..12] == b.GenerateTcpHeader()[..12]
  {
  }

  // ---------------------------------------------------------------------
  // The demonstration run
  // ---------------------------------------------------------------------

  /** The two headers the script builds when run directly: a fresh object
      set to "udp", and another set to "tcp", each serialised through a
      chained call. The printing is not modelled; the bytes are returned. */
  method Demo(src: seq<Byte>, dst: seq<Byte>) returns (udp: seq<Byte>, tcp: seq<Byte>)
    requires |src| == 4 && |dst| == 4
    ensures udp == [0x45, 0x00, 0x00, 0x28, 0xab, 0xcd, 0x00, 0x00, 0x40, 0x11, 0x00, 0x00] + src + dst
    ensures tcp == [0x45, 0x00, 0x00, 0x28, 0xab, 0xcd, 0x00, 0x00, 0x40, 0x06, 0x00, 0x00] + src + dst
  {
    ToLowerOfLowercase("udp");
    ToLowerOfLowercase("tcp");

    var pck1 := new IP(src, dst);
    var r1 := pck1.SetProtocol("udp");
    udp := r1.value.GenerateTcpHeader();
    DefaultHeader(pck1);

    var pck2 := new IP(src, dst);
    var r2 := pck2.SetProtocol("tcp");
    tcp := r2.value.GenerateTcpHeader();
    DefaultHeader(pck2);
  }
}
