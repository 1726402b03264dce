/** The IP and UDP headers written in front of a payload, and their two checksums. Memory is bytes; the
    host reads and stores 16-bit words in its own byte order, little or big. */
module UdpFrame {
  import opened Modular
  import opened Checksum

  type byte = x: nat | x < 0x100

  const IP_HEADER := 20
  const UDP_HEADER := 8
  const UDP_PROTOCOL: byte := 17

  /** The host's view of two adjacent bytes. */
  function HostWord(little: bool, b0: byte, b1: byte): word {
    if little then 0x100 * b1 + b0 else 0x100 * b0 + b1
  }

  /** The bytes the host stores for a word. */
  function HostBytes(little: bool, w: word): (r: (byte, byte))
    ensures HostWord(little, r.0, r.1) == w
  {
    if little then (w % 0x100, w / 0x100) else (w / 0x100, w % 0x100)
  }

  /** htons: the word whose stored bytes are those of x, most significant first. */
  function Htons(little: bool, x: word): (r: word)
    ensures HostBytes(little, r) == (x / 0x100, x % 0x100)
  {
    HostWord(little, x / 0x100, x % 0x100)
  }

  /** The words of a run of bytes; a last single byte is not part of any. */
  function Words(little: bool, bytes: seq<byte>): (r: seq<word>)
    ensures |r| == |bytes| / 2
  {
    seq(|bytes| / 2, i requires 0 <= i < |bytes| / 2 => HostWord(little, bytes[2 * i], bytes[2 * i + 1]))
  }

  lemma WordsConcat(little: bool, a: seq<byte>, b: seq<byte>)
    requires |a| % 2 == 0
    ensures Words(little, a + b) == Words(little, a) + Words(little, b)
  {
  }

  /** The two byte orders see swapped words. */
  lemma WordsSwapped(bytes: seq<byte>)
    ensures Words(false, bytes) == Swapped(Words(true, bytes))
  {
  }

  // ---------------------------------------------------------------- what the standards ask for

  /** RFC 791, section 3.1: the header sums to all ones over its words in network order. */
  predicate IpVerifies(header: seq<byte>) {
    Verifies(Words(false, header))
  }

  /** The pseudo header of RFC 768: addresses, zero, protocol, UDP length. */
  function PseudoHeader(src: seq<byte>, dst: seq<byte>, udpLen: word): seq<byte> {
    src + dst + [0, UDP_PROTOCOL, udpLen / 0x100, udpLen % 0x100]
  }

  /** RFC 768: pseudo header and datagram, padded with a zero byte to whole words, sum to all ones. */
  predicate UdpVerifies(src: seq<byte>, dst: seq<byte>, datagram: seq<byte>)
    requires |datagram| < 0x1_0000
  {
    var pad := if |datagram| % 2 == 1 then [0] else [];
    Verifies(Words(false, PseudoHeader(src, dst, |datagram|) + datagram + pad))
  }

  lemma VerifiesInHostOrder(little: bool, bytes: seq<byte>)
    ensures Verifies(Words(little, bytes)) <==> Verifies(Words(false, bytes))
  {
    if little {
      WordsSwapped(bytes);
      VerifiesEitherWay(Words(true, bytes));
    }
  }

  // ---------------------------------------------------------------- the code

  function IpHeader(totLen: word, check: (byte, byte), src: seq<byte>, dst: seq<byte>): (r: seq<byte>)
    requires |src| == |dst| == 4
    ensures |r| == IP_HEADER && r[12..16] == src && r[16..20] == dst
  {
    [0x45, 0, totLen / 0x100, totLen % 0x100, 0, 0, 0x40, 0, 64, UDP_PROTOCOL, check.0, check.1] + src + dst
  }

  function UdpHeader(sport: word, dport: word, udpLen: word, check: (byte, byte)): (r: seq<byte>)
    ensures |r| == UDP_HEADER
  {
    [sport / 0x100, sport % 0x100, dport / 0x100, dport % 0x100,
     udpLen / 0x100, udpLen % 0x100, check.0, check.1]
  }

  /** The accumulator after the words of a run of bytes. */
  function MemorySum(little: bool, bytes: seq<byte>, sum: nat): uint32 {
    U32(sum + Total(Words(little, bytes)))
  }

  /** The 32-bit sum, taken in pieces, of pseudo header and UDP words, as the code accumulates it. */
  function UdpSum(little: bool, src: seq<byte>, dst: seq<byte>, udpLen: word, region: seq<byte>): nat {
    Total(Words(little, src)) + Total(Words(little, dst)) + Htons(little, UDP_PROTOCOL)
    + Total(Words(little, [udpLen / 0x100, udpLen % 0x100])) + Total(Words(little, region))
  }

  /** The same accumulator after the pseudo header alone. */
  function PseudoHeaderSum(little: bool, src: seq<byte>, dst: seq<byte>, udpLen: word): uint32 {
    var addresses := MemorySum(little, dst, MemorySum(little, src, 0));
    MemorySum(little, [udpLen / 0x100, udpLen % 0x100], U32(addresses + Htons(little, UDP_PROTOCOL)))
  }

  /** The number of bytes summed: an odd length is rounded up to whole words. */
  function Rounded(udpLen: word): (r: nat)
    ensures r % 2 == 0 && udpLen <= r <= udpLen + 1
  {
    if udpLen % 2 == 1 then udpLen + 1 else udpLen
  }

  class RealtimeComm {
    const little: bool
    const sport: word
    const dport: word
    const localAddr: seq<byte>
    const remoteAddr: seq<byte>

    ghost predicate Addressed() {
      |localAddr| == |remoteAddr| == 4
    }

    method SumWords(buf: array<byte>, start: nat, nwords: nat, sum: uint32) returns (r: uint32)
      requires start + 2 * nwords <= buf.Length
      ensures r == MemorySum(little, buf[start..start + 2 * nwords], sum)
    {
      r := sum;
      var p, n := start, nwords;
      ghost var k := 0;
      NoWords(little, buf[..], start, sum);
      while n > 0
        invariant 0 <= k <= nwords && n == nwords - k && p == start + 2 * k
        invariant Accumulated(little, buf[..], start, k, sum, r)
      {
        NextMemoryWord(little, buf[..], start, k, sum, r);
        r := U32(r + HostWord(little, buf[p], buf[p + 1]));
        p, n, k := p + 2, n - 1, k + 1;
      }
      assert k == nwords;
    }

    method CrcCalc(buf: array<byte>, start: nat, nwords: nat) returns (r: word)
      requires start + 2 * nwords <= buf.Length
      ensures r == WrapSum(U32(Total(Words(little, buf[start..start + 2 * nwords]))))
      ensures nwords <= 65537 ==> r == 0xffff - OnesSum(Words(little, buf[start..start + 2 * nwords]))
    {
      var sum := SumWords(buf, start, nwords, 0);
      r := WrapSum(sum);
      if nwords <= 65537 {
        WordLimit(Words(little, buf[start..start + 2 * nwords]));
        OnesSumIsCanon(Words(little, buf[start..start + 2 * nwords]));
      }
    }

    method StoreWord(buf: array<byte>, at: nat, w: word)
      requires at + 2 <= buf.Length
      modifies buf
      ensures buf[..] == old(buf[..])[at := HostBytes(little, w).0][at + 1 := HostBytes(little, w).1]
    {
      buf[at], buf[at + 1] := HostBytes(little, w).0, HostBytes(little, w).1;
    }

    method StoreBytes(buf: array<byte>, at: nat, bytes: seq<byte>)
      requires at + |bytes| <= buf.Length
      modifies buf
      ensures buf[..] == old(buf[..at]) + bytes + old(buf[at + |bytes|..])
    {
      for i := 0 to |bytes|
        invariant buf[..] == old(buf[..at]) + bytes[..i] + old(buf[at + i..])
      {
        buf[at + i] := bytes[i];
      }
    }

    /** The fields of the IP header, and then its checksum over the ten words just written. */
    method CreateIpHeader(buf: array<byte>, totLen: word)
      requires Addressed() && buf.Length >= IP_HEADER
      modifies buf
      ensures buf[..] == FilledIpHeader(little, totLen, localAddr, remoteAddr) + old(buf[IP_HEADER..])
    {
      ghost var blank, rest := IpHeader(totLen, (0, 0), localAddr, remoteAddr), buf[IP_HEADER..];
      StoreBytes(buf, 0, IpHeader(totLen, (0, 0), localAddr, remoteAddr));
      assert buf[..] == blank + rest;
      assert buf[0..0 + 2 * 10] == blank;
      var check := CrcCalc(buf, 0, 10);
      StoreWord(buf, 10, check);
      UpdateInPrefix(blank, rest, 10, HostBytes(little, check));
      IpHeaderFilled(totLen, HostBytes(little, check), localAddr, remoteAddr);
    }

    /** The UDP checksum over memory: both addresses out of the IP header, the protocol, the length out of
        the UDP header, and the datagram, summed into one accumulator. */
    method UdpChecksum(buf: array<byte>, udpLen: word) returns (r: word)
      requires Addressed() && IP_HEADER + UDP_HEADER <= buf.Length && IP_HEADER + Rounded(udpLen) <= buf.Length
      requires buf[12..16] == localAddr && buf[16..20] == remoteAddr
      requires buf[24..26] == [udpLen / 0x100, udpLen % 0x100]
      ensures r == UdpCheck(little, localAddr, remoteAddr, udpLen, buf[IP_HEADER..IP_HEADER + Rounded(udpLen)])
    {
      ghost var region := buf[IP_HEADER..IP_HEADER + Rounded(udpLen)];
      var sum := PseudoSum(buf, udpLen);
      ghost var pseudo := sum;
      sum := SumWords(buf, IP_HEADER, Rounded(udpLen) / 2, sum);
      assert sum == MemorySum(little, region, pseudo);
      SumInPieces(little, localAddr, remoteAddr, udpLen, region);
      r := WrapSum(sum);
    }

    /** The part of the sum that the pseudo header makes up, taken out of the two headers in memory. */
    method PseudoSum(buf: array<byte>, udpLen: word) returns (sum: uint32)
      requires Addressed() && IP_HEADER + UDP_HEADER <= buf.Length
      requires buf[12..16] == localAddr && buf[16..20] == remoteAddr
      requires buf[24..26] == [udpLen / 0x100, udpLen % 0x100]
      ensures sum == PseudoHeaderSum(little, localAddr, remoteAddr, udpLen)
    {
      sum := SumWords(buf, 12, 2, 0);
      sum := SumWords(buf, 16, 2, sum);
      sum := U32(sum + Htons(little, UDP_PROTOCOL));
      sum := SumWords(buf, 24, 1, sum);
    }

    method CreateUdpHeader(buf: array<byte>, udpLen: word)
      requires Addressed() && IP_HEADER + UDP_HEADER <= buf.Length && IP_HEADER + Rounded(udpLen) <= buf.Length
      requires buf[12..16] == localAddr && buf[16..20] == remoteAddr
      modifies buf
      ensures buf[..] == old(buf[..IP_HEADER])
                       + FilledUdpHeader(little, sport, dport, udpLen, localAddr, remoteAddr,
                                         old(buf[IP_HEADER + UDP_HEADER..]))
                       + old(buf[IP_HEADER + UDP_HEADER..])
    {
      ghost var ip, data := buf[..IP_HEADER], buf[IP_HEADER + UDP_HEADER..];
      ghost var blank := UdpHeader(sport, dport, udpLen, (0, 0));
      StoreBytes(buf, IP_HEADER, UdpHeader(sport, dport, udpLen, (0, 0)));
      assert buf[..] == ip + (blank + data);
      UdpRegion(buf[..], ip, blank, data, udpLen);
      var check := UdpChecksum(buf, udpLen);
      StoreWord(buf, IP_HEADER + 6, check);
      UpdateInSuffix(ip, blank, data, 6, HostBytes(little, check));
      UdpHeaderFilled(sport, dport, udpLen, HostBytes(little, check));
    }

    method CreateHeaders(buf: array<byte>, totLen: word, udpLen: word)
      requires Addressed() && IP_HEADER + UDP_HEADER <= buf.Length && IP_HEADER + Rounded(udpLen) <= buf.Length
      modifies buf
      ensures buf[..] == Frame(little, sport, dport, totLen, udpLen, localAddr, remoteAddr,
                               old(buf[IP_HEADER + UDP_HEADER..]))
    {
      ghost var ip := FilledIpHeader(little, totLen, localAddr, remoteAddr);
      ghost var rest := buf[IP_HEADER..];
      CreateIpHeader(buf, totLen);
      PrefixSlices(buf[..], ip, rest, UDP_HEADER);
      assert rest[UDP_HEADER..] == old(buf[IP_HEADER + UDP_HEADER..]);
      CreateUdpHeader(buf, udpLen);
    }

    /** Writes both headers in front of `len` bytes of data already in memory; the length fields keep 16 bits.
        If the UDP length kept covers its header, the frame verifies unless that length is odd and the byte after
        the data is not zero. */
    method CreateUdpFrame(buf: array<byte>, len: nat)
      requires Addressed() && IP_HEADER + UDP_HEADER <= buf.Length
      requires IP_HEADER + Rounded((UDP_HEADER + len) % 0x1_0000) <= buf.Length
      modifies buf
      ensures var totLen, udpLen := (IP_HEADER + UDP_HEADER + len) % 0x1_0000, (UDP_HEADER + len) % 0x1_0000;
              && buf[..] == Frame(little, sport, dport, totLen, udpLen, localAddr, remoteAddr,
                                  old(buf[IP_HEADER + UDP_HEADER..]))
              && (UDP_HEADER <= udpLen ==> FrameOk(localAddr, remoteAddr, buf[..], udpLen))
      ensures Parses(buf[..], (28 + len) % 0x1_0000, (8 + len) % 0x1_0000, localAddr, remoteAddr, sport, dport)
      ensures buf[28..] == old(buf[28..])
    {
      ghost var data := buf[IP_HEADER + UDP_HEADER..];
      var totLen, udpLen := (IP_HEADER + UDP_HEADER + len) % 0x1_0000, (UDP_HEADER + len) % 0x1_0000;
      CreateHeaders(buf, totLen, udpLen);
      FrameParses(little, sport, dport, totLen, udpLen, localAddr, remoteAddr, data);
      if UDP_HEADER <= udpLen {
        FrameVerifies(little, sport, dport, totLen, localAddr, remoteAddr, data, udpLen, buf[..]);
      }
    }
  }

  lemma PrefixSlices(all: seq<byte>, ip: seq<byte>, rest: seq<byte>, k: nat)
    requires |ip| == IP_HEADER && all == ip + rest && k <= |rest|
    ensures all[..IP_HEADER] == ip && all[12..16] == ip[12..16] && all[16..20] == ip[16..20]
    ensures all[IP_HEADER + k..] == rest[k..]
  {
  }

  lemma UdpHeaderFilled(sport: word, dport: word, udpLen: word, check: (byte, byte))
    ensures UdpHeader(sport, dport, udpLen, (0, 0))[6 := check.0][7 := check.1]
         == UdpHeader(sport, dport, udpLen, check)
  {
  }

  /** Five additions to one accumulator, in any grouping, are one addition of everything. */
  lemma SumInPieces(little: bool, src: seq<byte>, dst: seq<byte>, udpLen: word, region: seq<byte>)
    ensures MemorySum(little, region, PseudoHeaderSum(little, src, dst, udpLen))
         == U32(UdpSum(little, src, dst, udpLen, region))
  {
    var a, b, p := Total(Words(little, src)), Total(Words(little, dst)), Htons(little, UDP_PROTOCOL);
    var l, t := Total(Words(little, [udpLen / 0x100, udpLen % 0x100])), Total(Words(little, region));
    var both, header := MemorySum(little, dst, U32(a)), U32(U32(U32(a) + b) + p);
    assert MemorySum(little, src, 0) == U32(a) && both == U32(U32(a) + b);
    assert MemorySum(little, [udpLen / 0x100, udpLen % 0x100], header) == U32(header + l);
    U32Grouped(a, b, p, l, t);
  }

  lemma U32Grouped(a: nat, b: nat, p: nat, l: nat, t: nat)
    ensures U32(U32(U32(U32(U32(a) + b) + p) + l) + t) == U32(a + b + p + l + t)
  {
    U32Accumulates(a, b);
    U32Accumulates(a + b, p);
    U32Accumulates(a + b + p, l);
    U32Accumulates(a + b + p + l, t);
  }

  /** What UdpChecksum computes from the bytes it reads. */
  function UdpCheck(little: bool, src: seq<byte>, dst: seq<byte>, udpLen: word, region: seq<byte>): word {
    WrapSum(U32(UdpSum(little, src, dst, udpLen, region)))
  }

  function FilledUdpHeader(little: bool, sport: word, dport: word, udpLen: word, src: seq<byte>, dst: seq<byte>,
                           data: seq<byte>): (r: seq<byte>)
    requires Rounded(udpLen) <= UDP_HEADER + |data|
    ensures |r| == UDP_HEADER
  {
    var region := (UdpHeader(sport, dport, udpLen, (0, 0)) + data)[..Rounded(udpLen)];
    UdpHeader(sport, dport, udpLen, HostBytes(little, UdpCheck(little, src, dst, udpLen, region)))
  }

  /** Memory from the frame's start: both headers with their checksums filled in, and the data. */
  function Frame(little: bool, sport: word, dport: word, totLen: word, udpLen: word, src: seq<byte>, dst: seq<byte>,
                 data: seq<byte>): seq<byte>
    requires |src| == |dst| == 4 && Rounded(udpLen) <= UDP_HEADER + |data|
  {
    FilledIpHeader(little, totLen, src, dst) + FilledUdpHeader(little, sport, dport, udpLen, src, dst, data) + data
  }

  lemma UdpRegion(all: seq<byte>, ip: seq<byte>, udp: seq<byte>, data: seq<byte>, udpLen: word)
    requires |ip| == IP_HEADER && |udp| == UDP_HEADER && all == ip + (udp + data)
    requires Rounded(udpLen) <= UDP_HEADER + |data|
    ensures all[12..16] == ip[12..16] && all[16..20] == ip[16..20] && all[24..26] == udp[4..6]
    ensures all[IP_HEADER..IP_HEADER + Rounded(udpLen)] == (udp + data)[..Rounded(udpLen)]
  {
  }

  lemma UpdateInSuffix(ip: seq<byte>, udp: seq<byte>, data: seq<byte>, at: nat, b: (byte, byte))
    requires at + 2 <= |udp|
    ensures (ip + (udp + data))[|ip| + at := b.0][|ip| + at + 1 := b.1] == ip + udp[at := b.0][at + 1 := b.1] + data
  {
  }

  lemma UpdateInPrefix(h: seq<byte>, rest: seq<byte>, at: nat, b: (byte, byte))
    requires at + 2 <= |h|
    ensures (h + rest)[at := b.0][at + 1 := b.1] == h[at := b.0][at + 1 := b.1] + rest
  {
  }

  lemma IpHeaderFilled(totLen: word, check: (byte, byte), src: seq<byte>, dst: seq<byte>)
    requires |src| == |dst| == 4
    ensures IpHeader(totLen, (0, 0), src, dst)[10 := check.0][11 := check.1] == IpHeader(totLen, check, src, dst)
  {
  }

  function FilledIpHeader(little: bool, totLen: word, src: seq<byte>, dst: seq<byte>): (r: seq<byte>)
    requires |src| == |dst| == 4
    ensures |r| == IP_HEADER && r[12..16] == src && r[16..20] == dst
  {
    IpHeader(totLen, CheckBytes(little, IpHeader(totLen, (0, 0), src, dst)), src, dst)
  }

  /** The accumulator after k words of memory. */
  ghost predicate Accumulated(little: bool, mem: seq<byte>, start: nat, k: nat, sum: nat, r: uint32) {
    start + 2 * k <= |mem| && r == MemorySum(little, mem[start..start + 2 * k], sum)
  }

  lemma NoWords(little: bool, mem: seq<byte>, start: nat, sum: uint32)
    requires start <= |mem|
    ensures Accumulated(little, mem, start, 0, sum, sum)
  {
  }

  /** One more word in the accumulator. */
  lemma NextMemoryWord(little: bool, mem: seq<byte>, start: nat, k: nat, sum: nat, r: uint32)
    requires start + 2 * (k + 1) <= |mem| && Accumulated(little, mem, start, k, sum, r)
    ensures var p := start + 2 * k;
            Accumulated(little, mem, start, k + 1, sum, U32(r + HostWord(little, mem[p], mem[p + 1])))
  {
    var p := start + 2 * k;
    assert mem[start..p + 2][..2 * k] == mem[start..p];
    NextWord(little, mem[start..p], HostWord(little, mem[p], mem[p + 1]), mem[start..p + 2], sum);
  }

  lemma NextWord(little: bool, before: seq<byte>, x: word, after: seq<byte>, sum: nat)
    requires |before| % 2 == 0 && |after| == |before| + 2 && before == after[..|before|]
    requires x == HostWord(little, after[|before|], after[|before| + 1])
    ensures U32(MemorySum(little, before, sum) + x) == MemorySum(little, after, sum)
  {
    var ws := Words(little, before);
    assert Words(little, after) == ws + [x];
    TotalConcat(ws, [x]);
    assert Total([x]) == x;
    U32Accumulates(sum + Total(ws), x);
  }

  // ---------------------------------------------------------------- the frame verifies

  lemma StoredWord(little: bool, bytes: seq<byte>, k: nat, w: word)
    requires 2 * k + 1 < |bytes|
    ensures Words(little, bytes[2 * k := HostBytes(little, w).0][2 * k + 1 := HostBytes(little, w).1])
         == Words(little, bytes)[k := w]
  {
  }

  /** The check bytes the host stores for a run of bytes. */
  function CheckBytes(little: bool, bytes: seq<byte>): (byte, byte) {
    HostBytes(little, 0xffff - OnesSum(Words(little, bytes)))
  }

  /** Storing, in host order, the checksum of words read in host order makes the bytes verify in network
      order. */
  lemma HostOrderSuffices(little: bool, bytes: seq<byte>, k: nat)
    requires 2 * k + 1 < |bytes| && bytes[2 * k] == bytes[2 * k + 1] == 0
    ensures var check := CheckBytes(little, bytes);
            Verifies(Words(false, bytes[2 * k := check.0][2 * k + 1 := check.1]))
  {
    var ws := Words(little, bytes);
    var check := CheckBytes(little, bytes);
    StoredWord(little, bytes, k, 0xffff - OnesSum(ws));
    FilledVerifies(ws, k);
    VerifiesInHostOrder(little, bytes[2 * k := check.0][2 * k + 1 := check.1]);
  }

  /** The IP header written by CreateIpHeader passes the check of RFC 791, on either kind of host. */
  lemma IpHeaderVerifies(little: bool, totLen: word, src: seq<byte>, dst: seq<byte>)
    requires |src| == |dst| == 4
    ensures IpVerifies(FilledIpHeader(little, totLen, src, dst))
  {
    var blank := IpHeader(totLen, (0, 0), src, dst);
    HostOrderSuffices(little, blank, 5);
    IpHeaderFilled(totLen, CheckBytes(little, blank), src, dst);
  }

  lemma PseudoHeaderWords(little: bool, src: seq<byte>, dst: seq<byte>, udpLen: word)
    requires |src| == |dst| == 4
    ensures |PseudoHeader(src, dst, udpLen)| == 12
    ensures Total(Words(little, PseudoHeader(src, dst, udpLen))) ==
            Total(Words(little, src)) + Total(Words(little, dst)) + Htons(little, UDP_PROTOCOL)
            + Total(Words(little, [udpLen / 0x100, udpLen % 0x100]))
  {
    var proto, length: seq<byte> := [0, UDP_PROTOCOL], [udpLen / 0x100, udpLen % 0x100];
    assert PseudoHeader(src, dst, udpLen) == src + dst + (proto + length);
    TotalOfTwo(little, src + dst, proto + length);
    TotalOfTwo(little, src, dst);
    TotalOfTwo(little, proto, length);
    assert Words(little, proto) == [Htons(little, UDP_PROTOCOL)];
    assert Total([Htons(little, UDP_PROTOCOL)]) == Htons(little, UDP_PROTOCOL);
  }

  lemma TotalOfTwo(little: bool, a: seq<byte>, b: seq<byte>)
    requires |a| % 2 == 0
    ensures Total(Words(little, a + b)) == Total(Words(little, a)) + Total(Words(little, b))
  {
    WordsConcat(little, a, b);
    TotalConcat(Words(little, a), Words(little, b));
  }

  lemma WrapSumOf(t: nat)
    requires t < U32_SIZE
    ensures WrapSum(U32(t)) == 0xffff - Canon(t)
  {
  }

  /** The sum in pieces is one sum over the concatenated pseudo header and datagram, and never wraps. */
  lemma PiecesAreOneSum(little: bool, src: seq<byte>, dst: seq<byte>, udpLen: word, region: seq<byte>)
    requires |src| == |dst| == 4 && |region| <= 0x1_0000
    ensures UdpCheck(little, src, dst, udpLen, region)
         == 0xffff - OnesSum(Words(little, PseudoHeader(src, dst, udpLen) + region))
  {
    var ps := PseudoHeader(src, dst, udpLen);
    var all := Words(little, ps + region);
    PseudoHeaderWords(little, src, dst, udpLen);
    WordsConcat(little, ps, region);
    TotalConcat(Words(little, ps), Words(little, region));
    assert Total(all) == UdpSum(little, src, dst, udpLen, region);
    WordLimit(all);
    OnesSumIsCanon(all);
    WrapSumOf(Total(all));
  }

  lemma RegionVerifies(little: bool, ps: seq<byte>, blank: seq<byte>, rest: seq<byte>, check: (byte, byte))
    requires |ps| == 12 && |blank| == UDP_HEADER && blank[6] == blank[7] == 0
    requires check == CheckBytes(little, ps + (blank + rest))
    ensures Verifies(Words(false, ps + (blank[6 := check.0][7 := check.1] + rest)))
  {
    HostOrderSuffices(little, ps + (blank + rest), 9);
    assert (ps + (blank + rest))[18 := check.0][19 := check.1] == ps + (blank[6 := check.0][7 := check.1] + rest);
  }

  /** Pseudo header, UDP header and the n bytes summed after it verify once the checksum is filled in. */
  lemma UdpRegionVerifies(little: bool, sport: word, dport: word, udpLen: word, src: seq<byte>, dst: seq<byte>,
                          data: seq<byte>, n: nat)
    requires |src| == |dst| == 4 && UDP_HEADER <= udpLen && Rounded(udpLen) == UDP_HEADER + n && n <= |data|
    ensures var header := FilledUdpHeader(little, sport, dport, udpLen, src, dst, data);
            Verifies(Words(false, PseudoHeader(src, dst, udpLen) + (header + data[..n])))
  {
    var ps, blank := PseudoHeader(src, dst, udpLen), UdpHeader(sport, dport, udpLen, (0, 0));
    var rest := data[..n];
    assert (blank + data)[..Rounded(udpLen)] == blank + rest;
    PseudoHeaderWords(little, src, dst, udpLen);
    PiecesAreOneSum(little, src, dst, udpLen, blank + rest);
    var check := HostBytes(little, UdpCheck(little, src, dst, udpLen, blank + rest));
    RegionVerifies(little, ps, blank, rest, check);
    UdpHeaderFilled(sport, dport, udpLen, check);
  }

  lemma EvenUdpVerifies(src: seq<byte>, dst: seq<byte>, datagram: seq<byte>)
    requires |src| == |dst| == 4 && |datagram| % 2 == 0 && |datagram| < 0x1_0000
    requires Verifies(Words(false, PseudoHeader(src, dst, |datagram|) + datagram))
    ensures UdpVerifies(src, dst, datagram)
  {
    var all := PseudoHeader(src, dst, |datagram|) + datagram;
    assert all + [] == all;
  }

  /** The datagram a receiver gets: the header as written and the data the length covers. */
  function Datagram(little: bool, sport: word, dport: word, udpLen: word, src: seq<byte>, dst: seq<byte>,
                    data: seq<byte>): seq<byte>
    requires UDP_HEADER <= udpLen && Rounded(udpLen) <= UDP_HEADER + |data|
  {
    FilledUdpHeader(little, sport, dport, udpLen, src, dst, data) + data[..udpLen - UDP_HEADER]
  }

  /** A datagram of even length carries a UDP checksum that makes the sum of RFC 768 all ones. */
  lemma EvenDatagramVerifies(little: bool, sport: word, dport: word, src: seq<byte>, dst: seq<byte>, data: seq<byte>,
                             udpLen: word)
    requires |src| == |dst| == 4 && udpLen % 2 == 0 && UDP_HEADER <= udpLen <= UDP_HEADER + |data|
    ensures UdpVerifies(src, dst, Datagram(little, sport, dport, udpLen, src, dst, data))
  {
    UdpRegionVerifies(little, sport, dport, udpLen, src, dst, data, udpLen - UDP_HEADER);
    EvenUdpVerifies(src, dst, Datagram(little, sport, dport, udpLen, src, dst, data));
  }

  lemma LastWordMatters(ws: seq<word>, high: word, last: byte)
    requires high <= 0xff00 && Verifies(ws + [high + last])
    ensures Verifies(ws + [high]) <==> last == 0
  {
    TotalConcat(ws, [high + last]);
    TotalConcat(ws, [high]);
    assert Total([high + last]) == high + last && Total([high]) == high;
    OnesSumIsCanon(ws + [high + last]);
    OnesSumIsCanon(ws + [high]);
    if last > 0 && Total(ws) + high > 0 {
      CanonMoves(Total(ws) + high, last);
    }
  }

  lemma LastByteMatters(bytes: seq<byte>, last: byte)
    requires |bytes| % 2 == 1 && Verifies(Words(false, bytes + [last]))
    ensures Verifies(Words(false, bytes + [0])) <==> last == 0
  {
    var ws, b: int := Words(false, bytes[..|bytes| - 1]), bytes[|bytes| - 1];
    WordsSnoc(bytes, last);
    WordsSnoc(bytes, 0);
    LastWordMatters(ws, 0x100 * b, last);
  }

  lemma WordsSnoc(bytes: seq<byte>, last: byte)
    requires |bytes| % 2 == 1
    ensures Words(false, bytes + [last])
         == Words(false, bytes[..|bytes| - 1]) + [HostWord(false, bytes[|bytes| - 1], last)]
  {
  }

  lemma OddUdpVerifies(src: seq<byte>, dst: seq<byte>, datagram: seq<byte>, last: byte)
    requires |src| == |dst| == 4 && |datagram| % 2 == 1 && |datagram| < 0x1_0000
    requires Verifies(Words(false, PseudoHeader(src, dst, |datagram|) + datagram + [last]))
    ensures UdpVerifies(src, dst, datagram) <==> last == 0
  {
    PseudoHeaderWords(false, src, dst, |datagram|);
    LastByteMatters(PseudoHeader(src, dst, |datagram|) + datagram, last);
  }

  lemma OddPaddedVerifies(src: seq<byte>, dst: seq<byte>, header: seq<byte>, data: seq<byte>, udpLen: word)
    requires |src| == |dst| == 4 && |header| == UDP_HEADER
    requires udpLen % 2 == 1 && UDP_HEADER <= udpLen < UDP_HEADER + |data|
    requires Verifies(Words(false, PseudoHeader(src, dst, udpLen) + (header + data[..udpLen - UDP_HEADER + 1])))
    ensures UdpVerifies(src, dst, header + data[..udpLen - UDP_HEADER]) <==> data[udpLen - UDP_HEADER] == 0
  {
    Regroup(PseudoHeader(src, dst, udpLen), header, data, udpLen - UDP_HEADER);
    OddUdpVerifies(src, dst, header + data[..udpLen - UDP_HEADER], data[udpLen - UDP_HEADER]);
  }

  /** For an odd length the code sums whatever byte follows the data where RFC 768 pads with zero: the
      checksum verifies exactly when that byte is zero. */
  lemma OddDatagramVerifiesExactly(little: bool, sport: word, dport: word, src: seq<byte>, dst: seq<byte>,
                                   data: seq<byte>, udpLen: word)
    requires |src| == |dst| == 4 && udpLen % 2 == 1 && UDP_HEADER <= udpLen < UDP_HEADER + |data|
    ensures UdpVerifies(src, dst, Datagram(little, sport, dport, udpLen, src, dst, data))
        <==> data[udpLen - UDP_HEADER] == 0
  {
    var header := FilledUdpHeader(little, sport, dport, udpLen, src, dst, data);
    UdpRegionVerifies(little, sport, dport, udpLen, src, dst, data, udpLen - UDP_HEADER + 1);
    OddPaddedVerifies(src, dst, header, data, udpLen);
  }

  lemma Regroup(ps: seq<byte>, header: seq<byte>, data: seq<byte>, len: nat)
    requires len < |data|
    ensures ps + (header + data[..len + 1]) == ps + (header + data[..len]) + [data[len]]
  {
  }

  lemma ComplementBytes(w: word, v: word)
    requires v == Swap(w)
    ensures HostBytes(true, 0xffff - w) == HostBytes(false, 0xffff - v)
  {
    var h, l := w / 0x100, w % 0x100;
    assert w == 0x100 * h + l && v == 0x100 * l + h && h < 0x100;
    assert 0xffff - w == 0x100 * (0xff - h) + (0xff - l);
    assert 0xffff - v == 0x100 * (0xff - l) + (0xff - h);
  }

  /** What a receiver can check of a frame: the IP checksum always verifies; the UDP checksum does for an
      even length, and for an odd one exactly when the byte after the data is zero. */
  predicate FrameOk(src: seq<byte>, dst: seq<byte>, all: seq<byte>, udpLen: word)
    requires UDP_HEADER <= udpLen && IP_HEADER + Rounded(udpLen) <= |all|
  {
    && IpVerifies(all[..IP_HEADER])
    && (UdpVerifies(src, dst, all[IP_HEADER..IP_HEADER + udpLen]) <==> udpLen % 2 == 0 || all[IP_HEADER + udpLen] == 0)
  }

  lemma FrameVerifies(little: bool, sport: word, dport: word, totLen: word, src: seq<byte>, dst: seq<byte>,
                      data: seq<byte>, udpLen: word, all: seq<byte>)
    requires |src| == |dst| == 4 && UDP_HEADER <= udpLen && Rounded(udpLen) <= UDP_HEADER + |data|
    requires all == Frame(little, sport, dport, totLen, udpLen, src, dst, data)
    ensures FrameOk(src, dst, all, udpLen)
  {
    IpHeaderVerifies(little, totLen, src, dst);
    FrameSlices(FilledIpHeader(little, totLen, src, dst),
                FilledUdpHeader(little, sport, dport, udpLen, src, dst, data), data, udpLen - UDP_HEADER, all);
    if udpLen % 2 == 0 {
      EvenDatagramVerifies(little, sport, dport, src, dst, data, udpLen);
    } else {
      OddDatagramVerifiesExactly(little, sport, dport, src, dst, data, udpLen);
    }
  }

  lemma FrameSlices(ip: seq<byte>, udp: seq<byte>, data: seq<byte>, len: nat, all: seq<byte>)
    requires |ip| == IP_HEADER && |udp| == UDP_HEADER && all == ip + udp + data && len <= |data|
    ensures all[..IP_HEADER] == ip && all[IP_HEADER..IP_HEADER + UDP_HEADER + len] == udp + data[..len]
    ensures len < |data| ==> all[IP_HEADER + UDP_HEADER + len] == data[len]
  {
  }

  /** Both kinds of host store the same check bytes for the same memory. */
  lemma SameCheckBytes(bytes: seq<byte>)
    ensures CheckBytes(true, bytes) == CheckBytes(false, bytes)
  {
    WordsSwapped(bytes);
    ByteOrderIndependent(Words(true, bytes));
    ComplementBytes(OnesSum(Words(true, bytes)), OnesSum(Words(false, bytes)));
  }

  lemma SameUdpCheckBytes(src: seq<byte>, dst: seq<byte>, udpLen: word, region: seq<byte>)
    requires |src| == |dst| == 4 && |region| <= 0x1_0000
    ensures HostBytes(true, UdpCheck(true, src, dst, udpLen, region))
         == HostBytes(false, UdpCheck(false, src, dst, udpLen, region))
  {
    PiecesAreOneSum(true, src, dst, udpLen, region);
    PiecesAreOneSum(false, src, dst, udpLen, region);
    SameCheckBytes(PseudoHeader(src, dst, udpLen) + region);
  }

  /** So the bytes of both headers do not depend on the host's byte order. */
  lemma IpHeaderIndependentOfHost(totLen: word, src: seq<byte>, dst: seq<byte>)
    requires |src| == |dst| == 4
    ensures FilledIpHeader(true, totLen, src, dst) == FilledIpHeader(false, totLen, src, dst)
  {
    SameCheckBytes(IpHeader(totLen, (0, 0), src, dst));
  }

  lemma UdpHeaderIndependentOfHost(sport: word, dport: word, udpLen: word, src: seq<byte>, dst: seq<byte>,
                                   data: seq<byte>)
    requires |src| == |dst| == 4 && Rounded(udpLen) <= UDP_HEADER + |data|
    ensures FilledUdpHeader(true, sport, dport, udpLen, src, dst, data)
         == FilledUdpHeader(false, sport, dport, udpLen, src, dst, data)
  {
    SameUdpCheckBytes(src, dst, udpLen, (UdpHeader(sport, dport, udpLen, (0, 0)) + data)[..Rounded(udpLen)]);
  }

  // ---------------------------------------------------------------- a computed checksum of zero

  lemma OnesSumFull(ws: seq<word>)
    requires Total(ws) > 0
    ensures Verifies(ws) <==> Total(ws) % 0xffff == 0
  {
    OnesSumIsCanon(ws);
    var q, r := Total(ws) / 0xffff, Total(ws) % 0xffff;
    assert Total(ws) == 0xffff * q + r;
    if r == 0 {
      CanonUnique(Total(ws), q - 1, 0xffff);
    } else {
      CanonUnique(Total(ws), q, r);
    }
  }

  lemma PseudoHeaderNotZero(src: seq<byte>, dst: seq<byte>, udpLen: word, region: seq<byte>)
    requires |src| == |dst| == 4
    ensures Total(Words(false, PseudoHeader(src, dst, udpLen) + region)) > 0
  {
    PseudoHeaderWords(false, src, dst, udpLen);
    WordsConcat(false, PseudoHeader(src, dst, udpLen), region);
    TotalConcat(Words(false, PseudoHeader(src, dst, udpLen)), Words(false, region));
  }

  lemma ZeroBytes(little: bool, w: word)
    ensures HostBytes(little, w) == (0, 0) <==> w == 0
  {
  }

  /** The words summed: pseudo header, UDP header without a checksum, and data. */
  function Summed(sport: word, dport: word, udpLen: word, src: seq<byte>, dst: seq<byte>, data: seq<byte>): seq<word>
    requires Rounded(udpLen) <= UDP_HEADER + |data|
  {
    var region := (UdpHeader(sport, dport, udpLen, (0, 0)) + data)[..Rounded(udpLen)];
    Words(false, PseudoHeader(src, dst, udpLen) + region)
  }

  /** The code stores a checksum of zero, which RFC 768 reserves for "no checksum", exactly when the words summed
      are together a multiple of 2^16 - 1. */
  lemma ZeroCheckExactly(little: bool, sport: word, dport: word, udpLen: word, src: seq<byte>, dst: seq<byte>,
                         data: seq<byte>)
    requires |src| == |dst| == 4 && Rounded(udpLen) <= UDP_HEADER + |data|
    ensures FilledUdpHeader(little, sport, dport, udpLen, src, dst, data)[6..8] == [0, 0] <==>
            Total(Summed(sport, dport, udpLen, src, dst, data)) % 0xffff == 0
  {
    var region := (UdpHeader(sport, dport, udpLen, (0, 0)) + data)[..Rounded(udpLen)];
    var all := PseudoHeader(src, dst, udpLen) + region;
    var check := UdpCheck(little, src, dst, udpLen, region);
    PiecesAreOneSum(little, src, dst, udpLen, region);
    VerifiesInHostOrder(little, all);
    PseudoHeaderNotZero(src, dst, udpLen, region);
    OnesSumFull(Words(false, all));
    ZeroBytes(little, check);
    assert FilledUdpHeader(little, sport, dport, udpLen, src, dst, data)[6..8]
        == [HostBytes(little, check).0, HostBytes(little, check).1];
  }

  /** It does happen: between any two ends, for some datagram with two bytes of data. */
  lemma ZeroCheckHappens(little: bool, sport: word, dport: word, src: seq<byte>, dst: seq<byte>)
    returns (data: seq<byte>)
    requires |src| == |dst| == 4
    ensures |data| == 2 && FilledUdpHeader(little, sport, dport, 10, src, dst, data)[6..8] == [0, 0]
  {
    var front := PseudoHeader(src, dst, 10) + UdpHeader(sport, dport, 10, (0, 0));
    PseudoHeaderWords(false, src, dst, 10);
    var check := CheckBytes(false, front + [0, 0]);
    data := [check.0, check.1];
    HostOrderSuffices(false, front + [0, 0], 10);
    assert (front + [0, 0])[20 := check.0][21 := check.1] == front + data;
    assert (UdpHeader(sport, dport, 10, (0, 0)) + data)[..10] == UdpHeader(sport, dport, 10, (0, 0)) + data;
    assert front + data == PseudoHeader(src, dst, 10) + (UdpHeader(sport, dport, 10, (0, 0)) + data);
    PseudoHeaderNotZero(src, dst, 10, UdpHeader(sport, dport, 10, (0, 0)) + data);
    OnesSumFull(Words(false, front + data));
    ZeroCheckExactly(little, sport, dport, 10, src, dst, data);
  }

  // ---------------------------------------------------------------- what a receiver parses

  /** A 16-bit field in network order: the high byte first. */
  function Field(all: seq<byte>, at: nat): nat
    requires at + 1 < |all|
  {
    var high, low: int := all[at], all[at + 1];
    0x100 * high + low
  }

  /** The fields of RFC 791 and RFC 768 at their places: version 4 with a header of five words, no service, the
      total length, identification 0, "don't fragment", 64 hops, UDP, both addresses; both ports and the UDP
      length. */
  predicate Parses(all: seq<byte>, totLen: nat, udpLen: nat, src: seq<byte>, dst: seq<byte>, sport: nat, dport: nat) {
    && |all| >= 28
    && all[0] == 0x45 && all[1] == 0 && Field(all, 2) == totLen
    && Field(all, 4) == 0 && Field(all, 6) == 0x4000
    && all[8] == 64 && all[9] == 17
    && all[12..16] == src && all[16..20] == dst
    && Field(all, 20) == sport && Field(all, 22) == dport && Field(all, 24) == udpLen
  }

  lemma IpParses(little: bool, totLen: word, src: seq<byte>, dst: seq<byte>)
    requires |src| == |dst| == 4
    ensures var ip := FilledIpHeader(little, totLen, src, dst);
            && |ip| == 20 && ip[0] == 0x45 && ip[1] == 0 && Field(ip, 2) == totLen
            && Field(ip, 4) == 0 && Field(ip, 6) == 0x4000 && ip[8] == 64 && ip[9] == 17
            && ip[12..16] == src && ip[16..20] == dst
  {
  }

  lemma UdpParses(little: bool, sport: word, dport: word, udpLen: word, src: seq<byte>, dst: seq<byte>, data: seq<byte>)
    requires Rounded(udpLen) <= UDP_HEADER + |data|
    ensures var udp := FilledUdpHeader(little, sport, dport, udpLen, src, dst, data);
            |udp| == 8 && Field(udp, 0) == sport && Field(udp, 2) == dport && Field(udp, 4) == udpLen
  {
  }

  /** Every field of the frame stands where a receiver looks for it. */
  lemma FrameParses(little: bool, sport: word, dport: word, totLen: word, udpLen: word, src: seq<byte>, dst: seq<byte>,
                    data: seq<byte>)
    requires |src| == |dst| == 4 && Rounded(udpLen) <= UDP_HEADER + |data|
    ensures var all := Frame(little, sport, dport, totLen, udpLen, src, dst, data);
            Parses(all, totLen, udpLen, src, dst, sport, dport) && all[28..] == data
  {
    var ip := FilledIpHeader(little, totLen, src, dst);
    var udp := FilledUdpHeader(little, sport, dport, udpLen, src, dst, data);
    IpParses(little, totLen, src, dst);
    UdpParses(little, sport, dport, udpLen, src, dst, data);
    FieldsAt(ip, udp, data);
  }

  lemma FieldsAt(ip: seq<byte>, udp: seq<byte>, data: seq<byte>)
    requires |ip| == 20 && |udp| == 8
    ensures var all := ip + udp + data;
            && all[..20] == ip && all[12..16] == ip[12..16] && all[16..20] == ip[16..20]
            && Field(all, 20) == Field(udp, 0) && Field(all, 22) == Field(udp, 2) && Field(all, 24) == Field(udp, 4)
            && all[28..] == data
  {
  }

  /** The two kinds of host: least or most significant byte first. */
  lemma ByteOrders()
    ensures HostWord(true, 0x12, 0x34) == 0x3412 && HostWord(false, 0x12, 0x34) == 0x1234
    ensures Htons(true, 0x1234) == 0x3412 && Htons(false, 0x1234) == 0x1234
  {
  }
}
