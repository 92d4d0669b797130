/** The IPv4 header checksum (section 3.1 of RFC 791, section 1 of RFC 1071) and the edits of a frame
    that have to keep it valid. */
module Checksum {
  import opened Common

  const ETH_HEADER_LEN: nat := 14
  const IPV4_CHECKSUM_OFFSET: nat := 10
  const IPV4_SRCDST_OFFSET: nat := 12

  /** Word `i` of a header, big-endian. */
  function Word(h: seq<byte>, i: nat): (w: nat)
    requires 2 * i + 1 < |h|
    ensures w <= 0xffff
  {
    256 * (h[2 * i] as nat) + h[2 * i + 1] as nat
  }

  function SumWords(h: seq<byte>, k: nat): nat
    requires 2 * k <= |h|
  {
    if k == 0 then 0 else SumWords(h, k - 1) + Word(h, k - 1)
  }

  /** The sum without the checksum word. */
  function SumOthers(h: seq<byte>, k: nat): nat
    requires 2 * k <= |h|
  {
    if k == 0 then 0 else SumOthers(h, k - 1) + if k - 1 == 5 then 0 else Word(h, k - 1)
  }

  /** The one's complement sum of words whose ordinary sum is `s`. */
  function Folded(s: nat): (c: nat)
    ensures c <= 0xffff
  {
    if s == 0 then 0 else (s - 1) % 0xffff + 1
  }

  lemma FoldedStep(s: nat, w: nat)
    requires w <= 0xffff
    ensures Folded(s + w) == if Folded(s) + w > 0xffff then Folded(s) + w - 0xffff else Folded(s) + w
  {
  }

  /** A header verifies when its words, the checksum included, add up to all ones. */
  ghost predicate Verifies(h: seq<byte>) { |h| % 2 == 0 && Folded(SumWords(h, |h| / 2)) == 0xffff }

  lemma AllOnes(s: nat)
    ensures Folded(s) == 0xffff <==> s > 0 && s % 0xffff == 0
  {
  }

  /** The complement of the folded sum completes it to all ones. */
  lemma Completes(s: nat)
    ensures Folded(s + (0xffff - Folded(s))) == 0xffff
  {
  }

  lemma {:induction false} SumSplit(h: seq<byte>, k: nat)
    requires 2 * k <= |h|
    ensures SumWords(h, k) == SumOthers(h, k) + if k > 5 then Word(h, 5) else 0
  {
    if k > 0 { SumSplit(h, k - 1); }
  }

  lemma {:induction false} SumOthersSame(h: seq<byte>, h': seq<byte>, k: nat)
    requires |h| == |h'| && 2 * k <= |h|
    requires forall i {:trigger h'[i]} :: 0 <= i < |h| && i != 10 && i != 11 ==> h'[i] == h[i]
    ensures SumOthers(h', k) == SumOthers(h, k)
  {
    if k > 0 { SumOthersSame(h, h', k - 1); }
  }

  /** The checksum of a header, the checksum field taken as 0, with the carry added back after every word. */
  method CalcIpv4Checksum(h: seq<byte>) returns (r: nat)
    requires |h| % 2 == 0
    ensures r == 0xffff - Folded(SumOthers(h, |h| / 2))
  {
    var checksum := 0;
    for i := 0 to |h| / 2
      invariant checksum == Folded(SumOthers(h, i))
    {
      if i == 5 { continue; }
      FoldedStep(SumOthers(h, i), Word(h, i));
      checksum := checksum + (h[i * 2] as nat * 256 + h[i * 2 + 1] as nat);
      if checksum > 0xffff {
        checksum := checksum % 0x10000 + 1;
      }
    }
    r := 0xffff - checksum;
  }

  // ---- Frames ----

  function HeaderLen(frame: seq<byte>): (n: nat)
    requires |frame| > ETH_HEADER_LEN
    ensures n % 4 == 0 && n <= 60
  {
    frame[ETH_HEADER_LEN] % 16 * 4
  }

  /** The frame is long enough for its header. */
  predicate HasHeader(frame: seq<byte>) {
    |frame| > ETH_HEADER_LEN && ETH_HEADER_LEN + HeaderLen(frame) <= |frame|
  }

  function Header(frame: seq<byte>): (h: seq<byte>)
    requires HasHeader(frame)
  {
    frame[ETH_HEADER_LEN..ETH_HEADER_LEN + HeaderLen(frame)]
  }

  /** The word `c` stored at `at`, big-endian. */
  function WithChecksum(s: seq<byte>, at: nat, c: nat): (r: seq<byte>)
    requires at + 1 < |s| && c <= 0xffff
    ensures |r| == |s|
  {
    var hi: byte, lo: byte := c / 256, c % 256;
    s[at := hi][at + 1 := lo]
  }

  /** Storing the complement of the folded sum makes the header verify. */
  lemma {:induction false} FixVerifies(h: seq<byte>, h': seq<byte>, c: nat)
    requires |h| % 2 == 0 && |h| == |h'| >= 12 && c == 0xffff - Folded(SumOthers(h, |h| / 2))
    requires h' == WithChecksum(h, 10, c)
    ensures Verifies(h')
  {
    var k := |h| / 2;
    SumOthersSame(h, h', k);
    SumSplit(h', k);
    assert Word(h', 5) == c;
    Completes(SumOthers(h, k));
  }

  /** Fails (an index out of range) exactly when the frame is too short. Otherwise only the checksum field
      changes, and a header that holds that field verifies. */
  method FixIpChecksum(frame: array<byte>) returns (ok: bool)
    modifies frame
    ensures ok <==> HasHeader(old(frame[..])) && frame.Length > ETH_HEADER_LEN + IPV4_CHECKSUM_OFFSET + 1
    ensures forall i :: 0 <= i < frame.Length && i != 24 && i != 25 ==> frame[i] == old(frame[i])
    ensures ok ==> HasHeader(frame[..]) && (HeaderLen(frame[..]) >= 12 ==> Verifies(Header(frame[..])))
  {
    ok := HasHeader(frame[..]) && frame.Length > ETH_HEADER_LEN + IPV4_CHECKSUM_OFFSET + 1;
    if !ok { return; }
    ghost var f := frame[..];
    var header := Header(frame[..]);
    var checksum := CalcIpv4Checksum(header);
    frame[ETH_HEADER_LEN + IPV4_CHECKSUM_OFFSET] := checksum / 256;
    frame[ETH_HEADER_LEN + IPV4_CHECKSUM_OFFSET + 1] := checksum % 256;
    assert frame[..] == WithChecksum(f, 24, checksum);
    if |header| >= 12 {
      assert Header(frame[..]) == WithChecksum(header, 10, checksum);
      FixVerifies(header, Header(frame[..]), checksum);
    }
  }

  /** `n` bytes at `a` exchanged with the `n` bytes at `b`. */
  function Exchanged(s: seq<byte>, a: nat, b: nat, n: nat): (r: seq<byte>)
    requires a + n <= b && b + n <= |s|
    ensures |r| == |s|
  {
    seq(|s|, k requires 0 <= k < |s| =>
      if a <= k < a + n then s[k - a + b] else if b <= k < b + n then s[k - b + a] else s[k])
  }

  method SwapBytes(frame: array<byte>, a: nat, b: nat, n: nat)
    requires a + n <= b && b + n <= frame.Length
    modifies frame
    ensures frame[..] == Exchanged(old(frame[..]), a, b, n)
  {
    for i := 0 to n
      invariant frame[..] == Exchanged(old(frame[..]), a, b, i)
    {
      frame[a + i], frame[b + i] := frame[b + i], frame[a + i];
    }
  }

  /** The frame is long enough for the ports and the addresses. */
  predicate Swappable(frame: seq<byte>) {
    HasHeader(frame) && |frame| >= ETH_HEADER_LEN + Max(HeaderLen(frame) + 4, 20)
  }

  /** The frame with UDP ports and then IP addresses exchanged. */
  function Swapped(frame: seq<byte>): (r: seq<byte>)
    requires Swappable(frame)
  {
    var at := ETH_HEADER_LEN + HeaderLen(frame);
    var ip := ETH_HEADER_LEN + IPV4_SRCDST_OFFSET;
    Exchanged(Exchanged(frame, at, at + 2, 2), ip, ip + 4, 4)
  }

  /** The four fields after the exchange, the ports being the first four bytes after the header, and nothing else
      changed. In a header of 12 or 16 bytes the ports lie where an address is, and are exchanged with it. */
  lemma SwappedFields(frame: seq<byte>)
    requires Swappable(frame)
    ensures var r, n := Swapped(frame), HeaderLen(frame);
            && (n != 12 && n != 16 ==>
                  && r[26..30] == frame[30..34] && r[30..34] == frame[26..30]
                  && r[14 + n..16 + n] == frame[16 + n..18 + n] && r[16 + n..18 + n] == frame[14 + n..16 + n])
            && (n == 12 ==> r[26..30] == frame[30..34] && r[30..32] == frame[28..30] && r[32..34] == frame[26..28])
            && (n == 16 ==> r[26..28] == frame[32..34] && r[28..30] == frame[30..32] && r[30..34] == frame[26..30])
            && forall k {:trigger r[k]} :: 0 <= k < |frame| && !(26 <= k < 34) && !(14 + n <= k < 18 + n) ==>
                 r[k] == frame[k]
  {
  }

  /** Fails (an index out of range) exactly when the frame is too short. */
  method SwapUdpIps(frame: array<byte>) returns (ok: bool)
    modifies frame
    ensures ok <==> Swappable(old(frame[..]))
    ensures ok ==> frame[..] == Swapped(old(frame[..]))
  {
    ok := Swappable(frame[..]);
    if !ok { return; }
    var v4len := HeaderLen(frame[..]);
    SwapBytes(frame, ETH_HEADER_LEN + v4len, ETH_HEADER_LEN + v4len + 2, 2);
    SwapBytes(frame, ETH_HEADER_LEN + IPV4_SRCDST_OFFSET, ETH_HEADER_LEN + IPV4_SRCDST_OFFSET + 4, 4);
  }

  // ---- What the exchange does to the checksum ----

  /** Two headers with the same words from `lo` on have sums that differ as the sums below `lo` do. */
  lemma {:induction false} SumFrom(h: seq<byte>, h': seq<byte>, lo: nat, k: nat)
    requires lo <= k && 2 * k <= |h| && 2 * k <= |h'|
    requires forall i {:trigger h'[i]} :: 2 * lo <= i < 2 * k ==> h'[i] == h[i]
    ensures SumWords(h', k) - SumWords(h, k) == SumWords(h', lo) - SumWords(h, lo)
  {
    if lo < k { SumFrom(h, h', lo, k - 1); }
  }

  lemma Sum4(h: seq<byte>, k: nat)
    requires 2 * k + 8 <= |h|
    ensures SumWords(h, k + 4) == SumWords(h, k) + Word(h, k) + Word(h, k + 1) + Word(h, k + 2) + Word(h, k + 3)
  {
    assert SumWords(h, k + 2) == SumWords(h, k) + Word(h, k) + Word(h, k + 1);
  }

  lemma Sum2(h: seq<byte>, k: nat)
    requires 2 * k + 4 <= |h|
    ensures SumWords(h, k + 2) == SumWords(h, k) + Word(h, k) + Word(h, k + 1)
  {
  }

  /** The addresses as the packet holds them: two words each. */
  function SourceSum(frame: seq<byte>): nat
    requires Swappable(frame)
  {
    Word(frame, 13) + Word(frame, 14)
  }

  function DestinationSum(frame: seq<byte>): nat
    requires Swappable(frame)
  {
    Word(frame, 15) + Word(frame, 16)
  }

  /** Where byte `i` of the header after the exchange comes from. */
  function Origin(i: nat, len: nat): nat {
    if 12 <= i < 16 then (if len == 16 then (if i < 14 then i + 6 else i + 2) else i + 4)
    else if 16 <= i < 20 then i - 4 else i
  }

  lemma SwapHeader(frame: seq<byte>)
    requires Swappable(frame) && HeaderLen(frame) > 0
    ensures HasHeader(Swapped(frame)) && HeaderLen(Swapped(frame)) == HeaderLen(frame)
    ensures forall i {:trigger Header(Swapped(frame))[i]} :: 0 <= i < HeaderLen(frame) ==>
              Header(Swapped(frame))[i] == frame[ETH_HEADER_LEN + Origin(i, HeaderLen(frame))]
  {
  }

  lemma {:induction false} SumLong(frame: seq<byte>, h: seq<byte>, h': seq<byte>, k: nat)
    requires k >= 10 && |h| == |h'| == 2 * k && ETH_HEADER_LEN + 2 * k <= |frame|
    requires h == frame[ETH_HEADER_LEN..ETH_HEADER_LEN + 2 * k]
    requires forall i {:trigger h'[i]} :: 0 <= i < 2 * k ==> h'[i] == frame[ETH_HEADER_LEN + Origin(i, 2 * k)]
    ensures SumWords(h', k) == SumWords(h, k)
  {
    SumFrom(h, h', 0, 6);
    Sum4(h, 6);
    Sum4(h', 6);
    assert Word(h', 6) == Word(h, 8) && Word(h', 7) == Word(h, 9);
    assert Word(h', 8) == Word(h, 6) && Word(h', 9) == Word(h, 7);
    SumFrom(h, h', 10, k);
  }

  lemma {:induction false} SumOf16(frame: seq<byte>, h: seq<byte>, h': seq<byte>)
    requires Swappable(frame) && |h| == |h'| == 16 && h == frame[ETH_HEADER_LEN..ETH_HEADER_LEN + 16]
    requires forall i {:trigger h'[i]} :: 0 <= i < 16 ==> h'[i] == frame[ETH_HEADER_LEN + Origin(i, 16)]
    ensures SumWords(h', 8) == SumWords(h, 8) + DestinationSum(frame) - SourceSum(frame)
  {
    SumFrom(h, h', 0, 6);
    Sum2(h, 6);
    Sum2(h', 6);
    assert Word(h, 6) == Word(frame, 13) && Word(h, 7) == Word(frame, 14);
    assert Word(h', 6) == Word(frame, 16) && Word(h', 7) == Word(frame, 15);
  }

  /** The header stays where it is, and its sum changes only for a header of 16 bytes, which ends between
      the two addresses. */
  lemma {:induction false} SwapSum(frame: seq<byte>)
    requires Swappable(frame) && HeaderLen(frame) > 0
    ensures HasHeader(Swapped(frame)) && HeaderLen(Swapped(frame)) == HeaderLen(frame)
    ensures var k := HeaderLen(frame) / 2;
            SumWords(Header(Swapped(frame)), k) == SumWords(Header(frame), k)
              + if k == 8 then DestinationSum(frame) - SourceSum(frame) else 0
  {
    SwapHeader(frame);
    var h, h', k := Header(frame), Header(Swapped(frame)), HeaderLen(frame) / 2;
    if k >= 10 {
      SumLong(frame, h, h', k);
    } else if k == 8 {
      SumOf16(frame, h, h');
    } else {
      SumFrom(h, h', 0, k);
    }
  }

  lemma {:induction false} Shifted(s: nat, s': nat, delta: int)
    requires s' == s + delta && s % 0xffff == 0
    ensures s' % 0xffff == 0 <==> delta % 0xffff == 0
  {
  }

  /** Exchanging the addresses keeps a valid checksum valid, except for a header of 16 bytes whose two
      addresses differ in sum. */
  lemma {:induction false} SwapKeepsValid(frame: seq<byte>)
    requires Swappable(frame) && Verifies(Header(frame))
    ensures HasHeader(Swapped(frame))
    ensures Verifies(Header(Swapped(frame))) <==>
            HeaderLen(frame) != 16 || (DestinationSum(frame) - SourceSum(frame)) % 0xffff == 0
  {
    var k := HeaderLen(frame) / 2;
    var s := SumWords(Header(frame), k);
    AllOnes(s);
    SwapSum(frame);
    var h' := Header(Swapped(frame));
    var s' := SumWords(h', k);
    AllOnes(s');
    FirstWord(h', k);
    assert h'[0] % 16 > 0;
    Shifted(s, s', s' as int - s as int);
  }

  /** A frame whose header has 16 bytes and a valid checksum, and a destination that is not zero. */
  function Short(): (f: seq<byte>)
    ensures |f| == 34
  {
    [0, 0, 0, 0, 0, 0, 0, 0, 0, 0, 0, 0, 0, 0] + [4, 0, 0, 0, 0, 0, 0, 0, 0, 0, 0xfb, 0xff] + [0, 0, 0, 0, 1, 0, 0, 0]
  }

  /** For a header of 16 bytes the exchange can make a valid checksum invalid. */
  lemma {:induction false} SwapCanBreak()
    ensures Swappable(Short()) && Verifies(Header(Short())) && !Verifies(Header(Swapped(Short())))
  {
    var f := Short();
    assert f[14] == 4;
    var h := Header(f);
    assert h == f[14..30];
    Sum4(h, 0);
    Sum4(h, 4);
    assert SumWords(h, 8) == 0xffff;
    SwapKeepsValid(f);
  }

  lemma {:induction false} FirstWord(h: seq<byte>, k: nat)
    requires 0 < k && 2 * k <= |h|
    ensures SumWords(h, k) >= Word(h, 0)
  {
    if k > 1 { FirstWord(h, k - 1); }
  }
}
