/** tls_build_client_hello and tls_build_server_hello: the bytes written through a moving offset, the
    lengths patched in afterwards. */
module TlsBuild {
  import opened Words
  import opened TlsHello

  /** Stores at out[p], out[p + 1], ...: out[p++] = x, put16 and the copy loops.  acc is what has
      been written since offset at. */
  method Put(out: array<u8>, p: nat, bytes: seq<u8>, ghost at: nat, ghost acc: seq<u8>) returns (q: nat)
    requires at <= p && p + |bytes| <= out.Length && out[at..p] == acc
    modifies out
    ensures q == p + |bytes| && out[at..q] == acc + bytes
    ensures forall k :: 0 <= k < out.Length && (k < p || q <= k) ==> out[k] == old(out[k])
  {
    for i := 0 to |bytes|
      modifies out
      invariant forall k :: p <= k < p + i ==> out[k] == bytes[k - p]
      invariant forall k :: 0 <= k < out.Length && (k < p || p + i <= k) ==> out[k] == old(out[k])
    {
      out[p + i] := bytes[i];
    }
    q := p + |bytes|;
    assert out[at..p] == acc && out[p..q] == bytes;
    assert out[at..q] == out[at..p] + out[p..q];
  }

  /** One extension: its type, its length as the source writes it, its data. */
  method PutExt(out: array<u8>, p: nat, kind: u16, len: u16, data: seq<u8>, ghost at: nat, ghost acc: seq<u8>)
    returns (q: nat)
    requires at <= p && p + 4 + |data| <= out.Length && out[at..p] == acc && len == |data|
    modifies out
    ensures q == p + 4 + |data| && out[at..q] == acc + EncodeExt(Ext(kind, data))
    ensures forall k :: 0 <= k < out.Length && (k < p || q <= k) ==> out[k] == old(out[k])
  {
    hide U16;
    q := Put(out, p, U16(kind), at, acc);
    q := Put(out, q, U16(len), at, acc + U16(kind));
    q := Put(out, q, data, at, acc + U16(kind) + U16(len));
    ThreeParts(acc, U16(kind), U16(len), data);
  }

  lemma ThreeParts(acc: seq<u8>, a: seq<u8>, b: seq<u8>, c: seq<u8>)
    ensures acc + a + b + c == acc + (a + (b + c))
  {}

  /** The nine bytes before a hello: a handshake record of version 3.3 whose length covers all that
      follows its own header, and a message of the kind whose length covers the rest. */
  predicate Headed9(b: seq<int>, kind: int) {
    && |b| >= 9 && b[0] == 22 && b[1] == 3 && b[2] == 3 && 256 * b[3] + b[4] == |b| - 5
    && b[5] == kind && 65536 * b[6] + 256 * b[7] + b[8] == |b| - 9
  }

  lemma RecordHeaded(kind: u8, body: seq<u8>)
    requires |body| + 4 < 0x1_0000
    ensures Headed9(Record(kind, body), kind)
  {}

  /** Reads the two headers as a peer does: the message they announce, if it is all there and nothing
      else is. */
  function Unwrap(b: seq<u8>): Option<(u8, seq<u8>)> {
    if |b| < 9 || b[0] != 0x16 || b[1] != 3 || b[2] != 3 || 5 + Get16(b, 3) != |b| then None
    else if 0x1_0000 * b[6] as int + Get16(b, 7) + 4 != Get16(b, 3) then None
    else Some((b[5], b[9..]))
  }

  /** What is wrapped comes out again, and nothing else is accepted. */
  lemma UnwrapIff(b: seq<u8>, kind: u8, body: seq<u8>)
    requires |body| + 4 < 0x1_0000
    ensures Unwrap(b) == Some((kind, body)) <==> b == Record(kind, body)
  {
    RecordHeaded(kind, body);
    if Unwrap(b) == Some((kind, body)) {
      WrapBack(b, kind, body);
    }
    BodyOfRecord(kind, body);
  }

  lemma WrapBack(b: seq<u8>, kind: u8, body: seq<u8>)
    requires Headed9(b, kind) && b[9..] == body && |body| + 4 < 0x1_0000
    ensures b == Record(kind, body)
  {
    var n := |body|;
    TwoBack(4 + n, b[3], b[4]);
    ThreeBack(n, b[6], b[7], b[8]);
    hide U16, U24;
    assert b == b[..9] + b[9..];
  }

  lemma TwoBack(v: nat, x: u8, y: u8)
    requires v == 256 * x as int + y as int
    ensures U16(v) == [x, y]
  {}

  lemma ThreeBack(v: nat, x: u8, y: u8, z: u8)
    requires v == 65536 * x as int + 256 * y as int + z as int
    ensures U24(v) == [x, y, z]
  {
    DivModUnique(v, 0x100, 256 * x as int + y as int, z);
    DivModUnique(v, 0x1_0000, x, 256 * y as int + z as int);
    DivModUnique(256 * x as int + y as int, 0x100, x, y);
    DivModUnique(x, 0x100, 0, x);
  }

  /** The record and handshake headers, written last. */
  method PutHeaders(out: array<u8>, p: nat, kind: u8)
    requires 9 <= p <= out.Length
    modifies out
    ensures out[..p] == Record(kind, old(out[9..p]))
    ensures p < 0x1_0005 ==> Headed9(out[..p], kind)
    ensures forall k :: p <= k < out.Length ==> out[k] == old(out[k])
  {
    ghost var body := out[9..p];
    var hsBodyLen := p - 9;
    out[5] := kind;
    var q := Put(out, 6, U24(hsBodyLen), 6, []);
    assert out[6..9] == U24(hsBodyLen) && out[9..p] == body;
    var recordBodyLen := p - 5;
    out[0] := 0x16;
    out[1], out[2] := 3, 3;
    q := Put(out, 3, U16(recordBodyLen), 3, []);
    hide U16, U24;
    assert out[9..p] == body;
    assert out[3..5] == U16(recordBodyLen);
    assert out[6..9] == U24(hsBodyLen);
    assert out[..p] == [out[0], out[1], out[2]] + out[3..5] + [out[5]] + out[6..9] + out[9..p];
    if p < 0x1_0005 {
      RecordHeaded(kind, body);
    }
  }

  function ClientLength(host: seq<u8>): nat {
    153 + if 0 < |host| < 256 then 9 + |host| else 0
  }

  /** The 256 bytes the builder asks for are enough exactly for host names of at most 94 bytes and
      for those too long to be sent. */
  lemma ClientFitsIff(random: seq<u8>, sid: seq<u8>, pub: seq<u8>, host: seq<u8>)
    requires |random| == |sid| == |pub| == 32
    ensures |Record(1, ClientBody(random, sid, pub, host))| <= 256 <==> |host| <= 94 || |host| >= 256
  {
    ClientExtsFit(pub, host);
    hide EncodeExts, ClientExts, U16, U24;
  }

  /** The 200 bytes the builder asks for are enough exactly for session ids of at most 105 bytes. */
  lemma ServerFitsIff(random: seq<u8>, sid: seq<u8>, pub: seq<u8>)
    requires |random| == |pub| == 32 && |sid| < 0x100
    ensures |Record(2, ServerBody(random, sid, pub))| <= 200 <==> |sid| <= 105
  {
    ServerExtsFit(pub);
    hide EncodeExts, ServerExts, U16, U24;
  }

  /** The server name extension: type 0, its length, the length of its one entry, name type 0, the
      length of the name, the name. */
  function HostBytes(host: seq<u8>): seq<u8> {
    if 0 < |host| < 256
    then [0, 0] + Two(5 + |host|) + Two(3 + |host|) + [0] + Two(|host|) + host
    else []
  }

  /** A number below 2^16 in two bytes. */
  function Two(n: nat): seq<u8>
    requires n < 0x1_0000
  {
    [n / 256, n % 256]
  }

  lemma U16Is(v: nat)
    requires v < 0x1_0000
    ensures U16(v) == Two(v)
  {}

  /** The four extensions of every client hello. */
  function FourBytes(pub: seq<u8>): seq<u8> {
    [0x00, 0x2B, 0, 3, 2, 0x03, 0x04]
    + [0x00, 0x0A, 0, 4, 0, 2, 0x00, 0x1D]
    + [0x00, 0x0D, 0, 8, 0, 6, 0x04, 0x03, 0x08, 0x04, 0x04, 0x01]
    + ([0x00, 0x33, 0, 38, 0, 36, 0x00, 0x1D, 0, 32] + pub)
  }

  lemma SmallExts()
    ensures EncodeExt(Ext(0x002B, [2] + U16(0x0304))) == [0x00, 0x2B, 0, 3, 2, 0x03, 0x04]
    ensures EncodeExt(Ext(0x000A, U16(2) + U16(GROUP))) == [0x00, 0x0A, 0, 4, 0, 2, 0x00, 0x1D]
    ensures EncodeExt(Ext(0x000D, U16(6) + U16(0x0403) + U16(0x0804) + U16(0x0401)))
            == [0x00, 0x0D, 0, 8, 0, 6, 0x04, 0x03, 0x08, 0x04, 0x04, 0x01]
  {}

  lemma ShareExt(pub: seq<u8>)
    requires |pub| == 32
    ensures EncodeExt(Ext(0x0033, U16(36) + U16(GROUP) + U16(32) + pub))
            == [0x00, 0x33, 0, 38, 0, 36, 0x00, 0x1D, 0, 32] + pub
  {
    assert U16(0x0033) == [0x00, 0x33] && U16(38) == [0, 38] && U16(36) == [0, 36] && U16(GROUP) == [0x00, 0x1D] && U16(32) == [0, 32];
    hide U16;
    assert [0x00, 0x33] + ([0, 38] + ([0, 36] + [0x00, 0x1D] + [0, 32] + pub))
           == [0x00, 0x33, 0, 38, 0, 36, 0x00, 0x1D, 0, 32] + pub;
  }

  lemma HostExt(host: seq<u8>)
    requires 0 < |host| < 256
    ensures EncodeExt(Ext(0x0000, U16(3 + |host|) + [0] + U16(|host|) + host)) == HostBytes(host)
  {
    U16Is(0);
    U16Is(5 + |host|);
    U16Is(3 + |host|);
    U16Is(|host|);
    hide U16;
    assert Two(0) == [0, 0];
    hide Two;
  }

  lemma FourExts(es: seq<Ext>)
    requires 4 <= |es| <= 5
    ensures
      var four := EncodeExt(es[0]) + EncodeExt(es[1]) + EncodeExt(es[2]) + EncodeExt(es[3]);
      EncodeExts(es) == if |es| == 5 then four + EncodeExt(es[4]) else four
  {
    hide EncodeExt, EncodeExts, FirstOf;
    FirstExts(es);
    MoreExts(es, 0);
    NothingBefore(EncodeExt(es[0]));
    MoreExts(es, 1);
    MoreExts(es, 2);
    MoreExts(es, 3);
    if |es| == 5 {
      MoreExts(es, 4);
    }
    AllExts(es);
  }

  lemma NothingBefore(a: seq<u8>)
    ensures [] + a == a
  {}

  lemma ClientExtBytes(pub: seq<u8>, host: seq<u8>)
    requires |pub| == 32
    ensures EncodeExts(ClientExts(pub, host)) == FourBytes(pub) + HostBytes(host)
    ensures |FourBytes(pub)| == 69
  {
    var es := ClientExts(pub, host);
    SmallExts();
    ShareExt(pub);
    if 0 < |host| < 256 {
      HostExt(host);
    }
    FourExts(es);
    hide EncodeExt, EncodeExts, U16, Two;
  }

  /** Every byte of a client hello. */
  lemma ClientBytes(random: seq<u8>, sid: seq<u8>, pub: seq<u8>, host: seq<u8>)
    requires |pub| == 32
    ensures
      ClientBody(random, sid, pub, host) ==
        [3, 3] + random + [32] + sid + [0, 2, 0x13, 0x03, 1, 0] + Two(69 + |HostBytes(host)|)
        + (FourBytes(pub) + HostBytes(host))
  {
    ClientExtBytes(pub, host);
    U16Is(69 + |HostBytes(host)|);
    assert U16(CIPHER) == [0x13, 0x03];
    hide EncodeExts, ClientExts, HostBytes, FourBytes, U16, Two;
    var e := FourBytes(pub) + HostBytes(host);
    assert [0, 2] + [0x13, 0x03] + [1, 0] == [0, 2, 0x13, 0x03, 1, 0];
    Regroup([3, 3] + random + [32] + sid, [0, 2, 0x13, 0x03, 1, 0], Two(|e|), e);
  }

  lemma Regroup(a: seq<u8>, b: seq<u8>, c: seq<u8>, d: seq<u8>)
    ensures a + (b + c + d) == a + b + c + d
  {}

  /** Every byte of a server hello. */
  lemma ServerBytes(random: seq<u8>, sid: seq<u8>, pub: seq<u8>)
    requires |pub| == 32 && |sid| < 0x100
    ensures
      ServerBody(random, sid, pub) ==
        [3, 3] + random + [|sid|] + sid + [0x13, 0x03, 0] + [0, 46]
        + ([0x00, 0x2B, 0, 2, 0x03, 0x04] + ([0x00, 0x33, 0, 36, 0x00, 0x1D, 0, 32] + pub))
  {
    ServerExtBytes(pub);
    assert U16(CIPHER) == [0x13, 0x03] && U16(46) == [0, 46];
    hide EncodeExts, ServerExts, U16;
    var e := [0x00, 0x2B, 0, 2, 0x03, 0x04] + ([0x00, 0x33, 0, 36, 0x00, 0x1D, 0, 32] + pub);
    assert [0x13, 0x03] + [0] == [0x13, 0x03, 0];
    Regroup([3, 3] + random + [|sid|] + sid, [0x13, 0x03, 0], [0, 46], e);
  }

  lemma ServerExtBytes(pub: seq<u8>)
    requires |pub| == 32
    ensures
      EncodeExts(ServerExts(pub))
      == [0x00, 0x2B, 0, 2, 0x03, 0x04] + ([0x00, 0x33, 0, 36, 0x00, 0x1D, 0, 32] + pub)
  {
    var es := ServerExts(pub);
    assert EncodeExt(es[0]) == [0x00, 0x2B, 0, 2, 0x03, 0x04];
    ServerShareExt(pub);
    hide EncodeExt, EncodeExts, U16, FirstOf;
    FirstExts(es);
    MoreExts(es, 0);
    MoreExts(es, 1);
    AllExts(es);
  }

  lemma ServerShareExt(pub: seq<u8>)
    requires |pub| == 32
    ensures EncodeExt(Ext(0x0033, U16(GROUP) + U16(32) + pub)) == [0x00, 0x33, 0, 36, 0x00, 0x1D, 0, 32] + pub
  {
    assert U16(0x0033) == [0x00, 0x33] && U16(36) == [0, 36] && U16(GROUP) == [0x00, 0x1D] && U16(32) == [0, 32];
    hide U16;
    assert [0x00, 0x33] + ([0, 36] + ([0x00, 0x1D] + [0, 32] + pub)) == [0x00, 0x33, 0, 36, 0x00, 0x1D, 0, 32] + pub;
  }

  /** tls_build_client_hello.  `out` is the memory from the buffer on and outMax the size the caller
      names, which is only compared with 256: the message may run past outMax, but not past memory. */
  method BuildClientHello(out: array<u8>, outMax: u32, random: seq<u8>, sid: seq<u8>, pub: seq<u8>, host: seq<u8>)
    returns (n: int)
    requires |random| == |sid| == |pub| == 32
    requires outMax >= 256 ==> ClientLength(host) <= out.Length
    modifies out
    ensures outMax < 256 ==> n == -1 && out[..] == old(out[..])
    ensures outMax >= 256 ==>
      && n == ClientLength(host) && out[..n] == Record(1, ClientBody(random, sid, pub, host)) && Headed9(out[..n], 1)
      && forall k :: n <= k < out.Length ==> out[k] == old(out[k])
  {
    if outMax < 256 { return -1; }
    hide Record, ClientBody, Headed9;
    var p := BuildClientBody(out, random, sid, pub, host);
    PutHeaders(out, p, 1);
    n := p;
  }

  /** Everything after the headers, with the length of the extensions patched in. */
  method BuildClientBody(out: array<u8>, random: seq<u8>, sid: seq<u8>, pub: seq<u8>, host: seq<u8>) returns (p: nat)
    requires |random| == |sid| == |pub| == 32 && ClientLength(host) <= out.Length
    modifies out
    ensures p == ClientLength(host) && out[9..p] == ClientBody(random, sid, pub, host)
    ensures forall k :: p <= k < out.Length ==> out[k] == old(out[k])
  {
    hide ClientBody, EncodeExts, ClientExts, ClientPrefix, U16;
    p := ClientStart(out, random, sid);
    ghost var start := out[9..p];
    var extLenOff := p;
    p := p + 2;
    var extStart := p;
    p := ClientExtensions(out, p, pub, host);
    ghost var before := out[..];
    assert out[9..extLenOff] == start;
    var q := Put(out, extLenOff, U16(p - extStart), 9, start);
    SliceKept(before, out[..], extStart, p);
    assert out[9..p] == out[9..extStart] + out[extStart..p];
    ClientBodyIs(random, sid, pub, host);
  }

  lemma SliceKept(a: seq<u8>, b: seq<u8>, lo: nat, hi: nat)
    requires lo <= hi <= |a| == |b| && forall k :: lo <= k < hi ==> a[k] == b[k]
    ensures a[lo..hi] == b[lo..hi]
  {}

  /** Version, random, session id, cipher suites and compression. */
  function ClientPrefix(random: seq<u8>, sid: seq<u8>): seq<u8> {
    [3, 3] + random + [32] + sid + [0, 2] + U16(CIPHER) + [1, 0]
  }

  method ClientStart(out: array<u8>, random: seq<u8>, sid: seq<u8>) returns (p: nat)
    requires |random| == |sid| == 32 && out.Length >= 153
    modifies out
    ensures p == 82 && out[9..p] == ClientPrefix(random, sid)
    ensures forall k :: 0 <= k < out.Length && (k < 9 || p <= k) ==> out[k] == old(out[k])
  {
    hide U16;
    p := 9;
    ghost var acc := [];
    p := Put(out, p, [3, 3], 9, acc);
    acc := acc + [3, 3];
    p := Put(out, p, random, 9, acc);
    acc := acc + random;
    p := Put(out, p, [32], 9, acc);
    acc := acc + [32];
    p := Put(out, p, sid, 9, acc);
    acc := acc + sid;
    p := Put(out, p, [0, 2], 9, acc);
    acc := acc + [0, 2];
    p := Put(out, p, U16(CIPHER), 9, acc);
    acc := acc + U16(CIPHER);
    p := Put(out, p, [1, 0], 9, acc);
    assert [] + [3, 3] == [3, 3];
  }

  /** The five extensions, the last one only for a host name of 1 to 255 bytes. */
  method ClientExtensions(out: array<u8>, start: nat, pub: seq<u8>, host: seq<u8>) returns (p: nat)
    requires |pub| == 32 && start == 84 && ClientLength(host) <= out.Length
    modifies out
    ensures p == ClientLength(host) && out[start..p] == EncodeExts(ClientExts(pub, host))
    ensures forall k :: 0 <= k < out.Length && (k < start || p <= k) ==> out[k] == old(out[k])
  {
    hide EncodeExt, EncodeExts, U16;
    ghost var es := ClientExts(pub, host);
    p := start;
    FirstExts(es);
    p := PutExt(out, p, 0x002B, 3, [2] + U16(0x0304), start, FirstOf(es, 0));
    MoreExts(es, 0);
    p := PutExt(out, p, 0x000A, 4, U16(2) + U16(GROUP), start, FirstOf(es, 1));
    MoreExts(es, 1);
    p := PutExt(out, p, 0x000D, 8, U16(6) + U16(0x0403) + U16(0x0804) + U16(0x0401), start, FirstOf(es, 2));
    MoreExts(es, 2);
    p := PutExt(out, p, 0x0033, 4 + 32 + 2, U16(32 + 4) + U16(GROUP) + U16(32) + pub, start, FirstOf(es, 3));
    MoreExts(es, 3);
    var hn := |host|;
    if hn > 0 && hn < 256 {
      var entryLen := 1 + 2 + hn;
      var listLen := entryLen;
      p := PutExt(out, p, 0x0000, 2 + listLen, U16(listLen) + [0] + U16(hn) + host, start, FirstOf(es, 4));
      MoreExts(es, 4);
    }
    AllExts(es);
  }

  /** The encoding of the first i extensions. */
  function FirstOf(es: seq<Ext>, i: nat): seq<u8>
    requires i <= |es|
  {
    EncodeExts(es[..i])
  }

  lemma FirstExts(es: seq<Ext>)
    ensures FirstOf(es, 0) == []
  {}

  lemma AllExts(es: seq<Ext>)
    ensures FirstOf(es, |es|) == EncodeExts(es)
  {
    assert es[..|es|] == es;
  }

  lemma MoreExts(es: seq<Ext>, i: nat)
    requires i < |es|
    ensures FirstOf(es, i + 1) == FirstOf(es, i) + EncodeExt(es[i])
  {
    assert es[..i + 1] == es[..i] + [es[i]];
    EncodeLast(es[..i], es[i]);
    hide EncodeExt, EncodeExts;
  }

  lemma {:induction false} EncodeLast(es: seq<Ext>, e: Ext)
    ensures EncodeExts(es + [e]) == EncodeExts(es) + EncodeExt(e)
  {
    hide EncodeExt;
    if |es| == 0 {
      assert es + [e] == [e] && [e][1..] == [];
      assert EncodeExts([]) == [];
    } else {
      assert (es + [e])[1..] == es[1..] + [e];
      EncodeLast(es[1..], e);
    }
  }

  lemma ClientBodyIs(random: seq<u8>, sid: seq<u8>, pub: seq<u8>, host: seq<u8>)
    requires |random| == |sid| == |pub| == 32
    ensures
      var exts := EncodeExts(ClientExts(pub, host));
      ClientPrefix(random, sid) + U16(|exts|) + exts == ClientBody(random, sid, pub, host)
    ensures |EncodeExts(ClientExts(pub, host))| == ClientLength(host) - 84
  {
    ClientExtsFit(pub, host);
    hide EncodeExts, ClientExts, U16;
  }

  /** tls_build_server_hello, with `out` and outMax as above and 200 the size compared with. */
  method BuildServerHello(out: array<u8>, outMax: u32, random: seq<u8>, sid: seq<u8>, pub: seq<u8>) returns (n: int)
    requires |random| == |pub| == 32 && |sid| < 0x100
    requires outMax >= 200 ==> 95 + |sid| <= out.Length
    modifies out
    ensures outMax < 200 ==> n == -1 && out[..] == old(out[..])
    ensures outMax >= 200 ==>
      && n == 95 + |sid| && out[..n] == Record(2, ServerBody(random, sid, pub)) && Headed9(out[..n], 2)
      && forall k :: n <= k < out.Length ==> out[k] == old(out[k])
  {
    if outMax < 200 { return -1; }
    hide Record, ServerBody, Headed9;
    var p := BuildServerBody(out, random, sid, pub);
    PutHeaders(out, p, 2);
    n := p;
  }

  /** Everything after the headers, with the length of the extensions patched in. */
  method BuildServerBody(out: array<u8>, random: seq<u8>, sid: seq<u8>, pub: seq<u8>) returns (p: nat)
    requires |random| == |pub| == 32 && |sid| < 0x100 && 95 + |sid| <= out.Length
    modifies out
    ensures p == 95 + |sid| && out[9..p] == ServerBody(random, sid, pub)
    ensures forall k :: p <= k < out.Length ==> out[k] == old(out[k])
  {
    hide ServerBody, EncodeExts, ServerExts, ServerPrefix, U16;
    p := ServerStart(out, random, sid);
    ghost var start := out[9..p];
    var extOff := p;
    p := p + 2;
    var extStart := p;
    p := ServerExtensions(out, p, pub);
    ghost var before := out[..];
    assert out[9..extOff] == start;
    var q := Put(out, extOff, U16(p - extStart), 9, start);
    SliceKept(before, out[..], extStart, p);
    assert out[9..p] == out[9..extStart] + out[extStart..p];
    ServerBodyIs(random, sid, pub);
  }

  function ServerPrefix(random: seq<u8>, sid: seq<u8>): seq<u8>
    requires |sid| < 0x100
  {
    [3, 3] + random + [|sid|] + sid + U16(CIPHER) + [0]
  }

  method ServerStart(out: array<u8>, random: seq<u8>, sid: seq<u8>) returns (p: nat)
    requires |random| == 32 && |sid| < 0x100 && out.Length >= 95 + |sid|
    modifies out
    ensures p == 47 + |sid| && out[9..p] == ServerPrefix(random, sid)
    ensures forall k :: 0 <= k < out.Length && (k < 9 || p <= k) ==> out[k] == old(out[k])
  {
    hide U16;
    p := 9;
    ghost var acc := [];
    p := Put(out, p, [3, 3], 9, acc);
    acc := acc + [3, 3];
    p := Put(out, p, random, 9, acc);
    acc := acc + random;
    p := Put(out, p, [|sid|], 9, acc);
    acc := acc + [|sid|];
    p := Put(out, p, sid, 9, acc);
    acc := acc + sid;
    p := Put(out, p, U16(CIPHER), 9, acc);
    acc := acc + U16(CIPHER);
    p := Put(out, p, [0], 9, acc);
    assert [] + [3, 3] == [3, 3];
  }

  method ServerExtensions(out: array<u8>, start: nat, pub: seq<u8>) returns (p: nat)
    requires |pub| == 32 && start + 46 <= out.Length
    modifies out
    ensures p == start + 46 && out[start..p] == EncodeExts(ServerExts(pub))
    ensures forall k :: 0 <= k < out.Length && (k < start || p <= k) ==> out[k] == old(out[k])
  {
    hide EncodeExt, EncodeExts, U16;
    ghost var es := ServerExts(pub);
    FirstExts(es);
    p := PutExt(out, start, 0x002B, 2, U16(0x0304), start, FirstOf(es, 0));
    MoreExts(es, 0);
    p := PutExt(out, p, 0x0033, 4 + 32, U16(GROUP) + U16(32) + pub, start, FirstOf(es, 1));
    MoreExts(es, 1);
    AllExts(es);
  }

  lemma ServerBodyIs(random: seq<u8>, sid: seq<u8>, pub: seq<u8>)
    requires |random| == |pub| == 32 && |sid| < 0x100
    ensures
      var exts := EncodeExts(ServerExts(pub));
      ServerPrefix(random, sid) + U16(|exts|) + exts == ServerBody(random, sid, pub)
    ensures |EncodeExts(ServerExts(pub))| == 46
  {
    ServerExtsFit(pub);
    hide EncodeExts, ServerExts, U16;
  }

  /** Nine bytes of headers come off a record before its body is parsed. */
  lemma BodyOfRecord(kind: u8, body: seq<u8>)
    ensures |Record(kind, body)| == 9 + |body| && Record(kind, body)[9..] == body
  {}

  /** A client hello built into memory and parsed from it: the key, the random and the session id come
      back for every host name, those that take the message past the claimed size included. */
  method ClientHelloReadBack(out: array<u8>, outMax: u32, random: seq<u8>, sid: seq<u8>, pub: seq<u8>, host: seq<u8>)
    returns (n: int, r: ClientHello)
    requires |random| == |sid| == |pub| == 32
    requires outMax >= 256 ==> ClientLength(host) <= out.Length
    modifies out
    ensures outMax >= 256 ==> n == ClientLength(host) && r == Accepted(pub, random, sid)
    ensures outMax < 256 ==> n == -1 && r == Rejected && out[..] == old(out[..])
  {
    hide ClientBody, ParseClient, Record;
    n := BuildClientHello(out, outMax, random, sid, pub, host);
    if n < 0 { return n, Rejected; }
    BodyOfRecord(1, ClientBody(random, sid, pub, host));
    ClientRoundTrip(random, sid, pub, host);
    assert out[9..n] == out[..n][9..];
    r := ParseClient(out[9..n]);
  }

  /** A server hello built into memory and parsed from it: the public key comes back for every session
      id, those that take the message past the claimed size included. */
  method ServerHelloReadBack(out: array<u8>, outMax: u32, random: seq<u8>, sid: seq<u8>, pub: seq<u8>)
    returns (n: int, r: Option<seq<u8>>)
    requires |random| == |pub| == 32 && |sid| < 0x100
    requires outMax >= 200 ==> 95 + |sid| <= out.Length
    modifies out
    ensures outMax >= 200 ==> n == 95 + |sid| && r == Some(pub)
    ensures outMax < 200 ==> n == -1 && r == None && out[..] == old(out[..])
  {
    hide ServerBody, ParseServer, Record;
    n := BuildServerHello(out, outMax, random, sid, pub);
    if n < 0 { return n, None; }
    BodyOfRecord(2, ServerBody(random, sid, pub));
    ServerRoundTrip(random, sid, pub);
    assert out[9..n] == out[..n][9..];
    r := ParseServer(out[9..n]);
  }
}
