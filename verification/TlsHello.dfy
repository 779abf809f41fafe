/** The hello messages of kernel/tls.c: what the builders write and what the parsers read. */
module TlsHello {
  import opened Words

  const CIPHER := 0x1303
  const GROUP := 0x001D

  datatype Option<T> = None | Some(value: T)

  /** One extension of a hello. */
  datatype Ext = Ext(kind: u16, data: seq<u8>)

  // ---------------------------------------------------------------- the wire format

  /** put16 and put24. */
  function U16(v: nat): (r: seq<u8>)
    ensures |r| == 2
  {
    [v / 0x100 % 0x100, v % 0x100]
  }

  function U24(v: nat): (r: seq<u8>)
    ensures |r| == 3
  {
    [v / 0x1_0000 % 0x100, v / 0x100 % 0x100, v % 0x100]
  }

  /** ((uint16_t)b[p] << 8) | b[p + 1]. */
  function Get16(b: seq<u8>, p: nat): (v: nat)
    requires p + 2 <= |b|
    ensures v < 0x1_0000
  {
    0x100 * b[p] as int + b[p + 1] as int
  }

  lemma Get16Of(v: nat, rest: seq<u8>)
    requires v < 0x1_0000
    ensures Get16(U16(v) + rest, 0) == v
  {}

  function EncodeExt(e: Ext): seq<u8> {
    U16(e.kind) + (U16(|e.data|) + e.data)
  }

  function EncodeExts(es: seq<Ext>): seq<u8> {
    if |es| == 0 then [] else EncodeExt(es[0]) + EncodeExts(es[1..])
  }

  /** Every extension's length fits its field. */
  predicate Fit(es: seq<Ext>) {
    forall i :: 0 <= i < |es| ==> |es[i].data| < 0x1_0000
  }

  // ---------------------------------------------------------------- tls_parse_client_hello

  /** What the scan of supported versions finds; its 8-bit index can come round again for ever. */
  datatype Scan = Yes | No | Forever

  function ScanVersions(d: seq<u8>, i: nat): Scan
    requires i <= 255
    decreases 256 - i
  {
    if i + 1 >= |d| then No
    else if Get16(d, i) == 0x0304 then Yes
    else if i + 2 > 255 then Forever
    else ScanVersions(d, i + 2)
  }

  /** The shares of extension 0x0033, from kp up to the end of the list. */
  function FindShare(d: seq<u8>, kp: nat, listLen: nat): Option<seq<u8>>
    requires 2 + listLen <= |d|
    decreases 2 + listLen - kp
  {
    if kp + 4 <= 2 + listLen && kp % 0x1_0000 < |d| then
      var klen := Get16(d, kp + 2);
      if kp + 4 + klen > |d| then None
      else if Get16(d, kp) == GROUP && klen == 32 then Some(d[kp + 4..kp + 36])
      else FindShare(d, kp + 4 + klen, listLen)
    else None
  }

  /** Where the walk over the extensions stands; Bad is the return 0 of a malformed one. */
  datatype Walk = Going(offered: bool, pub: Option<seq<u8>>) | Bad | Hung

  /** One extension of a client hello. */
  function Visit(w: Walk, e: Ext): Walk {
    if !w.Going? then w
    else if e.kind == 0x002B then
      if |e.data| < 1 then Bad
      else
        match ScanVersions(e.data, 1)
        case Yes => w.(offered := true)
        case No => w
        case Forever => Hung
    else if e.kind == 0x0033 then
      if |e.data| < 2 then Bad
      else
        var listLen := Get16(e.data, 0);
        if 2 + listLen > |e.data| then Bad
        else
          var share := FindShare(e.data, 2, listLen);
          if share.Some? then w.(pub := share) else w
    else w
  }

  /** The loop over the extensions in the bytes e. */
  function WalkExts(e: seq<u8>, w: Walk): Walk
    decreases |e|
  {
    if |e| < 4 || !w.Going? then w
    else
      var el := Get16(e, 2);
      if 4 + el > |e| then Bad
      else WalkExts(e[4 + el..], Visit(w, Ext(Get16(e, 0), e[4..4 + el])))
  }

  function HasCipher(b: seq<u8>, i: nat): bool
    decreases |b| - i
  {
    i + 1 < |b| && (Get16(b, i) == CIPHER || HasCipher(b, i + 2))
  }

  datatype ClientHello = Rejected | Hangs | Accepted(pub: seq<u8>, random: seq<u8>, sid: seq<u8>)

  /** tls_parse_client_hello. */
  function ParseClient(b: seq<u8>): ClientHello {
    if |b| < 40 || b[0] != 3 || b[1] != 3 then Rejected
    else
      var random := b[2..34];
      var sl := b[34] as nat;
      if 35 + sl > |b| then Rejected
      else
        var sid := b[35..35 + sl];
        ParseCiphers(b[35 + sl..], random, sid)
  }

  /** From the cipher suites on. */
  function ParseCiphers(b: seq<u8>, random: seq<u8>, sid: seq<u8>): ClientHello {
    if 2 > |b| then Rejected
    else
      var csLen := Get16(b, 0);
      if 2 + csLen > |b| || !HasCipher(b[2..2 + csLen], 0) || 2 + csLen + 1 > |b| then Rejected
      else
        var comp := b[2 + csLen] as nat;
        var p := 2 + csLen + 1 + comp;
        if p + 2 > |b| then Rejected
        else
          var extTotal := Get16(b, p);
          if p + 2 + extTotal > |b| then Rejected
          else
            match WalkExts(b[p + 2..p + 2 + extTotal], Going(false, None))
            case Going(offered, pub) => if offered && pub.Some? then Accepted(pub.value, random, sid) else Rejected
            case Bad => Rejected
            case Hung => Hangs
  }

  // ---------------------------------------------------------------- tls_parse_server_hello

  function FindServerShare(e: seq<u8>): Option<seq<u8>>
    decreases |e|
  {
    if |e| < 4 then None
    else
      var el := Get16(e, 2);
      if 4 + el > |e| then None
      else if Get16(e, 0) == 0x0033 then ServerShare(e[4..4 + el])
      else FindServerShare(e[4 + el..])
  }

  function ServerShare(d: seq<u8>): Option<seq<u8>> {
    if |d| < 4 || Get16(d, 0) != GROUP || Get16(d, 2) != 32 || |d| < 36 then None else Some(d[4..36])
  }

  /** tls_parse_server_hello. */
  function ParseServer(b: seq<u8>): Option<seq<u8>> {
    if |b| < 38 || b[0] != 3 || b[1] != 3 then None
    else
      var sl := b[34] as nat;
      if 35 + sl > |b| then None else ParseServerRest(b[35 + sl..])
  }

  function ParseServerRest(b: seq<u8>): Option<seq<u8>> {
    if 2 > |b| || Get16(b, 0) != CIPHER || 3 > |b| || b[2] != 0 || 5 > |b| then None
    else
      var extTotal := Get16(b, 3);
      if 5 + extTotal > |b| then None else FindServerShare(b[5..5 + extTotal])
  }

  // ---------------------------------------------------------------- what the builders send

  function ClientExts(pub: seq<u8>, host: seq<u8>): seq<Ext> {
    [Ext(0x002B, [2] + U16(0x0304)), Ext(0x000A, U16(2) + U16(GROUP)),
     Ext(0x000D, U16(6) + U16(0x0403) + U16(0x0804) + U16(0x0401)),
     Ext(0x0033, U16(36) + U16(GROUP) + U16(32) + pub)]
    + if 0 < |host| < 256 then [Ext(0x0000, U16(3 + |host|) + [0] + U16(|host|) + host)] else []
  }

  function ClientBody(random: seq<u8>, sid: seq<u8>, pub: seq<u8>, host: seq<u8>): seq<u8> {
    var exts := EncodeExts(ClientExts(pub, host));
    [3, 3] + random + [32] + sid + ([0, 2] + U16(CIPHER) + [1, 0] + U16(|exts|) + exts)
  }

  function ServerExts(pub: seq<u8>): seq<Ext> {
    [Ext(0x002B, U16(0x0304)), Ext(0x0033, U16(GROUP) + U16(32) + pub)]
  }

  function ServerBody(random: seq<u8>, sid: seq<u8>, pub: seq<u8>): seq<u8>
    requires |sid| < 0x100
  {
    var exts := EncodeExts(ServerExts(pub));
    [3, 3] + random + [|sid|] + sid + (U16(CIPHER) + [0] + U16(|exts|) + exts)
  }

  /** The handshake message of a type in one record. */
  function Record(kind: u8, body: seq<u8>): seq<u8> {
    [0x16, 3, 3] + U16(4 + |body|) + [kind] + U24(|body|) + body
  }

  // ---------------------------------------------------------------- the parser on any extensions

  function VisitAll(es: seq<Ext>, w: Walk): Walk {
    if |es| == 0 then w else VisitAll(es[1..], Visit(w, es[0]))
  }

  lemma {:induction false} VisitStopped(es: seq<Ext>, w: Walk)
    requires !w.Going?
    ensures VisitAll(es, w) == w
  {
    if |es| > 0 {
      VisitStopped(es[1..], w);
    }
  }

  /** The first extension of an encoded list, taken apart again. */
  lemma Headed(e: Ext, rest: seq<u8>)
    requires |e.data| < 0x1_0000
    ensures
      var b := EncodeExt(e) + rest;
      && |b| == 4 + |e.data| + |rest| && Get16(b, 0) == e.kind && Get16(b, 2) == |e.data|
      && b[4..4 + |e.data|] == e.data && b[4 + |e.data|..] == rest
  {
    Get16Of(e.kind, []);
    Get16Of(|e.data|, []);
    hide U16;
    var b := EncodeExt(e) + rest;
    assert b[0] == U16(e.kind)[0] && b[1] == U16(e.kind)[1];
    assert b[2] == U16(|e.data|)[0] && b[3] == U16(|e.data|)[1];
  }

  /** The walk over the bytes is the walk over the list they encode, whatever the extensions are:
      those it does not know are skipped whole. */
  lemma {:induction false} WalkEncoded(es: seq<Ext>, w: Walk)
    requires Fit(es)
    ensures WalkExts(EncodeExts(es), w) == VisitAll(es, w)
  {
    if |es| > 0 {
      hide EncodeExt, Visit;
      Headed(es[0], EncodeExts(es[1..]));
      if w.Going? {
        WalkEncoded(es[1..], Visit(w, es[0]));
      } else {
        VisitStopped(es, w);
      }
    }
  }

  lemma {:induction false} FindEncoded(es: seq<Ext>)
    requires Fit(es)
    ensures FindServerShare(EncodeExts(es)) == FirstShare(es)
  {
    if |es| > 0 {
      hide EncodeExt, ServerShare;
      Headed(es[0], EncodeExts(es[1..]));
      FindEncoded(es[1..]);
    }
  }

  /** The server's key share, in the first extension of its kind. */
  function FirstShare(es: seq<Ext>): Option<seq<u8>> {
    if |es| == 0 then None
    else if es[0].kind == 0x0033 then ServerShare(es[0].data)
    else FirstShare(es[1..])
  }

  /** A client hello as it is laid out, with any session id and extensions. */
  function Hello(random: seq<u8>, sid: seq<u8>, rest: seq<u8>): seq<u8>
    requires |sid| < 0x100
  {
    [3, 3] + random + [|sid|] + sid + rest
  }

  lemma HelloParts(random: seq<u8>, sid: seq<u8>, rest: seq<u8>)
    requires |random| == 32 && |sid| < 0x100
    ensures
      var b := Hello(random, sid, rest);
      && |b| == 35 + |sid| + |rest| && b[0] == 3 && b[1] == 3 && b[2..34] == random
      && b[34] == |sid| && b[35..35 + |sid|] == sid && b[35 + |sid|..] == rest
  {}

  /** What follows the session id: the cipher suites, the compression methods and the extensions, each
      behind its length. */
  function Tail(ciphers: seq<u8>, comp: seq<u8>, exts: seq<u8>): seq<u8>
    requires |comp| < 0x100
  {
    U16(|ciphers|) + ciphers + [|comp|] + comp + U16(|exts|) + exts
  }

  lemma TailParts(ciphers: seq<u8>, comp: seq<u8>, exts: seq<u8>, more: seq<u8>)
    requires |ciphers| < 0x1_0000 && |comp| < 0x100 && |exts| < 0x1_0000
    ensures
      var b, p := Tail(ciphers, comp, exts) + more, 3 + |ciphers| + |comp|;
      && |b| == p + 2 + |exts| + |more| && Get16(b, 0) == |ciphers| && b[2..2 + |ciphers|] == ciphers
      && b[2 + |ciphers|] == |comp| && Get16(b, p) == |exts| && b[p + 2..p + 2 + |exts|] == exts
  {
    Get16Of(|ciphers|, []);
    Get16Of(|exts|, []);
    hide U16;
    var b, p := Tail(ciphers, comp, exts) + more, 3 + |ciphers| + |comp|;
    assert b[0] == U16(|ciphers|)[0] && b[1] == U16(|ciphers|)[1];
    assert b[p] == U16(|exts|)[0] && b[p + 1] == U16(|exts|)[1];
  }

  /** Suite k of the list is TLS_CHACHA20_POLY1305_SHA256. */
  predicate IsOffered(ciphers: seq<u8>, k: nat) {
    2 * k + 1 < |ciphers| && ciphers[2 * k] == 0x13 && ciphers[2 * k + 1] == 0x03
  }

  predicate Offers(ciphers: seq<u8>) {
    exists k :: 0 <= k < |ciphers| && IsOffered(ciphers, k)
  }

  /** The scan finds the suite wherever it stands in the list. */
  lemma HasCipherIff(ciphers: seq<u8>)
    ensures HasCipher(ciphers, 0) <==> Offers(ciphers)
  {
    HasCipherFrom(ciphers, 0);
    hide HasCipher, IsOffered;
  }

  lemma {:induction false} HasCipherFrom(ciphers: seq<u8>, j: nat)
    ensures HasCipher(ciphers, 2 * j) <==> exists k :: j <= k < |ciphers| && IsOffered(ciphers, k)
    decreases |ciphers| - 2 * j
  {
    if 2 * j + 1 < |ciphers| {
      HasCipherFrom(ciphers, j + 1);
      OfferedAt(ciphers, j);
      assert 2 * (j + 1) == 2 * j + 2;
      hide IsOffered, Get16;
    }
  }

  lemma OfferedAt(ciphers: seq<u8>, j: nat)
    requires 2 * j + 1 < |ciphers|
    ensures IsOffered(ciphers, j) <==> Get16(ciphers, 2 * j) == CIPHER
  {}

  /** What the client parser makes of a walk. */
  function Outcome(w: Walk, random: seq<u8>, sid: seq<u8>): ClientHello {
    match w
    case Going(offered, pub) => if offered && pub.Some? then Accepted(pub.value, random, sid) else Rejected
    case Bad => Rejected
    case Hung => Hangs
  }

  /** tls_parse_client_hello on the bytes of a hello with any session id, cipher suites, compression
      methods and extensions, and with anything after them: it is rejected unless the one suite is
      offered, and then the extensions decide. */
  lemma ParseClientBytes(random: seq<u8>, sid: seq<u8>, ciphers: seq<u8>, comp: seq<u8>, exts: seq<u8>, more: seq<u8>)
    requires |random| == 32 && |sid| < 0x100 && |ciphers| < 0x1_0000 && |comp| < 0x100 && |exts| < 0x1_0000
    ensures
      ParseClient(Hello(random, sid, Tail(ciphers, comp, exts) + more))
      == if Offers(ciphers) then Outcome(WalkExts(exts, Going(false, None)), random, sid) else Rejected
  {
    hide Hello, Tail, ParseCiphers, WalkExts, Offers, Outcome;
    HelloParts(random, sid, Tail(ciphers, comp, exts) + more);
    ParseTail(random, sid, ciphers, comp, exts, more);
    TailParts(ciphers, comp, exts, more);
    OffersSome(ciphers);
  }

  lemma ParseTail(random: seq<u8>, sid: seq<u8>, ciphers: seq<u8>, comp: seq<u8>, exts: seq<u8>, more: seq<u8>)
    requires |ciphers| < 0x1_0000 && |comp| < 0x100 && |exts| < 0x1_0000
    ensures
      ParseCiphers(Tail(ciphers, comp, exts) + more, random, sid)
      == if Offers(ciphers) then Outcome(WalkExts(exts, Going(false, None)), random, sid) else Rejected
  {
    hide Tail, HasCipher, Get16, WalkExts, Offers, ParseCiphers, Outcome;
    TailParts(ciphers, comp, exts, more);
    HasCipherIff(ciphers);
    ParseParts(random, sid, Tail(ciphers, comp, exts) + more, |ciphers|, |comp|, |exts|);
  }

  lemma ParseParts(random: seq<u8>, sid: seq<u8>, b: seq<u8>, csLen: nat, comp: nat, extTotal: nat)
    requires 5 + csLen + comp + extTotal <= |b| && Get16(b, 0) == csLen && b[2 + csLen] == comp
    requires Get16(b, 3 + csLen + comp) == extTotal
    ensures
      var p := 3 + csLen + comp;
      ParseCiphers(b, random, sid)
      == if HasCipher(b[2..2 + csLen], 0) then Outcome(WalkExts(b[p + 2..p + 2 + extTotal], Going(false, None)), random, sid)
         else Rejected
  {
    hide HasCipher, Get16, WalkExts;
  }

  /** The same on a list of extensions. */
  lemma ParseClientOf(random: seq<u8>, sid: seq<u8>, ciphers: seq<u8>, comp: seq<u8>, es: seq<Ext>, more: seq<u8>)
    requires |random| == 32 && |sid| < 0x100 && |ciphers| < 0x1_0000 && |comp| < 0x100
    requires Fit(es) && |EncodeExts(es)| < 0x1_0000
    ensures
      ParseClient(Hello(random, sid, Tail(ciphers, comp, EncodeExts(es)) + more))
      == if Offers(ciphers) then Outcome(VisitAll(es, Going(false, None)), random, sid) else Rejected
  {
    hide EncodeExts, Hello, Tail, ParseClient, WalkExts, VisitAll, Offers;
    ParseClientBytes(random, sid, ciphers, comp, EncodeExts(es), more);
    WalkEncoded(es, Going(false, None));
  }

  lemma OffersSome(ciphers: seq<u8>)
    ensures Offers(ciphers) ==> |ciphers| >= 2
  {}

  function ServerTail(exts: seq<u8>): seq<u8> {
    U16(CIPHER) + [0] + U16(|exts|) + exts
  }

  lemma ServerTailParts(exts: seq<u8>, more: seq<u8>)
    requires |exts| < 0x1_0000
    ensures
      var b := ServerTail(exts) + more;
      && |b| == 5 + |exts| + |more| && Get16(b, 0) == CIPHER && b[2] == 0 && Get16(b, 3) == |exts|
      && b[5..5 + |exts|] == exts
  {
    Get16Of(CIPHER, []);
    Get16Of(|exts|, []);
    var b := ServerTail(exts) + more;
    hide U16;
    assert b[0] == U16(CIPHER)[0] && b[1] == U16(CIPHER)[1];
    assert b[3] == U16(|exts|)[0] && b[4] == U16(|exts|)[1];
  }

  /** tls_parse_server_hello on the bytes of a hello with any session id and extensions, and with
      anything after them. */
  lemma ParseServerBytes(random: seq<u8>, sid: seq<u8>, exts: seq<u8>, more: seq<u8>)
    requires |random| == 32 && |sid| < 0x100 && |exts| < 0x1_0000
    ensures ParseServer(Hello(random, sid, ServerTail(exts) + more)) == FindServerShare(exts)
  {
    hide Hello, ServerTail, Get16, FindServerShare;
    HelloParts(random, sid, ServerTail(exts) + more);
    ServerTailParts(exts, more);
  }

  /** The same on a list of extensions. */
  lemma ParseServerOf(random: seq<u8>, sid: seq<u8>, es: seq<Ext>, more: seq<u8>)
    requires |random| == 32 && |sid| < 0x100 && Fit(es) && |EncodeExts(es)| < 0x1_0000
    ensures ParseServer(Hello(random, sid, ServerTail(EncodeExts(es)) + more)) == FirstShare(es)
  {
    hide EncodeExts, Hello, ServerTail, ParseServer, FindServerShare, FirstShare;
    ParseServerBytes(random, sid, EncodeExts(es), more);
    FindEncoded(es);
  }

  // ---------------------------------------------------------------- round trips

  lemma EncodedLength(e: Ext)
    ensures |EncodeExt(e)| == 4 + |e.data|
  {}

  lemma {:induction false} ExtsLength(es: seq<Ext>)
    ensures |EncodeExts(es)| == Total(es)
  {
    if |es| > 0 {
      EncodedLength(es[0]);
      ExtsLength(es[1..]);
      hide EncodeExt;
    }
  }

  function Total(es: seq<Ext>): nat {
    if |es| == 0 then 0 else 4 + |es[0].data| + Total(es[1..])
  }

  lemma ClientExtsFit(pub: seq<u8>, host: seq<u8>)
    requires |pub| == 32
    ensures Fit(ClientExts(pub, host))
    ensures |EncodeExts(ClientExts(pub, host))| == 69 + if 0 < |host| < 256 then 9 + |host| else 0
  {
    var es := ClientExts(pub, host);
    ExtsLength(es);
    TotalFive(es);
  }

  lemma TotalFive(es: seq<Ext>)
    requires 4 <= |es| <= 5
    ensures Total(es) == 16 + |es[0].data| + |es[1].data| + |es[2].data| + |es[3].data|
                         + (if |es| == 5 then 4 + |es[4].data| else 0)
  {
    assert Total(es) == 4 + |es[0].data| + Total(es[1..]);
    assert Total(es[1..]) == 4 + |es[1].data| + Total(es[2..]) by { assert es[1..][1..] == es[2..]; }
    assert Total(es[2..]) == 4 + |es[2].data| + Total(es[3..]) by { assert es[2..][1..] == es[3..]; }
    assert Total(es[3..]) == 4 + |es[3].data| + Total(es[4..]) by { assert es[3..][1..] == es[4..]; }
    if |es| == 5 {
      assert es[4..][1..] == [];
    }
  }

  /** The four extensions every client hello carries are understood; the host name is skipped. */
  lemma ClientVisits(pub: seq<u8>, host: seq<u8>)
    requires |pub| == 32
    ensures VisitAll(ClientExts(pub, host), Going(false, None)) == Going(true, Some(pub))
  {
    var es := ClientExts(pub, host);
    VersionOffered();
    ShareFound(pub);
    VisitSplit(es, Going(false, None));
    hide Visit, VisitAll, U16, ScanVersions, FindShare, Get16;
    var w: Walk := Going(true, None);
    VisitSkips(es[1], w);
    VisitSkips(es[2], w);
    if |es| == 5 {
      VisitSkips(es[4], Going(true, Some(pub)));
    }
  }

  lemma VisitSkips(e: Ext, w: Walk)
    requires e.kind != 0x002B && e.kind != 0x0033
    ensures Visit(w, e) == w
  {}

  lemma VisitSplit(es: seq<Ext>, w: Walk)
    requires 4 <= |es| <= 5
    ensures
      var x := Visit(Visit(Visit(Visit(w, es[0]), es[1]), es[2]), es[3]);
      VisitAll(es, w) == if |es| == 5 then Visit(x, es[4]) else x
  {
    hide Visit;
    assert es[1..][1..] == es[2..] && es[2..][1..] == es[3..] && es[3..][1..] == es[4..];
    var w1 := Visit(w, es[0]);
    var w2 := Visit(w1, es[1]);
    var w3 := Visit(w2, es[2]);
    var w4 := Visit(w3, es[3]);
    assert VisitAll(es, w) == VisitAll(es[1..], w1);
    assert VisitAll(es[1..], w1) == VisitAll(es[2..], w2);
    assert VisitAll(es[2..], w2) == VisitAll(es[3..], w3);
    assert VisitAll(es[3..], w3) == VisitAll(es[4..], w4);
    if |es| == 5 {
      assert es[4..][1..] == [];
      assert VisitAll(es[4..], w4) == VisitAll([], Visit(w4, es[4]));
    }
  }

  lemma VersionOffered()
    ensures Visit(Going(false, None), Ext(0x002B, [2] + U16(0x0304))) == Going(true, None)
  {
    assert Get16([2] + U16(0x0304), 1) == 0x0304;
  }

  lemma ShareFound(pub: seq<u8>)
    requires |pub| == 32
    ensures Visit(Going(true, None), Ext(0x0033, U16(36) + U16(GROUP) + U16(32) + pub)) == Going(true, Some(pub))
  {
    var d := U16(36) + U16(GROUP) + U16(32) + pub;
    assert Get16(d, 0) == 36 && Get16(d, 2) == GROUP && Get16(d, 4) == 32;
    assert d[6..38] == pub;
  }

  lemma ClientLayout(random: seq<u8>, sid: seq<u8>, pub: seq<u8>, host: seq<u8>)
    requires |random| == |sid| == 32
    ensures
      ClientBody(random, sid, pub, host)
      == Hello(random, sid, Tail([0x13, 0x03], [0], EncodeExts(ClientExts(pub, host))) + [])
  {
    var exts := EncodeExts(ClientExts(pub, host));
    TailOne(exts);
    hide EncodeExts, ClientExts, Tail, U16;
    assert Tail([0x13, 0x03], [0], exts) + [] == Tail([0x13, 0x03], [0], exts);
  }

  lemma TailOne(exts: seq<u8>)
    ensures Tail([0x13, 0x03], [0], exts) == [0, 2] + U16(CIPHER) + [1, 0] + U16(|exts|) + exts
  {
    var u := U16(|exts|);
    assert U16(2) == [0, 2] && U16(CIPHER) == [0x13, 0x03];
    hide U16;
    assert [0, 2] + [0x13, 0x03] + [1] + [0] == [0, 2] + [0x13, 0x03] + [1, 0];
  }

  /** A client hello is read back: the same public key, random and session id, for every host name. */
  lemma ClientRoundTrip(random: seq<u8>, sid: seq<u8>, pub: seq<u8>, host: seq<u8>)
    requires |random| == |sid| == |pub| == 32
    ensures ParseClient(ClientBody(random, sid, pub, host)) == Accepted(pub, random, sid)
  {
    var es := ClientExts(pub, host);
    ClientExtsFit(pub, host);
    ParseClientOf(random, sid, [0x13, 0x03], [0], es, []);
    assert IsOffered([0x13, 0x03], 0);
    ClientVisits(pub, host);
    ClientLayout(random, sid, pub, host);
    hide ParseClient, EncodeExts, ClientExts, ClientBody, Hello, Tail, VisitAll;
  }

  /** A server hello is read back: the same public key, for every session id. */
  lemma ServerRoundTrip(random: seq<u8>, sid: seq<u8>, pub: seq<u8>)
    requires |random| == |pub| == 32 && |sid| < 0x100
    ensures ParseServer(ServerBody(random, sid, pub)) == Some(pub)
  {
    var es := ServerExts(pub);
    ServerExtsFit(pub);
    ParseServerOf(random, sid, es, []);
    ServerShareFound(pub);
    assert ServerTail(EncodeExts(es)) + [] == ServerTail(EncodeExts(es));
    assert ServerBody(random, sid, pub) == Hello(random, sid, ServerTail(EncodeExts(es)));
    hide ParseServer, EncodeExts, ServerExts;
  }

  lemma ServerExtsFit(pub: seq<u8>)
    requires |pub| == 32
    ensures Fit(ServerExts(pub)) && |EncodeExts(ServerExts(pub))| == 46
  {
    var es := ServerExts(pub);
    ExtsLength(es);
    assert es[1..][1..] == [];
    assert Total(es[1..]) == 40 + Total([]);
  }

  lemma ServerShareFound(pub: seq<u8>)
    requires |pub| == 32
    ensures FirstShare(ServerExts(pub)) == Some(pub)
  {
    var es := ServerExts(pub);
    var d := U16(GROUP) + U16(32) + pub;
    assert Get16(d, 0) == GROUP && Get16(d, 2) == 32 && d[4..36] == pub;
    assert es[1..][0] == es[1];
    assert FirstShare(es) == FirstShare(es[1..]);
  }

  /** The scan of supported versions never ends exactly on a list of more than 256 bytes none of
      whose first 128 versions is 0x0304. */
  lemma {:induction false} ForeverIff(d: seq<u8>, i: nat)
    requires i % 2 == 1 && i <= 255
    ensures ScanVersions(d, i) == Forever <==>
      |d| > 256 && forall k :: i <= k <= 255 && k % 2 == 1 ==> VersionAt(d, k) != 0x0304
    decreases 256 - i
  {
    if i + 1 < |d| && Get16(d, i) != 0x0304 && i + 2 <= 255 {
      ForeverIff(d, i + 2);
    }
    assert VersionAt(d, i) == if i + 2 <= |d| then Get16(d, i) else 0;
    hide Get16;
  }

  function VersionAt(d: seq<u8>, i: nat): nat {
    if i + 2 <= |d| then Get16(d, i) else 0
  }

  // ---------------------------------------------------------------- when the whole parser does not return

  /** An extension on which the parser gives up. */
  predicate Malformed(e: Ext) {
    if e.kind == 0x002B then |e.data| < 1
    else e.kind == 0x0033 && (|e.data| < 2 || 2 + Get16(e.data, 0) > |e.data|)
  }

  /** Supported versions longer than 256 bytes without 0x0304 among its first 128 versions. */
  predicate Spins(e: Ext) {
    e.kind == 0x002B && |e.data| > 256 && forall k :: 1 <= k <= 255 && k % 2 == 1 ==> VersionAt(e.data, k) != 0x0304
  }

  /** Such an extension comes before any malformed one. */
  predicate SpinsFirst(es: seq<Ext>) {
    exists i :: 0 <= i < |es| && Spins(es[i]) && forall j :: 0 <= j < i ==> !Malformed(es[j])
  }

  lemma VisitKinds(w: Walk, e: Ext)
    requires w.Going?
    ensures Visit(w, e) == Hung <==> Spins(e)
    ensures Visit(w, e) == Bad <==> Malformed(e)
  {
    if |e.data| >= 1 {
      ForeverIff(e.data, 1);
    }
    hide ScanVersions, FindShare;
  }

  lemma {:induction false} VisitAllHungIff(es: seq<Ext>, w: Walk)
    requires w.Going?
    ensures VisitAll(es, w) == Hung <==> SpinsFirst(es)
  {
    if |es| > 0 {
      VisitKinds(w, es[0]);
      SpinsFirstStep(es);
      hide Visit, Spins, Malformed, SpinsFirst;
      if Visit(w, es[0]).Going? {
        VisitAllHungIff(es[1..], Visit(w, es[0]));
      } else {
        VisitStopped(es[1..], Visit(w, es[0]));
      }
    }
  }

  lemma SpinsFirstStep(es: seq<Ext>)
    requires |es| > 0
    ensures SpinsFirst(es) <==> Spins(es[0]) || (!Malformed(es[0]) && SpinsFirst(es[1..]))
  {
    hide Spins, Malformed;
    var t := es[1..];
    if SpinsFirst(t) && !Malformed(es[0]) {
      var i :| 0 <= i < |t| && Spins(t[i]) && forall j :: 0 <= j < i ==> !Malformed(t[j]);
      assert Spins(es[i + 1]);
      assert forall j :: 0 < j < i + 1 ==> es[j] == t[j - 1];
    }
    if SpinsFirst(es) && !Spins(es[0]) {
      var i :| 0 <= i < |es| && Spins(es[i]) && forall j :: 0 <= j < i ==> !Malformed(es[j]);
      assert t[i - 1] == es[i];
      assert forall j :: 0 <= j < i - 1 ==> t[j] == es[j + 1];
      assert !Malformed(es[0]);
    }
  }

  /** tls_parse_client_hello does not return exactly on the hellos that spin before anything stops it. */
  lemma ParseHangsIff(random: seq<u8>, sid: seq<u8>, ciphers: seq<u8>, comp: seq<u8>, es: seq<Ext>, more: seq<u8>)
    requires |random| == 32 && |sid| < 0x100 && |ciphers| < 0x1_0000 && |comp| < 0x100
    requires Fit(es) && |EncodeExts(es)| < 0x1_0000
    ensures
      ParseClient(Hello(random, sid, Tail(ciphers, comp, EncodeExts(es)) + more)) == Hangs
      <==> Offers(ciphers) && SpinsFirst(es)
  {
    ParseClientOf(random, sid, ciphers, comp, es, more);
    VisitAllHungIff(es, Going(false, None));
    hide ParseClient, Hello, Tail, EncodeExts, VisitAll, SpinsFirst, Offers;
  }

  function Zeros(n: nat): (r: seq<u8>)
    ensures |r| == n
  {
    seq(n, i => 0)
  }

  /** One hello of 304 bytes the parser never returns from: its only extension lists 128 versions 0. */
  lemma HangingHello()
    ensures
      var b := Hello(Zeros(32), [], Tail([0x13, 0x03], [0], EncodeExts([Ext(0x002B, Zeros(257))])) + []);
      |b| == 304 && ParseClient(b) == Hangs
  {
    var e := Ext(0x002B, Zeros(257));
    var es := [e];
    assert Spins(es[0]);
    assert SpinsFirst(es);
    ExtsLength(es);
    assert es[1..] == [];
    assert Total(es) == 261 + Total(es[1..]);
    assert IsOffered([0x13, 0x03], 0);
    ParseHangsIff(Zeros(32), [], [0x13, 0x03], [0], es, []);
    HelloParts(Zeros(32), [], Tail([0x13, 0x03], [0], EncodeExts(es)) + []);
    TailParts([0x13, 0x03], [0], EncodeExts(es), []);
    hide ParseClient, Hello, Tail, EncodeExts, SpinsFirst;
  }
}
