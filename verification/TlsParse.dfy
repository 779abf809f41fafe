/** What the hello parsers accept, among all byte strings and in terms of the bytes themselves. */
module TlsParse {
  import opened Words
  import opened TlsHello

  // ---------------------------------------------------------------- key shares

  datatype Share = Share(group: u16, key: seq<u8>)

  function EncodeShares(ss: seq<Share>): seq<u8> {
    if |ss| == 0 then [] else U16(ss[0].group) + U16(|ss[0].key|) + ss[0].key + EncodeShares(ss[1..])
  }

  predicate KeysFit(ss: seq<Share>) {
    forall i :: 0 <= i < |ss| ==> |ss[i].key| < 0x1_0000
  }

  /** The share is an X25519 one with a key of the right length. */
  predicate Usable(s: Share) {
    s.group == 0x001D && |s.key| == 32
  }

  /** Share i is the first usable one. */
  predicate FirstUsable(ss: seq<Share>, i: nat) {
    i < |ss| && Usable(ss[i]) && forall j :: 0 <= j < i ==> !Usable(ss[j])
  }

  function FirstKey(ss: seq<Share>): Option<seq<u8>> {
    if |ss| == 0 then None else if Usable(ss[0]) then Some(ss[0].key) else FirstKey(ss[1..])
  }

  lemma {:induction false} FirstKeyIff(ss: seq<Share>, k: seq<u8>)
    ensures FirstKey(ss) == Some(k) <==> exists i :: 0 <= i < |ss| && FirstUsable(ss, i) && ss[i].key == k
  {
    if |ss| == 0 {
    } else if Usable(ss[0]) {
      assert FirstUsable(ss, 0);
    } else {
      var t := ss[1..];
      FirstKeyIff(t, k);
      forall i | 0 <= i < |t| ensures FirstUsable(t, i) <==> FirstUsable(ss, i + 1) {
        assert t[i] == ss[i + 1];
        assert forall j :: 0 <= j < i ==> t[j] == ss[j + 1];
        assert forall j :: 0 < j < i + 1 ==> ss[j] == t[j - 1];
      }
      if i :| 0 <= i < |ss| && FirstUsable(ss, i) && ss[i].key == k {
        assert i > 0 && t[i - 1] == ss[i] && FirstUsable(t, i - 1);
      }
      if i :| 0 <= i < |t| && FirstUsable(t, i) && t[i].key == k {
        assert FirstUsable(ss, i + 1) && ss[i + 1].key == k;
      }
    }
  }

  lemma ShareParts(s: Share, rest: seq<u8>)
    requires |s.key| < 0x1_0000
    ensures
      var b := U16(s.group) + U16(|s.key|) + s.key + rest;
      && |b| == 4 + |s.key| + |rest| && Get16(b, 0) == s.group && Get16(b, 2) == |s.key|
      && b[4..4 + |s.key|] == s.key && b[4 + |s.key|..] == rest
  {
    Get16Of(s.group, []);
    Get16Of(|s.key|, []);
    hide U16;
    var b := U16(s.group) + U16(|s.key|) + s.key + rest;
    assert b[0] == U16(s.group)[0] && b[1] == U16(s.group)[1];
    assert b[2] == U16(|s.key|)[0] && b[3] == U16(|s.key|)[1];
  }

  /** The parts of a share where it stands in the extension. */
  lemma ShareAt(d: seq<u8>, kp: nat, end: nat, s: Share, rest: seq<u8>)
    requires kp <= end <= |d| && |s.key| < 0x1_0000 && d[kp..end] == U16(s.group) + U16(|s.key|) + s.key + rest
    ensures kp + 4 + |s.key| + |rest| == end && Get16(d, kp) == s.group && Get16(d, kp + 2) == |s.key|
    ensures d[kp + 4..kp + 4 + |s.key|] == s.key && d[kp + 4 + |s.key|..end] == rest
  {
    ShareParts(s, rest);
    hide U16;
    var b := d[kp..end];
    assert b[0] == d[kp] && b[1] == d[kp + 1] && b[2] == d[kp + 2] && b[3] == d[kp + 3];
    SubSlice(d, kp, end, 4, 4 + |s.key|);
    SubSlice(d, kp, end, 4 + |s.key|, end - kp);
  }

  lemma SubSlice(d: seq<u8>, lo: nat, hi: nat, i: nat, j: nat)
    requires lo <= hi <= |d| && i <= j <= hi - lo
    ensures d[lo..hi][i..j] == d[lo + i..lo + j]
  {
    assert forall k :: 0 <= k < j - i ==> d[lo..hi][i..j][k] == d[lo + i..lo + j][k];
  }

  /** The search over an encoded list of shares finds the first usable one, wherever it stands. */
  lemma {:induction false} FindShareOf(d: seq<u8>, kp: nat, listLen: nat, ss: seq<Share>)
    requires 2 + listLen <= |d| < 0x1_0000 && kp <= 2 + listLen && KeysFit(ss)
    requires d[kp..2 + listLen] == EncodeShares(ss)
    ensures FindShare(d, kp, listLen) == FirstKey(ss)
    decreases |ss|
  {
    hide U16, Get16, FindShare, EncodeShares;
    if |ss| == 0 {
      NoShares(d, kp, listLen);
    } else {
      var s := ss[0];
      SharesStep(ss);
      ShareAt(d, kp, 2 + listLen, s, EncodeShares(ss[1..]));
      FindShareOf(d, kp + 4 + |s.key|, listLen, ss[1..]);
      FindStep(d, kp, listLen, s.group, |s.key|);
    }
  }

  lemma NoShares(d: seq<u8>, kp: nat, listLen: nat)
    requires 2 + listLen <= |d| && kp <= 2 + listLen && d[kp..2 + listLen] == EncodeShares([])
    ensures FindShare(d, kp, listLen) == None
  {}

  lemma SharesStep(ss: seq<Share>)
    requires |ss| > 0
    ensures EncodeShares(ss) == U16(ss[0].group) + U16(|ss[0].key|) + ss[0].key + EncodeShares(ss[1..])
  {}

  lemma FindStep(d: seq<u8>, kp: nat, listLen: nat, group: nat, klen: nat)
    requires kp + 4 + klen <= 2 + listLen <= |d| < 0x1_0000 && Get16(d, kp) == group && Get16(d, kp + 2) == klen
    ensures
      FindShare(d, kp, listLen)
      == if group == 0x001D && klen == 32 then Some(d[kp + 4..kp + 36]) else FindShare(d, kp + 4 + klen, listLen)
  {
    SmallMod(kp);
    hide Get16;
  }

  lemma SmallMod(x: nat)
    ensures x < 0x1_0000 ==> x % 0x1_0000 == x
  {}

  /** The data of a key share extension: the list behind its length, and whatever follows it. */
  function SharesData(ss: seq<Share>, more: seq<u8>): seq<u8> {
    U16(|EncodeShares(ss)|) + EncodeShares(ss) + more
  }

  /** The extension gives the walk its first usable key, or leaves the key it has. */
  lemma VisitShares(w: Walk, ss: seq<Share>, more: seq<u8>)
    requires w.Going? && KeysFit(ss) && |SharesData(ss, more)| < 0x1_0000
    ensures
      var k := FirstKey(ss);
      Visit(w, Ext(0x0033, SharesData(ss, more))) == if k.Some? then w.(pub := k) else w
  {
    var enc, d := EncodeShares(ss), SharesData(ss, more);
    Get16Of(|enc|, []);
    hide U16, EncodeShares, FindShare, FirstKey;
    assert d[0] == U16(|enc|)[0] && d[1] == U16(|enc|)[1];
    assert d[2..2 + |enc|] == enc;
    FindShareOf(d, 2, |enc|, ss);
  }

  // ---------------------------------------------------------------- supported versions

  /** 0x0304 stands at an odd offset the 8-bit index reaches. */
  predicate VersionPair(d: seq<u8>, k: nat) {
    k % 2 == 1 && k <= 255 && k + 1 < |d| && d[k] == 0x03 && d[k + 1] == 0x04
  }

  predicate HasVersion(d: seq<u8>) {
    exists k :: 0 <= k < |d| && VersionPair(d, k)
  }

  lemma {:induction false} ScanFrom(d: seq<u8>, i: nat)
    requires i % 2 == 1 && i <= 255
    ensures ScanVersions(d, i) == Yes <==> exists k :: i <= k < |d| && VersionPair(d, k)
    decreases 256 - i
  {
    if i + 1 < |d| {
      assert VersionPair(d, i) <==> Get16(d, i) == 0x0304;
      assert !VersionPair(d, i + 1);
      if Get16(d, i) != 0x0304 && i + 2 <= 255 {
        ScanFrom(d, i + 2);
        assert forall k :: i <= k < |d| && VersionPair(d, k) ==> k != i && k != i + 1;
      }
    }
    hide Get16;
  }

  lemma OfferedIff(d: seq<u8>)
    ensures ScanVersions(d, 1) == Yes <==> HasVersion(d)
  {
    ScanFrom(d, 1);
    assert !VersionPair(d, 0);
    hide VersionPair, ScanVersions;
  }

  // ---------------------------------------------------------------- what a list of extensions amounts to

  /** The walk passes the extension. */
  predicate Passes(e: Ext) {
    !Malformed(e) && !Spins(e)
  }

  predicate OffersVersion(e: Ext) {
    e.kind == 0x002B && HasVersion(e.data)
  }

  /** The key the extension has to give. */
  function KeyOf(e: Ext): Option<seq<u8>> {
    if e.kind == 0x0033 && |e.data| >= 2 && 2 + Get16(e.data, 0) <= |e.data| then FindShare(e.data, 2, Get16(e.data, 0))
    else None
  }

  predicate LastKey(es: seq<Ext>, k: seq<u8>) {
    exists i :: 0 <= i < |es| && LastKeyAt(es, i, k)
  }

  /** Extension i gives the key and none after it gives one. */
  predicate LastKeyAt(es: seq<Ext>, i: nat, k: seq<u8>) {
    i < |es| && KeyOf(es[i]) == Some(k) && forall j :: i < j < |es| ==> KeyOf(es[j]) == None
  }

  lemma VisitPasses(w: Walk, e: Ext)
    requires w.Going?
    ensures Visit(w, e).Going? <==> Passes(e)
    ensures
      Passes(e) ==> Visit(w, e) == Going(w.offered || OffersVersion(e), if KeyOf(e).Some? then KeyOf(e) else w.pub)
  {
    VisitKinds(w, e);
    OfferedIff(e.data);
    hide Malformed, Spins, HasVersion, ScanVersions, FindShare, Get16;
  }

  /** The walk ends well exactly when every extension passes; it has then seen the version if any
      offers it, and holds the key of the last extension that has one. */
  lemma {:induction false} VisitAllIs(es: seq<Ext>, w: Walk)
    requires w.Going?
    ensures VisitAll(es, w).Going? <==> forall i :: 0 <= i < |es| ==> Passes(es[i])
    ensures VisitAll(es, w).Going? ==>
      var v := VisitAll(es, w);
      && (v.offered <==> w.offered || exists i :: 0 <= i < |es| && OffersVersion(es[i]))
      && (forall k :: v.pub == Some(k) <==> LastKey(es, k) || (w.pub == Some(k) && NoKey(es)))
  {
    if |es| > 0 {
      hide Visit, Passes, OffersVersion, KeyOf, LastKey;
      VisitPasses(w, es[0]);
      var x := Visit(w, es[0]);
      if x.Going? {
        VisitAllIs(es[1..], x);
        assert forall i :: 0 < i < |es| ==> es[i] == es[1..][i - 1];
        forall k: seq<u8> ensures LastKey(es, k) <==> LastKey(es[1..], k) || (KeyOf(es[0]) == Some(k) && NoKey(es[1..])) {
          LastKeyStep(es, k);
        }
      } else {
        VisitStopped(es[1..], x);
      }
    } else {
      NoneLast(es);
    }
  }

  predicate NoKey(es: seq<Ext>) {
    forall i :: 0 <= i < |es| ==> KeyOf(es[i]) == None
  }

  lemma NoneLast(es: seq<Ext>)
    requires es == []
    ensures forall k :: !LastKey(es, k)
  {}

  lemma LastKeyStep(es: seq<Ext>, k: seq<u8>)
    requires |es| > 0
    ensures LastKey(es, k) <==> LastKey(es[1..], k) || (KeyOf(es[0]) == Some(k) && NoKey(es[1..]))
  {
    hide KeyOf;
    var t := es[1..];
    if LastKey(es, k) {
      var i :| 0 <= i < |es| && LastKeyAt(es, i, k);
      assert forall j :: 0 <= j < |t| ==> t[j] == es[j + 1];
      if i > 0 {
        assert LastKeyAt(t, i - 1, k);
      }
    }
    if LastKey(t, k) {
      var i :| 0 <= i < |t| && LastKeyAt(t, i, k);
      assert forall j :: i + 1 < j < |es| ==> es[j] == t[j - 1];
      assert LastKeyAt(es, i + 1, k);
    }
    if KeyOf(es[0]) == Some(k) && NoKey(t) {
      assert forall j :: 0 < j < |es| ==> es[j] == t[j - 1];
      assert LastKeyAt(es, 0, k);
    }
  }

  /** tls_parse_client_hello accepts a laid-out hello exactly when the suite is offered, every extension
      passes, one offers TLS 1.3, and the key is that of the last extension with a usable share. */
  lemma AcceptedIff(random: seq<u8>, sid: seq<u8>, ciphers: seq<u8>, comp: seq<u8>, es: seq<Ext>, more: seq<u8>, pub: seq<u8>)
    requires |random| == 32 && |sid| < 0x100 && |ciphers| < 0x1_0000 && |comp| < 0x100
    requires Fit(es) && |EncodeExts(es)| < 0x1_0000
    ensures
      ParseClient(Hello(random, sid, Tail(ciphers, comp, EncodeExts(es)) + more)) == Accepted(pub, random, sid)
      <==> && Offers(ciphers) && (forall i :: 0 <= i < |es| ==> Passes(es[i]))
           && (exists i :: 0 <= i < |es| && OffersVersion(es[i])) && LastKey(es, pub)
  {
    hide ParseClient, Hello, Tail, EncodeExts, VisitAll, Passes, OffersVersion, LastKey, NoKey, Offers;
    ParseClientOf(random, sid, ciphers, comp, es, more);
    VisitAllIs(es, Going(false, None));
  }

  // ---------------------------------------------------------------- any bytes

  /** What is left when no further extension fits: fewer than four bytes, or one that overruns. */
  predicate Rest(rest: seq<u8>) {
    |rest| < 4 || 4 + Get16(rest, 2) > |rest|
  }

  /** Every byte string is a list of extensions and such a rest. */
  lemma {:induction false} SplitExts(e: seq<u8>) returns (es: seq<Ext>, rest: seq<u8>)
    ensures e == EncodeExts(es) + rest && Fit(es) && Rest(rest)
    decreases |e|
  {
    if Rest(e) {
      es, rest := [], e;
    } else {
      var el := Get16(e, 2);
      var x := Ext(Get16(e, 0), e[4..4 + el]);
      var es1, r := SplitExts(e[4 + el..]);
      es, rest := [x] + es1, r;
      assert es[1..] == es1;
      EncodedBack(e, el);
      hide EncodeExt, Get16;
      assert e == EncodeExt(x) + e[4 + el..];
      assert EncodeExts(es) == EncodeExt(x) + EncodeExts(es1);
    }
  }

  lemma EncodedBack(e: seq<u8>, el: nat)
    requires |e| >= 4 && el == Get16(e, 2) && 4 + el <= |e|
    ensures EncodeExt(Ext(Get16(e, 0), e[4..4 + el])) == e[..4 + el]
    ensures e == e[..4 + el] + e[4 + el..]
  {
    PutBack(e, 0);
    PutBack(e, 2);
    hide U16, Get16;
    assert e[..4 + el] == e[0..2] + (e[2..4] + e[4..4 + el]);
  }

  lemma PutBack(e: seq<u8>, p: nat)
    requires p + 2 <= |e|
    ensures U16(Get16(e, p)) == e[p..p + 2]
  {}

  /** The walk over such bytes: an extension that overruns is an error if the walk gets there. */
  lemma {:induction false} WalkAny(es: seq<Ext>, rest: seq<u8>, w: Walk)
    requires Fit(es) && Rest(rest)
    ensures
      var v := VisitAll(es, w);
      WalkExts(EncodeExts(es) + rest, w) == if v.Going? && |rest| >= 4 then Bad else v
  {
    if |es| > 0 {
      hide EncodeExt, Visit, Rest;
      Headed(es[0], EncodeExts(es[1..]) + rest);
      assert EncodeExts(es) + rest == EncodeExt(es[0]) + (EncodeExts(es[1..]) + rest);
      if w.Going? {
        WalkAny(es[1..], rest, Visit(w, es[0]));
      } else {
        VisitStopped(es, w);
      }
    } else {
      assert EncodeExts(es) + rest == rest;
    }
  }

  /** A hello that is not rejected has the layout the theorems above speak of. */
  lemma ClientShape(b: seq<u8>)
    returns (random: seq<u8>, sid: seq<u8>, ciphers: seq<u8>, comp: seq<u8>, exts: seq<u8>, more: seq<u8>)
    requires ParseClient(b) != Rejected
    ensures |random| == 32 && |sid| < 0x100 && |ciphers| < 0x1_0000 && |comp| < 0x100 && |exts| < 0x1_0000
    ensures b == Hello(random, sid, Tail(ciphers, comp, exts) + more)
  {
    hide WalkExts, HasCipher, Get16, Tail;
    var sl := b[34] as nat;
    var r := b[35 + sl..];
    random, sid := b[2..34], b[35..35 + sl];
    var csLen := Get16(r, 0);
    var p := 2 + csLen + 1 + r[2 + csLen];
    var extTotal := Get16(r, p);
    ciphers, comp := r[2..2 + csLen], r[2 + csLen + 1..p];
    exts, more := r[p + 2..p + 2 + extTotal], r[p + 2 + extTotal..];
    TailBack(r, csLen, p, extTotal);
    HelloBack(b, sl);
  }

  lemma HelloBack(b: seq<u8>, sl: nat)
    requires |b| >= 35 + sl && b[0] == 3 && b[1] == 3 && b[34] == sl
    ensures b == Hello(b[2..34], b[35..35 + sl], b[35 + sl..])
  {}

  lemma TailBack(r: seq<u8>, csLen: nat, p: nat, extTotal: nat)
    requires |r| >= 3 + csLen && csLen == Get16(r, 0) && p == 3 + csLen + r[2 + csLen] && p + 2 + extTotal <= |r|
    requires extTotal == Get16(r, p)
    ensures r == Tail(r[2..2 + csLen], r[2 + csLen + 1..p], r[p + 2..p + 2 + extTotal]) + r[p + 2 + extTotal..]
  {
    PutBack(r, 0);
    PutBack(r, p);
    hide U16, Get16;
  }

  // ---------------------------------------------------------------- the server hello

  /** The share of a server hello is read exactly from these bytes. */
  lemma ServerShareIff(d: seq<u8>, k: seq<u8>)
    ensures ServerShare(d) == Some(k) <==> |d| >= 36 && d[0] == 0 && d[1] == 0x1D && d[2] == 0 && d[3] == 32 && d[4..36] == k
  {}

  /** The walk over the server's extensions: the first key share decides, whatever comes after it, and
      without one there is no key. */
  lemma {:induction false} FindAny(es: seq<Ext>, rest: seq<u8>)
    requires Fit(es) && Rest(rest)
    ensures FindServerShare(EncodeExts(es) + rest) == FirstShare(es)
  {
    if |es| > 0 {
      hide EncodeExt, ServerShare, Rest;
      Headed(es[0], EncodeExts(es[1..]) + rest);
      assert EncodeExts(es) + rest == EncodeExt(es[0]) + (EncodeExts(es[1..]) + rest);
      FindAny(es[1..], rest);
    } else {
      assert EncodeExts(es) + rest == rest;
    }
  }

  /** A server hello that gives a key has the layout of one with the one suite and no compression. */
  lemma ServerShape(b: seq<u8>) returns (random: seq<u8>, sid: seq<u8>, exts: seq<u8>, more: seq<u8>)
    requires ParseServer(b).Some?
    ensures |random| == 32 && |sid| < 0x100 && |exts| < 0x1_0000
    ensures b == Hello(random, sid, ServerTail(exts) + more)
  {
    hide FindServerShare, Get16, ServerTail;
    var sl := b[34] as nat;
    var r := b[35 + sl..];
    random, sid := b[2..34], b[35..35 + sl];
    var extTotal := Get16(r, 3);
    exts, more := r[5..5 + extTotal], r[5 + extTotal..];
    ServerTailBack(r, extTotal);
    HelloBack(b, sl);
  }

  lemma ServerTailBack(r: seq<u8>, extTotal: nat)
    requires |r| >= 5 + extTotal && extTotal == Get16(r, 3) && Get16(r, 0) == CIPHER && r[2] == 0
    ensures r == ServerTail(r[5..5 + extTotal]) + r[5 + extTotal..]
  {
    PutBack(r, 0);
    PutBack(r, 3);
    hide U16, Get16;
  }
}
