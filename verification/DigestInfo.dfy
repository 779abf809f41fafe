/** What the fixed prefix of a SHA-256 signature block means: the DER encoding (ITU-T X.690) of the
    DigestInfo of section 9.2 of RFC 8017. */
module DigestInfo {
  import opened Words
  import opened Rsa

  datatype Option<T> = None | Some(value: T)

  /** An element with the tag and a length below 128: its contents and what follows it. */
  function Element(b: seq<u8>, tag: int): Option<(seq<u8>, seq<u8>)> {
    if |b| >= 2 && b[0] == tag && b[1] < 128 && 2 + b[1] as int <= |b|
    then Some((b[2..2 + b[1] as int], b[2 + b[1] as int..]))
    else None
  }

  /** The numbers of an object identifier after the first byte, in base 128 with continuation bits. */
  function Arcs(b: seq<u8>, acc: nat): Option<seq<nat>> {
    if |b| == 0 then (if acc == 0 then Some([]) else None)
    else
      var v := acc * 128 + b[0] as int % 128;
      if b[0] >= 128 then Arcs(b[1..], v)
      else
        var rest := Arcs(b[1..], 0);
        if rest.None? then None else Some([v] + rest.value)
  }

  function Identifier(b: seq<u8>): Option<seq<nat>> {
    if |b| == 0 then None
    else
      var x: nat := if b[0] < 40 then 0 else if b[0] < 80 then 1 else 2;
      var rest := Arcs(b[1..], 0);
      if rest.None? then None else Some([x, b[0] as int - 40 * x] + rest.value)
  }

  /** SEQUENCE { SEQUENCE { OBJECT IDENTIFIER, NULL }, OCTET STRING } and nothing more. */
  datatype Info = Info(algorithm: seq<nat>, digest: seq<u8>)

  function Decode(b: seq<u8>): Option<Info> {
    var outer := Element(b, 0x30);
    if outer.None? || outer.value.1 != [] then None
    else
      var alg := Element(outer.value.0, 0x30);
      if alg.None? then None
      else
        var oid := Element(alg.value.0, 0x06);
        var digest := Element(alg.value.1, 0x04);
        if oid.None? || oid.value.1 != [0x05, 0x00] || digest.None? || digest.value.1 != [] then None
        else
          var id := Identifier(oid.value.0);
          if id.None? then None else Some(Info(id.value, digest.value.0))
  }

  const SHA256_OID: seq<u8> := [0x60, 0x86, 0x48, 0x01, 0x65, 0x03, 0x04, 0x02, 0x01]

  lemma OneArc(x: u8, rest: seq<u8>)
    requires x < 128
    ensures Arcs([x] + rest, 0) == if Arcs(rest, 0).None? then None else Some([x as nat] + Arcs(rest, 0).value)
  {
    assert ([x] + rest)[1..] == rest;
  }

  /** 840 takes two bytes. */
  lemma TwoByteArc(rest: seq<u8>)
    ensures Arcs([0x86, 0x48] + rest, 0) == if Arcs(rest, 0).None? then None else Some([840] + Arcs(rest, 0).value)
  {
    var b := [0x86, 0x48] + rest;
    assert b[1..] == [0x48] + rest && ([0x48] + rest)[1..] == rest;
    assert Arcs(b, 0) == Arcs([0x48] + rest, 6);
  }

  /** The identifier is 2.16.840.1.101.3.4.2.1, SHA-256. */
  lemma Sha256Identifier()
    ensures Identifier(SHA256_OID) == Some([2, 16, 840, 1, 101, 3, 4, 2, 1])
  {
    hide Arcs;
    NoArcs();
    NextArc([0x01], [], [], [1]);
    NextArc([0x02, 0x01], [0x01], [1], [2, 1]);
    NextArc([0x04, 0x02, 0x01], [0x02, 0x01], [2, 1], [4, 2, 1]);
    NextArc([0x03, 0x04, 0x02, 0x01], [0x04, 0x02, 0x01], [4, 2, 1], [3, 4, 2, 1]);
    NextArc([0x65, 0x03, 0x04, 0x02, 0x01], [0x03, 0x04, 0x02, 0x01], [3, 4, 2, 1], [101, 3, 4, 2, 1]);
    var t: seq<u8> := [0x01, 0x65, 0x03, 0x04, 0x02, 0x01];
    NextArc(t, [0x65, 0x03, 0x04, 0x02, 0x01], [101, 3, 4, 2, 1], [1, 101, 3, 4, 2, 1]);
    TwoByteArc(t);
    assert SHA256_OID[1..] == [0x86, 0x48] + t;
    assert [840] + [1, 101, 3, 4, 2, 1] == [840, 1, 101, 3, 4, 2, 1];
    assert [2, 16] + [840, 1, 101, 3, 4, 2, 1] == [2, 16, 840, 1, 101, 3, 4, 2, 1];
  }

  lemma NoArcs()
    ensures Arcs([], 0) == Some([])
  {}

  lemma NextArc(b: seq<u8>, rest: seq<u8>, arcs: seq<nat>, all: seq<nat>)
    requires |b| > 0 && b[0] < 128 && b == [b[0]] + rest && Arcs(rest, 0) == Some(arcs) && all == [b[0] as nat] + arcs
    ensures Arcs(b, 0) == Some(all)
  {
    OneArc(b[0], rest);
  }

  /** The prefix and a hash are the DigestInfo of that hash under SHA-256, with no parameters. */
  lemma PrefixMeans(hash: seq<u8>)
    requires |hash| == 32
    ensures Decode(DIGEST_PREFIX + hash) == Some(Info([2, 16, 840, 1, 101, 3, 4, 2, 1], hash))
  {
    Sha256Identifier();
    hide Identifier, Element;
    var alg: seq<u8> := [0x06, 9] + SHA256_OID + [0x05, 0x00];
    var inner: seq<u8> := [0x30, 13] + alg + ([0x04, 32] + hash + []);
    ElementIs(0x06, 9, SHA256_OID, [0x05, 0x00]);
    ElementIs(0x04, 32, hash, []);
    ElementIs(0x30, 13, alg, [0x04, 32] + hash + []);
    ElementIs(0x30, 49, inner, []);
    Nested(hash, alg, inner);
  }

  /** An element that is laid out is read. */
  lemma ElementIs(tag: u8, len: u8, body: seq<u8>, rest: seq<u8>)
    requires len == |body| && len < 128
    ensures Element([tag, len] + body + rest, tag) == Some((body, rest))
  {
    var b := [tag, len] + body + rest;
    assert b[0] == tag && b[1] == len && b[2..2 + |body|] == body && b[2 + |body|..] == rest;
  }

  lemma Nested(hash: seq<u8>, alg: seq<u8>, inner: seq<u8>)
    requires |hash| == 32 && alg == [0x06, 9] + SHA256_OID + [0x05, 0x00]
    requires inner == [0x30, 13] + alg + ([0x04, 32] + hash + [])
    ensures DIGEST_PREFIX + hash == [0x30, 49] + inner + [] && |alg| == 13 && |inner| == 49
  {}

  /** The last 51 bytes of the encoded message are that DigestInfo, and what comes before them is the
      padding 00 01 FF .. FF 00 with at least eight bytes FF. */
  lemma EncodedMessage(hash: seq<u8>, n: nat)
    requires |hash| == 32 && n >= 62
    ensures
      var em := Emsa(hash, n);
      && |em| == n && em[0] == 0 && em[1] == 1 && (forall i :: 2 <= i < n - 52 ==> em[i] == 255) && em[n - 52] == 0
      && n - 52 - 2 >= 8 && Decode(em[n - 51..]) == Some(Info([2, 16, 840, 1, 101, 3, 4, 2, 1], hash))
  {
    EmsaAt(hash, n);
    PrefixMeans(hash);
    assert Emsa(hash, n)[n - 51..] == DIGEST_PREFIX + hash;
    hide Decode;
  }
}
