/** The request signer: a timestamp in whole seconds, the URL's path and a
    descriptor of the body are joined with '|' into a plaintext, whose UTF-8
    encoding is MAC'd with HMAC-SHA256 under the shared key and
    base64-encoded. HMAC-SHA256 and base64 are foreign code: they enter as
    the two functions of a `Crypto` value, about which nothing is assumed. */
module Signer {
  import opened Wrappers
  import Utf8
  import Decimal

  /** The body argument of the signer: absent, a text string, or any other
      payload (the program uses this for multipart form data). */
  datatype Body = NoBody | Text(text: string) | Other

  /** A URL as split by `urlparse` into its six components. */
  datatype Url = Url(scheme: string, netloc: string, path: string,
                     params: string, query: string, fragment: string)

  /** The foreign primitives: HMAC-SHA256(key, message) and base64 encoding. */
  datatype Crypto = Crypto(hmacSha256: (seq<Utf8.byte>, seq<Utf8.byte>) -> seq<Utf8.byte>,
                           b64encode: seq<Utf8.byte> -> string)

  /** What the signer returns: the timestamp header and the signature header. */
  datatype Signed = Signed(timestamp: string, signature: string)

  const Separator: char := '|'
  const MultipartDescriptor: string := "multipart/form-data"

  /** The part of the plaintext standing for the body. */
  function BodyDescriptor(body: Body): (d: string)
    ensures body.NoBody? ==> d == ""
    ensures body.Text? ==> d == body.text
    ensures body.Other? ==> d == MultipartDescriptor
  {
    match body
    case NoBody => ""
    case Text(t) => t
    case Other => MultipartDescriptor
  }

  /** The seconds of the clock reading, rendered in decimal. */
  function Timestamp(now: real): (ts: string)
    ensures Decimal.ParseInt(ts) == Some(Decimal.Truncate(now))
    ensures Separator !in ts
  {
    var ts := Decimal.IntToDecimal(Decimal.Truncate(now));
    Decimal.ParseIntToDecimal(Decimal.Truncate(now));
    ts
  }

  /** The text that gets signed. */
  function Plaintext(ts: string, path: string, descriptor: string): (s: string)
    ensures |s| == |ts| + |path| + |descriptor| + 2
    ensures s[..|ts|] == ts && s[|ts|] == Separator
    ensures s[|ts| + 1..|ts| + 1 + |path|] == path && s[|ts| + 1 + |path|] == Separator
    ensures s[|ts| + |path| + 2..] == descriptor
  {
    ts + [Separator] + path + [Separator] + descriptor
  }

  /** Splits at the first separator: the text before it and the text after it. */
  function SplitAtSeparator(s: string): (r: Option<(string, string)>)
    ensures r.Some? ==> Separator !in r.value.0 && s == r.value.0 + [Separator] + r.value.1
    ensures r.None? <==> Separator !in s
  {
    if |s| == 0 then None
    else if s[0] == Separator then Some(([], s[1..]))
    else
      match SplitAtSeparator(s[1..])
      case None => None
      case Some((a, b)) => Some(([s[0]] + a, b))
  }

  /** Reads a plaintext back into (timestamp, path, descriptor), assuming the
      first two contain no separator; the descriptor may contain anything. */
  function ParsePlaintext(s: string): Option<(string, string, string)>
  {
    match SplitAtSeparator(s)
    case None => None
    case Some((ts, rest)) =>
      match SplitAtSeparator(rest)
      case None => None
      case Some((path, descriptor)) => Some((ts, path, descriptor))
  }

  /** The bytes handed to HMAC-SHA256: the UTF-8 encoding of the plaintext. */
  function MacInput(now: real, url: Url, body: Body): (bs: seq<Utf8.byte>)
    ensures Utf8.Decode(bs) == Some(Timestamp(now) + "|" + url.path + "|" + BodyDescriptor(body))
  {
    var plain := Plaintext(Timestamp(now), url.path, BodyDescriptor(body));
    Utf8.DecodeEncode(plain);
    Utf8.Encode(plain)
  }

  /** Signs a request. The timestamp reads back as the truncated clock; the
      signature is base64 of HMAC-SHA256 under `key` of the UTF-8 plaintext
      built from that timestamp, the URL's path and the body descriptor. */
  function Sign(crypto: Crypto, key: seq<Utf8.byte>, now: real, url: Url, body: Body): (r: Signed)
    ensures Decimal.ParseInt(r.timestamp) == Some(Decimal.Truncate(now))
    ensures r.signature == crypto.b64encode(crypto.hmacSha256(key,
              Utf8.Encode(Plaintext(r.timestamp, url.path, BodyDescriptor(body)))))
  {
    var ts := Timestamp(now);
    Signed(ts, crypto.b64encode(crypto.hmacSha256(key, MacInput(now, url, body))))
  }

  /** The first separator of a string that has none before `a` ends is the one
      after `a`. */
  lemma {:induction false} SplitAtSeparatorAppend(a: string, b: string)
    requires Separator !in a
    ensures SplitAtSeparator(a + [Separator] + b) == Some((a, b))
  {
    var s := a + [Separator] + b;
    if |a| == 0 {
      assert s[1..] == b;
    } else {
      assert s[1..] == a[1..] + [Separator] + b;
      SplitAtSeparatorAppend(a[1..], b);
      assert [a[0]] + a[1..] == a;
    }
  }

  /** The plaintext can be read back into its three parts when the path holds
      no separator (the timestamp never does). */
  lemma ParsePlaintextRoundTrip(ts: string, path: string, descriptor: string)
    requires Separator !in ts && Separator !in path
    ensures ParsePlaintext(Plaintext(ts, path, descriptor)) == Some((ts, path, descriptor))
  {
    assert Plaintext(ts, path, descriptor) == ts + [Separator] + (path + [Separator] + descriptor);
    SplitAtSeparatorAppend(ts, path + [Separator] + descriptor);
    SplitAtSeparatorAppend(path, descriptor);
  }

  /** Equal plaintexts from separator-free timestamps and paths come from equal
      timestamps, paths and descriptors. */
  lemma PlaintextInjective(ts1: string, path1: string, d1: string,
                           ts2: string, path2: string, d2: string)
    requires Separator !in ts1 && Separator !in path1
    requires Separator !in ts2 && Separator !in path2
    ensures Plaintext(ts1, path1, d1) == Plaintext(ts2, path2, d2)
            <==> ts1 == ts2 && path1 == path2 && d1 == d2
  {
    ParsePlaintextRoundTrip(ts1, path1, d1);
    ParsePlaintextRoundTrip(ts2, path2, d2);
  }

  /** Two bodies have the same descriptor exactly when they are equal, or one
      is absent and the other the empty text, or one is a non-text payload and
      the other the text "multipart/form-data". */
  lemma BodyDescriptorCollisions(b1: Body, b2: Body)
    ensures BodyDescriptor(b1) == BodyDescriptor(b2) <==>
            || b1 == b2
            || ({b1, b2} == {NoBody, Text("")})
            || ({b1, b2} == {Other, Text(MultipartDescriptor)})
  {
  }

  /** The signature is a function of the key and the plaintext alone: requests
      whose plaintexts agree are signed alike, whatever their scheme, host,
      query or fragment, and whatever body produced the descriptor. */
  lemma SignatureDependsOnlyOnKeyAndPlaintext(crypto: Crypto, key: seq<Utf8.byte>,
                                              now1: real, url1: Url, body1: Body,
                                              now2: real, url2: Url, body2: Body)
    requires Plaintext(Timestamp(now1), url1.path, BodyDescriptor(body1))
             == Plaintext(Timestamp(now2), url2.path, BodyDescriptor(body2))
    ensures Sign(crypto, key, now1, url1, body1).signature
            == Sign(crypto, key, now2, url2, body2).signature
  {
  }

  /** Because the separator may occur in a path or a body, different
      (path, descriptor) pairs can share a plaintext: "/a|b" with body "c"
      is signed exactly like "/a" with body "b|c". */
  lemma SeparatorInPathIsAmbiguous(crypto: Crypto, key: seq<Utf8.byte>, now: real, url: Url)
    ensures Sign(crypto, key, now, url.(path := "/a|b"), Text("c")).signature
            == Sign(crypto, key, now, url.(path := "/a"), Text("b|c")).signature
  {
    var ts := Timestamp(now);
    assert Plaintext(ts, "/a|b", "c") == Plaintext(ts, "/a", "b|c");
  }

  /** Whatever HMAC is, it is handed different bytes whenever the whole seconds,
      the path or the body descriptor differ (paths without a separator). So
      the signature can only coincide through a collision of the MAC itself. */
  lemma MacInputDistinguishes(now1: real, url1: Url, body1: Body,
                              now2: real, url2: Url, body2: Body)
    requires Separator !in url1.path && Separator !in url2.path
    ensures MacInput(now1, url1, body1) == MacInput(now2, url2, body2)
            <==> && Decimal.Truncate(now1) == Decimal.Truncate(now2)
                 && url1.path == url2.path
                 && BodyDescriptor(body1) == BodyDescriptor(body2)
  {
    var ts1, ts2 := Timestamp(now1), Timestamp(now2);
    var p1 := Plaintext(ts1, url1.path, BodyDescriptor(body1));
    var p2 := Plaintext(ts2, url2.path, BodyDescriptor(body2));
    if MacInput(now1, url1, body1) == MacInput(now2, url2, body2) {
      Utf8.EncodeInjective(p1, p2);
      PlaintextInjective(ts1, url1.path, BodyDescriptor(body1), ts2, url2.path, BodyDescriptor(body2));
      assert Decimal.ParseInt(ts1) == Decimal.ParseInt(ts2);
    }
  }
}
