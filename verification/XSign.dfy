/**
 * Request signatures: the accumulating signer of tools/xsgin and the client and server
 * halves of middleware/xsign.middleware.go. MD5 (RFC 1321) is an arbitrary function of
 * the bytes written; the clock is an argument, in nanoseconds since the Unix epoch.
 */
module XSign {
  import opened Wrappers
  import opened Bytes
  import opened Strconv
  import opened FormCodec
  import opened GoTime

  const SIGN_KEY: Str := "x-sign"
  const TIMESTAMP_KEY: Str := "x-ts"
  const MEGABYTE16 := 16 * 1024 * 1024
  const TOLERANCE := 60 * SECOND
  /** Seconds from year 1, where Go's time.Time counts from, to the Unix epoch. */
  const UNIX_TO_INTERNAL := 62135596800

  type Digest = Str -> Str

  function Hex(bs: Str): Str {
    if bs == [] then []
    else [LowerHex(bs[0] as int / 16), LowerHex(bs[0] as int % 16)] + Hex(bs[1..])
  }

  function LowerHex(n: nat): Byte
    requires n < 16
  {
    if n < 10 then ('0' as int + n) as char else ('a' as int + n - 10) as char
  }

  /** Two lower-case digits per byte, high nibble first. */
  lemma {:induction false} HexReadsBack(bs: Str, i: nat)
    requires i < |bs|
    ensures |Hex(bs)| == 2 * |bs|
    ensures HexValue(Hex(bs)[2 * i]) == Some(bs[i] as int / 16)
    ensures HexValue(Hex(bs)[2 * i + 1]) == Some(bs[i] as int % 16)
  {
    if i > 0 {
      HexReadsBack(bs[1..], i - 1);
    } else if |bs| > 1 {
      HexReadsBack(bs[1..], 0);
    }
  }

  class SignV3 {
    const md5: Digest
    const signKey: Str
    /** What the hash has absorbed so far. */
    var written: Str

    constructor (md5: Digest, signKey: Str)
      ensures this.md5 == md5 && this.signKey == signKey && written == []
    {
      this.md5 := md5;
      this.signKey := signKey;
      written := [];
    }

    method Write(p: Str)
      modifies this
      ensures written == old(written) + p
    {
      written := written + p;
    }

    /** Absorbs the key as well: a second call hashes it twice. */
    method CheckSum() returns (sum: Str)
      modifies this
      ensures written == old(written) + signKey
      ensures sum == Hex(md5(old(written) + signKey))
    {
      Write(signKey);
      sum := Hex(md5(written));
    }
  }

  /** An http body: reading it uses it up. */
  class Reader {
    var unread: Str

    constructor (bs: Str)
      ensures unread == bs
    {
      unread := bs;
    }

    method ReadAll() returns (bs: Str)
      modifies this
      ensures bs == old(unread) && unread == []
    {
      bs := unread;
      unread := [];
    }
  }

  class Request {
    const contentLength: int
    const isOptions: bool
    var rawQuery: Str
    var body: Reader?

    constructor (rawQuery: Str, body: Reader?, contentLength: int, isOptions: bool)
      ensures this.rawQuery == rawQuery && this.body == body
      ensures this.contentLength == contentLength && this.isOptions == isOptions
    {
      this.rawQuery := rawQuery;
      this.body := body;
      this.contentLength := contentLength;
      this.isOptions := isOptions;
    }

    /** What the next reader of the body will get. */
    function Readable(): Option<Str>
      reads this, body
    {
      if body == null then None else Some(body.unread)
    }

    /** io.ReadAll on the body, and a fresh body in its place. */
    method Snapshot() returns (bs: Str)
      modifies this, body
      ensures bs == Contents(old(Readable()))
      ensures Readable() == old(Readable()) && rawQuery == old(rawQuery)
      ensures body == null || fresh(body)
    {
      bs := [];
      if body != null {
        bs := body.ReadAll();
        body := new Reader(bs);
      }
    }
  }

  function Contents(readable: Option<Str>): Str {
    if readable.Some? then readable.value else []
  }

  // ---- what the two halves compute -----------------------------------------------

  datatype Signing = Signing(md5: Digest, key: Str)

  datatype Verdict = Skipped | Expired | Invalid | Accepted

  /** Time.Unix: whole seconds, rounded down. */
  function UnixSecond(now: int): int {
    now / SECOND
  }

  /** Instants whose Unix second time.Unix turns back into the same instant, without wrap-around. */
  predicate Representable(sec: int) {
    -Pow2(63) <= sec && sec + UNIX_TO_INTERNAL < Pow2(63)
  }

  /** Seconds since the epoch of time.Unix(sec, 0): the 64-bit count from year 1 wraps around. */
  function UnixTime(sec: int): int {
    if sec + UNIX_TO_INTERNAL >= Pow2(63) then sec - 2 * Pow2(63) else sec
  }

  function IsExpired(now: int, sec: int): bool {
    Sub(now, UnixTime(sec) * SECOND) > TOLERANCE
  }

  /** The bytes a signature covers: the canonical query and, below 16 MiB, the body. */
  function Content(query: Values, body: Str, contentLength: int): Str {
    Encode(query) + if contentLength < MEGABYTE16 then body else []
  }

  function Sum(s: Signing, content: Str): Str {
    Hex((s.md5)(content + s.key))
  }

  /** The multimap the client signs. */
  function Unsigned(raw: Str, now: int): Values {
    (Parse(raw) - {SIGN_KEY})[TIMESTAMP_KEY := [Itoa(UnixSecond(now))]]
  }

  function ClientQuery(s: Signing, raw: Str, body: Str, contentLength: int, now: int): Str {
    var query := Unsigned(raw, now);
    Encode(query[SIGN_KEY := [Sum(s, Content(query, body, contentLength))]])
  }

  function ServerVerdict(s: Signing, raw: Str, body: Str, contentLength: int, now: int): Verdict {
    var query := Parse(raw);
    if IsExpired(now, ParseInt(Get(query, TIMESTAMP_KEY), 64).value) then Expired
    else if Get(query, SIGN_KEY) != Sum(s, Content(query - {SIGN_KEY}, body, contentLength)) then Invalid
    else Accepted
  }

  class XSignMiddleware {
    const signing: Signing
    const enabled: bool

    constructor (signing: Signing, enabled: bool)
      ensures this.signing == signing && this.enabled == enabled
    {
      this.signing := signing;
      this.enabled := enabled;
    }

    method ClientHTTP(now: int, r: Request)
      modifies r, r.body
      ensures r.rawQuery ==
              ClientQuery(signing, old(r.rawQuery), Contents(old(r.Readable())), r.contentLength, now)
      ensures r.Readable() == old(r.Readable())
    {
      var query := Parse(r.rawQuery);
      query := query - {SIGN_KEY};
      query := query[TIMESTAMP_KEY := [Itoa(UnixSecond(now))]];
      var content := Encode(query);
      if r.contentLength < MEGABYTE16 {
        var bs := r.Snapshot();
        content := content + bs;
      }
      assert content == Content(query, Contents(old(r.Readable())), r.contentLength);
      var signer := new SignV3(signing.md5, signing.key);
      signer.Write(content);
      assert signer.written == content;
      var sum := signer.CheckSum();
      query := query[SIGN_KEY := [sum]];
      r.rawQuery := Encode(query);
    }

    /** The verdict is Accepted exactly when the wrapped handler is called; it then reads the same body. */
    method ServerHTTP(now: int, r: Request) returns (v: Verdict)
      modifies r, r.body
      ensures v == if !enabled || r.isOptions then Skipped
                   else ServerVerdict(signing, r.rawQuery, Contents(r.Readable()), r.contentLength, now)
      ensures r.Readable() == old(r.Readable()) && r.rawQuery == old(r.rawQuery)
    {
      if !enabled || r.isOptions {
        return Skipped;
      }
      var query := Parse(r.rawQuery);
      var xSign := Get(query, SIGN_KEY);
      var sec := ParseInt(Get(query, TIMESTAMP_KEY), 64).value;
      if IsExpired(now, sec) {
        return Expired;
      }
      query := query - {SIGN_KEY};
      var content := Encode(query);
      if r.contentLength < MEGABYTE16 {
        var bs := r.Snapshot();
        content := content + bs;
      }
      assert content == Content(query, Contents(r.Readable()), r.contentLength);
      var signer := new SignV3(signing.md5, signing.key);
      signer.Write(content);
      assert signer.written == content;
      var sum := signer.CheckSum();
      v := if xSign != sum then Invalid else Accepted;
    }
  }

  // ---- what the two halves promise together --------------------------------------

  lemma {:induction false} UnsignedWellFormed(raw: Str, now: int)
    ensures NoEmptyList(Unsigned(raw, now)) && SIGN_KEY !in Unsigned(raw, now)
  {
    ParseNoEmptyList(raw);
  }

  lemma {:induction false} SetThenDel(v: Values, k: Str, xs: seq<Str>)
    requires k !in v
    ensures v[k := xs] - {k} == v
  {
  }

  lemma {:induction false} SetTwice(v: Values, k: Str, xs: seq<Str>, ys: seq<Str>)
    ensures v[k := xs][k := ys] == v[k := ys]
  {
  }

  /** What the server parses out of a signed query: the signed multimap and the signature. */
  lemma {:induction false} ParseClientQuery(s: Signing, raw: Str, body: Str, contentLength: int, now: int)
    ensures var query := Unsigned(raw, now);
            var parsed := Parse(ClientQuery(s, raw, body, contentLength, now));
            && parsed - {SIGN_KEY} == query
            && Get(parsed, SIGN_KEY) == Sum(s, Content(query, body, contentLength))
            && Get(parsed, TIMESTAMP_KEY) == Itoa(UnixSecond(now))
  {
    UnsignedWellFormed(raw, now);
    var query := Unsigned(raw, now);
    var sum := [Sum(s, Content(query, body, contentLength))];
    var signed := query[SIGN_KEY := sum];
    assert |SIGN_KEY| != |TIMESTAMP_KEY|;
    assert query[TIMESTAMP_KEY] == signed[TIMESTAMP_KEY] == [Itoa(UnixSecond(now))];
    assert NoEmptyList(signed);
    ParseEncode(signed);
    SetThenDel(query, SIGN_KEY, sum);
  }

  /** The 64-bit saturation and the wrap-around never blur the one-minute test on real instants. */
  lemma {:induction false} ExpiryExact(now: int, sec: int)
    requires Representable(sec)
    ensures IsExpired(now, sec) <==> now - sec * SECOND > TOLERANCE
  {
    Pow2Int64();
  }

  /**
   * A request signed by the client is accepted by a server with the same key for as long as
   * its timestamp is at most a minute old, and refused as expired from then on; the query may
   * be anything, well-formed or not, and a server clock behind the client's does no harm.
   */
  lemma {:induction false} SignedRequestVerdict(s: Signing, raw: Str, body: Str, clientLength: int, serverLength: int,
                             clientNow: int, serverNow: int)
    requires Representable(UnixSecond(clientNow))
    requires clientLength < MEGABYTE16 <==> serverLength < MEGABYTE16
    ensures ServerVerdict(s, ClientQuery(s, raw, body, clientLength, clientNow), body, serverLength, serverNow) ==
            if serverNow - UnixSecond(clientNow) * 1_000_000_000 > 60_000_000_000 then Expired else Accepted
  {
    ParseClientQuery(s, raw, body, clientLength, clientNow);
    ParseIntItoa(UnixSecond(clientNow), 64);
    ExpiryExact(serverNow, UnixSecond(clientNow));
    var query := Unsigned(raw, clientNow);
    assert Content(query, body, serverLength) == Content(query, body, clientLength);
  }

  /** Signing a signed request again is the same as signing the original at the later time. */
  lemma {:induction false} ResignForgets(s: Signing, raw: Str, body: Str, contentLength: int, t1: int, t2: int)
    ensures ClientQuery(s, ClientQuery(s, raw, body, contentLength, t1), body, contentLength, t2) ==
            ClientQuery(s, raw, body, contentLength, t2)
  {
    ParseClientQuery(s, raw, body, contentLength, t1);
    UnsignedWellFormed(raw, t1);
    var once := ClientQuery(s, raw, body, contentLength, t1);
    SetTwice(Parse(raw) - {SIGN_KEY}, TIMESTAMP_KEY, [Itoa(UnixSecond(t1))], [Itoa(UnixSecond(t2))]);
    assert Unsigned(once, t2) == Unsigned(raw, t2);
  }

  /** Pairs may move as long as each key keeps the order of its values: both halves see no difference. */
  lemma {:induction false} ReorderInvisible(s: Signing, raw: Str, raw': Str, body: Str, contentLength: int, now: int)
    requires forall k :: ValuesFor(ParsePairs(raw), k) == ValuesFor(ParsePairs(raw'), k)
    ensures ClientQuery(s, raw, body, contentLength, now) == ClientQuery(s, raw', body, contentLength, now)
    ensures ServerVerdict(s, raw, body, contentLength, now) == ServerVerdict(s, raw', body, contentLength, now)
  {
    assert Parse(raw) == Parse(raw') by {
      CollectPerKey(ParsePairs(raw), ParsePairs(raw'));
    }
  }

  lemma {:induction false} SameConcatenation(a: Str, x: Str, b: Str, y: Str)
    requires |a| <= |b|
    ensures a + x == b + y <==> b == a + b[|a|..] && x == b[|a|..] + y
  {
    var n := |a|;
    if a + x == b + y {
      assert a == (a + x)[..n] == (b + y)[..n] == b[..n];
      assert x == (a + x)[n..] == (b + y)[n..] == b[n..] + y;
      assert b == b[..n] + b[n..];
    }
    if b == a + b[n..] && x == b[n..] + y {
      assert a + (b[n..] + y) == (a + b[n..]) + y;
    }
  }

  /**
   * When two requests below 16 MiB give the same bytes to hash: exactly when they are the same, or
   * when the longer query begins with the shorter one and its rest stands before its own body in
   * the other's. The hash has no border between query and body.
   */
  lemma {:induction false} ContentDistinguishes(query: Values, query': Values, body: Str, body': Str,
                                                contentLength: int)
    requires NoEmptyList(query) && NoEmptyList(query') && contentLength < MEGABYTE16
    requires |Encode(query)| <= |Encode(query')|
    ensures Content(query, body, contentLength) == Content(query', body', contentLength) <==>
            var rest := Encode(query')[|Encode(query)|..];
            Encode(query') == Encode(query) + rest && body == rest + body'
    ensures |Encode(query)| == |Encode(query')| ==>
              (Content(query, body, contentLength) == Content(query', body', contentLength) <==>
               query == query' && body == body')
  {
    var a, b := Encode(query), Encode(query');
    SameConcatenation(a, body, b, body');
    if |a| == |b| {
      EncodeInjective(query, query');
      assert b[|a|..] == [] && a + [] == a && [] + body' == body';
    }
  }

  lemma {:induction false} HexInjective(x: Str, y: Str)
    ensures Hex(x) == Hex(y) <==> x == y
  {
    HexLength(x);
    HexLength(y);
    if Hex(x) == Hex(y) {
      forall i | 0 <= i < |x| ensures x[i] == y[i] {
        HexReadsBack(x, i);
        HexReadsBack(y, i);
        assert x[i] as int == 16 * (x[i] as int / 16) + x[i] as int % 16;
        assert y[i] as int == 16 * (y[i] as int / 16) + y[i] as int % 16;
      }
    }
  }

  lemma {:induction false} HexLength(x: Str)
    ensures |Hex(x)| == 2 * |x|
  {
    if x != [] { HexReadsBack(x, 0); }
  }

  /** Two different texts with one digest. */
  predicate Collides(md5: Digest, x: Str, y: Str) {
    x != y && md5(x) == md5(y)
  }

  /**
   * What acceptance excludes: if the server accepts a request whose signature was made for other
   * parameters or another body, then either the bytes hashed were the same or MD5 collides on them.
   * With queries of equal printed length below 16 MiB, parameters and body are the signed ones or
   * MD5 collides.
   */
  lemma {:induction false} AcceptedMeansSigned(s: Signing, raw: Str, body: Str, contentLength: int, now: int,
                                               signed: Values, signedBody: Str, signedLength: int)
    requires ServerVerdict(s, raw, body, contentLength, now) == Accepted
    requires Get(Parse(raw), SIGN_KEY) == Sum(s, Content(signed, signedBody, signedLength))
    ensures var received, made := Content(Parse(raw) - {SIGN_KEY}, body, contentLength),
                                  Content(signed, signedBody, signedLength);
            && (received == made || Collides(s.md5, received + s.key, made + s.key))
            && (NoEmptyList(signed) && contentLength < MEGABYTE16 && signedLength < MEGABYTE16
                && |Encode(Parse(raw) - {SIGN_KEY})| == |Encode(signed)| ==>
                  || (Parse(raw) - {SIGN_KEY} == signed && body == signedBody)
                  || Collides(s.md5, received + s.key, made + s.key))
  {
    var query := Parse(raw) - {SIGN_KEY};
    var received, made := Content(query, body, contentLength), Content(signed, signedBody, signedLength);
    HexInjective((s.md5)(received + s.key), (s.md5)(made + s.key));
    if received + s.key == made + s.key {
      assert (received + s.key)[..|received|] == received && (made + s.key)[..|made|] == made;
    }
    ParseNoEmptyList(raw);
    if NoEmptyList(signed) && contentLength < MEGABYTE16 && signedLength < MEGABYTE16
       && |Encode(query)| == |Encode(signed)| {
      ContentDistinguishes(query, signed, body, signedBody, contentLength);
    }
  }

  /** Parameters, body, branch and clock leave room for one signature only. */
  lemma {:induction false} OneSignature(s: Signing, raw: Str, raw': Str, body: Str, length: int, length': int, now: int)
    requires Parse(raw) - {SIGN_KEY} == Parse(raw') - {SIGN_KEY}
    requires length < MEGABYTE16 <==> length' < MEGABYTE16
    requires ServerVerdict(s, raw, body, length, now) == Accepted == ServerVerdict(s, raw', body, length', now)
    ensures Get(Parse(raw), "x-sign") == Get(Parse(raw'), "x-sign")
  {
    assert Content(Parse(raw) - {SIGN_KEY}, body, length) == Content(Parse(raw') - {SIGN_KEY}, body, length');
  }

  /**
   * The server's verdict on any request whose parameters, apart from the signature, are those a client
   * signs at some time: expired when that is more than a minute ago, else accepted if and only if the
   * signature is the one that client puts into its query, and invalid with any other.
   */
  lemma {:induction false} VerdictExact(s: Signing, received: Str, raw: Str, body: Str, clientLength: int,
                                        serverLength: int, clientNow: int, serverNow: int)
    requires Representable(UnixSecond(clientNow))
    requires clientLength < MEGABYTE16 <==> serverLength < MEGABYTE16
    requires Parse(received) - {SIGN_KEY} == Unsigned(raw, clientNow)
    ensures ServerVerdict(s, received, body, serverLength, serverNow) ==
            if serverNow - UnixSecond(clientNow) * 1_000_000_000 > 60_000_000_000 then Expired
            else if Get(Parse(received), "x-sign") ==
                    Get(Parse(ClientQuery(s, raw, body, clientLength, clientNow)), "x-sign") then Accepted
            else Invalid
  {
    ParseClientQuery(s, raw, body, clientLength, clientNow);
    ReceivedSecond(received, raw, clientNow);
    ExpiryExact(serverNow, UnixSecond(clientNow));
    SameBranch(Unsigned(raw, clientNow), body, clientLength, serverLength);
  }

  lemma {:induction false} SameBranch(query: Values, body: Str, length: int, length': int)
    requires length < MEGABYTE16 <==> length' < MEGABYTE16
    ensures Content(query, body, length) == Content(query, body, length')
  {
  }

  lemma {:induction false} ReceivedSecond(received: Str, raw: Str, now: int)
    requires Representable(UnixSecond(now)) && Parse(received) - {SIGN_KEY} == Unsigned(raw, now)
    ensures ParseInt(Get(Parse(received), TIMESTAMP_KEY), 64) == Parsed(UnixSecond(now), Fine)
  {
    ParseIntItoa(UnixSecond(now), 64);
    assert |SIGN_KEY| != |TIMESTAMP_KEY|;
    var query := Parse(received) - {SIGN_KEY};
    assert TIMESTAMP_KEY in query && query[TIMESTAMP_KEY] == [Itoa(UnixSecond(now))];
    assert Parse(received)[TIMESTAMP_KEY] == query[TIMESTAMP_KEY];
  }

  /** What a client signs: the parameters it was given, but for the signature, with the current second. */
  lemma {:induction false} UnsignedExact(raw: Str, now: int)
    ensures var query := Unsigned(raw, now);
            && "x-sign" !in query && "x-ts" in query && query["x-ts"] == [Itoa(UnixSecond(now))]
            && forall k :: k != "x-sign" && k != "x-ts" ==>
                 (k in query <==> k in Parse(raw)) && (k in query ==> query[k] == Parse(raw)[k])
  {
    assert |SIGN_KEY| != |TIMESTAMP_KEY|;
  }

  /** The second of an instant, and which bytes are hashed: the body counts below 16 MiB. */
  lemma {:induction false} SecondAndContent(now: int, query: Values, body: Str, contentLength: int)
    ensures UnixSecond(now) * 1_000_000_000 <= now < (UnixSecond(now) + 1) * 1_000_000_000
    ensures Content(query, body, contentLength) ==
            if contentLength < 16_777_216 then Encode(query) + body else Encode(query)
  {
    assert Encode(query) + [] == Encode(query);
  }

  /** The digits of a signature are lower-case. */
  lemma {:induction false} HexIsLower(bs: Str)
    ensures forall i :: 0 <= i < |Hex(bs)| ==> '0' <= Hex(bs)[i] <= '9' || 'a' <= Hex(bs)[i] <= 'f'
  {
    if bs != [] { HexIsLower(bs[1..]); }
  }
}
