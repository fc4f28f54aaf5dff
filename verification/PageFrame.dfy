/** Header maps and the binary frame a page is stored as. */
module PageFrame {
  import opened Options
  import opened Pieces

  datatype Header = Header(name: Bytes, value: Bytes)

  /** A header map in iteration order: the values of one name stand together. */
  type Headers = seq<Header>

  predicate Has(h: Headers, n: Bytes) { exists i :: 0 <= i < |h| && h[i].name == n }

  /** Every value of a name, in order. */
  function Values(h: Headers, n: Bytes): seq<Bytes> {
    if h == [] then []
    else (if h[0].name == n then [h[0].value] else []) + Values(h[1..], n)
  }

  function Without(h: Headers, n: Bytes): Headers {
    if h == [] then []
    else (if h[0].name == n then [] else [h[0]]) + Without(h[1..], n)
  }

  predicate Grouped(h: Headers) {
    forall i, j, k :: 0 <= i < j < k < |h| && h[i].name == h[k].name ==> h[j].name == h[i].name
  }

  /** `append`: after the other values of the name, or last. */
  function Append(h: Headers, x: Header): Headers {
    if !Has(h, x.name) || h[|h| - 1].name == x.name then h + [x]
    else Append(h[..|h| - 1], x) + [h[|h| - 1]]
  }

  // ---------------------------------------------------------------- What a header may hold

  /** A token byte of section 5.6.2 of RFC 9110, in either case. */
  predicate Token(b: byte) {
    || b == 33 || 35 <= b <= 39 || b == 42 || b == 43 || b == 45 || b == 46 || 48 <= b <= 57
    || 65 <= b <= 90 || 94 <= b <= 122 || b == 124 || b == 126
  }

  function LowerByte(b: byte): byte { if 65 <= b <= 90 then b + 32 else b }

  function Lower(s: Bytes): Bytes { seq(|s|, i requires 0 <= i < |s| => LowerByte(s[i])) }

  const MAX_NAME := 65535

  predicate NameLike(s: Bytes) {
    1 <= |s| <= MAX_NAME && forall i :: 0 <= i < |s| ==> Token(s[i])
  }

  /** A name as a header map holds it. */
  predicate ValidName(s: Bytes) { NameLike(s) && Lower(s) == s }

  predicate ValidValue(v: Bytes) {
    forall i :: 0 <= i < |v| ==> (v[i] >= 32 && v[i] != 127) || v[i] == 9
  }

  predicate ValidHeader(x: Header) { ValidName(x.name) && ValidValue(x.value) }

  predicate ValidHeaders(h: Headers) {
    Grouped(h) && forall i :: 0 <= i < |h| ==> ValidHeader(h[i])
  }

  lemma LowerIsValid(s: Bytes)
    requires NameLike(s)
    ensures ValidName(Lower(s))
  {
  }

  // ---------------------------------------------------------------- The frame

  datatype Page = Page(status: nat, headers: Headers, body: Bytes)

  predicate ValidStatus(s: nat) { 100 <= s <= 999 }

  predicate ValidPage(p: Page) { ValidStatus(p.status) && ValidHeaders(p.headers) }

  datatype FrameError = UnknownVersion | Truncated | BadStatus | BadHeader

  datatype Result<+T> = Ok(value: T) | Err(error: FrameError)

  const FRAME_V1: byte := 1

  const U32_LIMIT := 0x1_0000_0000

  function CacheStatusName(): Bytes { B("x-cache-status") }

  function U32(n: nat): (s: Bytes)
    requires n < U32_LIMIT
    ensures |s| == 4
  {
    [(n / 16777216) as byte, (n / 65536 % 256) as byte, (n / 256 % 256) as byte, (n % 256) as byte]
  }

  function ReadU32(f: Bytes): (n: nat)
    requires |f| >= 4
    ensures n < U32_LIMIT
  {
    (f[0] as nat) * 16777216 + (f[1] as nat) * 65536 + (f[2] as nat) * 256 + (f[3] as nat)
  }

  lemma U32RoundTrip(n: nat, rest: Bytes)
    requires n < U32_LIMIT
    ensures ReadU32(U32(n) + rest) == n && (U32(n) + rest)[4..] == rest
  {
    var f := U32(n) + rest;
    assert f[0] as nat == n / 16777216 && f[1] as nat == n / 65536 % 256;
    assert f[2] as nat == n / 256 % 256 && f[3] as nat == n % 256;
    assert n / 65536 == 256 * (n / 16777216) + n / 65536 % 256;
    assert n / 256 == 256 * (n / 65536) + n / 256 % 256;
  }

  function Sized(s: Bytes): Bytes
    requires |s| < U32_LIMIT
  {
    U32(|s|) + s
  }

  predicate Fits(h: Headers) {
    |h| < U32_LIMIT && forall i :: 0 <= i < |h| ==> |h[i].name| < U32_LIMIT && |h[i].value| < U32_LIMIT
  }

  function Block(h: Headers): Bytes
    requires forall i :: 0 <= i < |h| ==> |h[i].name| < U32_LIMIT && |h[i].value| < U32_LIMIT
  {
    if h == [] then [] else Sized(h[0].name) + (Sized(h[0].value) + Block(h[1..]))
  }

  /** Version, status and header count. */
  function Head(status: nat, count: nat): (s: Bytes)
    requires status < 65536 && count < U32_LIMIT
    ensures |s| == 7
  {
    [FRAME_V1, (status / 256) as byte, (status % 256) as byte] + U32(count)
  }

  /** The frame up to the body. */
  function Preamble(status: nat, h: Headers): Bytes
    requires status < 65536 && Fits(h)
  {
    Head(status, |h|) + Block(h)
  }

  /** `encode`: every header but `x-cache-status`, which is set fresh on every hit. */
  function Encode(p: Page): Option<Bytes>
    requires p.status < 65536
  {
    var kept := Without(p.headers, CacheStatusName());
    if Fits(kept) then Some(Preamble(p.status, kept) + p.body) else None
  }

  /** A length-prefixed part and what follows it. */
  function Part(f: Bytes): Result<(Bytes, Bytes)> {
    if |f| < 4 then Err(Truncated)
    else if |f| - 4 < ReadU32(f) then Err(Truncated)
    else Ok((f[4..4 + ReadU32(f)], f[4 + ReadU32(f)..]))
  }

  /** One header read off the front, appended. */
  function ReadHeader(f: Bytes, got: Headers): Result<(Headers, Bytes)> {
    match Part(f)
    case Err(e) => Err(e)
    case Ok((name, f')) =>
      if !NameLike(name) then Err(BadHeader)
      else match Part(f')
        case Err(e) => Err(e)
        case Ok((value, f'')) =>
          if !ValidValue(value) then Err(BadHeader) else Ok((Append(got, Header(Lower(name), value)), f''))
  }

  function ReadHeaders(f: Bytes, count: nat, got: Headers): Result<(Headers, Bytes)>
    decreases count
  {
    if count == 0 then Ok((got, f))
    else match ReadHeader(f, got)
      case Err(e) => Err(e)
      case Ok((more, f')) => ReadHeaders(f', count - 1, more)
  }

  /** `decode`. Total: every byte string is a page or refused. */
  function Decode(f: Bytes): Result<Page> {
    if |f| < 1 then Err(Truncated)
    else if f[0] != FRAME_V1 then Err(UnknownVersion)
    else if |f| < 3 then Err(Truncated)
    else
      var status := (f[1] as nat) * 256 + (f[2] as nat);
      if !ValidStatus(status) then Err(BadStatus)
      else if |f| < 7 then Err(Truncated)
      else match ReadHeaders(f[7..], ReadU32(f[3..]), [])
        case Err(e) => Err(e)
        case Ok((h, body)) => Ok(Page(status, h, body))
  }

  // ---------------------------------------------------------------- Round trip

  lemma PartOfSized(s: Bytes, rest: Bytes)
    requires |s| < U32_LIMIT
    ensures Part(Sized(s) + rest) == Ok((s, rest))
  {
    var f := Sized(s) + rest;
    assert f == U32(|s|) + (s + rest);
    U32RoundTrip(|s|, s + rest);
    assert f[4..] == s + rest;
    assert f[4..4 + |s|] == f[4..][..|s|] && f[4 + |s|..] == f[4..][|s|..];
  }

  lemma AppendLast(h: Headers, x: Header)
    requires Grouped(h + [x])
    ensures Append(h, x) == h + [x]
  {
    if Has(h, x.name) {
      var i :| 0 <= i < |h| && h[i].name == x.name;
      var g := h + [x];
      assert g[i].name == g[|h|].name;
      assert i < |h| - 1 ==> g[|h| - 1].name == g[i].name;
    }
  }

  lemma GroupedPrefix(got: Headers, h: Headers)
    requires h != [] && ValidHeaders(got + h)
    ensures ValidHeader(h[0]) && Grouped(got + [h[0]])
  {
    var g := got + [h[0]];
    assert (got + h)[|got|] == h[0];
    forall i, j, k | 0 <= i < j < k < |g| && g[i].name == g[k].name
      ensures g[j].name == g[i].name
    {
      assert (got + h)[i].name == (got + h)[k].name && (got + h)[j].name == (got + h)[i].name;
    }
  }

  lemma ReadOne(x: Header, rest: Bytes, got: Headers)
    requires |x.name| < U32_LIMIT && |x.value| < U32_LIMIT && ValidHeader(x) && Grouped(got + [x])
    ensures ReadHeader(Sized(x.name) + (Sized(x.value) + rest), got) == Ok((got + [x], rest))
  {
    PartOfSized(x.name, Sized(x.value) + rest);
    PartOfSized(x.value, rest);
    AppendLast(got, x);
  }

  lemma BlockFirst(h: Headers, rest: Bytes)
    requires h != [] && Fits(h)
    ensures Block(h) + rest == Sized(h[0].name) + (Sized(h[0].value) + (Block(h[1..]) + rest))
  {
  }

  lemma ReadHeadersStep(f: Bytes, count: nat, got: Headers, f': Bytes, more: Headers)
    requires count > 0 && ReadHeader(f, got) == Ok((more, f'))
    ensures ReadHeaders(f, count, got) == ReadHeaders(f', count - 1, more)
  {
  }

  lemma Shift(got: Headers, h: Headers)
    requires h != []
    ensures (got + [h[0]]) + h[1..] == got + h
  {
  }

  /** The first header of a block, read. */
  lemma ReadFirst(h: Headers, rest: Bytes, got: Headers)
    requires h != [] && |h[0].name| < U32_LIMIT && |h[0].value| < U32_LIMIT && ValidHeaders(got + h)
    ensures ReadHeaders(Sized(h[0].name) + (Sized(h[0].value) + rest), |h|, got) ==
            ReadHeaders(rest, |h| - 1, got + [h[0]])
  {
    var x := h[0];
    assert ValidHeader(x) && Grouped(got + [x]) by { GroupedPrefix(got, h); }
    var f := Sized(x.name) + (Sized(x.value) + rest);
    assert ReadHeader(f, got) == Ok((got + [x], rest)) by { ReadOne(x, rest, got); }
    ReadHeadersStep(f, |h|, got, rest, got + [x]);
  }

  lemma {:induction false} ReadHeadersOfBlock(h: Headers, body: Bytes, got: Headers)
    requires Fits(h) && ValidHeaders(got + h)
    ensures ReadHeaders(Block(h) + body, |h|, got) == Ok((got + h, body))
    decreases |h|
  {
    if h == [] {
      assert got + h == got && Block(h) + body == body;
    } else {
      BlockFirst(h, body);
      ReadFirst(h, Block(h[1..]) + body, got);
      Shift(got, h);
      ReadHeadersOfBlock(h[1..], body, got + [h[0]]);
    }
  }

  /** Where each kept header stood. */
  lemma {:induction false} WithoutOrder(h: Headers, n: Bytes) returns (at: seq<nat>)
    ensures |at| == |Without(h, n)|
    ensures forall i :: 0 <= i < |at| ==> at[i] < |h| && Without(h, n)[i] == h[at[i]]
    ensures forall i, j :: 0 <= i < j < |at| ==> at[i] < at[j]
  {
    if h == [] {
      at := [];
    } else {
      var rest := WithoutOrder(h[1..], n);
      var shifted := seq(|rest|, i requires 0 <= i < |rest| => rest[i] + 1);
      at := if h[0].name == n then shifted else [0] + shifted;
    }
  }

  lemma WithoutKeepsValid(h: Headers, n: Bytes)
    requires ValidHeaders(h)
    ensures ValidHeaders(Without(h, n))
  {
    var at := WithoutOrder(h, n);
    var w := Without(h, n);
    forall i, j, k | 0 <= i < j < k < |w| && w[i].name == w[k].name
      ensures w[j].name == w[i].name
    {
      assert h[at[i]].name == h[at[k]].name && at[i] < at[j] < at[k];
    }
  }

  lemma HeadParts(status: nat, count: nat, tail: Bytes)
    requires status < 65536 && count < U32_LIMIT
    ensures var f := Head(status, count) + tail;
      && |f| >= 7 && f[0] == FRAME_V1 && (f[1] as nat) * 256 + (f[2] as nat) == status
      && ReadU32(f[3..]) == count && f[7..] == tail
  {
    var f := Head(status, count) + tail;
    assert f[1] == (status / 256) as byte && f[2] == (status % 256) as byte;
    assert f[3..] == U32(count) + tail;
    U32RoundTrip(count, tail);
  }

  /** What decoding does once the head is read. */
  lemma DecodeParts(f: Bytes, status: nat, count: nat, tail: Bytes)
    requires ValidStatus(status) && |f| >= 7 && f[0] == FRAME_V1 && (f[1] as nat) * 256 + (f[2] as nat) == status
    requires ReadU32(f[3..]) == count && f[7..] == tail
    ensures Decode(f) ==
      match ReadHeaders(tail, count, [])
      case Err(e) => Err(e)
      case Ok((h, body)) => Ok(Page(status, h, body))
  {
  }

  /** What decoding does with a well-formed head. */
  lemma DecodeHead(status: nat, count: nat, tail: Bytes)
    requires ValidStatus(status) && count < U32_LIMIT
    ensures Decode(Head(status, count) + tail) ==
      match ReadHeaders(tail, count, [])
      case Err(e) => Err(e)
      case Ok((h, body)) => Ok(Page(status, h, body))
  {
    HeadParts(status, count, tail);
    DecodeParts(Head(status, count) + tail, status, count, tail);
  }

  lemma Regrouped(a: Bytes, b: Bytes, c: Bytes)
    ensures a + b + c == a + (b + c)
  {
  }

  lemma FrameIs(p: Page, h: Headers)
    requires p.status < 65536 && h == Without(p.headers, CacheStatusName()) && Encode(p).Some?
    ensures Fits(h) && Encode(p).value == Head(p.status, |h|) + (Block(h) + p.body)
  {
    assert Encode(p) == Some(Preamble(p.status, h) + p.body);
    Regrouped(Head(p.status, |h|), Block(h), p.body);
  }

  lemma DecodeFrameOf(status: nat, h: Headers, body: Bytes)
    requires ValidStatus(status) && Fits(h) && ValidHeaders(h)
    ensures Decode(Head(status, |h|) + (Block(h) + body)) == Ok(Page(status, h, body))
  {
    DecodeHead(status, |h|, Block(h) + body);
    assert [] + h == h;
    ReadHeadersOfBlock(h, body, []);
  }

  /** Decoding an encoded page gives back its status, its headers without `x-cache-status`,
      and its body. */
  lemma DecodeOfEncode(p: Page)
    requires ValidPage(p) && Encode(p).Some?
    ensures Decode(Encode(p).value) == Ok(p.(headers := Without(p.headers, CacheStatusName())))
  {
    var h := Without(p.headers, CacheStatusName());
    WithoutKeepsValid(p.headers, CacheStatusName());
    FrameIs(p, h);
    DecodeFrameOf(p.status, h, p.body);
  }

  // ---------------------------------------------------------------- Cuts

  /** A part cut short is refused. */
  lemma PartCut(s: Bytes, rest: Bytes, k: nat)
    requires |s| < U32_LIMIT && k < |Sized(s)|
    ensures Part((Sized(s) + rest)[..k]) == Err(Truncated)
  {
    var f := (Sized(s) + rest)[..k];
    if k >= 4 {
      assert f == U32(|s|) + s[..k - 4];
      U32RoundTrip(|s|, s[..k - 4]);
    }
  }

  lemma HeaderCut(x: Header, rest: Bytes, got: Headers, k: nat)
    requires |x.name| < U32_LIMIT && |x.value| < U32_LIMIT && ValidHeader(x)
    requires k < |Sized(x.name)| + |Sized(x.value)|
    ensures ReadHeader((Sized(x.name) + (Sized(x.value) + rest))[..k], got) == Err(Truncated)
  {
    var n := |Sized(x.name)|;
    var f := (Sized(x.name) + (Sized(x.value) + rest))[..k];
    if k < n {
      PartCut(x.name, Sized(x.value) + rest, k);
    } else {
      var g := (Sized(x.value) + rest)[..k - n];
      assert f == Sized(x.name) + g;
      PartOfSized(x.name, g);
      PartCut(x.value, rest, k - n);
    }
  }

  lemma CutBehind(a: Bytes, b: Bytes, c: Bytes, k: nat)
    requires |a| + |b| <= k <= |a| + |b| + |c|
    ensures (a + (b + c))[..k] == a + (b + c[..k - |a| - |b|])
  {
  }

  /** A cut behind the first header leaves it to be read. */
  lemma CutReadsFirst(h: Headers, body: Bytes, got: Headers, k: nat, m: nat)
    requires h != [] && Fits(h) && ValidHeaders(got + h) && m == |Sized(h[0].name)| + |Sized(h[0].value)|
    requires m <= k <= |Block(h) + body|
    ensures k - m <= |Block(h[1..]) + body|
    ensures ReadHeaders((Block(h) + body)[..k], |h|, got) ==
            ReadHeaders((Block(h[1..]) + body)[..k - m], |h| - 1, got + [h[0]])
  {
    var after := Block(h[1..]) + body;
    BlockFirst(h, body);
    CutBehind(Sized(h[0].name), Sized(h[0].value), after, k);
    ReadFirst(h, after[..k - m], got);
  }

  lemma CutInFirst(h: Headers, body: Bytes, got: Headers, k: nat)
    requires h != [] && Fits(h) && ValidHeaders(got + h) && k < |Sized(h[0].name)| + |Sized(h[0].value)|
    ensures k <= |Block(h) + body| && ReadHeaders((Block(h) + body)[..k], |h|, got) == Err(Truncated)
  {
    BlockFirst(h, body);
    GroupedPrefix(got, h);
    HeaderCut(h[0], Block(h[1..]) + body, got, k);
  }

  /** Headers in a block are cut into the first and the others. */
  lemma BlockLength(h: Headers)
    requires h != [] && Fits(h)
    ensures Fits(h[1..]) && |Block(h)| == |Sized(h[0].name)| + |Sized(h[0].value)| + |Block(h[1..])|
  {
  }

  lemma ValidShift(got: Headers, h: Headers)
    requires h != [] && ValidHeaders(got + h)
    ensures ValidHeaders((got + [h[0]]) + h[1..])
  {
    Shift(got, h);
  }

  /** Headers cut short are refused as truncated, wherever the cut falls. */
  lemma {:induction false} HeadersCut(h: Headers, body: Bytes, got: Headers, k: nat)
    requires h != [] && Fits(h) && ValidHeaders(got + h) && k < |Block(h)|
    ensures ReadHeaders((Block(h) + body)[..k], |h|, got) == Err(Truncated)
    decreases |h|
  {
    var m := |Sized(h[0].name)| + |Sized(h[0].value)|;
    BlockLength(h);
    if k < m {
      CutInFirst(h, body, got, k);
    } else {
      ValidShift(got, h);
      CutReadsFirst(h, body, got, k, m);
      assert h[1..] != [] by { assert |Block(h[1..])| > k - m; }
      HeadersCut(h[1..], body, got + [h[0]], k - m);
    }
  }

  lemma HeadCut(f: Bytes, k: nat)
    requires |f| >= 7 > k && f[0] == FRAME_V1 && ValidStatus((f[1] as nat) * 256 + (f[2] as nat))
    ensures Decode(f[..k]) == Err(Truncated)
  {
  }

  lemma TailCut(a: Bytes, tail: Bytes, k: nat)
    requires |a| <= k <= |a| + |tail|
    ensures (a + tail)[..k] == a + tail[..k - |a|]
  {
  }

  lemma TruncatedFrame(status: nat, count: nat, tail: Bytes)
    requires ValidStatus(status) && count < U32_LIMIT && ReadHeaders(tail, count, []) == Err(Truncated)
    ensures Decode(Head(status, count) + tail) == Err(Truncated)
  {
    DecodeHead(status, count, tail);
  }

  lemma AllHeadersCut(h: Headers, body: Bytes, k: nat)
    requires h != [] && Fits(h) && ValidHeaders(h) && k < |Block(h)|
    ensures ReadHeaders((Block(h) + body)[..k], |h|, []) == Err(Truncated)
  {
    assert [] + h == h;
    HeadersCut(h, body, [], k);
  }

  lemma FrameCutBehind(status: nat, h: Headers, body: Bytes, k: nat)
    requires ValidStatus(status) && h != [] && Fits(h) && ValidHeaders(h) && 7 <= k < 7 + |Block(h)|
    ensures Decode((Head(status, |h|) + (Block(h) + body))[..k]) == Err(Truncated)
  {
    TailCut(Head(status, |h|), Block(h) + body, k);
    AllHeadersCut(h, body, k - 7);
    TruncatedFrame(status, |h|, (Block(h) + body)[..k - 7]);
  }

  lemma FrameCut(status: nat, h: Headers, body: Bytes, k: nat)
    requires ValidStatus(status) && Fits(h) && ValidHeaders(h) && k < 7 + |Block(h)|
    ensures Decode((Head(status, |h|) + (Block(h) + body))[..k]) == Err(Truncated)
  {
    if k >= 7 {
      FrameCutBehind(status, h, body, k);
    } else {
      HeadParts(status, |h|, Block(h) + body);
      HeadCut(Head(status, |h|) + (Block(h) + body), k);
    }
  }

  /** Every cut inside the header block of a stored page is refused as truncated. */
  lemma CutIsTruncated(p: Page, k: nat)
    requires ValidPage(p) && Encode(p).Some?
    requires k < |Preamble(p.status, Without(p.headers, CacheStatusName()))|
    ensures Decode(Encode(p).value[..k]) == Err(Truncated)
  {
    var h := Without(p.headers, CacheStatusName());
    WithoutKeepsValid(p.headers, CacheStatusName());
    FrameIs(p, h);
    FrameCut(p.status, h, p.body, k);
  }

  // ---------------------------------------------------------------- Whatever is decoded is a page

  /** Where `append` puts a header: after the last of its name, or at the end. */
  lemma {:induction false} AppendAt(h: Headers, x: Header) returns (m: nat)
    ensures m <= |h| && Append(h, x) == h[..m] + [x] + h[m..]
    ensures m < |h| ==> m > 0 && h[m - 1].name == x.name
    ensures forall i :: m <= i < |h| ==> h[i].name != x.name
    ensures m == |h| ==> !Has(h, x.name) || h[|h| - 1].name == x.name
    decreases |h|
  {
    if !Has(h, x.name) || h[|h| - 1].name == x.name {
      m := |h|;
      assert h[..m] + [x] + h[m..] == h + [x];
    } else {
      var init, last := h[..|h| - 1], h[|h| - 1];
      m := AppendAt(init, x);
      var i :| 0 <= i < |h| && h[i].name == x.name;
      assert init[i].name == x.name;
      assert h[..m] + [x] + h[m..] == (init[..m] + [x] + init[m..]) + [last];
    }
  }

  lemma AppendGrouped(h: Headers, x: Header, m: nat, i: nat, j: nat, k: nat)
    requires Grouped(h) && m <= |h| && i < j < k < |h| + 1
    requires m < |h| ==> m > 0 && h[m - 1].name == x.name
    requires forall i :: m <= i < |h| ==> h[i].name != x.name
    requires m == |h| ==> !Has(h, x.name) || h[|h| - 1].name == x.name
    requires var g := h[..m] + [x] + h[m..]; g[i].name == g[k].name
    ensures var g := h[..m] + [x] + h[m..]; g[j].name == g[i].name
  {
    var g := h[..m] + [x] + h[m..];
    if k < m {
      assert g[i] == h[i] && g[j] == h[j] && g[k] == h[k];
    } else if k == m {
      assert g[i] == h[i] && g[j] == h[j] && g[k] == x;
      assert Has(h, x.name);
      assert h[m - 1].name == x.name;
      assert j < m - 1 ==> h[j].name == h[i].name;
    } else {
      assert g[k] == h[k - 1];
      assert i > m ==> g[i] == h[i - 1] && g[j] == h[j - 1];
    }
  }

  lemma AppendKeepsValid(h: Headers, x: Header)
    requires ValidHeaders(h) && ValidHeader(x)
    ensures ValidHeaders(Append(h, x))
  {
    var m := AppendAt(h, x);
    var g := Append(h, x);
    forall i | 0 <= i < |g|
      ensures ValidHeader(g[i])
    {
      assert g[i] == if i < m then h[i] else if i == m then x else h[i - 1];
    }
    forall i, j, k | 0 <= i < j < k < |g| && g[i].name == g[k].name
      ensures g[j].name == g[i].name
    {
      AppendGrouped(h, x, m, i, j, k);
    }
  }

  lemma {:induction false} ReadHeadersValid(f: Bytes, count: nat, got: Headers)
    requires ValidHeaders(got) && ReadHeaders(f, count, got).Ok?
    ensures ValidHeaders(ReadHeaders(f, count, got).value.0)
    decreases count
  {
    if count > 0 {
      var (name, f') := Part(f).value;
      var (value, f'') := Part(f').value;
      LowerIsValid(name);
      AppendKeepsValid(got, Header(Lower(name), value));
      ReadHeadersValid(f'', count - 1, Append(got, Header(Lower(name), value)));
    }
  }

  /** Whatever decoding accepts is a page: encoding it again gives the same page back, less
      any `x-cache-status`. */
  lemma DecodedIsValid(f: Bytes)
    requires Decode(f).Ok?
    ensures ValidPage(Decode(f).value)
    ensures var p := Decode(f).value;
      Encode(p).Some? ==> Decode(Encode(p).value) == Ok(p.(headers := Without(p.headers, CacheStatusName())))
  {
    ReadHeadersValid(f[7..], ReadU32(f[3..]), []);
    if Encode(Decode(f).value).Some? {
      DecodeOfEncode(Decode(f).value);
    }
  }

  // ---------------------------------------------------------------- The loops

  predicate SmallParts(h: Headers) {
    forall i :: 0 <= i < |h| ==> |h[i].name| < U32_LIMIT && |h[i].value| < U32_LIMIT
  }

  lemma FourRegrouped(a: Bytes, b: Bytes, c: Bytes, d: Bytes)
    ensures a + (b + (c + d)) == a + (b + c) + d
  {
  }

  lemma SmallTail(h: Headers, x: Header)
    requires h != [] && SmallParts(h + [x])
    ensures (h + [x])[0] == h[0] && (h + [x])[1..] == h[1..] + [x] && SmallParts(h[1..] + [x])
  {
    assert forall i :: 0 <= i < |h[1..] + [x]| ==> (h[1..] + [x])[i] == (h + [x])[i + 1];
  }

  lemma {:induction false} BlockAppend(h: Headers, x: Header)
    requires SmallParts(h + [x]) && SmallParts(h) && |x.name| < U32_LIMIT && |x.value| < U32_LIMIT
    ensures Block(h + [x]) == Block(h) + (Sized(x.name) + Sized(x.value))
  {
    var n, v := Sized(x.name), Sized(x.value);
    if h == [] {
      assert h + [x] == [x] && [x][1..] == [];
      assert Block([x]) == n + (v + Block([]));
      assert v + [] == v && [] + (n + v) == n + v;
    } else {
      SmallTail(h, x);
      BlockAppend(h[1..], x);
      FourRegrouped(Sized(h[0].name), Sized(h[0].value), Block(h[1..]), n + v);
    }
  }

  lemma EncodeStep(start: Bytes, h: Headers, i: nat)
    requires i < |h| && SmallParts(h[..i]) && |h[i].name| < U32_LIMIT && |h[i].value| < U32_LIMIT
    ensures SmallParts(h[..i + 1])
    ensures start + Block(h[..i]) + (Sized(h[i].name) + Sized(h[i].value)) == start + Block(h[..i + 1])
  {
    assert h[..i + 1] == h[..i] + [h[i]];
    BlockAppend(h[..i], h[i]);
    Regrouped(start, Block(h[..i]), Sized(h[i].name) + Sized(h[i].value));
  }

  /** The headers one after another onto `start`; a length that overflows `u32` gives it up. */
  method EncodeHeaders(start: Bytes, h: Headers) returns (out: Option<Bytes>)
    ensures out == if SmallParts(h) then Some(start + Block(h)) else None
  {
    var text := start;
    var i := 0;
    while i < |h|
      invariant i <= |h| && SmallParts(h[..i]) && text == start + Block(h[..i])
    {
      var x := h[i];
      if |x.name| >= U32_LIMIT || |x.value| >= U32_LIMIT {
        return None;
      }
      EncodeStep(start, h, i);
      text := text + (Sized(x.name) + Sized(x.value));
      i := i + 1;
    }
    assert h[..i] == h;
    out := Some(text);
  }

  /** `encode` fills one buffer. */
  method EncodeFrame(p: Page) returns (frame: Option<Bytes>)
    requires p.status < 65536
    ensures frame == Encode(p)
  {
    var kept := Without(p.headers, CacheStatusName());
    if |kept| >= U32_LIMIT {
      return None;
    }
    var preamble := EncodeHeaders(Head(p.status, |kept|), kept);
    if preamble.None? {
      return None;
    }
    frame := Some(preamble.value + p.body);
  }

  /** The header loop of `decode`: one checked part at a time off the front. */
  method DecodeHeaders(frame: Bytes, count: nat) returns (r: Result<(Headers, Bytes)>)
    ensures r == ReadHeaders(frame, count, [])
  {
    var rest, headers := frame, [];
    var i := 0;
    while i < count
      invariant i <= count
      invariant ReadHeaders(frame, count, []) == ReadHeaders(rest, count - i, headers)
    {
      var next := ReadHeader(rest, headers);
      if next.Err? {
        return Err(next.error);
      }
      headers, rest := next.value.0, next.value.1;
      i := i + 1;
    }
    r := Ok((headers, rest));
  }

  method DecodeFrame(frame: Bytes) returns (r: Result<Page>)
    ensures r == Decode(frame)
  {
    if |frame| < 1 {
      return Err(Truncated);
    }
    if frame[0] != FRAME_V1 {
      return Err(UnknownVersion);
    }
    if |frame| < 3 {
      return Err(Truncated);
    }
    var status := (frame[1] as nat) * 256 + (frame[2] as nat);
    if !ValidStatus(status) {
      return Err(BadStatus);
    }
    if |frame| < 7 {
      return Err(Truncated);
    }
    var headers := DecodeHeaders(frame[7..], ReadU32(frame[3..]));
    DecodeParts(frame, status, ReadU32(frame[3..]), frame[7..]);
    r := if headers.Err? then Err(headers.error) else Ok(Page(status, headers.value.0, headers.value.1));
  }
}
