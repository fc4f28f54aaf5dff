/** The page cache's key texts: length-prefixed parts that no choice of values can make
    ambiguous, under a key space. */
module PageKeys {
  import opened Options
  import opened Pieces

  // ---------------------------------------------------------------- Length-prefixed parts

  /** `write_lp`: `<len>:<bytes>|`. */
  function Lp(s: Bytes): Bytes { Decimal(|s|) + [COLON] + s + [BAR] }

  function Lps(parts: seq<Bytes>): Bytes {
    if parts == [] then [] else Lp(parts[0]) + Lps(parts[1..])
  }

  lemma LpFirst(s: Bytes, x: Bytes, t: Bytes, y: Bytes)
    requires Lp(s) + x == Lp(t) + y
    ensures s == t && x == y
  {
    var sx, ty := s + [BAR] + x, t + [BAR] + y;
    assert Lp(s) + x == Decimal(|s|) + [COLON] + sx;
    assert Lp(t) + y == Decimal(|t|) + [COLON] + ty;
    CutUnique(Decimal(|s|), sx, Decimal(|t|), ty, COLON);
    DecimalInjective(|s|, |t|);
    assert sx == s + ([BAR] + x) && ty == t + ([BAR] + y);
    SamePrefix(s, [BAR] + x, t, [BAR] + y);
    SamePrefix([BAR], x, [BAR], y);
  }

  /** Any two lists of parts with the same text are the same list. */
  lemma {:induction false} LpsInjective(p: seq<Bytes>, q: seq<Bytes>)
    requires Lps(p) == Lps(q)
    ensures p == q
  {
    if p != [] && q != [] {
      LpFirst(p[0], Lps(p[1..]), q[0], Lps(q[1..]));
      LpsInjective(p[1..], q[1..]);
    }
  }

  lemma {:induction false} LpsAppend(p: seq<Bytes>, q: seq<Bytes>)
    ensures Lps(p + q) == Lps(p) + Lps(q)
  {
    if p == [] {
      assert p + q == q;
    } else {
      assert (p + q)[1..] == p[1..] + q;
      LpsAppend(p[1..], q);
    }
  }

  // ---------------------------------------------------------------- Key spaces

  /** Who a key belongs to. */
  datatype Space = Global | Tenant(org: int, slug: Bytes)

  /** A slug the registry accepts: no `:` in it. */
  predicate ValidSpace(s: Space) { s.Tenant? ==> COLON !in s.slug }

  /** `#org:<id>:<slug>`, empty for global. */
  function Namespace(s: Space): Bytes {
    match s
    case Global => []
    case Tenant(org, slug) => B("#org") + [COLON] + (Signed(org) + [COLON] + slug)
  }

  const ESCAPE: byte := 126

  function TenantPrefix(): Bytes { B("tenant") + [COLON] }

  function Escaped(rest: Bytes): Bytes {
    if TenantPrefix() <= rest || [ESCAPE] <= rest then [ESCAPE] + rest else rest
  }

  /** `KeySpace::key` in the page area. */
  function SpaceKey(s: Space, rest: Bytes): Bytes {
    match s
    case Global => Escaped(rest)
    case Tenant(_, _) => TenantPrefix() + (Namespace(s) + [COLON] + (B("page") + [COLON] + rest))
  }

  lemma ColonFree()
    ensures forall n :: COLON !in Signed(n)
    ensures COLON !in B("#org") && COLON !in B("page") && COLON !in B("tenant")
  {
  }

  lemma NamespaceInjective(a: Space, b: Space)
    requires Namespace(a) == Namespace(b)
    ensures a == b
  {
    ColonFree();
    if a.Tenant? && b.Tenant? {
      var x, y := Signed(a.org) + [COLON] + a.slug, Signed(b.org) + [COLON] + b.slug;
      CutUnique(B("#org"), x, B("#org"), y, COLON);
      CutUnique(Signed(a.org), a.slug, Signed(b.org), b.slug, COLON);
      SignedInjective(a.org, b.org);
    }
  }

  lemma Regroup(a: Bytes, b: Bytes, c: Bytes)
    ensures (a + [COLON] + b) + c == a + [COLON] + (b + c)
  {
  }

  lemma NamespaceFirst(s: Space, rest: Bytes)
    requires s.Tenant?
    ensures Namespace(s) + [COLON] + rest == B("#org") + [COLON] + (Signed(s.org) + [COLON] + (s.slug + [COLON] + rest))
  {
    var n := Signed(s.org) + [COLON] + s.slug;
    assert Namespace(s) + [COLON] + rest == Namespace(s) + ([COLON] + rest);
    Regroup(B("#org"), n, [COLON] + rest);
    Regroup(Signed(s.org), s.slug, [COLON] + rest);
    assert s.slug + ([COLON] + rest) == s.slug + [COLON] + rest;
  }

  lemma TenantKeysInjective(a: Space, x: Bytes, b: Space, y: Bytes)
    requires a.Tenant? && b.Tenant? && ValidSpace(a) && ValidSpace(b)
    requires SpaceKey(a, x) == SpaceKey(b, y)
    ensures a == b && x == y
  {
    ColonFree();
    var a5, b5 := B("page") + [COLON] + x, B("page") + [COLON] + y;
    NamespaceFirst(a, a5);
    NamespaceFirst(b, b5);
    var a4, b4 := a.slug + [COLON] + a5, b.slug + [COLON] + b5;
    var a3, b3 := Signed(a.org) + [COLON] + a4, Signed(b.org) + [COLON] + b4;
    SamePrefix(TenantPrefix(), B("#org") + [COLON] + a3, TenantPrefix(), B("#org") + [COLON] + b3);
    CutUnique(B("#org"), a3, B("#org"), b3, COLON);
    CutUnique(Signed(a.org), a4, Signed(b.org), b4, COLON);
    SignedInjective(a.org, b.org);
    CutUnique(a.slug, a5, b.slug, b5, COLON);
    CutUnique(B("page"), x, B("page"), y, COLON);
  }

  lemma EscapedFacts(x: Bytes)
    ensures !(TenantPrefix() <= Escaped(x))
    ensures [ESCAPE] <= Escaped(x) ==> Escaped(x) == [ESCAPE] + x
    ensures !([ESCAPE] <= Escaped(x)) ==> Escaped(x) == x
  {
    assert TenantPrefix()[0] == 116;
  }

  /** No two key spaces meet, whatever the rest. */
  lemma SpaceKeysInjective(a: Space, x: Bytes, b: Space, y: Bytes)
    requires ValidSpace(a) && ValidSpace(b) && SpaceKey(a, x) == SpaceKey(b, y)
    ensures a == b && x == y
  {
    if a.Tenant? && b.Tenant? {
      TenantKeysInjective(a, x, b, y);
    } else {
      assert a.Tenant? ==> TenantPrefix() <= SpaceKey(a, x);
      assert b.Tenant? ==> TenantPrefix() <= SpaceKey(b, y);
      EscapedFacts(x);
      EscapedFacts(y);
      if [ESCAPE] <= Escaped(x) {
        SamePrefix([ESCAPE], x, [ESCAPE], y);
      }
    }
  }

  // ---------------------------------------------------------------- Page keys

  /** Everything a page key is made of, for a layer with a given list of vary headers. */
  datatype PageParts = PageParts(
    verb: Bytes, path: Bytes, query: Bytes, host: Bytes, space: Space,
    vary: seq<Bytes>, digest: Option<Bytes>, generation: nat)

  /** A digest is base64 text, so it never starts with `#`. */
  predicate ValidParts(p: PageParts, names: seq<Bytes>) {
    && |p.vary| == |names| && ValidSpace(p.space)
    && (p.digest.Some? ==> p.digest.value != [] && p.digest.value[0] != HASH)
  }

  function Pairs(names: seq<Bytes>, values: seq<Bytes>): seq<Bytes>
    requires |names| == |values|
  {
    if names == [] then [] else [names[0], values[0]] + Pairs(names[1..], values[1..])
  }

  function GenerationTag(g: nat): Bytes { B("#gen:") + Decimal(g) }

  function Tail(digest: Option<Bytes>, generation: nat): seq<Bytes> {
    (if digest.Some? then [digest.value] else []) +
    (if generation > 0 then [GenerationTag(generation)] else [])
  }

  function Parts(p: PageParts, names: seq<Bytes>): seq<Bytes>
    requires |p.vary| == |names|
  {
    [p.verb, p.path, p.query, p.host, Namespace(p.space)] + (Pairs(names, p.vary) + Tail(p.digest, p.generation))
  }

  function KeyText(prefix: Bytes, p: PageParts, names: seq<Bytes>): Bytes
    requires |p.vary| == |names|
  {
    SpaceKey(p.space, prefix + [BAR] + Lps(Parts(p, names)))
  }

  function CounterText(prefix: Bytes, path: Bytes, host: Bytes, space: Space): Bytes {
    SpaceKey(space, prefix + [BAR] + B("#gen|") + Lps([path, host, Namespace(space)]))
  }

  lemma {:induction false} PairsInjective(names: seq<Bytes>, u: seq<Bytes>, v: seq<Bytes>)
    requires |u| == |v| == |names|
    ensures |Pairs(names, u)| == 2 * |names|
    ensures Pairs(names, u) == Pairs(names, v) ==> u == v
  {
    if names != [] {
      PairsInjective(names[1..], u[1..], v[1..]);
      PairsInjective(names[1..], v[1..], u[1..]);
      var p, q := Pairs(names, u), Pairs(names, v);
      assert p[2..] == Pairs(names[1..], u[1..]) && q[2..] == Pairs(names[1..], v[1..]);
      if p == q {
        assert p[1] == u[0] && q[1] == v[0];
        assert u == [u[0]] + u[1..] && v == [v[0]] + v[1..];
      }
    }
  }

  lemma TagInjective(g: nat, h: nat)
    requires GenerationTag(g) == GenerationTag(h)
    ensures g == h
  {
    SamePrefix(B("#gen:"), Decimal(g), B("#gen:"), Decimal(h));
    DecimalInjective(g, h);
  }

  /** The two optional last parts cannot be taken for each other. */
  lemma TailInjective(d: Option<Bytes>, g: nat, e: Option<Bytes>, h: nat)
    requires d.Some? ==> d.value != [] && d.value[0] != HASH
    requires e.Some? ==> e.value != [] && e.value[0] != HASH
    requires Tail(d, g) == Tail(e, h)
    ensures d == e && g == h
  {
    assert GenerationTag(g)[0] == HASH && GenerationTag(h)[0] == HASH;
    var t, u := Tail(d, g), Tail(e, h);
    assert d.Some? ==> t[0] == d.value;
    assert e.Some? ==> u[0] == e.value;
    assert d.None? && g > 0 ==> t[0] == GenerationTag(g);
    assert e.None? && h > 0 ==> u[0] == GenerationTag(h);
    assert d.Some? == e.Some?;
    if g > 0 && h > 0 {
      assert t[|t| - 1] == GenerationTag(g) && u[|u| - 1] == GenerationTag(h);
      TagInjective(g, h);
    }
  }

  lemma PartsInjective(p: PageParts, q: PageParts, names: seq<Bytes>)
    requires ValidParts(p, names) && ValidParts(q, names) && Parts(p, names) == Parts(q, names)
    ensures p == q
  {
    var pr := Pairs(names, p.vary) + Tail(p.digest, p.generation);
    var qr := Pairs(names, q.vary) + Tail(q.digest, q.generation);
    SamePrefix([p.verb, p.path, p.query, p.host, Namespace(p.space)], pr,
               [q.verb, q.path, q.query, q.host, Namespace(q.space)], qr);
    var ph := [p.verb, p.path, p.query, p.host, Namespace(p.space)];
    var qh := [q.verb, q.path, q.query, q.host, Namespace(q.space)];
    assert ph[0] == qh[0] && ph[1] == qh[1] && ph[2] == qh[2] && ph[3] == qh[3] && ph[4] == qh[4];
    NamespaceInjective(p.space, q.space);
    PairsInjective(names, p.vary, q.vary);
    PairsInjective(names, q.vary, p.vary);
    SamePrefix(Pairs(names, p.vary), Tail(p.digest, p.generation), Pairs(names, q.vary), Tail(q.digest, q.generation));
    TailInjective(p.digest, p.generation, q.digest, q.generation);
  }

  /** Two requests to one layer share a key text exactly when they agree on every part. */
  lemma SameKeyIffSameParts(prefix: Bytes, p: PageParts, q: PageParts, names: seq<Bytes>)
    requires ValidParts(p, names) && ValidParts(q, names)
    ensures KeyText(prefix, p, names) == KeyText(prefix, q, names) <==> p == q
  {
    if KeyText(prefix, p, names) == KeyText(prefix, q, names) {
      SpaceKeysInjective(p.space, prefix + [BAR] + Lps(Parts(p, names)), q.space,
                         prefix + [BAR] + Lps(Parts(q, names)));
      SamePrefix(prefix + [BAR], Lps(Parts(p, names)), prefix + [BAR], Lps(Parts(q, names)));
      LpsInjective(Parts(p, names), Parts(q, names));
      PartsInjective(p, q, names);
    }
  }

  /** Two generation counters are one exactly when path, host and space agree. */
  lemma SameCounterIffSamePage(prefix: Bytes, path: Bytes, host: Bytes, space: Space, path': Bytes, host': Bytes,
                               space': Space)
    requires ValidSpace(space) && ValidSpace(space')
    ensures CounterText(prefix, path, host, space) == CounterText(prefix, path', host', space')
      <==> path == path' && host == host' && space == space'
  {
    if CounterText(prefix, path, host, space) == CounterText(prefix, path', host', space') {
      var l, l' := [path, host, Namespace(space)], [path', host', Namespace(space')];
      var h := prefix + [BAR] + B("#gen|");
      SpaceKeysInjective(space, h + Lps(l), space', h + Lps(l'));
      SamePrefix(h, Lps(l), h, Lps(l'));
      LpsInjective(l, l');
      assert l[0] == l'[0] && l[1] == l'[1] && l[2] == l'[2];
    }
  }

  lemma LpsStartsWithDigit(parts: seq<Bytes>)
    requires parts != []
    ensures Lps(parts) != [] && Lps(parts)[0] != HASH
  {
    assert Lps(parts)[0] == Decimal(|parts[0]|)[0];
  }

  /** No page key is a generation counter's key: `#` never starts a page key's verb part. */
  lemma KeyIsNotCounter(prefix: Bytes, p: PageParts, names: seq<Bytes>, path: Bytes, host: Bytes, space: Space)
    requires ValidParts(p, names) && ValidSpace(space)
    ensures KeyText(prefix, p, names) != CounterText(prefix, path, host, space)
  {
    var start := prefix + [BAR];
    var page, gen := Lps(Parts(p, names)), B("#gen|") + Lps([path, host, Namespace(space)]);
    assert start + B("#gen|") + Lps([path, host, Namespace(space)]) == start + gen;
    LpsStartsWithDigit(Parts(p, names));
    assert gen[0] == HASH;
    if KeyText(prefix, p, names) == CounterText(prefix, path, host, space) {
      SpaceKeysInjective(p.space, start + page, space, start + gen);
      SamePrefix(start, page, start, gen);
    }
  }

  // ---------------------------------------------------------------- Writing the key

  lemma Written(start: Bytes, parts: seq<Bytes>, s: Bytes)
    ensures start + Lps(parts) + Lp(s) == start + Lps(parts + [s])
  {
    LpsAppend(parts, [s]);
    assert Lps([s]) == Lp(s) + Lps([]);
    assert start + Lps(parts) + Lp(s) == start + (Lps(parts) + Lp(s));
  }

  /** Append `<len>:<bytes>|`: one more part on the list written so far. */
  method WriteLp(buf: Bytes, s: Bytes, ghost start: Bytes, ghost parts: seq<Bytes>) returns (out: Bytes)
    requires buf == start + Lps(parts)
    ensures out == start + Lps(parts + [s])
  {
    out := buf + Decimal(|s|) + [COLON] + s + [BAR];
    assert out == buf + Lp(s);
    Written(start, parts, s);
  }

  method WriteHead(start: Bytes, p: PageParts) returns (k: Bytes)
    ensures k == start + Lps([p.verb, p.path, p.query, p.host, Namespace(p.space)])
  {
    assert start == start + Lps([]);
    k := WriteLp(start, p.verb, start, []);
    k := WriteLp(k, p.path, start, [] + [p.verb]);
    k := WriteLp(k, p.query, start, [] + [p.verb] + [p.path]);
    k := WriteLp(k, p.host, start, [] + [p.verb] + [p.path] + [p.query]);
    k := WriteLp(k, Namespace(p.space), start, [] + [p.verb] + [p.path] + [p.query] + [p.host]);
    assert [] + [p.verb] + [p.path] + [p.query] + [p.host] + [Namespace(p.space)] ==
      [p.verb, p.path, p.query, p.host, Namespace(p.space)];
  }

  /** The digest of a QUERY body, and the generation unless it is 0. */
  method WriteTail(buf: Bytes, d: Option<Bytes>, g: nat, ghost start: Bytes, ghost parts: seq<Bytes>) returns (k: Bytes)
    requires buf == start + Lps(parts)
    ensures k == start + Lps(parts + Tail(d, g))
  {
    k := buf;
    ghost var written := parts;
    if d.Some? {
      k := WriteLp(k, d.value, start, written);
      written := written + [d.value];
    }
    if g > 0 {
      k := WriteLp(k, GenerationTag(g), start, written);
      written := written + [GenerationTag(g)];
    }
    assert written == parts + Tail(d, g);
  }

  lemma {:induction false} PairsAppend(names: seq<Bytes>, values: seq<Bytes>, n: Bytes, v: Bytes)
    requires |names| == |values|
    ensures Pairs(names + [n], values + [v]) == Pairs(names, values) + [n] + [v]
  {
    if names == [] {
      assert [n][1..] == [] && [v][1..] == [];
    } else {
      assert (names + [n])[1..] == names[1..] + [n] && (values + [v])[1..] == values[1..] + [v];
      PairsAppend(names[1..], values[1..], n, v);
    }
  }

  /** `build_key`: the only place the key format lives. */
  method BuildKey(prefix: Bytes, p: PageParts, names: seq<Bytes>) returns (k: Bytes)
    requires |p.vary| == |names|
    ensures k == KeyText(prefix, p, names)
  {
    var start := prefix + [BAR];
    k := WriteHead(start, p);
    ghost var head := [p.verb, p.path, p.query, p.host, Namespace(p.space)];
    ghost var written := head;
    var i := 0;
    while i < |names|
      invariant i <= |names|
      invariant written == head + Pairs(names[..i], p.vary[..i]) && k == start + Lps(written)
    {
      k := WriteLp(k, names[i], start, written);
      k := WriteLp(k, p.vary[i], start, written + [names[i]]);
      PairsAppend(names[..i], p.vary[..i], names[i], p.vary[i]);
      assert names[..i + 1] == names[..i] + [names[i]] && p.vary[..i + 1] == p.vary[..i] + [p.vary[i]];
      written := written + [names[i]] + [p.vary[i]];
      i := i + 1;
    }
    assert names[..i] == names && p.vary[..i] == p.vary;
    k := WriteTail(k, p.digest, p.generation, start, written);
    assert written + Tail(p.digest, p.generation) == Parts(p, names);
    k := SpaceKey(p.space, k);
  }
}
