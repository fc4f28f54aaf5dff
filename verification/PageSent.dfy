/** Which requests the cache answers, which pages it keeps, and what is sent, in every run and in
    terms of the raw requests and pages. */
module PageSent {
  import opened Options
  import opened Pieces
  import opened PageFrame
  import opened PageNonce
  import opened PageLayer
  import opened PageRuns
  import NonceSwap

  // ---------------------------------------------------------------- The conditions, spelled out

  /** A request the cache may have to do with: GET, or QUERY where the layer takes it, without
      credentials, of a tenant that is known. */
  predicate Eligible(l: Layer, r: Request) {
    && (r.verb == B("GET") || (l.cacheQuery && r.verb == B("QUERY")))
    && NoCredential(l, r) && r.space.Some?
  }

  /** Every header the layer varies on can be read. */
  predicate VaryReadable(l: Layer, r: Request) {
    forall i, j :: 0 <= i < |l.varyOn| && 0 <= j < |r.headers| && r.headers[j].name == l.varyOn[i] ==>
      Readable(r.headers[j].value)
  }

  /** A QUERY whose body is over a mebibyte. */
  predicate Oversized(l: Layer, r: Request) { l.cacheQuery && r.verb == B("QUERY") && |r.body| > 0x10_0000 }

  /** What the page's `Vary` names is in the key, or kept out with the credentials. */
  ghost predicate VaryCovered(l: Layer, p: Page) {
    forall n :: VaryNames(p, n) ==> Lower(n) == B("host") || Lower(n) in l.varyOn || Lower(n) in l.credentials
  }

  /** The cache may answer the request. */
  predicate MayAnswer(l: Layer, r: Request) { Eligible(l, r) && VaryReadable(l, r) && !Oversized(l, r) }

  /** The cache may keep the page for others: shareable, all its `Vary` keyed, no larger than a
      mebibyte, and with no nonce but the request's own. */
  ghost predicate MayKeep(l: Layer, r: Request, hex: Bytes, p: Page) {
    && Public(p) && VaryCovered(l, p) && |p.body| <= 0x10_0000
    && WithoutNonce(p, r.nonce, NonceSwap.Token(hex)).Some?
  }

  lemma AdmittedIff(l: Layer, r: Request)
    ensures Admitted(l, r) <==> Eligible(l, r)
  {
    forall i | 0 <= i < |l.credentials|
      ensures Values(r.headers, l.credentials[i]) == [] <==> !Has(r.headers, l.credentials[i])
    {
      ValuesEmptyIff(r.headers, l.credentials[i]);
    }
  }

  lemma ReadableIff(h: Headers, n: Bytes)
    ensures AllReadable(Values(h, n)) <==> forall j :: 0 <= j < |h| && h[j].name == n ==> Readable(h[j].value)
  {
    var values := Values(h, n);
    forall j | 0 <= j < |h| && h[j].name == n
      ensures h[j].value in values
    {
      assert h[j] == Header(n, h[j].value);
      ValueIff(h, n, h[j].value);
    }
    forall i | 0 <= i < |values|
      ensures Carries(h, n, values[i])
    {
      ValueIff(h, n, values[i]);
    }
  }

  lemma KeyableIff(l: Layer, r: Request)
    ensures Keyable(l, r) <==> VaryReadable(l, r)
  {
    forall i | 0 <= i < |l.varyOn|
      ensures VaryValue(r.headers, l.varyOn[i]).Some? <==>
        forall j :: 0 <= j < |r.headers| && r.headers[j].name == l.varyOn[i] ==> Readable(r.headers[j].value)
    {
      ReadableIff(r.headers, l.varyOn[i]);
    }
  }

  lemma CachedIff(l: Layer, r: Request)
    ensures Cached(l, r) <==> MayAnswer(l, r)
  {
    AdmittedIff(l, r);
    KeyableIff(l, r);
  }

  lemma ShareableIff(p: Page)
    ensures Shareable(p) <==> Public(p)
  {
    if Shareable(p) {
      ShareableIsPublic(p);
    }
    if Public(p) {
      ValuesEmptyIff(p.headers, B("set-cookie"));
      var control := Values(p.headers, CacheControlName());
      forall i | 0 <= i < |control|
        ensures !OptsOut(control[i])
      {
        ValueIff(p.headers, CacheControlName(), control[i]);
        var k :| 0 <= k < |p.headers| && p.headers[k] == Header(CacheControlName(), control[i]);
      }
    }
  }

  lemma UnkeyedIff(l: Layer, p: Page)
    ensures UnkeyedVary(l, p) <==> !VaryCovered(l, p)
  {
    var tokens := VaryTokens(p);
    if !VaryCovered(l, p) {
      var n :| VaryNames(p, n) && !(Lower(n) == B("host") || Lower(n) in l.varyOn || Lower(n) in l.credentials);
      VaryTokensIff(p, n);
      var i :| 0 <= i < |tokens| && tokens[i] == n;
      assert !Covered(l, tokens[i]);
    }
    if UnkeyedVary(l, p) {
      var i :| 0 <= i < |tokens| && !Covered(l, tokens[i]);
      VaryTokensIff(p, tokens[i]);
    }
  }

  lemma StorableIff(l: Layer, r: Request, hex: Bytes, p: Page)
    ensures Storable(l, r, hex, p) <==> MayKeep(l, r, hex, p)
  {
    ShareableIff(p);
    UnkeyedIff(l, p);
  }

  // ---------------------------------------------------------------- Where a session comes from

  predicate HasPage(s: Session) { s.Storing? || s.Missed? || s.Passed? }

  /** The request arrived in the run, and the page is the one the handler answered with in it. */
  predicate FromRun(run: seq<Event>, id: nat, s: Session) {
    Arrive(id, s.req, s.hex) in run && (HasPage(s) ==> Respond(id, s.page) in run)
  }

  /** `t` is what `s` became by `e`: the same request, and the same page unless it just came. */
  predicate Became(s: Session, e: Event, id: nat, t: Session) {
    && s.req == t.req && s.hex == t.hex
    && (HasPage(t) ==> e == Respond(id, t.page) || (HasPage(s) && s.page == t.page))
  }

  lemma StepBecomes(l: Layer, st: State, id: nat)
    requires Enabled(l, st, Step(id))
    ensures id in Stepped(l, st, id).sessions
    ensures Became(st.sessions[id], Step(id), id, Stepped(l, st, id).sessions[id])
    ensures forall k :: k != id && k in Stepped(l, st, id).sessions ==>
      k in st.sessions && Stepped(l, st, id).sessions[k] == st.sessions[k]
  {
  }

  /** A session in the state after an event was there before, or has just arrived. */
  lemma EventKeepsOrigin(l: Layer, st: State, e: Event, id: nat)
    requires Enabled(l, st, e) && id in Apply(l, st, e).sessions
    ensures var t := Apply(l, st, e).sessions[id];
      if id in st.sessions then Became(st.sessions[id], e, id, t) else e == Arrive(id, t.req, t.hex) && !HasPage(t)
  {
    match e
    case Step(k) => StepBecomes(l, st, k);
    case Arrive(_, _, _) =>
    case Respond(_, _) =>
    case Bump(_, _, _) =>
    case Drop(_) =>
  }

  lemma {:induction false} OriginsIn(l: Layer, st: State, run: seq<Event>, id: nat)
    requires Runnable(l, st, run) && id in After(l, st, run).sessions
    ensures var t := After(l, st, run).sessions[id];
      && (|| (id in st.sessions && st.sessions[id].req == t.req && st.sessions[id].hex == t.hex)
          || Arrive(id, t.req, t.hex) in run)
      && (HasPage(t) ==>
            || (id in st.sessions && HasPage(st.sessions[id]) && st.sessions[id].page == t.page)
            || Respond(id, t.page) in run)
    decreases |run|
  {
    if run != [] {
      var next := Apply(l, st, run[0]);
      OriginsIn(l, next, run[1..], id);
      assert forall e :: e in run[1..] ==> e in run;
      if id in next.sessions {
        EventKeepsOrigin(l, st, run[0], id);
      }
    }
  }

  /** In every run: a hit or a miss is a request the cache may answer. A session whose page has come
      from the handler keeps it for others exactly when it may. A miss sends that page with the
      layer's labels; any other is passed on as it is, or marked `BYPASS` when the layer would have
      kept it but could not. */
  lemma EveryReply(l: Layer, run: seq<Event>, id: nat)
    requires Runnable(l, Empty(), run) && id in After(l, Empty(), run).sessions
    ensures var s := After(l, Empty(), run).sessions[id];
      && FromRun(run, id, s)
      && (s.Hit? || s.Missed? || s.Storing? ==> MayAnswer(l, s.req))
      && (HasPage(s) ==> (s.Missed? || s.Storing? <==> MayAnswer(l, s.req) && MayKeep(l, s.req, s.hex, s.page)))
      && (s.Missed? ==> MissSent(l, s.req, s.page, s.reply))
      && (s.Passed? ==>
            PassSent(s.page, s.reply,
                     Eligible(l, s.req) && (Oversized(l, s.req) || (VaryReadable(l, s.req) && Public(s.page)))))
      && (s.Hit? ==> Values(s.reply.headers, B("x-cache-status")) == [B("HIT")])
  {
    var s := After(l, Empty(), run).sessions[id];
    RunKeeps(l, Empty(), run);
    OriginsIn(l, Empty(), run, id);
    assert Sound(l, s);
    CachedIff(l, s.req);
    AdmittedIff(l, s.req);
    KeyableIff(l, s.req);
    if HasPage(s) {
      StorableIff(l, s.req, s.hex, s.page);
      ShareableIff(s.page);
    }
  }

  /** A request the cache may answer looks its page up and is answered from it, or goes to the
      handler to be kept; any other goes to the handler and nothing more. */
  lemma EveryStart(l: Layer, st: State, id: nat)
    requires Inv(l, st) && id in st.sessions && st.sessions[id].Starting?
    ensures Enabled(l, st, Step(id))
    ensures var one := Apply(l, st, Step(id));
      && (Eligible(l, st.sessions[id].req) <==> one.sessions[id].Looking?)
      && (!Eligible(l, st.sessions[id].req) ==> one.sessions[id].Passing?)
      && (one.sessions[id].Looking? ==> Enabled(l, one, Step(id)))
      && (one.sessions[id].Looking? ==>
            var two := Apply(l, one, Step(id)).sessions[id];
            && (MayAnswer(l, st.sessions[id].req) <==> two.Hit? || two.Running?)
            && (!MayAnswer(l, st.sessions[id].req) ==> two.Passing?))
  {
    AdmittedIff(l, st.sessions[id].req);
    CachedIff(l, st.sessions[id].req);
  }
}
