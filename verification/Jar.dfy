/** The cookie jar itself: storing, importing, exporting and looking up. */
module CookieJar {
  import opened Options
  import opened Cookies
  import opened JarModel
  import opened JarBuckets
  import opened JarBucket
  import opened JarSites
  import opened JarRuns
  import opened JarPromises

  /** A store-only path of states grows by one. */
  lemma AppliedThroughGrows(psl: SuffixList, lim: Limits, r: Request, headers: seq<string>, now: int,
                            trace: seq<JarState>, i: nat, t: JarState)
    requires i < |headers| && AppliedThrough(psl, lim, r, headers[..i], now, trace)
    requires AppliedOne(psl, lim, trace[i], r, headers[i], now, t)
    ensures AppliedThrough(psl, lim, r, headers[..i + 1], now, trace + [t])
  {
    var longer := trace + [t];
    forall k | 0 <= k < i + 1
      ensures AppliedOne(psl, lim, longer[k], r, headers[..i + 1][k], now, longer[k + 1])
    {
      if k < i {
        assert AppliedOne(psl, lim, trace[k], r, headers[..i][k], now, trace[k + 1]);
      }
    }
  }

  lemma TidiedThroughGrows(lim: Limits, touched: seq<string>, now: int, trace: seq<JarState>, i: nat, t: JarState)
    requires i < |touched| && TidiedThrough(lim, touched[..i], now, trace)
    requires TidiedOne(lim, trace[i], touched[i], now, t)
    ensures TidiedThrough(lim, touched[..i + 1], now, trace + [t])
  {
    var longer := trace + [t];
    forall k | 0 <= k < i + 1
      ensures TidiedOne(lim, longer[k], touched[..i + 1][k], now, longer[k + 1])
    {
      if k < i {
        assert TidiedOne(lim, trace[k], touched[..i][k], now, trace[k + 1]);
      }
    }
  }

  lemma PutIsAt(sites: map<string, seq<Entry>>, site: string, b: seq<Entry>)
    ensures At(PutSite(sites, site, b), site) == b
  {
  }

  // ----- Snapshots and headers, one list at a time -----

  method LiveRecords(bucket: seq<Entry>, now: int) returns (records: seq<CookieRecord>)
    ensures records == RecordsOf(Unexpired(bucket, now))
  {
    records := [];
    for n := 0 to |bucket|
      invariant records == RecordsOf(Unexpired(bucket[..n], now))
    {
      assert bucket[..n + 1] == bucket[..n] + [bucket[n]];
      UnexpiredOneMore(bucket[..n], bucket[n], now);
      RecordsOneMore(Unexpired(bucket[..n], now), bucket[n]);
      assert Unexpired(bucket[..n], now) + [] == Unexpired(bucket[..n], now);
      if !Expired(bucket[n].cookie, now) {
        records := records + [RecordOf(bucket[n])];
      }
    }
    assert bucket[..|bucket|] == bucket;
  }

  lemma ListsOneMore(order: seq<string>, done: set<string>, site: string)
    requires Lists(order, done) && site !in done
    ensures Lists(order + [site], done + {site})
  {
  }

  method CollectMatches(psl: SuffixList, bucket: seq<Entry>, r: Request, ctx: Context, now: int)
    returns (matches: seq<Entry>)
    ensures matches == Matches(psl, bucket, r, ctx, now)
  {
    matches := [];
    for i := 0 to |bucket|
      invariant matches == Matches(psl, bucket[..i], r, ctx, now)
    {
      assert bucket[..i + 1][..i] == bucket[..i];
      if Eligible(psl, bucket[i], r, ctx, now) {
        matches := matches + [bucket[i]];
      }
    }
    assert bucket[..|bucket|] == bucket;
  }

  method SortForSending(entries: seq<Entry>) returns (ordered: seq<Entry>)
    ensures ordered == Ordered(entries)
  {
    ordered := [];
    for i := 0 to |entries|
      invariant ordered == Ordered(entries[..i])
    {
      assert entries[..i + 1][..i] == entries[..i];
      ordered := Insert(ordered, entries[i]);
    }
    assert entries[..|entries|] == entries;
  }

  class Jar {
    const psl: SuffixList
    const limits: Limits
    const store: SiteStore
    var nextCreation: nat
    var nextAccess: nat

    ghost function State(): JarState
      reads this, store
    {
      JarState(store.Contents(), nextCreation, nextAccess)
    }

    /** What holds between operations: coherence, and both caps. */
    ghost predicate Valid()
      reads this, store
    {
      store.Valid() && JarOk(psl, State()) && AtRest(limits, State())
    }

    constructor (psl: SuffixList, limits: Limits)
      ensures Valid() && State() == EMPTY_JAR && fresh(store)
      ensures this.psl == psl && this.limits == limits
    {
      this.psl, this.limits := psl, limits;
      nextCreation, nextAccess := 0, 0;
      store := new SiteStore();
      new;
      EmptyJarIsOk(psl, limits);
    }

    /** One parsed cookie against its bucket: a deletion, a replacement in place, or an addition. */
    method Apply(bucket: Bucket, c: Cookie, now: int, requestIsSecure: bool)
      requires bucket.Valid()
      modifies `nextCreation, `nextAccess, bucket
      ensures bucket.Valid()
      ensures BucketChange(bucket.entries, nextCreation, nextAccess) ==
              ApplySetCookie(old(bucket.entries), c, now, requestIsSecure, old(nextCreation), old(nextAccess))
      ensures AppliedExactly(old(bucket.entries), c, now, requestIsSecure, old(nextCreation), old(nextAccess), bucket.entries)
    {
      AppliedIsExact(bucket.entries, c, now, requestIsSecure, nextCreation, nextAccess);
      var existing := bucket.Position(IdentityOf(c));
      if existing.Some? && bucket.entries[existing.value].cookie.secure && !requestIsSecure {
        return;
      }
      if Expired(c, now) {
        if existing.Some? {
          bucket.Remove(existing.value);
        }
        return;
      }
      if existing.Some? {
        bucket.Replace(existing.value, Entry(c, bucket.entries[existing.value].creationSeq, nextAccess));
        nextAccess := nextAccess + 1;
      } else {
        bucket.Push(Entry(c, nextCreation, nextAccess));
        nextCreation := nextCreation + 1;
        nextAccess := nextAccess + 1;
      }
    }

    /** Applies a cookie to its site's bucket, holding the bucket down at twice its cap. */
    method ApplyAtSite(site: string, c: Cookie, now: int, requestIsSecure: bool)
      requires store.Valid()
      modifies `nextCreation, `nextAccess, store
      ensures store.Valid()
      ensures var change := ApplySetCookie(At(old(store.Contents()), site), c, now, requestIsSecure, old(nextCreation), old(nextAccess));
              && nextCreation == change.nextCreation && nextAccess == change.nextAccess
              && store.Contents() == PutSite(old(store.Contents()), site, At(store.Contents(), site))
              && HeldDown(change.bucket, now, 2 * limits.perDomain, limits.perDomain, At(store.Contents(), site))
    {
      var bucket := store.TakeOut(site);
      var before := |bucket.entries|;
      Apply(bucket, c, now, requestIsSecure);
      bucket.HoldDown(now, 2 * limits.perDomain, limits.perDomain);
      PutIsAt(store.Contents(), site, bucket.entries);
      store.PutBack(site, bucket, before);
    }

    /** One `Set-Cookie` field; the site it landed in, if it was accepted. */
    method ApplyHeader(r: Request, header: string, now: int) returns (site: Option<string>)
      requires store.Valid()
      modifies `nextCreation, `nextAccess, store
      ensures store.Valid() && AppliedOne(psl, limits, old(State()), r, header, now, State())
      ensures site == match SetCookie(psl, header, r, now) case None => None case Some(c) => Some(SiteOf(psl, c.domain))
    {
      var cookie := ParseSetCookie(psl, header, r, now);
      if cookie.None? { return None; }
      site := Some(SiteOf(psl, cookie.value.domain));
      ApplyAtSite(site.value, cookie.value, now, r.secure);
    }

    /** Trims a touched bucket that outgrew its cap to one purge batch below it. */
    method Tidy(site: string, now: int)
      requires store.Valid()
      modifies store
      ensures store.Valid() && TidiedOne(limits, old(State()), site, now, State())
    {
      var bucket := store.TakeOut(site);
      var before := |bucket.entries|;
      bucket.HoldDown(now, limits.perDomain, limits.DomainPurgeTarget());
      PutIsAt(store.Contents(), site, bucket.entries);
      store.PutBack(site, bucket, before);
    }

    /** Every header of one response, and the sites they touched. */
    method ApplyHeaders(r: Request, headers: seq<string>, now: int)
    returns (touched: seq<string>, ghost trace: seq<JarState>)
      requires store.Valid()
      modifies `nextCreation, `nextAccess, store
      ensures store.Valid() && touched == Touched(psl, r, headers, now)
      ensures AppliedThrough(psl, limits, r, headers, now, trace)
      ensures trace[0] == old(State()) && trace[|headers|] == State()
    {
      touched, trace := [], [State()];
      for i := 0 to |headers|
        invariant store.Valid() && touched == Touched(psl, r, headers[..i], now)
        invariant AppliedThrough(psl, limits, r, headers[..i], now, trace)
        invariant trace[0] == old(State()) && trace[i] == State()
      {
        var site := ApplyHeader(r, headers[i], now);
        AppliedThroughGrows(psl, limits, r, headers, now, trace, i, State());
        trace := trace + [State()];
        assert headers[..i + 1][..i] == headers[..i];
        if site.Some? && site.value !in touched {
          touched := touched + [site.value];
        }
      }
      assert headers[..|headers|] == headers;
    }

    method TidyTouched(touched: seq<string>, now: int) returns (ghost trace: seq<JarState>)
      requires store.Valid()
      modifies store
      ensures store.Valid() && TidiedThrough(limits, touched, now, trace)
      ensures trace[0] == old(State()) && trace[|touched|] == State()
    {
      trace := [State()];
      for i := 0 to |touched|
        invariant store.Valid() && TidiedThrough(limits, touched[..i], now, trace)
        invariant trace[0] == old(State()) && trace[i] == State()
      {
        Tidy(touched[i], now);
        TidiedThroughGrows(limits, touched, now, trace, i, State());
        trace := trace + [State()];
      }
      assert touched[..|touched|] == touched;
    }

    /** Stores a response's cookies.  A URL without an origin stores nothing. */
    method StoreCookies(request: Option<Request>, headers: seq<string>, now: int)
      requires Valid()
      modifies this, store
      ensures Valid() && Stored(psl, limits, old(State()), request, headers, now, State())
    {
      if request.None? { return; }
      ghost var was := State();
      ghost var applied, tidied;
      var touched;
      touched, applied := ApplyHeaders(request.value, headers, now);
      tidied := TidyTouched(touched, now);
      store.EnforceTotal(limits, now, nextCreation, nextAccess);
      assert Stored(psl, limits, was, request, headers, now, State());
      StoreKeepsTheJar(psl, limits, was, request, headers, now, State());
    }

    /** One record of a snapshot: refused, or put in place of whatever has its identity. */
    method Absorb(record: CookieRecord, now: int)
      requires store.Valid()
      modifies `nextCreation, `nextAccess, store
      ensures store.Valid() && State() == AbsorbOne(psl, old(State()), record, now)
    {
      if record.expires.Some? && record.expires.value <= now { return; }
      if !Representable(record.name, record.value) { return; }
      if !KeepsPrefixPromise(record.name, record.secure, record.hostOnly, record.path) { return; }
      var e := EntryOf(record);
      nextCreation := MaxNat(nextCreation, record.creationSeq + 1);
      nextAccess := MaxNat(nextAccess, record.lastAccessSeq + 1);
      PutEntry(SiteOf(psl, e.cookie.domain), e);
    }

    method PutEntry(site: string, e: Entry)
      requires store.Valid()
      modifies store
      ensures store.Valid()
      ensures store.Contents() == PutSite(old(store.Contents()), site, Replaced(At(old(store.Contents()), site), e))
    {
      var bucket := store.TakeOut(site);
      var before := |bucket.entries|;
      bucket.Supersede(e);
      store.PutBack(site, bucket, before);
    }

    /** Merges a snapshot into the jar; a record that proves itself wrong is dropped alone. */
    method Import(records: seq<CookieRecord>, now: int)
      requires Valid()
      modifies this, store
      ensures Valid() && Imported(psl, limits, old(State()), records, now, State())
    {
      ghost var was := State();
      for i := 0 to |records|
        invariant store.Valid() && State() == AbsorbRecords(psl, was, records[..i], now)
      {
        Absorb(records[i], now);
        assert records[..i + 1][..i] == records[..i];
      }
      assert records[..|records|] == records;
      store.TidyEverySite(limits, now, nextCreation, nextAccess);
      store.EnforceTotal(limits, now, nextCreation, nextAccess);
      ImportKeepsTheJar(psl, limits, was, records, now, State());
    }

    /** A snapshot of every live cookie: site by site in any order, each bucket in its own. */
    method Export(now: int) returns (records: seq<CookieRecord>)
      requires Valid()
      ensures Exported(State(), now, records)
    {
      ghost var s := State();
      records := [];
      var pending := store.sites.Keys;
      ghost var order: seq<string> := [];
      while pending != {}
        invariant pending <= s.sites.Keys && Lists(order, s.sites.Keys - pending)
        invariant records == Snapshot(s, order, now)
        decreases pending
      {
        var site :| site in pending;
        var more := LiveRecords(store.sites[site].entries, now);
        records := records + more;
        ListsOneMore(order, s.sites.Keys - pending, site);
        assert s.sites.Keys - pending + {site} == s.sites.Keys - (pending - {site});
        assert (order + [site])[..|order|] == order;
        pending, order := pending - {site}, order + [site];
      }
      assert s.sites.Keys - pending == s.sites.Keys;
    }

    /** The `Cookie` header for one request, stamping what it sends as just used. */
    method CookiesFor(request: Option<Request>, ctx: Context, now: int) returns (header: Option<string>)
      requires Valid()
      modifies this, store
      ensures Valid()
      ensures header == if request.None? then None else CookieHeader(psl, old(State()), request.value, ctx, now)
      ensures request.Some? ==> HeaderLists(psl, old(State()), request.value, ctx, now, header)
      ensures State() == if request.None? then old(State()) else AfterLookup(psl, old(State()), request.value, ctx, now)
    {
      if request.None? { return None; }
      var r := request.value;
      LookupLists(psl, State(), r, ctx, now);
      var site := SiteOf(psl, r.host);
      if site !in store.sites { return None; }
      var matches := CollectMatches(psl, store.sites[site].entries, r, ctx, now);
      if matches == [] { return None; }
      var ordered := SortForSending(matches);
      header := HeaderOf(ordered);
      LookupKeepsTheJar(psl, limits, State(), r, ctx, now);
      StampSite(site, r, ctx, now);
    }

    method StampSite(site: string, r: Request, ctx: Context, now: int)
      requires store.Valid() && site in store.sites
      modifies this, store
      ensures store.Valid() && nextCreation == old(nextCreation) && nextAccess == old(nextAccess) + 1
      ensures store.Contents() ==
              old(store.Contents())[site := Accessed(psl, old(store.Contents())[site], r, ctx, now, old(nextAccess))]
    {
      var access := nextAccess;
      nextAccess := nextAccess + 1;
      var bucket := store.TakeOut(site);
      var before := |bucket.entries|;
      bucket.Stamp(psl, r, ctx, now, access);
      store.PutBack(site, bucket, before);
    }
  }
}
