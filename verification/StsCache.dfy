/** Resolving a recipient's MTA-STS policy through the cache (internal/smtp/mtasts.go:52-77,
  * internal/cache/mtasts.go). */
module StsCache {
  import opened Wrappers
  import opened MtaSts

  /** A policy with the time its key expires. */
  datatype Cached = Cached(policy: Policy, expiry: int)

  datatype FetchError = FetchFailed

  /** What a resolution meets: the DNS answer, whether the cache can be read and written (neither, if there is none),
    * the answer of the policy host, and the time. */
  datatype Meets = Meets(records: Option<seq<string>>, getOk: bool, putOk: bool,
                         answer: Result<string, FetchError>, now: int)

  function CurrentId(m: Meets): Option<string> {
    if m.records.None? then None else FirstId(m.records.value)
  }

  /** The policy a fetched body stands for, under the current id. */
  function Live(body: string, id: string): Option<Policy> {
    match ParsedPolicy(body)
    case None => None
    case Some((p, _)) => Some(p.(id := id))
  }

  predicate Hit(cache: map<string, Cached>, domain: string, m: Meets, id: string) {
    m.getOk && domain in cache && m.now < cache[domain].expiry && cache[domain].policy.id == id
  }

  function Resolved(cache: map<string, Cached>, domain: string, m: Meets)
    : (map<string, Cached>, Result<Option<Policy>, FetchError>)
  {
    match CurrentId(m)
    case None => (cache, Ok(None))
    case Some(id) =>
      if Hit(cache, domain, m, id) then (cache, Ok(Some(cache[domain].policy)))
      else
        match m.answer
        case Err(error) => (cache, Err(error))
        case Ok(body) =>
          match ParsedPolicy(body)
          case None => (cache, Ok(None))
          case Some((p, maxAge)) =>
            (if m.putOk then cache[domain := Cached(p.(id := id), m.now + ClampMaxAge(maxAge))] else cache,
             Ok(Some(p.(id := id))))
  }

  class Resolver {
    var cache: map<string, Cached>

    constructor ()
      ensures cache == map[]
    {
      cache := map[];
    }

    /** None if the key is absent or expired. */
    method Get(domain: string, now: int) returns (p: Option<Policy>)
      ensures p == if domain in cache && now < cache[domain].expiry then Some(cache[domain].policy) else None
    {
      if domain in cache && now < cache[domain].expiry {
        return Some(cache[domain].policy);
      }
      return None;
    }

    method Put(domain: string, p: Policy, ttl: int, now: int)
      modifies this
      ensures cache == old(cache)[domain := Cached(p, now + ttl)]
    {
      cache := cache[domain := Cached(p, now + ttl)];
    }

    method ResolvePolicy(domain: string, m: Meets) returns (r: Result<Option<Policy>, FetchError>)
      modifies this
      ensures (cache, r) == Resolved(old(cache), domain, m)
    {
      hide FirstId, ParsedPolicy;
      var id := LookupSTSID(m.records);
      if id.None? {
        return Ok(None);
      }
      if m.getOk {
        var p := Get(domain, m.now);
        if p.Some? && p.value.id == id.value {
          return Ok(Some(p.value));
        }
      }
      if m.answer.Err? {
        return Err(m.answer.error);
      }
      var parsed := ParsePolicy(m.answer.value);
      if parsed.None? {
        return Ok(None);
      }
      var (p, maxAge) := parsed.value;
      p := p.(id := id.value);
      if m.putOk {
        Put(domain, p, ClampMaxAge(maxAge), m.now);
      }
      return Ok(Some(p));
    }
  }

  // ---------------------------------------------------------------- runs

  datatype Event = Resolve(domain: string, meets: Meets) | Evict(domain: string)

  function Step(cache: map<string, Cached>, e: Event): map<string, Cached> {
    match e
    case Resolve(domain, m) => Resolved(cache, domain, m).0
    case Evict(domain) => cache - {domain}
  }

  /** The cache after `es`, starting empty. */
  function Run(es: seq<Event>): map<string, Cached> {
    if es == [] then map[] else Step(Run(es[..|es| - 1]), es[|es| - 1])
  }

  /** `e` fetched `p` from the policy host of `domain` while `p`'s id was the current one. */
  ghost predicate FetchedBy(e: Event, domain: string, p: Policy) {
    && e.Resolve? && e.domain == domain && CurrentId(e.meets) == Some(p.id)
    && e.meets.answer.Ok? && Live(e.meets.answer.value, p.id) == Some(p)
  }

  ghost predicate Source(e: Event, domain: string, c: Cached) {
    FetchedBy(e, domain, c.policy) && c.expiry <= e.meets.now + MAX_AGE_CAP
  }

  ghost predicate HasSource(es: seq<Event>, domain: string, c: Cached) {
    exists j :: 0 <= j < |es| && Source(es[j], domain, c)
  }

  lemma SourcesStay(es: seq<Event>, e: Event, domain: string, c: Cached)
    requires HasSource(es, domain, c)
    ensures HasSource(es + [e], domain, c)
  {
    hide Source;
    var j :| 0 <= j < |es| && Source(es[j], domain, c);
    assert (es + [e])[j] == es[j];
  }

  /** Every cached policy was fetched at most a day before it expires. */
  lemma {:induction false} CacheHasSources(es: seq<Event>)
    ensures forall d :: d in Run(es) ==> HasSource(es, d, Run(es)[d])
  {
    if es != [] {
      var init, e := es[..|es| - 1], es[|es| - 1];
      CacheHasSources(init);
      var before, after := Run(init), Run(es);
      assert es == init + [e];
      assert after == Step(before, e);
      hide Run, HasSource, Source, Step;
      forall d | d in after ensures HasSource(es, d, after[d]) {
        StepIsSource(before, e, d);
        if d in before && after[d] == before[d] {
          SourcesStay(init, e, d, after[d]);
        } else {
          LastIsSource(init, e, d, after[d]);
        }
      }
    }
  }

  lemma StepIsSource(before: map<string, Cached>, e: Event, d: string)
    requires d in Step(before, e)
    ensures (d in before && Step(before, e)[d] == before[d]) || Source(e, d, Step(before, e)[d])
  {
    hide ParsedPolicy, ClampMaxAge;
  }

  lemma LastIsSource(init: seq<Event>, e: Event, domain: string, c: Cached)
    requires Source(e, domain, c)
    ensures HasSource(init + [e], domain, c)
  {
    hide Source;
    assert (init + [e])[|init|] == e;
  }

  /** After any run, a policy returned carries the id that DNS has now, and it is what the policy host answered to
    * this resolution or to an earlier one for the same domain and id, less than a day before. */
  lemma ReturnedPolicyIsFresh(es: seq<Event>, domain: string, m: Meets)
    ensures var r := Resolved(Run(es), domain, m).1;
      r.Ok? && r.value.Some? ==>
        var p := r.value.value;
        && CurrentId(m) == Some(p.id)
        && (|| FetchedBy(Resolve(domain, m), domain, p)
            || exists j :: 0 <= j < |es| && FetchedBy(es[j], domain, p) && m.now < es[j].meets.now + MAX_AGE_CAP)
  {
    hide Run, ParsedPolicy;
    CacheHasSources(es);
    var r := Resolved(Run(es), domain, m).1;
    if r.Ok? && r.value.Some? {
      var p := r.value.value;
      if Hit(Run(es), domain, m, p.id) {
        assert HasSource(es, domain, Run(es)[domain]);
        hide FetchedBy;
        var j :| 0 <= j < |es| && Source(es[j], domain, Run(es)[domain]);
      } else {
        assert FetchedBy(Resolve(domain, m), domain, p);
      }
    }
  }

  /** Policy hosts change a policy only together with its id (section 3.1 of RFC 8461). */
  ghost predicate FunctionOfId(published: (string, string) -> string, e: Event) {
    e.Resolve? && e.meets.answer.Ok? && CurrentId(e.meets).Some? ==>
      e.meets.answer.value == published(e.domain, CurrentId(e.meets).value)
  }

  /** Then the cache is invisible: after any run, a resolution that reaches the policy host returns exactly what it
    * would without a cache, and one that does not returns that policy or the failure. */
  lemma CacheIsTransparent(es: seq<Event>, domain: string, m: Meets, published: (string, string) -> string)
    requires forall e :: e in es ==> FunctionOfId(published, e)
    requires FunctionOfId(published, Resolve(domain, m))
    ensures var r, live := Resolved(Run(es), domain, m).1, Resolved(map[], domain, m).1;
      && (m.answer.Ok? ==> r == live)
      && (m.answer.Err? ==> r == live
                            || (CurrentId(m).Some?
                                && Live(published(domain, CurrentId(m).value), CurrentId(m).value).Some?
                                && r == Ok(Live(published(domain, CurrentId(m).value), CurrentId(m).value))))
  {
    hide Run, ParsedPolicy;
    CacheHasSources(es);
    if id :| CurrentId(m) == Some(id) && Hit(Run(es), domain, m, id) {
      var p := Run(es)[domain].policy;
      assert HasSource(es, domain, Run(es)[domain]);
      var j :| 0 <= j < |es| && Source(es[j], domain, Run(es)[domain]);
      assert es[j] in es && FunctionOfId(published, es[j]);
      assert es[j].meets.answer.value == published(domain, id);
    }
  }

  // ---------------------------------------------------------------- without that rule

  /** Resolving `domain` as `m` puts the fetched policy into this cache. */
  predicate Stores(cache: map<string, Cached>, domain: string, m: Meets) {
    && CurrentId(m).Some? && !Hit(cache, domain, m, CurrentId(m).value)
    && m.answer.Ok? && ParsedPolicy(m.answer.value).Some? && m.putOk
  }

  /** The last event of a run to store a policy for `domain`, unless it was evicted since. */
  function LastStore(es: seq<Event>, domain: string): (r: Option<nat>)
    ensures r.Some? ==> r.value < |es| && es[r.value].Resolve? && es[r.value].domain == domain
    ensures r.Some? ==> CurrentId(es[r.value].meets).Some? && es[r.value].meets.answer.Ok?
    ensures r.Some? ==> ParsedPolicy(es[r.value].meets.answer.value).Some?
    decreases |es|
  {
    if es == [] then None
    else
      var before, e := es[..|es| - 1], es[|es| - 1];
      if e == Evict(domain) then None
      else if e.Resolve? && e.domain == domain && Stores(Run(before), domain, e.meets) then Some(|es| - 1)
      else LastStore(before, domain)
  }

  /** How long an answer is kept. */
  function Lifetime(body: string): int
    requires ParsedPolicy(body).Some?
  {
    ClampMaxAge(ParsedPolicy(body).value.1)
  }

  /** The cache holds what the last store put there, and nothing else. */
  lemma {:induction false} LastStoreIsCached(es: seq<Event>, domain: string)
    ensures domain in Run(es) <==> LastStore(es, domain).Some?
    ensures domain in Run(es) ==>
              var s := es[LastStore(es, domain).value].meets;
              Some(Run(es)[domain].policy) == Live(s.answer.value, CurrentId(s).value)
              && Run(es)[domain].expiry == s.now + Lifetime(s.answer.value)
              && Run(es)[domain].policy.id == CurrentId(s).value
    decreases |es|
  {
    hide ParsedPolicy, FirstId, ClampMaxAge;
    if es != [] {
      LastStoreIsCached(es[..|es| - 1], domain);
    }
  }

  /** The last answer stored for `domain` was stored under the id that is current now and has not expired, and the
    * cache can be read. */
  predicate StillCached(es: seq<Event>, domain: string, m: Meets) {
    && m.getOk && CurrentId(m).Some? && LastStore(es, domain).Some?
    && var s := es[LastStore(es, domain).value].meets;
       CurrentId(s) == CurrentId(m) && m.now < s.now + Lifetime(s.answer.value)
  }

  /** After any run, a resolution differs from a live fetch if and only if the answer stored last is still cached and
    * the host no longer gives that policy (or gives none); then that policy is returned. */
  lemma StaleIff(es: seq<Event>, domain: string, m: Meets)
    ensures var r, live := Resolved(Run(es), domain, m).1, Resolved(map[], domain, m).1;
      r != live <==>
        StillCached(es, domain, m)
        && var stored := es[LastStore(es, domain).value].meets.answer.value;
           m.answer.Err? || Live(m.answer.value, CurrentId(m).value) != Live(stored, CurrentId(m).value)
    ensures StillCached(es, domain, m) ==>
      Resolved(Run(es), domain, m).1
      == Ok(Live(es[LastStore(es, domain).value].meets.answer.value, CurrentId(m).value))
  {
    hide ParsedPolicy, Run, LastStore, FirstId, ClampMaxAge;
    LastStoreIsCached(es, domain);
  }
}
