/**
 * The speed survey (server/instance-speed-cron.cpp): for every listed host,
 * how many posts of its recent timeline fall into how long a span. The
 * floating-point ratio itself is not modelled; a host keeps the post count
 * and the span the ratio is computed from.
 */
module Speed {
  import opened Distsn
  import opened Json
  import opened Remote
  import HostList
  import Survey

  /** Fewer posts than this and the host is not measured. */
  const MinPosts := 40

  /** One year, in seconds: the longest span the tool accepts (exclusive). */
  const MaxSpan := 60 * 60 * 24 * 365

  /** One measured host: `posts / duration` is its speed. */
  datatype Host = Host(domain: string, posts: nat, duration: int, title: string)

  function Max(a: int, b: int): int {
    if a < b then b else a
  }

  /** The span the posts cover: from the bottom post to the later of the start
      of the measurement and the top post. */
  function Span(startTime: int, topTime: int, bottomTime: int): (r: int)
    ensures startTime - bottomTime <= r && topTime - bottomTime <= r
    ensures r == startTime - bottomTime || r == topTime - bottomTime
  {
    Max(startTime, topTime) - bottomTime
  }

  /** `for_host`: measures the host from its timeline. Fewer than 40 posts, an
      unreadable time on the top (first) or bottom (last) post, or a span not
      strictly between 1 second and a year is a `HostException`; a title the
      instance document lacks is left empty. */
  function ForHost(env: Env, domain: string): (r: Result<Host>)
    ensures r.Err? ==> Swallowed(r.error)
    ensures env.getTimeline(domain).HttpFailed? ==> r == Err(HttpException)
    ensures env.getTimeline(domain).HostFailed? ==> r == Err(HostException)
    ensures env.getTimeline(domain).Page? && |env.getTimeline(domain).toots| < MinPosts ==> r == Err(HostException)
    ensures r.Ok? ==>
      && env.getTimeline(domain).Page?
      && var toots := env.getTimeline(domain).toots;
      && r.value.domain == domain
      && r.value.posts == |toots| >= MinPosts
      && env.getTime(toots[0]).Some?
      && env.getTime(toots[|toots| - 1]).Some?
      && r.value.duration == Span(env.clock(domain), env.getTime(toots[0]).value, env.getTime(toots[|toots| - 1]).value)
      && 1 < r.value.duration < MaxSpan
      && r.value.title == (if GetHostTitle(env, domain).Ok? then GetHostTitle(env, domain).value else "")
    ensures env.getTimeline(domain).Page? && MinPosts <= |env.getTimeline(domain).toots| ==>
      var toots := env.getTimeline(domain).toots;
      var top, bottom := env.getTime(toots[0]), env.getTime(toots[|toots| - 1]);
      if top.None? || bottom.None? then r == Err(HostException)
      else if !(1 < Span(env.clock(domain), top.value, bottom.value) < MaxSpan) then r == Err(HostException)
      else if env.httpGet(InstanceUrl(domain)).None? then r == Err(HttpException)
      else r.Ok?
  {
    match env.getTimeline(domain)
    case HttpFailed => Err(HttpException)
    case HostFailed => Err(HostException)
    case Page(toots) =>
      if |toots| < MinPosts then Err(HostException)
      else
        var top, bottom := env.getTime(toots[0]), env.getTime(toots[|toots| - 1]);
        if top.None? || bottom.None? then Err(HostException)
        else
          var duration := Span(env.clock(domain), top.value, bottom.value);
          if !(1 < duration && duration < MaxSpan) then Err(HostException)
          else
            match TitleOrEmpty(env, domain)
            case Err(e) => Err(e)
            case Ok(title) => Ok(Host(domain, |toots|, duration, title))
  }

  /** `for_host` as the collection loop calls it. */
  function ForHostOf(env: Env): string -> Result<Host> {
    d => ForHost(env, d)
  }

  /** Every measured host has at least 40 posts over a span strictly inside
      (1 second, 1 year), so its speed is a positive, finite ratio. */
  lemma MeasuredHostsInWindow(env: Env, domains: seq<string>)
    ensures forall h :: h in Survey.Successes(ForHostOf(env), domains) ==>
      MinPosts <= h.posts && 1 < h.duration < MaxSpan
  {
    forall h | h in Survey.Successes(ForHostOf(env), domains)
      ensures MinPosts <= h.posts && 1 < h.duration < MaxSpan
    {
      Survey.SuccessesMembers(ForHostOf(env), domains, h);
      var i :| 0 <= i < |domains| && ForHostOf(env)(domains[i]) == Ok(h);
      assert ForHost(env, domains[i]) == Ok(h);
    }
  }

  /** What one run of the tool ends with: its exit status, the host set it
      read and the hosts it measured, in the order of that set. */
  datatype Outcome = Outcome(status: int, domains: seq<string>, hosts: seq<Host>)

  /** `main` up to the ranking: reads the host list (a failure there ends the
      program), splits it into the host set, measures every host, and exits
      with status 0. */
  method Run(env: Env) returns (r: Result<Outcome>)
    ensures r.Err? <==> env.httpGet(HostsUrl).None?
    ensures r.Err? ==> r.error == HttpException
    ensures r.Ok? ==> r.value.status == 0
    ensures r.Ok? ==> HostList.IsHostSet(r.value.domains, env.httpGet(HostsUrl).value)
    ensures r.Ok? ==> r.value.hosts == Survey.Successes(ForHostOf(env), r.value.domains)
  {
    var reply := env.httpGet(HostsUrl);
    if reply.None? {
      return Err(HttpException);
    }
    var domains := HostList.GetDomains(reply.value);
    var hosts := Survey.Collect(ForHostOf(env), domains);
    return Ok(Outcome(0, domains, hosts));
  }
}
