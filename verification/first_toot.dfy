/**
 * The first-toot survey (server/instance-first-toot-cron.cpp): for every
 * listed host, the last post of one public-timeline page, the host's title,
 * then all hosts ranked freshest first and written as a JSON array.
 */
module FirstToot {
  import opened Distsn
  import opened Json
  import opened Remote
  import JsonText
  import HostList
  import Survey

  /** One surveyed host, as the tool stores it. */
  datatype Host = Host(domain: string, firstTootTime: int, firstTootUrl: string, title: string)

  /** `get_url`: the `url` of a post, which must be an object holding a string there. */
  function GetUrl(toot: Value): (r: Result<string>)
    ensures r.Ok? <==> toot.Object? && "url" in toot.properties && toot.properties["url"].Str?
    ensures r.Ok? ==> r.value == toot.properties["url"].s
    ensures r.Err? ==> r.error == TootException
  {
    if !toot.Object? then Err(TootException)
    else if "url" !in toot.properties then Err(TootException)
    else if !toot.properties["url"].Str? then Err(TootException)
    else Ok(toot.properties["url"].s)
  }

  /** A post carrying `url` gives that url back, whatever else it holds. */
  lemma GetUrlOfPost(properties: map<string, Value>, url: string)
    ensures GetUrl(Object(properties["url" := Str(url)])) == Ok(url)
  {
  }

  /** The one timeline page the tool asks for. */
  function TimelineUrl(host: string): string {
    "https://" + host + "/api/v1/timelines/public?local=true&max_id=20"
  }

  /** `get_timeline_impl`: the posts of that page. A transport failure is an
      `HttpException`; a reply that does not parse, or is not an array, a
      `HostException`. */
  function GetTimelineImpl(env: Env, host: string): (r: Result<seq<Value>>)
    ensures r.Err? ==> Swallowed(r.error)
    ensures r == Err(HttpException) <==> env.httpGet(TimelineUrl(host)).None?
    ensures r.Ok? <==>
      && env.httpGet(TimelineUrl(host)).Some?
      && env.parse(env.httpGet(TimelineUrl(host)).value).Some?
      && env.parse(env.httpGet(TimelineUrl(host)).value).value.Array?
    ensures r.Ok? ==> env.parse(env.httpGet(TimelineUrl(host)).value) == Some(Array(r.value))
  {
    match Fetch(env, TimelineUrl(host))
    case Err(e) => Err(e)
    case Ok(v) => if v.Array? then Ok(v.items) else Err(HostException)
  }

  /** `for_host`: the host's record from the last (oldest) post of its page.
      An empty page is a `HostException`, and so is a last post whose time
      or url cannot be read; a title the instance document lacks is left
      empty. */
  function ForHost(env: Env, domain: string): (r: Result<Host>)
    ensures r.Err? ==> Swallowed(r.error)
    ensures GetTimelineImpl(env, domain).Err? ==> r == Err(GetTimelineImpl(env, domain).error)
    ensures GetTimelineImpl(env, domain) == Ok([]) ==> r == Err(HostException)
    ensures r.Ok? ==>
      && GetTimelineImpl(env, domain).Ok?
      && var toots := GetTimelineImpl(env, domain).value;
      && 0 < |toots|
      && r.value.domain == domain
      && env.getTime(toots[|toots| - 1]) == Some(r.value.firstTootTime)
      && GetUrl(toots[|toots| - 1]) == Ok(r.value.firstTootUrl)
      && r.value.title == (if GetHostTitle(env, domain).Ok? then GetHostTitle(env, domain).value else "")
    ensures GetTimelineImpl(env, domain).Ok? && 0 < |GetTimelineImpl(env, domain).value| ==>
      var toots := GetTimelineImpl(env, domain).value;
      if env.getTime(toots[|toots| - 1]).None? || GetUrl(toots[|toots| - 1]).Err? then r == Err(HostException)
      else if env.httpGet(InstanceUrl(domain)).None? then r == Err(HttpException)
      else r.Ok?
  {
    match GetTimelineImpl(env, domain)
    case Err(e) => Err(e)
    case Ok(toots) =>
      if |toots| < 1 then Err(HostException)
      else
        var bottom := toots[|toots| - 1];
        if env.getTime(bottom).None? then Err(HostException)
        else if GetUrl(bottom).Err? then Err(HostException)
        else
          match TitleOrEmpty(env, domain)
          case Err(e) => Err(e)
          case Ok(title) => Ok(Host(domain, env.getTime(bottom).value, GetUrl(bottom).value, title))
  }

  /** `for_host` as the collection loop calls it. */
  function ForHostOf(env: Env): string -> Result<Host> {
    d => ForHost(env, d)
  }

  /** `byFresh`: `left` goes first when its oldest post is more recent. */
  predicate ByFresh(left: Host, right: Host) {
    right.firstTootTime < left.firstTootTime
  }

  /** `byFresh` is a strict weak ordering, as `std::sort` requires of it. */
  lemma ByFreshStrictWeakOrder(a: Host, b: Host, c: Host)
    ensures !ByFresh(a, a)
    ensures ByFresh(a, b) ==> !ByFresh(b, a)
    ensures ByFresh(a, b) && ByFresh(b, c) ==> ByFresh(a, c)
    ensures !ByFresh(a, b) && !ByFresh(b, a) && !ByFresh(b, c) && !ByFresh(c, b) ==> !ByFresh(a, c) && !ByFresh(c, a)
  {
  }

  /** No host placed after another is fresher than it. */
  predicate FreshFirst(s: seq<Host>) {
    forall i, j :: 0 <= i < j < |s| ==> !ByFresh(s[j], s[i])
  }

  /** `sort (hosts.begin (), hosts.end (), byFresh {})`: ranks the hosts in
      place, freshest first. The order of hosts with equal times is not fixed. */
  method SortByFresh(a: array<Host>)
    modifies a
    ensures FreshFirst(a[..])
    ensures multiset(a[..]) == multiset(old(a[..]))
  {
    var i := 0;
    while i < a.Length
      invariant 0 <= i <= a.Length
      invariant FreshFirst(a[..i])
      invariant multiset(a[..]) == multiset(old(a[..]))
    {
      SiftLeft(a, i);
      i := i + 1;
    }
    assert a[..a.Length] == a[..];
  }

  /** Moves `a[i]` left past every host less fresh than it, so that the
      ranked prefix `a[..i]` grows by one. */
  method SiftLeft(a: array<Host>, i: nat)
    requires i < a.Length
    requires FreshFirst(a[..i])
    modifies a
    ensures FreshFirst(a[..i + 1])
    ensures multiset(a[..]) == multiset(old(a[..]))
  {
    var j := i;
    while 0 < j && ByFresh(a[j], a[j - 1])
      invariant 0 <= j <= i
      invariant forall k, l :: 0 <= k < l <= i && k != j && l != j ==> !ByFresh(a[l], a[k])
      invariant forall l :: j < l <= i ==> ByFresh(a[j], a[l])
      invariant multiset(a[..]) == multiset(old(a[..]))
    {
      a[j - 1], a[j] := a[j], a[j - 1];
      j := j - 1;
    }
    forall k | 0 <= k < j
      ensures !ByFresh(a[j], a[k])
    {
      if k < j - 1 {
        assert !ByFresh(a[j - 1], a[k]);
      }
    }
  }

  /** The `fprintf` format of one array element, filled in with its four
      strings: the part up to the time, the time, the part after it. */
  function Format(domain: string, time: string, url: string, title: string): string {
    BeforeTime(domain) + time + AfterTime(url, title)
  }

  /** The domain inside its key and quotes, then the time's key and opening quote. */
  function BeforeTime(domain: string): string {
    "{\"domain\":\"" + domain + "\",\"first_toot_time\":\""
  }

  /** The time's closing quote, then the url and the title inside their keys and quotes. */
  function AfterTime(url: string, title: string): string {
    BeforeTitle(url) + title + "\"}"
  }

  /** The time's closing quote, the url inside its key and quotes, then the
      title's key and opening quote. */
  function BeforeTitle(url: string): string {
    "\",\"first_toot_url\":\"" + url + "\",\"title\":\""
  }

  lemma FormatNoNul(domain: string, time: string, url: string, title: string)
    requires '\0' !in domain && '\0' !in time && '\0' !in url && '\0' !in title
    ensures '\0' !in Format(domain, time, url, title)
  {
  }

  /** One element of the written array. Each of the four strings reaches
      `%s` as a `c_str()`, so it is cut at its first NUL. Only the title is
      escaped; the time is written as a quoted decimal string. */
  function HostObject(h: Host): (r: string)
    ensures '\0' !in r
  {
    var domain, time := JsonText.CStr(h.domain), JsonText.CStr(JsonText.IntText(h.firstTootTime));
    var url, title := JsonText.CStr(h.firstTootUrl), JsonText.CStr(JsonText.Escaped(h.title));
    FormatNoNul(domain, time, url, title);
    Format(domain, time, url, title)
  }

  /** The time sits right after the domain part, is followed by its closing
      quote, and reads back as the host's time. */
  lemma HostObjectTime(h: Host)
    ensures var o, p, t := HostObject(h), BeforeTime(JsonText.CStr(h.domain)), JsonText.IntText(h.firstTootTime);
      && |p| + |t| < |o|
      && o[|p|..|p| + |t|] == t
      && o[|p| + |t|] == '"'
      && JsonText.ParseTime(o[|p|..|p| + |t|]) == Some(h.firstTootTime)
  {
    var t := JsonText.IntText(h.firstTootTime);
    JsonText.IntTextNoNul(h.firstTootTime);
    JsonText.CStrPlain(t);
    var q := AfterTime(JsonText.CStr(h.firstTootUrl), JsonText.CStr(JsonText.Escaped(h.title)));
    assert q[0] == '"';
    SliceMiddle(BeforeTime(JsonText.CStr(h.domain)), t, q);
    JsonText.IntTextRoundTrip(h.firstTootTime);
  }

  lemma Regroup(a: string, b: string, e: string, c: string)
    ensures a + (b + e + c) == (a + b) + e + c
  {
  }

  lemma SliceLast(p: string, e: string, q: string)
    ensures var o := p + e + q;
      && |o| == |p| + |e| + |q|
      && o[|o| - |q| - |e| .. |o| - |q|] == e
      && o[|o| - |q|..] == q
  {
  }

  lemma SliceMiddle(p: string, t: string, q: string)
    requires 0 < |q|
    ensures |p| + |t| < |p + t + q|
    ensures (p + t + q)[|p|..|p| + |t|] == t && (p + t + q)[|p| + |t|] == q[0]
  {
  }

  /** The objects of `hosts` in order, a comma between neighbours. */
  function Objects(hosts: seq<Host>): string
    decreases |hosts|
  {
    if hosts == [] then ""
    else Objects(hosts[..|hosts| - 1]) + (if 1 < |hosts| then "," else "") + HostObject(hosts[|hosts| - 1])
  }

  /** The whole storage file. */
  function StorageText(hosts: seq<Host>): (r: string)
    ensures 2 <= |r| && r[0] == '[' && r[|r| - 1] == ']'
  {
    "[" + Objects(hosts) + "]"
  }

  lemma ObjectsSnoc(hosts: seq<Host>, cn: nat)
    requires cn < |hosts|
    ensures Objects(hosts[..cn + 1]) == Objects(hosts[..cn]) + (if 0 < cn then "," else "") + HostObject(hosts[cn])
  {
    assert hosts[..cn + 1][..cn] == hosts[..cn];
    assert hosts[..cn + 1][cn] == hosts[cn];
  }

  lemma ConcatAssociative(out: string, objects: string, separator: string, item: string)
    requires out == "[" + objects
    ensures out + separator + item == "[" + (objects + separator + item)
  {
  }

  /** `write_storage`, producing the text instead of writing it to a file. */
  method WriteStorage(hosts: seq<Host>) returns (out: string)
    ensures out == StorageText(hosts)
  {
    out := "[";
    for cn := 0 to |hosts|
      invariant out == "[" + Objects(hosts[..cn])
    {
      ghost var objects := Objects(hosts[..cn]);
      var separator := if 0 < cn then "," else "";
      var host := hosts[cn];
      var title := JsonText.EscapeJson(host.title);
      var item := Format(JsonText.CStr(host.domain), JsonText.CStr(JsonText.IntText(host.firstTootTime)),
        JsonText.CStr(host.firstTootUrl), JsonText.CStr(title));
      assert item == HostObject(host);
      ObjectsSnoc(hosts, cn);
      ConcatAssociative(out, objects, separator, item);
      out := out + separator + item;
    }
    assert hosts[..|hosts|] == hosts;
    out := out + "]";
  }

  /** The file is one JSON array: it opens with `[`, closes with `]`, and is
      exactly `[]` when no host was kept. */
  lemma StorageTextShape(hosts: seq<Host>)
    ensures var t := StorageText(hosts); 2 <= |t| && t[0] == '[' && t[|t| - 1] == ']'
    ensures StorageText(hosts) == "[]" <==> hosts == []
  {
    if hosts != [] {
      assert |Objects(hosts)| >= |HostObject(hosts[|hosts| - 1])| > 0;
    }
  }

  /** The title sits last in its object, just before the closing `"}`, and
      reads back as the part of the host's title before its first NUL: the
      whole title when it holds none. */
  lemma HostObjectTitle(h: Host)
    ensures var o, e := HostObject(h), JsonText.Escaped(JsonText.CStr(h.title));
      && |e| + 2 <= |o|
      && o[|o| - 2 - |e| .. |o| - 2] == e
      && o[|o| - 2..] == "\"}"
      && JsonText.Unescape(o[|o| - 2 - |e| .. |o| - 2]) == JsonText.CStr(h.title)
    ensures '\0' !in h.title ==> JsonText.Unescape(JsonText.Escaped(JsonText.CStr(h.title))) == h.title
  {
    var e := JsonText.CStr(JsonText.Escaped(h.title));
    var before := BeforeTime(JsonText.CStr(h.domain)) + JsonText.CStr(JsonText.IntText(h.firstTootTime));
    Regroup(before, BeforeTitle(JsonText.CStr(h.firstTootUrl)), e, "\"}");
    SliceLast(before + BeforeTitle(JsonText.CStr(h.firstTootUrl)), e, "\"}");
    JsonText.CStrEscaped(h.title);
    JsonText.UnescapeEscaped(JsonText.CStr(h.title));
    if '\0' !in h.title {
      JsonText.CStrPlain(h.title);
    }
  }

  /** With no newline in any domain or url, the whole file is one line. */
  lemma {:induction false} StorageSingleLine(hosts: seq<Host>)
    requires forall k :: 0 <= k < |hosts| ==> '\n' !in hosts[k].domain && '\n' !in hosts[k].firstTootUrl
    ensures '\n' !in StorageText(hosts)
  {
    ObjectsSingleLine(hosts);
  }

  lemma {:induction false} ObjectsSingleLine(hosts: seq<Host>)
    requires forall k :: 0 <= k < |hosts| ==> '\n' !in hosts[k].domain && '\n' !in hosts[k].firstTootUrl
    ensures '\n' !in Objects(hosts)
    decreases |hosts|
  {
    if hosts != [] {
      var h := hosts[|hosts| - 1];
      ObjectsSingleLine(hosts[..|hosts| - 1]);
      JsonText.EscapedNoNewline(h.title);
      JsonText.IntTextPlain(h.firstTootTime);
      assert '\n' !in JsonText.IntText(h.firstTootTime);
      FormatSingleLine(JsonText.CStr(h.domain), JsonText.CStr(JsonText.IntText(h.firstTootTime)),
        JsonText.CStr(h.firstTootUrl), JsonText.CStr(JsonText.Escaped(h.title)));
    }
  }

  lemma FormatSingleLine(domain: string, time: string, url: string, title: string)
    requires '\n' !in domain && '\n' !in time && '\n' !in url && '\n' !in title
    ensures '\n' !in Format(domain, time, url, title)
  {
  }

  /** The ranked hosts are exactly the records of the domains `for_host`
      succeeded on: each one's url is that of a post seen on its own page. */
  lemma RankedHostsSurveyed(env: Env, domains: seq<string>, ranked: seq<Host>, h: Host)
    requires multiset(ranked) == multiset(Survey.Successes(ForHostOf(env), domains))
    ensures h in ranked <==> exists i :: 0 <= i < |domains| && ForHost(env, domains[i]) == Ok(h)
  {
    Survey.SuccessesMembers(ForHostOf(env), domains, h);
    assert h in ranked <==> h in multiset(ranked);
    assert forall i :: 0 <= i < |domains| ==> ForHostOf(env)(domains[i]) == ForHost(env, domains[i]);
  }

  /** What one run of the tool ends with: its exit status, the host set it
      read, the ranked hosts and the text written to storage, if the file
      could be opened. */
  datatype Outcome = Outcome(status: int, domains: seq<string>, ranked: seq<Host>, storage: Option<string>)

  /** `main`. Fetching the host list is outside any `try`: when it fails the
      exception ends the program. Otherwise every host is surveyed, the
      survivors are ranked, written, and the status is 0. */
  method Run(env: Env, canOpen: bool) returns (r: Result<Outcome>)
    ensures r.Err? <==> env.httpGet(HostsUrl).None?
    ensures r.Err? ==> r.error == HttpException
    ensures r.Ok? ==> r.value.status == 0
    ensures r.Ok? ==> HostList.IsHostSet(r.value.domains, env.httpGet(HostsUrl).value)
    ensures r.Ok? ==> multiset(r.value.ranked) == multiset(Survey.Successes(ForHostOf(env), r.value.domains))
    ensures r.Ok? ==> FreshFirst(r.value.ranked)
    ensures r.Ok? ==> r.value.storage == (if canOpen then Some(StorageText(r.value.ranked)) else None)
  {
    var reply := env.httpGet(HostsUrl);
    if reply.None? {
      return Err(HttpException);
    }
    var domains := HostList.GetDomains(reply.value);
    var hosts := Survey.Collect(ForHostOf(env), domains);
    var a := new Host[|hosts|](k requires 0 <= k < |hosts| => hosts[k]);
    assert a[..] == hosts;
    SortByFresh(a);
    var ranked := a[..];
    var storage := None;
    if canOpen {
      var text := WriteStorage(ranked);
      storage := Some(text);
    }
    return Ok(Outcome(0, domains, ranked, storage));
  }
}
