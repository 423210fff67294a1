/**
 * The collaborators the survey tools call but whose code is not modelled
 * (HTTP transport, JSON parser, post time extraction, the clock), and the
 * instance-title fetch both tools share.
 */
module Remote {
  import opened Distsn
  import opened Json

  /** What the speed tool's external `get_timeline` gives back. */
  datatype TimelineReply = Page(toots: seq<Value>) | HttpFailed | HostFailed

  /** The outside world, as functions:
      - `httpGet`: `http_get`; `None` when it throws `HttpException`;
      - `parse`: `picojson::parse`; `None` when it reports an error;
      - `getTime`: `get_time`; `None` when it throws `TootException`;
      - `getTimeline`: the speed tool's `get_timeline`, assumed to throw only
        `HttpException` (`HttpFailed`) or `HostException` (`HostFailed`);
      - `clock`: what `time` returns when `for_host(domain)` starts. */
  datatype Env = Env(
    httpGet: string -> Option<string>,
    parse: string -> Option<Value>,
    getTime: Value -> Option<int>,
    getTimeline: string -> TimelineReply,
    clock: string -> int)

  /** Where both tools read their list of candidate hosts. */
  const HostsUrl := "https://raw.githubusercontent.com/distsn/follow-recommendation/master/hosts.txt"

  function InstanceUrl(domain: string): string {
    "https://" + domain + "/api/v1/instance"
  }

  /** One request followed by parsing: a transport failure is an
      `HttpException`, an unparsable reply a `HostException`. */
  function Fetch(env: Env, url: string): Result<Value> {
    match env.httpGet(url)
    case None => Err(HttpException)
    case Some(reply) =>
      match env.parse(reply)
      case None => Err(HostException)
      case Some(v) => Ok(v)
  }

  /** The string stored under `key`, when `v` is an object holding a string there. */
  function StringField(v: Value, key: string): Option<string> {
    if v.Object? && key in v.properties && v.properties[key].Str?
    then Some(v.properties[key].s)
    else None
  }

  /** `get_host_title`: the string `title` of the instance document. A
      transport failure stays an `HttpException`; every other shape problem
      is a `HostException`. */
  function GetHostTitle(env: Env, domain: string): (r: Result<string>)
    ensures r.Err? ==> Swallowed(r.error)
    ensures r == Err(HttpException) <==> env.httpGet(InstanceUrl(domain)).None?
    ensures r.Ok? ==>
      && env.httpGet(InstanceUrl(domain)).Some?
      && env.parse(env.httpGet(InstanceUrl(domain)).value).Some?
      && StringField(env.parse(env.httpGet(InstanceUrl(domain)).value).value, "title") == Some(r.value)
    ensures
      && env.httpGet(InstanceUrl(domain)).Some?
      && env.parse(env.httpGet(InstanceUrl(domain)).value).Some?
      && StringField(env.parse(env.httpGet(InstanceUrl(domain)).value).value, "title").Some?
      ==> r.Ok?
  {
    match Fetch(env, InstanceUrl(domain))
    case Err(e) => Err(e)
    case Ok(v) =>
      match StringField(v, "title")
      case None => Err(HostException)
      case Some(title) => Ok(title)
  }

  /** The title step of `for_host`: a `HostException` from `get_host_title`
      is caught and leaves the title empty; an `HttpException` is not caught
      and fails the whole host. */
  function TitleOrEmpty(env: Env, domain: string): (r: Result<string>)
    ensures r.Err? <==> env.httpGet(InstanceUrl(domain)).None?
    ensures r.Err? ==> r.error == HttpException
    ensures r.Ok? && GetHostTitle(env, domain).Ok? ==> r.value == GetHostTitle(env, domain).value
    ensures GetHostTitle(env, domain) == Err(HostException) ==> r == Ok("")
  {
    match GetHostTitle(env, domain)
    case Ok(title) => Ok(title)
    case Err(e) => if e == HostException then Ok("") else Err(e)
  }
}
