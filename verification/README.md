# Instance survey tools, modelled in Dafny

This project models three small programs of a follow-recommendation service for
federated social-network servers ("instances", "hosts"):

- `server/instance-first-toot-cron.cpp` reads a list of host names, asks each host for
  one page of its public timeline, keeps the time and url of the last post of that
  page, fetches the host's title, ranks the hosts freshest first and writes them as
  a JSON array;
- `server/instance-speed-cron.cpp` reads the same host list and, for each host,
  measures how many posts its recent timeline holds over how long a span;
- `client/pleroma-instances.js` turns a list of instances into HTML paragraphs, with
  titles escaped for HTML.

Modules, one per concern:

| file | module | models |
|---|---|---|
| `distsn.dfy` | `Distsn` | the exception classes of `server/distsn.h`, as an error datatype |
| `json.dfy` | `Json` | a decoded JSON value (`picojson::value`) |
| `remote.dfy` | `Remote` | the collaborators that are not modelled (HTTP, JSON parser, `get_time`, the speed tool's `get_timeline`, the clock) as functions in an `Env`, and `get_host_title`, which both tools define identically |
| `json_text.dfy` | `JsonText` | `escape_json` (identical in both tools) and the decimal text of a `time_t` |
| `host_list.dfy` | `HostList` | `valid_host_name` and the line-splitting loop (`get_domains`, written out again in the speed tool's `main`), with `std::set<std::string>` as a strictly sorted sequence |
| `survey.dfy` | `Survey` | the collection loop of both `main`s, generic in the host record |
| `first_toot.dfy` | `FirstToot` | `get_url`, `get_timeline_impl`, `for_host`, `byFresh` and the sort, `write_storage`, `main` |
| `speed.dfy` | `Speed` | the speed tool's `for_host` gates and `main` up to the ranking |
| `client.dfy` | `Client` | `escapeHtml` and the HTML built by `show_instances` |

Facts about the code that shape the model:

- The first-toot tool requests the timeline page `max_id=20` once per host and
  keeps the time and url of that page's last post.
- Each written object has four fields: `domain`, `first_toot_time`,
  `first_toot_url` and `title`. Each goes through `%s` as a `c_str()`, so it
  ends at its first NUL character.
- `for_host` catches only `HostException` around `get_host_title`. A transport
  failure of the title request (an `HttpException` from `http_get`) leaves
  `for_host`, and the host is dropped.
- Blank lines and `#` lines of the host list are skipped by `valid_host_name`.
  Duplicates disappear in the `std::set`.
- `std::sort` is not stable. Hosts with equal times may come out in any order.
- Fetching the host list in `main` is outside every `try`. When it fails, the
  exception ends the program and `main` never returns 0. Every other path returns 0.
- Only `title` is escaped when the file is written. `domain` and `first_toot_url`
  are written as they are.

`http_get` is assumed to report a failure by throwing `HttpException`. Its code is
not part of this model. `get_time` is assumed to throw `TootException`; its code is
not part of this model either. The speed tool's `get_timeline`
(server/instance-speed-cron.cpp:102) is assumed to throw only `HttpException` or `HostException`, as the first-toot tool's own
`get_timeline_impl` does (server/instance-first-toot-cron.cpp:92-113); its code is
not part of this model.

## Model

| member | source | states |
|---|---|---|
| `Remote.GetHostTitle` | server/instance-first-toot-cron.cpp:116-137 | the title is the string `title` of the parsed instance document; it fails with `HttpException` exactly when the request fails, and with `HostException` for an unparsable reply, a non-object, a missing key or a non-string value |
| `Remote.TitleOrEmpty` | server/instance-first-toot-cron.cpp:158-163 | a `HostException` from the title fetch leaves the title empty; the step fails, with `HttpException`, exactly when the title request itself fails |
| `JsonText.EscapeJson` | server/instance-first-toot-cron.cpp:57-72 | the loop's output is `Escaped(in)`: `\n`, `"` and `\` become `\n`, `\"` and `\\`; every other character is copied in order |
| `JsonText.EscapedLength` | server/instance-first-toot-cron.cpp:57-72 | output length is input length plus the number of newline, quote and backslash characters |
| `JsonText.EscapedNoNewline` | server/instance-first-toot-cron.cpp:61-62 | the escaped text holds no raw newline |
| `JsonText.EscapedIdentity` | server/instance-first-toot-cron.cpp:67-68 | text without newline, quote or backslash is returned unchanged |
| `JsonText.EscapedWellEscaped` | server/instance-speed-cron.cpp:38-53 | the escaped text (the speed tool's copy is the same rewrite) is a JSON string body using only the escapes `\n`, `\"`, `\\`, with no raw quote or newline |
| `JsonText.UnescapeEscaped` | server/instance-first-toot-cron.cpp:57-72 | round trip: unescaping the escaped text gives the original back |
| `JsonText.EscapedUnescape` | server/instance-first-toot-cron.cpp:57-72 | the other direction: every such well-escaped body is the escape of the text it reads as |
| `JsonText.IntText` | server/instance-first-toot-cron.cpp:83-84 | `time_s << t` writes a minus sign exactly for a negative time, then decimal digits |
| `JsonText.CStr` | server/instance-first-toot-cron.cpp:85-86 | `%s` of a `c_str()` prints a prefix of the string that holds no NUL and stops only at a NUL or at the end |
| `JsonText.CStrEscaped` | server/instance-first-toot-cron.cpp:85-86 | cutting the escaped title at its first NUL is escaping the title cut at its first NUL |
| `JsonText.NatText` | server/instance-first-toot-cron.cpp:83-84 | the decimal text of a time is non-empty, all digits, and has no leading zero |
| `JsonText.IntTextRoundTrip` | server/instance-first-toot-cron.cpp:83-85 | the `first_toot_time` string reads back as the time written |
| `JsonText.IntTextPlain` | server/instance-first-toot-cron.cpp:85-86 | the time string needs no escaping inside its quotes |
| `HostList.ValidHostName` | server/instance-first-toot-cron.cpp:169-172 | a line names a host when it is non-empty and does not start with `#` |
| `HostList.Split` | server/instance-first-toot-cron.cpp:180-192 | the text cut at every newline gives at least one segment, the unterminated tail included |
| `HostList.SplitNoNewline` | server/instance-first-toot-cron.cpp:180-188 | no newline-separated segment contains a newline |
| `HostList.JoinSplit` | server/instance-first-toot-cron.cpp:180-192 | the segments joined with newlines give the host-list text back, the last unterminated segment included |
| `HostList.LessTotal` | server/instance-first-toot-cron.cpp:178 | the string order of `std::set` is total |
| `HostList.LessTransitive` | server/instance-first-toot-cron.cpp:178 | the string order of `std::set` is transitive |
| `HostList.SortedDistinct` | server/instance-first-toot-cron.cpp:178 | a set in order holds no host twice |
| `HostList.Insert` | server/instance-first-toot-cron.cpp:183 | `insert` keeps the set ordered, adds the new host and loses none |
| `HostList.GetDomains` | server/instance-first-toot-cron.cpp:175-194 | the result holds exactly the segments that are non-empty and do not start with `#`, the trailing unterminated one included; it is ordered and no element contains a newline |
| `Survey.Successes` | server/instance-first-toot-cron.cpp:205-214 | a survey keeps at most one record per domain |
| `Survey.Collect` | server/instance-first-toot-cron.cpp:203-214 | after the loop, `hosts` is the successful records of the domains in set order; the loop only runs into `HttpException` and `HostException`, which it swallows |
| `Survey.SuccessesMembers` | server/instance-first-toot-cron.cpp:205-214 | a record is kept if and only if some domain's `for_host` returned it |
| `Survey.SuccessesAppend` | server/instance-first-toot-cron.cpp:205-214 | the records of two runs of domains are the records of each run, in order |
| `Survey.FailureIsolated` | server/instance-speed-cron.cpp:173-182 | a failing domain adds nothing and does not stop the domains after it |
| `FirstToot.GetUrl` | server/instance-first-toot-cron.cpp:16-30 | succeeds exactly on an object whose `url` is a string, returning that string; otherwise `TootException` |
| `FirstToot.GetUrlOfPost` | server/instance-first-toot-cron.cpp:21-29 | a post object carrying a string `url` yields that url whatever else it holds |
| `FirstToot.GetTimelineImpl` | server/instance-first-toot-cron.cpp:92-113 | the posts are the array the reply parses to; `HttpException` exactly when the request fails, `HostException` for an unparsable or non-array reply |
| `FirstToot.ForHost` | server/instance-first-toot-cron.cpp:140-166 | timeline errors pass through; an empty page, or a last post whose time or url is unreadable, is a `HostException`; otherwise the record has the time and url of the page's last post, the title or an empty one, and fails only if the title request fails; never a `TootException` |
| `FirstToot.ByFresh` | server/instance-first-toot-cron.cpp:49-54 | `left` is fresher than `right` when its first-post time is later |
| `FirstToot.ByFreshStrictWeakOrder` | server/instance-first-toot-cron.cpp:49-54 | `byFresh` is irreflexive, asymmetric, transitive, and its incomparability is transitive, as `std::sort` needs |
| `FirstToot.SortByFresh` | server/instance-first-toot-cron.cpp:216 | after the sort the hosts are a permutation of those before, and no host comes after one that is less fresh |
| `FirstToot.HostObject` | server/instance-first-toot-cron.cpp:82-86 | one written object holds no NUL character: each of its four strings is cut before its first NUL |
| `FirstToot.StorageText` | server/instance-first-toot-cron.cpp:77-88 | the written text opens with `[` and closes with `]` |
| `FirstToot.WriteStorage` | server/instance-first-toot-cron.cpp:75-89 | the written text is `[`, the host objects separated by `,`, then `]`, each object holding domain, quoted decimal time, url and escaped title, each cut at its first NUL |
| `FirstToot.StorageTextShape` | server/instance-first-toot-cron.cpp:77-88 | the text opens with `[`, closes with `]`, and is `[]` exactly when there are no hosts |
| `FirstToot.HostObjectTitle` | server/instance-first-toot-cron.cpp:85-86 | the escaped title sits last in its object before the closing `"}` and unescapes to the part of the host's title before its first NUL, the whole title when it holds none |
| `FirstToot.HostObjectTime` | server/instance-first-toot-cron.cpp:82-86 | the time text sits right after the domain part of its object, before its closing quote, and reads back as the host's time |
| `FirstToot.StorageSingleLine` | server/instance-first-toot-cron.cpp:77-88 | when no domain or url holds a newline, the written text holds none |
| `FirstToot.RankedHostsSurveyed` | server/instance-first-toot-cron.cpp:205-216 | a host is in the ranking if and only if `for_host` produced it for some domain of the set |
| `FirstToot.Run` | server/instance-first-toot-cron.cpp:197-225 | a failed host-list fetch ends the program with `HttpException`; otherwise the status is 0, the domains are the host set of the list, the ranking is a permutation of the surveyed hosts, freshest first, and the storage text is written only when the file opens |
| `Speed.Span` | server/instance-speed-cron.cpp:118 | the span is the later of the start time and the top post's time, less the bottom post's time: at least each difference, and equal to one of them |
| `Speed.ForHost` | server/instance-speed-cron.cpp:95-143 | timeline errors pass through; fewer than 40 posts, an unreadable time on element 0 or on the last element, or a span `max(start, top) - bottom` not strictly between 1 and 31536000 is a `HostException`; otherwise the record holds the post count, the span and the title or an empty one |
| `Speed.MeasuredHostsInWindow` | server/instance-speed-cron.cpp:102-121 | every measured host has at least 40 posts over a span strictly between 1 second and one year |
| `Speed.Run` | server/instance-speed-cron.cpp:152-194 | a failed host-list fetch ends the program; otherwise the host set is split from the list, the hosts are the successful measurements in set order, and the status is 0 |
| `Client.EscapeHtml` | client/pleroma-instances.js:20-25 | the three passes `&`, `<`, `>` leave no `<` or `>` in the text |
| `Client.EscapeHtmlIsEntities` | client/pleroma-instances.js:20-25 | the three replacements equal one pass turning each `&` into exactly `&amp;`, `<` into `&lt;`, `>` into `&gt;`, the `&` they introduce not escaped again |
| `Client.EntitiesNoAngles` | client/pleroma-instances.js:22-23 | the escaped text holds no `<` or `>` |
| `Client.EscapeHtmlIdentity` | client/pleroma-instances.js:20-25 | text without `&`, `<`, `>` is returned unchanged, quotes included |
| `Client.DecodeEscapeHtml` | client/pleroma-instances.js:20-25 | round trip: decoding the three entities in the escaped text gives the text back |
| `Client.Thumbnail` | client/pleroma-instances.js:36-40 | the avatar is the thumbnail when present and non-empty, otherwise `missing.svg` |
| `Client.LinkText` | client/pleroma-instances.js:49 | the link text is the escaped title when the title is truthy, otherwise the raw domain |
| `Client.LinkTextSafe` | client/pleroma-instances.js:49 | a title shown as link text holds no `<` or `>` and displays as the title |
| `Client.RenderInstance` | client/pleroma-instances.js:33-51 | the loop body computes exactly the fragment of the instance: its avatar (thumbnail or `missing.svg`) and its link text (escaped title or raw domain) inside the two preview links of one paragraph |
| `Client.ShowInstances` | client/pleroma-instances.js:28-53 | the loop's `html` is the fragments of the instances in list order |
| `Client.RenderedAppend` | client/pleroma-instances.js:30-53 | rendering is one fragment per instance, concatenated in order |
| `Client.RenderedSmall` | client/pleroma-instances.js:30-53 | an empty list renders as the empty string, one instance as its fragment |
| `Client.InstanceHtmlParagraph` | client/pleroma-instances.js:41-51 | each fragment is one `<p>…</p>` paragraph |

`valid_host_name` of the speed tool (server/instance-speed-cron.cpp:146-149) and its
splitting loop (server/instance-speed-cron.cpp:154-169) are the same code as in the
first-toot tool and are modelled by `HostList.ValidHostName` and
`HostList.GetDomains`. Its `get_host_title` (server/instance-speed-cron.cpp:71-92)
is `Remote.GetHostTitle`.

## Left out

- `http_get`, `picojson::parse`, `get_time` and the speed tool's `get_timeline` are
  not part of this model: they are the functions of `Remote.Env`, returning success
  or failure.
- `time (&start_time)` is `Env.clock`, the time at which `for_host` starts for a domain.
- File output (`fopen`, `fprintf`, `fclose`): `write_storage` returns its text and
  `Run` takes whether the file opens as a parameter. The speed tool's per-host CSV
  history (server/instance-speed-cron.cpp:125-133) is not modelled.
- Floating point in the speed tool: the ratio `posts / duration`, the `bySpeed` sort
  and its `%e` `write_storage` (server/instance-speed-cron.cpp:30-35, 56-68, 123, 184-191).
  A measured host keeps the post count and the integer span the ratio is made of.
- `Speed.ForHost`: the span is computed on unbounded integers; a 64-bit `time_t`
  overflow in `max(start_time, top_time) - bottom_time` is not modelled.
- `FirstToot.SortByFresh`: models the contract of `std::sort` (permutation, ordered by
  `byFresh`) with an insertion sort, not `std::sort`'s own algorithm; the relative
  order of hosts with equal times is not fixed by the model.
- Characters are Dafny `char`s, not C++ bytes; `std::string` ordering is modelled as
  lexicographic order on character codes.
- The line number each exception carries, and the unused `UserException`.
- JSON numbers are modelled as integers; no modelled code reads one.
- The browser side: the XHR load handler (client/pleroma-instances.js:4-17) and the
  `innerHTML` write (client/pleroma-instances.js:54). Instance fields that are
  missing or null are `None`; non-string JSON values in them, and an `undefined`
  domain printing as `undefined`, are not modelled.
- `escape_json` leaves control characters other than newline (a tab, say) unescaped,
  as the code does; the model proves nothing about them beyond copying them.
- No full JSON parser is modelled, and the storage text is not re-parsed. The title
  and the time are located in their object and read back (`HostObjectTitle`,
  `HostObjectTime`). The brackets are proved (`StorageText`, `StorageTextShape`);
  the commas between objects hold by the definition of `Objects`. The domain and url
  fields are not located by any lemma.
