/**
 * The browser side (client/pleroma-instances.js): `escapeHtml` and the HTML
 * `show_instances` builds from the list of instances, before it is put
 * into the page.
 */
module Client {
  import opened Distsn

  /** `s.replace (/c/g, replacement)`: every `c` replaced by `replacement`, left to right. */
  function ReplaceAll(s: string, c: char, replacement: string): string
    decreases |s|
  {
    if s == [] then [] else (if s[0] == c then replacement else [s[0]]) + ReplaceAll(s[1..], c, replacement)
  }

  lemma {:induction false} ReplaceAllAppend(s: string, t: string, c: char, replacement: string)
    ensures ReplaceAll(s + t, c, replacement) == ReplaceAll(s, c, replacement) + ReplaceAll(t, c, replacement)
    decreases |s|
  {
    if s == [] {
      assert s + t == t;
    } else {
      assert (s + t)[0] == s[0];
      assert (s + t)[1..] == s[1..] + t;
      ReplaceAllAppend(s[1..], t, c, replacement);
    }
  }

  lemma {:induction false} ReplaceAllAbsent(s: string, c: char, replacement: string)
    requires c !in s
    ensures ReplaceAll(s, c, replacement) == s
    decreases |s|
  {
    if s != [] {
      ReplaceAllAbsent(s[1..], c, replacement);
      assert s == [s[0]] + s[1..];
    }
  }

  /** `d` is absent after the replacement when the replacement does not hold
      it and it was either the replaced character or absent before. */
  lemma {:induction false} ReplaceAllAbsentAfter(s: string, c: char, replacement: string, d: char)
    requires d !in replacement && (d == c || d !in s)
    ensures d !in ReplaceAll(s, c, replacement)
    decreases |s|
  {
    if s != [] {
      ReplaceAllAbsentAfter(s[1..], c, replacement, d);
      assert d == c || d !in s[1..];
    }
  }

  /** `escapeHtml`: `&` first, then `<`, then `>`. No angle bracket survives. */
  function EscapeHtml(text: string): (r: string)
    ensures '<' !in r && '>' !in r
  {
    var amp := ReplaceAll(text, '&', "&amp;");
    var lt := ReplaceAll(amp, '<', "&lt;");
    ReplaceAllAbsentAfter(amp, '<', "&lt;", '<');
    ReplaceAllAbsentAfter(lt, '>', "&gt;", '<');
    ReplaceAllAbsentAfter(lt, '>', "&gt;", '>');
    ReplaceAll(lt, '>', "&gt;")
  }

  /** The entity one character becomes. */
  function Entity(c: char): string {
    if c == '&' then "&amp;" else if c == '<' then "&lt;" else if c == '>' then "&gt;" else [c]
  }

  /** Every character replaced by its entity in one pass. */
  function Entities(text: string): string
    decreases |text|
  {
    if text == [] then [] else Entity(text[0]) + Entities(text[1..])
  }

  lemma ReplaceAllSingle(c: char, d: char, replacement: string)
    ensures ReplaceAll([c], d, replacement) == if c == d then replacement else [c]
  {
    assert [c][0] == c && [c][1..] == [];
  }

  lemma EscapeHtmlChar(c: char)
    ensures EscapeHtml([c]) == Entity(c)
  {
    if c == '&' {
      EscapeHtmlAmp();
    } else if c == '<' {
      EscapeHtmlLt();
    } else if c == '>' {
      EscapeHtmlGt();
    } else {
      EscapeHtmlPlain(c);
    }
  }

  lemma EscapeHtmlAmp()
    ensures EscapeHtml("&") == "&amp;"
  {
    ReplaceAllSingle('&', '&', "&amp;");
    EntityPlain("&amp;");
    ReplaceAllAbsent("&amp;", '<', "&lt;");
    ReplaceAllAbsent("&amp;", '>', "&gt;");
  }

  lemma EntityPlain(e: string)
    requires e == "&amp;" || e == "&lt;"
    ensures '<' !in e && '>' !in e
  {
    if e == "&amp;" {
      assert e == ['&', 'a', 'm', 'p', ';'];
    } else {
      assert e == ['&', 'l', 't', ';'];
    }
  }

  lemma EscapeHtmlLt()
    ensures EscapeHtml("<") == "&lt;"
  {
    ReplaceAllSingle('<', '&', "&amp;");
    ReplaceAllSingle('<', '<', "&lt;");
    ReplaceAllAbsent("&lt;", '>', "&gt;");
  }

  lemma EscapeHtmlGt()
    ensures EscapeHtml(">") == "&gt;"
  {
    ReplaceAllSingle('>', '&', "&amp;");
    ReplaceAllSingle('>', '<', "&lt;");
    ReplaceAllSingle('>', '>', "&gt;");
  }

  lemma EscapeHtmlPlain(c: char)
    requires c != '&' && c != '<' && c != '>'
    ensures EscapeHtml([c]) == [c]
  {
    ReplaceAllSingle(c, '&', "&amp;");
    ReplaceAllSingle(c, '<', "&lt;");
    ReplaceAllSingle(c, '>', "&gt;");
  }

  lemma EscapeHtmlAppend(s: string, t: string)
    ensures EscapeHtml(s + t) == EscapeHtml(s) + EscapeHtml(t)
  {
    ReplaceAllAppend(s, t, '&', "&amp;");
    var s1, t1 := ReplaceAll(s, '&', "&amp;"), ReplaceAll(t, '&', "&amp;");
    ReplaceAllAppend(s1, t1, '<', "&lt;");
    var s2, t2 := ReplaceAll(s1, '<', "&lt;"), ReplaceAll(t1, '<', "&lt;");
    ReplaceAllAppend(s2, t2, '>', "&gt;");
  }

  /** The three successive replacements amount to one pass in which each `&`
      becomes exactly `&amp;`, each `<` `&lt;` and each `>` `&gt;`: the `&`
      the later replacements introduce is not escaped again. */
  lemma {:induction false} EscapeHtmlIsEntities(text: string)
    ensures EscapeHtml(text) == Entities(text)
    decreases |text|
  {
    if text != [] {
      EscapeHtmlIsEntities(text[1..]);
      assert text == [text[0]] + text[1..];
      EscapeHtmlAppend([text[0]], text[1..]);
      EscapeHtmlChar(text[0]);
    }
  }

  /** The escaped text holds no angle bracket. */
  lemma {:induction false} EntitiesNoAngles(text: string)
    ensures '<' !in Entities(text) && '>' !in Entities(text)
    decreases |text|
  {
    if text != [] {
      EntitiesNoAngles(text[1..]);
    }
  }

  /** Text with no `&`, `<` or `>` comes back unchanged, quotes included. */
  lemma EscapeHtmlIdentity(text: string)
    requires '&' !in text && '<' !in text && '>' !in text
    ensures EscapeHtml(text) == text
  {
    ReplaceAllAbsent(text, '&', "&amp;");
    ReplaceAllAbsent(text, '<', "&lt;");
    ReplaceAllAbsent(text, '>', "&gt;");
  }

  /** What a browser shows for escaped text: the three entities read back. */
  function DecodeEntities(t: string): string
    decreases |t|
  {
    if t == [] then []
    else if 5 <= |t| && t[..5] == "&amp;" then "&" + DecodeEntities(t[5..])
    else if 4 <= |t| && t[..4] == "&lt;" then "<" + DecodeEntities(t[4..])
    else if 4 <= |t| && t[..4] == "&gt;" then ">" + DecodeEntities(t[4..])
    else [t[0]] + DecodeEntities(t[1..])
  }

  lemma DecodeEntity(c: char, rest: string)
    ensures DecodeEntities(Entity(c) + rest) == [c] + DecodeEntities(rest)
  {
    if c == '&' {
      DecodeAmp(rest);
    } else if c == '<' {
      DecodeLt(rest);
    } else if c == '>' {
      DecodeGt(rest);
    } else {
      DecodePlain(c, rest);
    }
  }

  lemma DecodeAmp(rest: string)
    ensures DecodeEntities("&amp;" + rest) == "&" + DecodeEntities(rest)
  {
    var t := "&amp;" + rest;
    assert t[..5] == "&amp;" && t[5..] == rest;
  }

  lemma DecodeLt(rest: string)
    ensures DecodeEntities("&lt;" + rest) == "<" + DecodeEntities(rest)
  {
    var t := "&lt;" + rest;
    assert t[1] == 'l';
    assert t[..4] == "&lt;" && t[4..] == rest;
  }

  lemma DecodeGt(rest: string)
    ensures DecodeEntities("&gt;" + rest) == ">" + DecodeEntities(rest)
  {
    var t := "&gt;" + rest;
    assert t[1] == 'g';
    assert t[..4] == "&gt;" && t[4..] == rest;
  }

  lemma DecodePlain(c: char, rest: string)
    requires c != '&'
    ensures DecodeEntities([c] + rest) == [c] + DecodeEntities(rest)
  {
    var t := [c] + rest;
    assert t[0] == c && t[1..] == rest;
  }

  lemma {:induction false} DecodeEntitiesRoundTrip(text: string)
    ensures DecodeEntities(Entities(text)) == text
    decreases |text|
  {
    if text != [] {
      DecodeEntitiesRoundTrip(text[1..]);
      DecodeEntity(text[0], Entities(text[1..]));
      assert text == [text[0]] + text[1..];
    }
  }

  /** Round trip: the escaped title displays as the title itself. */
  lemma DecodeEscapeHtml(text: string)
    ensures DecodeEntities(EscapeHtml(text)) == text
  {
    EscapeHtmlIsEntities(text);
    DecodeEntitiesRoundTrip(text);
  }

  /** One element of the list `show_instances` receives. A missing or null
      field is `None`. */
  datatype Instance = Instance(domain: string, title: Option<string>, thumbnail: Option<string>)

  /** JavaScript truthiness of a string field: present and non-empty. */
  predicate Truthy(field: Option<string>) {
    field.Some? && field.value != ""
  }

  /** The avatar image: the instance's thumbnail when it has a non-empty one. */
  function Thumbnail(instance: Instance): (r: string)
    ensures Truthy(instance.thumbnail) ==> r == instance.thumbnail.value
    ensures !Truthy(instance.thumbnail) ==> r == "missing.svg"
    ensures r != ""
  {
    if instance.thumbnail.Some? && 0 < |instance.thumbnail.value| then instance.thumbnail.value else "missing.svg"
  }

  /** The link text: the escaped title when there is one, otherwise the raw
      (unescaped) domain. */
  function LinkText(instance: Instance): (r: string)
    ensures Truthy(instance.title) ==> r == EscapeHtml(instance.title.value)
    ensures !Truthy(instance.title) ==> r == instance.domain
  {
    if Truthy(instance.title) then EscapeHtml(instance.title.value) else instance.domain
  }

  /** A title shown as link text cannot open or close a tag, and displays
      as the title itself. */
  lemma LinkTextSafe(instance: Instance)
    requires Truthy(instance.title)
    ensures '<' !in LinkText(instance) && '>' !in LinkText(instance)
    ensures DecodeEntities(LinkText(instance)) == instance.title.value
  {
    EscapeHtmlIsEntities(instance.title.value);
    EntitiesNoAngles(instance.title.value);
    DecodeEscapeHtml(instance.title.value);
  }

  /** The `<p>` fragment for one instance: its avatar and its name, both
      linking to the preview page. */
  function InstanceHtml(instance: Instance): string {
    InstanceFragment(instance.domain, Thumbnail(instance), LinkText(instance))
  }

  /** The pieces `f` gives for each element of `s`, joined in order. */
  function ConcatMap<T>(f: T -> string, s: seq<T>): string
    decreases |s|
  {
    if s == [] then "" else ConcatMap(f, s[..|s| - 1]) + f(s[|s| - 1])
  }

  lemma {:induction false} ConcatMapAppend<T>(f: T -> string, a: seq<T>, b: seq<T>)
    ensures ConcatMap(f, a + b) == ConcatMap(f, a) + ConcatMap(f, b)
    decreases |b|
  {
    if b == [] {
      assert a + b == a;
    } else {
      var ab := a + b;
      assert ab[..|ab| - 1] == a + b[..|b| - 1];
      assert ab[|ab| - 1] == b[|b| - 1];
      ConcatMapAppend(f, a, b[..|b| - 1]);
    }
  }

  /** The fragments of all instances, in list order. */
  function Rendered(instances: seq<Instance>): string {
    ConcatMap(InstanceHtml, instances)
  }

  /** The body of the `show_instances` loop for one instance. */
  method RenderInstance(instance: Instance) returns (fragment: string)
    ensures fragment == InstanceHtml(instance)
  {
    var thumbnail;
    if instance.thumbnail.Some? && 0 < |instance.thumbnail.value| {
      thumbnail := instance.thumbnail.value;
    } else {
      thumbnail := "missing.svg";
    }
    var text := if Truthy(instance.title) then EscapeHtml(instance.title.value) else instance.domain;
    fragment := InstanceFragment(instance.domain, thumbnail, text);
  }

  lemma RenderedSnoc(instances: seq<Instance>, cn: nat)
    requires cn < |instances|
    ensures Rendered(instances[..cn + 1]) == Rendered(instances[..cn]) + InstanceHtml(instances[cn])
  {
    assert instances[..cn + 1][..cn] == instances[..cn];
  }

  /** The loop of `show_instances`, returning `html` instead of putting it into the page. */
  method ShowInstances(instances: seq<Instance>) returns (html: string)
    ensures html == Rendered(instances)
  {
    html := "";
    for cn := 0 to |instances|
      invariant html == Rendered(instances[..cn])
    {
      var fragment := RenderInstance(instances[cn]);
      RenderedSnoc(instances, cn);
      html := html + fragment;
    }
    assert instances[..|instances|] == instances;
  }

  /** The start and end of the opening tag of a link to an instance's preview. */
  const PreviewLinkOpen := "<a href=\"instance-preview.html?"
  const PreviewLinkClose := "\" target=\"distsn-instance-preview\">"

  /** The string expression of the loop body, filled in with its three parts
      (adjacent literals joined): a paragraph around the two links. */
  function InstanceFragment(domain: string, thumbnail: string, text: string): string {
    "<p>" + FragmentLinks(domain, thumbnail, text) + "</a></p>"
  }

  /** The avatar link, then the opening tag and the text of the name link. */
  function FragmentLinks(domain: string, thumbnail: string, text: string): string {
    PreviewLinkOpen + domain + PreviewLinkClose +
    "<img class=\"avatar\" src=\"" + thumbnail + "\"></a>" +
    PreviewLinkOpen + domain + PreviewLinkClose +
    text
  }

  /** Rendering two lists one after the other renders their concatenation:
      one fragment per instance, in order. */
  lemma RenderedAppend(a: seq<Instance>, b: seq<Instance>)
    ensures Rendered(a + b) == Rendered(a) + Rendered(b)
  {
    ConcatMapAppend(InstanceHtml, a, b);
  }

  /** An empty list renders as nothing, a single instance as its fragment. */
  lemma RenderedSmall(instance: Instance)
    ensures Rendered([]) == ""
    ensures Rendered([instance]) == InstanceHtml(instance)
  {
    assert [instance][..0] == [];
  }

  /** Each fragment is one paragraph. */
  lemma InstanceHtmlParagraph(instance: Instance)
    ensures var h := InstanceHtml(instance); 7 <= |h| && h[..3] == "<p>" && h[|h| - 4..] == "</p>"
  {
  }
}
