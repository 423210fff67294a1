/**
 * The list of candidate hosts: one host name per line of a text file,
 * blank lines and `#` comment lines skipped, collected into an ordered set
 * (`get_domains` of the first-toot tool; the same loop is written out in
 * the speed tool's `main`).
 */
module HostList {
  /** `valid_host_name`: a line names a host when it is non-empty and not a comment. */
  predicate ValidHostName(host: string) {
    0 < |host| && host[0] != '#'
  }

  /** The newline-separated segments of `text`, left to right. The last one
      is what follows the last newline (empty when `text` ends with one). */
  function Split(text: string): (r: seq<string>)
    ensures 0 < |r|
    decreases |text|
  {
    if text == [] then [""]
    else
      var rest := Split(text[1..]);
      if text[0] == '\n' then [""] + rest else [[text[0]] + rest[0]] + rest[1..]
  }

  /** Puts the segments back together, one newline between neighbours. */
  function Join(segments: seq<string>): string
    requires 0 < |segments|
    decreases |segments|
  {
    if |segments| == 1 then segments[0] else segments[0] + "\n" + Join(segments[1..])
  }

  /** No segment holds a newline. */
  lemma {:induction false} SplitNoNewline(text: string)
    ensures forall k :: 0 <= k < |Split(text)| ==> '\n' !in Split(text)[k]
    decreases |text|
  {
    if text != [] {
      SplitNoNewline(text[1..]);
    }
  }

  /** Round trip: joining the segments gives the text back. */
  lemma {:induction false} JoinSplit(text: string)
    ensures Join(Split(text)) == text
    decreases |text|
  {
    if text != [] {
      JoinSplit(text[1..]);
      var rest := Split(text[1..]);
      if text[0] == '\n' {
        JoinNewSegment(rest);
      } else {
        JoinExtendFirst(text[0], rest);
      }
      assert text == [text[0]] + text[1..];
    }
  }

  /** An empty first segment adds a newline in front. */
  lemma JoinNewSegment(rest: seq<string>)
    requires 0 < |rest|
    ensures Join([""] + rest) == "\n" + Join(rest)
  {
    assert ([""] + rest)[1..] == rest;
  }

  /** A character put in front of the first segment is put in front of the text. */
  lemma JoinExtendFirst(a: char, rest: seq<string>)
    requires 0 < |rest|
    ensures Join([[a] + rest[0]] + rest[1..]) == [a] + Join(rest)
  {
    if 1 < |rest| {
      JoinExtendFirstLong(a, rest);
    }
  }

  lemma JoinExtendFirstLong(a: char, rest: seq<string>)
    requires 1 < |rest|
    ensures Join([[a] + rest[0]] + rest[1..]) == [a] + Join(rest)
  {
    var r := [[a] + rest[0]] + rest[1..];
    assert r[0] == [a] + rest[0] && r[1..] == rest[1..];
    JoinUnfold(r);
    JoinUnfold(rest);
    Regroup([a], rest[0], "\n", Join(rest[1..]));
  }

  lemma JoinUnfold(segments: seq<string>)
    requires 1 < |segments|
    ensures Join(segments) == segments[0] + "\n" + Join(segments[1..])
  {
  }

  lemma Regroup(x: string, y: string, n: string, t: string)
    ensures (x + y) + n + t == x + (y + n + t)
  {
  }

  /** A newline at the end starts a new, empty segment. */
  lemma {:induction false} SplitSnocNewline(text: string)
    ensures Split(text + "\n") == Split(text) + [""]
    decreases |text|
  {
    if text != [] {
      assert (text + "\n")[0] == text[0];
      assert (text + "\n")[1..] == text[1..] + "\n";
      SplitSnocNewline(text[1..]);
      var rest := Split(text[1..]);
      if text[0] != '\n' {
        assert (rest + [""])[1..] == rest[1..] + [""];
      }
    }
  }

  /** Any other character at the end extends the last segment. */
  lemma {:induction false} SplitSnocOther(text: string, c: char)
    requires c != '\n'
    ensures Split(text + [c]) == ExtendLast(Split(text), c)
    decreases |text|
  {
    if text == [] {
      assert text + [c] == [c];
      assert [c][0] == c && [c][1..] == [];
      assert Split([c]) == [[c] + ""] + [""][1..];
      assert [c] + "" == [c];
    } else {
      assert (text + [c])[0] == text[0];
      assert (text + [c])[1..] == text[1..] + [c];
      SplitSnocOther(text[1..], c);
      var rest := Split(text[1..]);
      if text[0] == '\n' {
        ExtendLastCons("", rest, c);
      } else {
        ExtendLastHead(text[0], rest, c);
      }
    }
  }

  /** `segments` with `c` appended to its last segment. */
  function ExtendLast(segments: seq<string>, c: char): (r: seq<string>)
    requires 0 < |segments|
    ensures |r| == |segments| && r[|r| - 1] == segments[|segments| - 1] + [c]
    ensures forall k :: 0 <= k < |r| - 1 ==> r[k] == segments[k]
  {
    segments[..|segments| - 1] + [segments[|segments| - 1] + [c]]
  }

  /** Extending the last segment commutes with a segment put in front. */
  lemma ExtendLastCons(first: string, rest: seq<string>, c: char)
    requires 0 < |rest|
    ensures [first] + ExtendLast(rest, c) == ExtendLast([first] + rest, c)
  {
    var l, r := [first] + ExtendLast(rest, c), ExtendLast([first] + rest, c);
    assert |l| == |r|;
    forall k | 0 <= k < |l|
      ensures l[k] == r[k]
    {
      if 0 < k {
        assert l[k] == ExtendLast(rest, c)[k - 1];
      }
    }
  }

  /** Extending the last segment commutes with a character put in front of the first one. */
  lemma ExtendLastHead(a: char, rest: seq<string>, c: char)
    requires 0 < |rest|
    ensures var r2 := ExtendLast(rest, c);
      [[a] + r2[0]] + r2[1..] == ExtendLast([[a] + rest[0]] + rest[1..], c)
  {
    var r2 := ExtendLast(rest, c);
    var l, r := [[a] + r2[0]] + r2[1..], ExtendLast([[a] + rest[0]] + rest[1..], c);
    assert |l| == |r|;
    forall k | 0 <= k < |l|
      ensures l[k] == r[k]
    {
      if k == |l| - 1 && k == 0 {
        assert ([a] + rest[0]) + [c] == [a] + (rest[0] + [c]);
      }
    }
  }

  /** `operator <` of `std::string`: lexicographic, a proper prefix first. */
  predicate Less(a: string, b: string)
    decreases |a|
  {
    if a == [] then b != []
    else if b == [] then false
    else a[0] < b[0] || (a[0] == b[0] && Less(a[1..], b[1..]))
  }

  lemma {:induction false} LessTotal(a: string, b: string)
    ensures a == b || Less(a, b) || Less(b, a)
    decreases |a|
  {
    if a != [] && b != [] && a[0] == b[0] {
      LessTotal(a[1..], b[1..]);
      if a[1..] == b[1..] {
        assert a == [a[0]] + a[1..] && b == [b[0]] + b[1..];
      }
    }
  }

  lemma {:induction false} LessTransitive(a: string, b: string, c: string)
    requires Less(a, b) && Less(b, c)
    ensures Less(a, c)
    decreases |a|
  {
    if a != [] && a[0] == b[0] && b[0] == c[0] {
      LessTransitive(a[1..], b[1..], c[1..]);
    }
  }

  lemma {:induction false} LessIrreflexive(a: string)
    ensures !Less(a, a)
    decreases |a|
  {
    if a != [] {
      LessIrreflexive(a[1..]);
    }
  }

  /** The order a `std::set<std::string>` keeps its elements in. */
  predicate StrictlySorted(s: seq<string>) {
    forall k :: 0 < k < |s| ==> Less(s[k - 1], s[k])
  }

  /** A strictly sorted sequence holds no element twice. */
  lemma {:induction false} SortedDistinct(s: seq<string>)
    requires StrictlySorted(s)
    ensures forall i, j :: 0 <= i < j < |s| ==> Less(s[i], s[j]) && s[i] != s[j]
    decreases |s|
  {
    if s != [] {
      var t := s[..|s| - 1];
      SortedDistinct(t);
      forall i, j | 0 <= i < j < |s|
        ensures Less(s[i], s[j]) && s[i] != s[j]
      {
        if j < |s| - 1 {
          assert s[i] == t[i] && s[j] == t[j];
        } else if i < j - 1 {
          assert Less(s[i], s[j - 1]) by { assert s[i] == t[i] && s[j - 1] == t[j - 1]; }
          LessTransitive(s[i], s[j - 1], s[j]);
        }
        LessIrreflexive(s[i]);
      }
    }
  }

  /** `std::set::insert`: adds `x` at its place in the order, unless already there. */
  function Insert(s: seq<string>, x: string): (r: seq<string>)
    requires StrictlySorted(s)
    ensures 0 < |r| && StrictlySorted(r)
    ensures forall y :: y in r <==> y in s || y == x
    ensures r[0] == x || (s != [] && r[0] == s[0])
    decreases |s|
  {
    if s == [] then [x]
    else if x == s[0] then s
    else if Less(x, s[0]) then [x] + s
    else
      LessTotal(x, s[0]);
      [s[0]] + Insert(s[1..], x)
  }

  /** `get_domains` returned `domains` for `text`: the valid segments, as an ordered set. */
  ghost predicate IsHostSet(domains: seq<string>, text: string) {
    && StrictlySorted(domains)
    && forall d :: d in domains <==> d in Split(text) && ValidHostName(d)
  }

  /** The splitting loop: characters accumulate in `domain` until a newline,
      which inserts it when valid and clears it; the unterminated last line
      is considered after the loop. */
  method GetDomains(text: string) returns (domains: seq<string>)
    ensures IsHostSet(domains, text)
    ensures forall d :: d in domains ==> '\n' !in d
  {
    domains := [];
    var domain: string := "";
    ghost var done: seq<string> := [];
    for i := 0 to |text|
      invariant Split(text[..i]) == done + [domain]
      invariant StrictlySorted(domains)
      invariant forall d :: d in domains <==> d in done && ValidHostName(d)
    {
      var c := text[i];
      assert text[..i + 1] == text[..i] + [c];
      if c == '\n' {
        SplitSnocNewline(text[..i]);
        if ValidHostName(domain) {
          domains := Insert(domains, domain);
        }
        done := done + [domain];
        domain := "";
      } else {
        SplitSnocOther(text[..i], c);
        domain := domain + [c];
      }
    }
    if ValidHostName(domain) {
      domains := Insert(domains, domain);
    }
    assert text[..|text|] == text;
    SplitNoNewline(text);
  }
}
