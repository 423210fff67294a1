/**
 * The collection loop both tools run in `main`: every domain of the set,
 * in order, goes through `for_host`; a success is appended, an
 * `HttpException` or `HostException` is swallowed and the loop goes on.
 */
module Survey {
  import opened Distsn

  /** The hosts a survey of `domains` keeps: each domain's record, in order,
      with every failed domain left out. */
  function Successes<H>(forHost: string -> Result<H>, domains: seq<string>): (r: seq<H>)
    ensures |r| <= |domains|
    decreases |domains|
  {
    if domains == [] then []
    else
      var last := domains[|domains| - 1];
      Successes(forHost, domains[..|domains| - 1]) + (if forHost(last).Ok? then [forHost(last).value] else [])
  }

  /** The loop of `main`. `forHost` throws nothing the loop does not catch. */
  method Collect<H>(forHost: string -> Result<H>, domains: seq<string>) returns (hosts: seq<H>)
    requires forall d :: forHost(d).Err? ==> Swallowed(forHost(d).error)
    ensures hosts == Successes(forHost, domains)
  {
    hosts := [];
    for i := 0 to |domains|
      invariant hosts == Successes(forHost, domains[..i])
    {
      assert domains[..i + 1][..i] == domains[..i];
      match forHost(domains[i])
      case Ok(host) =>
        hosts := hosts + [host];
      case Err(e) =>
        assert Swallowed(e);
    }
    assert domains[..|domains|] == domains;
  }

  /** Exactly the successful domains' records are kept. */
  lemma {:induction false} SuccessesMembers<H>(forHost: string -> Result<H>, domains: seq<string>, h: H)
    ensures h in Successes(forHost, domains) <==> exists i :: 0 <= i < |domains| && forHost(domains[i]) == Ok(h)
    decreases |domains|
  {
    if domains != [] {
      var init, last := domains[..|domains| - 1], domains[|domains| - 1];
      var tail := if forHost(last).Ok? then [forHost(last).value] else [];
      assert Successes(forHost, domains) == Successes(forHost, init) + tail;
      assert h in tail <==> forHost(last) == Ok(h);
      SuccessesMembers(forHost, init, h);
      if h in Successes(forHost, init) {
        var i :| 0 <= i < |init| && forHost(init[i]) == Ok(h);
        assert domains[i] == init[i];
      } else if forHost(last) == Ok(h) {
        assert forHost(domains[|domains| - 1]) == Ok(h);
      }
      if exists i :: 0 <= i < |domains| && forHost(domains[i]) == Ok(h) {
        var i :| 0 <= i < |domains| && forHost(domains[i]) == Ok(h);
        if i < |init| {
          assert init[i] == domains[i];
        }
      }
    }
  }

  /** Surveying two runs of domains one after the other keeps the records of
      each: no failure in the first run changes what the second yields. */
  lemma {:induction false} SuccessesAppend<H>(forHost: string -> Result<H>, a: seq<string>, b: seq<string>)
    ensures Successes(forHost, a + b) == Successes(forHost, a) + Successes(forHost, b)
    decreases |b|
  {
    if b == [] {
      assert a + b == a;
    } else {
      var init := b[..|b| - 1];
      assert (a + b)[..|a + b| - 1] == a + init;
      assert (a + b)[|a + b| - 1] == b[|b| - 1];
      SuccessesAppend(forHost, a, init);
    }
  }

  /** A failing domain contributes nothing and does not stop the domains after it. */
  lemma FailureIsolated<H>(forHost: string -> Result<H>, before: seq<string>, d: string, after: seq<string>)
    requires forHost(d).Err?
    ensures Successes(forHost, before + [d] + after) == Successes(forHost, before) + Successes(forHost, after)
  {
    SuccessesAppend(forHost, before + [d], after);
    SuccessesAppend(forHost, before, [d]);
    assert [d][..0] == [] && [d][0] == d;
    assert Successes(forHost, [d]) == Successes(forHost, []) + [];
  }
}
