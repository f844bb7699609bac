/** `build_chain_config` of `chain.rs`: an ordered entry -> hop -> exit chain written
    as `dialer-proxy` references into the proxies list. */
module DialerChain {
  import opened Wrappers
  import opened Yaml

  const DIALER := "dialer-proxy"

  function NameOf(proxy: Mapping): Option<string> {
    GetStr(proxy, "name")
  }

  /** `iter().position(..)`: the first place of a name in the chain. */
  function FirstPosition(nodes: seq<string>, name: string): (p: nat)
    ensures p <= |nodes|
    ensures p < |nodes| <==> name in nodes
    ensures p < |nodes| ==> nodes[p] == name
    ensures forall i | 0 <= i < p :: nodes[i] != name
  {
    if nodes == [] || nodes[0] == name then 0 else 1 + FirstPosition(nodes[1..], name)
  }

  /** One proxy after the chain is configured: outside the chain it keeps every field, inside
      it every field but the reference. */
  function Dialed(nodes: seq<string>, proxy: Mapping): (r: Mapping)
    ensures NameOf(proxy).None? || NameOf(proxy).value !in nodes ==> r == proxy
    ensures r.Keys - {Str(DIALER)} == proxy.Keys - {Str(DIALER)}
    ensures forall key | key in proxy && key != Str(DIALER) :: key in r && r[key] == proxy[key]
  {
    match NameOf(proxy)
    case None => proxy
    case Some(name) =>
      var position := FirstPosition(nodes, name);
      if position == |nodes| then proxy
      else if position == 0 then proxy - {Str(DIALER)}
      else proxy[Str(DIALER) := Str(nodes[position - 1])]
  }

  predicate Configured(proxies: seq<Mapping>, name: string) {
    exists i | 0 <= i < |proxies| :: NameOf(proxies[i]) == Some(name)
  }

  /** The loop that checks every chain node, up to the first that no proxy is called. */
  method FindMissing(nodes: seq<string>, proxies: array<Mapping>) returns (missing: Option<string>)
    ensures missing.None? <==> forall n | n in nodes :: Configured(proxies[..], n)
    ensures missing.Some? ==> missing.value in nodes && !Configured(proxies[..], missing.value)
  {
    for n := 0 to |nodes|
      invariant forall k | 0 <= k < n :: Configured(proxies[..], nodes[k])
    {
      var found := false;
      for i := 0 to proxies.Length
        invariant found <==> exists k | 0 <= k < i :: NameOf(proxies[k]) == Some(nodes[n])
      {
        found := found || NameOf(proxies[i]) == Some(nodes[n]);
      }
      assert found <==> Configured(proxies[..], nodes[n]);
      if !found {
        return Some(nodes[n]);
      }
    }
    return None;
  }

  /** `build_chain_config`, in place on the proxies list. */
  method BuildChainConfig(nodes: seq<string>, proxies: array<Mapping>) returns (r: Result<()>)
    modifies proxies
    ensures r.Ok? <==> |nodes| >= 2 && forall n | n in nodes :: Configured(old(proxies[..]), n)
    ensures r.Ok? ==> forall i | 0 <= i < proxies.Length :: proxies[i] == Dialed(nodes, old(proxies[i]))
    ensures r.Err? ==> proxies[..] == old(proxies[..])
  {
    if |nodes| < 2 {
      return Err("chain requires at least 2 nodes (entry + exit)");
    }
    var missing := FindMissing(nodes, proxies);
    if missing.Some? {
      return Err("chain node is not a configured outbound proxy: " + missing.value);
    }
    for i := 0 to proxies.Length
      invariant forall k | 0 <= k < i :: proxies[k] == Dialed(nodes, old(proxies[k]))
      invariant forall k | i <= k < proxies.Length :: proxies[k] == old(proxies[k])
    {
      var name := NameOf(proxies[i]);
      if name.Some? {
        var position := FirstPosition(nodes, name.value);
        if position < |nodes| {
          if position == 0 {
            proxies[i] := proxies[i] - {Str(DIALER)};
          } else {
            proxies[i] := proxies[i][Str(DIALER) := Str(nodes[position - 1])];
          }
        }
      }
    }
    return Ok(());
  }

  // ---------- following the references ----------

  /** The list a successful call leaves. */
  function DialedAll(nodes: seq<string>, proxies: seq<Mapping>): seq<Mapping> {
    seq(|proxies|, i requires 0 <= i < |proxies| => Dialed(nodes, proxies[i]))
  }

  /** Some proxy called `name` dials through `next`. */
  ghost predicate Dials(proxies: seq<Mapping>, name: string, next: string) {
    exists i | 0 <= i < |proxies| :: NameOf(proxies[i]) == Some(name) && GetStr(proxies[i], DIALER) == Some(next)
  }

  /** Following the references stops at `name`. */
  ghost predicate Stops(proxies: seq<Mapping>, name: string) {
    forall next: string :: !Dials(proxies, name, next)
  }

  /** Names visited by following `dialer-proxy`, whichever proxy of a repeated name is taken. */
  ghost predicate Walk(proxies: seq<Mapping>, names: seq<string>) {
    names != [] && forall i | 0 <= i < |names| - 1 :: Dials(proxies, names[i], names[i + 1])
  }

  lemma WalkTail(proxies: seq<Mapping>, names: seq<string>)
    requires Walk(proxies, names) && |names| > 1
    ensures Walk(proxies, names[1..])
  {
    var rest := names[1..];
    forall i | 0 <= i < |rest| - 1
      ensures Dials(proxies, rest[i], rest[i + 1])
    {
      assert Dials(proxies, names[i + 1], names[i + 2]);
    }
  }

  lemma DialedKeepsName(nodes: seq<string>, proxy: Mapping)
    ensures NameOf(Dialed(nodes, proxy)) == NameOf(proxy)
  {
    assert "name"[0] == 'n' && DIALER[0] == 'd';
  }

  /** A chain node dials exactly the node before its first position, and the entry dials nobody. */
  lemma DialsExactly(nodes: seq<string>, proxies: seq<Mapping>, name: string, next: string)
    requires name in nodes && Configured(proxies, name)
    ensures Dials(DialedAll(nodes, proxies), name, next)
      <==> FirstPosition(nodes, name) > 0 && next == nodes[FirstPosition(nodes, name) - 1]
  {
    var after := DialedAll(nodes, proxies);
    var position := FirstPosition(nodes, name);
    forall i | 0 <= i < |after|
      ensures NameOf(after[i]) == NameOf(proxies[i])
      ensures NameOf(after[i]) == Some(name) ==>
        GetStr(after[i], DIALER) == if position == 0 then None else Some(nodes[position - 1])
    {
      DialedKeepsName(nodes, proxies[i]);
    }
    var i :| 0 <= i < |proxies| && NameOf(proxies[i]) == Some(name);
    assert NameOf(after[i]) == Some(name);
  }

  /** From every chain node the references lead to the node before its first position, and nowhere else. */
  ghost predicate FollowsChain(nodes: seq<string>, after: seq<Mapping>) {
    forall name: string, next: string | name in nodes ::
      Dials(after, name, next) <==> FirstPosition(nodes, name) > 0 && next == nodes[FirstPosition(nodes, name) - 1]
  }

  lemma ConfiguredFollowsChain(nodes: seq<string>, proxies: seq<Mapping>)
    requires forall n | n in nodes :: Configured(proxies, n)
    ensures FollowsChain(nodes, DialedAll(nodes, proxies))
  {
    forall name: string, next: string | name in nodes
      ensures Dials(DialedAll(nodes, proxies), name, next)
        <==> FirstPosition(nodes, name) > 0 && next == nodes[FirstPosition(nodes, name) - 1]
    {
      DialsExactly(nodes, proxies, name, next);
    }
  }

  lemma StopsAtEntryOnly(nodes: seq<string>, after: seq<Mapping>, name: string)
    requires FollowsChain(nodes, after) && name in nodes
    ensures Stops(after, name) <==> name == nodes[0]
  {
    var position := FirstPosition(nodes, name);
    assert position > 0 ==> Dials(after, name, nodes[position - 1]);
  }

  /** Along every walk from a chain node the first position in the chain falls at every step, so
      the walk is finite, and it stops at the entry and nowhere else. */
  lemma {:induction false} WalksEndAtEntry(nodes: seq<string>, after: seq<Mapping>, names: seq<string>)
    requires FollowsChain(nodes, after)
    requires Walk(after, names) && names[0] in nodes
    ensures forall i | 0 <= i < |names| :: names[i] in nodes
    ensures forall i | 0 <= i < |names| - 1 :: FirstPosition(nodes, names[i + 1]) < FirstPosition(nodes, names[i])
    ensures |names| <= FirstPosition(nodes, names[0]) + 1
    ensures Stops(after, names[|names| - 1]) <==> names[|names| - 1] == nodes[0]
    decreases |names|
  {
    if |names| == 1 {
      StopsAtEntryOnly(nodes, after, names[0]);
    } else {
      var rest := names[1..];
      assert Dials(after, names[0], names[1]);
      var position := FirstPosition(nodes, names[0]);
      assert rest[0] == nodes[position - 1] && rest[0] in nodes;
      WalkTail(after, names);
      WalksEndAtEntry(nodes, after, rest);
      forall i | 0 <= i < |names|
        ensures names[i] in nodes
      {
        assert i > 0 ==> names[i] == rest[i - 1];
      }
      forall i | 0 <= i < |names| - 1
        ensures FirstPosition(nodes, names[i + 1]) < FirstPosition(nodes, names[i])
      {
        assert i > 0 ==> names[i] == rest[i - 1] && names[i + 1] == rest[i];
      }
    }
  }

  /** `names` are the chain nodes from `position` towards the entry. */
  predicate Backwards(nodes: seq<string>, names: seq<string>, position: nat) {
    |names| <= position + 1 <= |nodes| && forall i | 0 <= i < |names| :: names[i] == nodes[position - i]
  }

  /** Without repeated names, the walk from the exit is the whole chain backwards. */
  lemma {:induction false} WholeChainBackwards(nodes: seq<string>, after: seq<Mapping>, names: seq<string>)
    requires FollowsChain(nodes, after)
    requires forall i, j | 0 <= i < j < |nodes| :: nodes[i] != nodes[j]
    requires Walk(after, names) && names[0] in nodes
    ensures Backwards(nodes, names, FirstPosition(nodes, names[0]))
    decreases |names|
  {
    var position := FirstPosition(nodes, names[0]);
    if |names| > 1 {
      assert Dials(after, names[0], names[1]);
      assert nodes[position - 1] in nodes;
      assert FirstPosition(nodes, names[1]) == position - 1;
      WalkTail(after, names);
      WholeChainBackwards(nodes, after, names[1..]);
    }
    forall i | 0 <= i < |names|
      ensures names[i] == nodes[position - i]
    {
      assert i > 0 ==> names[i] == names[1..][i - 1];
    }
  }

  /** After a successful call every walk over the new list reaches the entry, and from the exit
      of a chain without repeated names it passes every node. */
  lemma ConfiguredChainReachesEntry(nodes: seq<string>, proxies: seq<Mapping>, names: seq<string>)
    requires |nodes| >= 2 && forall n | n in nodes :: Configured(proxies, n)
    requires Walk(DialedAll(nodes, proxies), names) && names[0] in nodes
    requires Stops(DialedAll(nodes, proxies), names[|names| - 1])
    ensures names[|names| - 1] == nodes[0]
    ensures (forall i, j | 0 <= i < j < |nodes| :: nodes[i] != nodes[j]) && names[0] == nodes[|nodes| - 1]
      ==> |names| == |nodes| && forall i | 0 <= i < |nodes| :: names[i] == nodes[|nodes| - 1 - i]
  {
    ConfiguredFollowsChain(nodes, proxies);
    WalksEndAtEntry(nodes, DialedAll(nodes, proxies), names);
    if (forall i, j | 0 <= i < j < |nodes| :: nodes[i] != nodes[j]) && names[0] == nodes[|nodes| - 1] {
      WholeChainBackwards(nodes, DialedAll(nodes, proxies), names);
      assert names[|names| - 1] == nodes[|nodes| - |names|];
    }
  }
}
