/** internal/firewall/render.go: compiling the panel's rules to an ordered nftables
    chain with four named sets. The script is kept as a rule tree; what an address
    text means is a parameter. */
module Firewall {

  import opened Text
  import opened Wrappers

  datatype Family = V4 | V6

  /** Address parsing: the family of an address or range, if it is one, and whether
      it covers a source address. */
  datatype Net = Net(classify: string -> Option<Family>, covers: (string, int) -> bool)

  datatype Kind = PortKind | Block | Allow

  datatype FirewallRule = FirewallRule(kind: Kind, enabled: bool, protocol: string,
                                       portFrom: int, portTo: int, address: string)

  datatype Ruleset = Ruleset(rules: seq<FirewallRule>, blocklist: seq<string>,
                             sshPorts: seq<int>, panelPort: int, webPorts: seq<int>)

  datatype Error = BadAddress | TooManyEntries | BadProtocol

  const MAX_BLOCKLIST_ENTRIES := 200000

  // ----- the script and what it does -----------------------------------------

  datatype Transport = Tcp | Udp | Icmp | Icmpv6 | OtherTransport

  datatype ConnState = New | Established | Related | Invalid

  datatype Packet = Packet(family: Family, source: int, conn: ConnState, loopback: bool,
                           transport: Transport, port: int)

  datatype Verdict = Accept | Drop

  datatype Test =
    | StateKnown                        // ct state established,related
    | StateInvalid
    | FromLoopback
    | InAllowlist(family: Family)
    | InBlocklist(family: Family)
    | IcmpFor(family: Family)           // ip protocol icmp, ip6 nexthdr ipv6-icmp
    | DestPort(transport: Transport, low: int, high: int, source: Option<(Family, string)>)

  datatype Rule = Rule(test: Test, verdict: Verdict)

  /** Each set's elements as written, line by line. */
  datatype Sets = Sets(block4: seq<seq<string>>, block6: seq<seq<string>>,
                       allow4: seq<seq<string>>, allow6: seq<seq<string>>)

  /** The input chain; its policy is drop. */
  datatype Script = Script(sets: Sets, chain: seq<Rule>)

  function Flatten(lines: seq<seq<string>>): seq<string> {
    if lines == [] then [] else Flatten(lines[..|lines| - 1]) + lines[|lines| - 1]
  }

  predicate AnyCovers(net: Net, elements: seq<string>, source: int) {
    exists i :: 0 <= i < |elements| && net.covers(elements[i], source)
  }

  predicate Matches(net: Net, sets: Sets, t: Test, p: Packet) {
    match t
    case StateKnown => p.conn.Established? || p.conn.Related?
    case StateInvalid => p.conn.Invalid?
    case FromLoopback => p.loopback
    case InAllowlist(f) =>
      p.family == f && AnyCovers(net, Flatten(if f.V4? then sets.allow4 else sets.allow6), p.source)
    case InBlocklist(f) =>
      p.family == f && AnyCovers(net, Flatten(if f.V4? then sets.block4 else sets.block6), p.source)
    case IcmpFor(f) => p.family == f && p.transport == if f.V4? then Icmp else Icmpv6
    case DestPort(tr, low, high, source) =>
      p.transport == tr && low <= p.port <= high
      && (source.Some? ==> p.family == source.value.0 && net.covers(source.value.1, p.source))
  }

  /** The verdict of the first rule that matches. */
  function FirstMatch(net: Net, sets: Sets, chain: seq<Rule>, p: Packet): Option<Verdict> {
    if chain == [] then None
    else if Matches(net, sets, chain[0].test, p) then Some(chain[0].verdict)
    else FirstMatch(net, sets, chain[1..], p)
  }

  function Decide(net: Net, s: Script, p: Packet): Verdict {
    var v := FirstMatch(net, s.sets, s.chain, p);
    if v.Some? then v.value else Drop
  }

  // ----- the policy, stated on the rules themselves --------------------------

  predicate Names(net: Net, address: string, p: Packet) {
    net.classify(address) == Some(p.family) && net.covers(address, p.source)
  }

  ghost predicate Trusted(net: Net, rs: Ruleset, p: Packet) {
    exists r :: r in rs.rules && r.enabled && r.kind.Allow? && r.address != "" && Names(net, r.address, p)
  }

  ghost predicate Blocked(net: Net, rs: Ruleset, p: Packet) {
    || (exists r :: r in rs.rules && r.enabled && r.kind.Block? && r.address != "" && Names(net, r.address, p))
    || (exists a :: a in rs.blocklist && Names(net, a, p))
  }

  predicate Protected(rs: Ruleset, p: Packet) {
    p.transport.Tcp? && (p.port in rs.sshPorts || (rs.panelPort > 0 && p.port == rs.panelPort) || p.port in rs.webPorts)
  }

  /** The protocols an operator may write, and what each lets through. */
  predicate Carries(protocol: string, t: Transport) {
    match t
    case Tcp => protocol == "tcp" || protocol == "" || protocol == "both"
    case Udp => protocol == "udp" || protocol == "both"
    case _ => false
  }

  predicate Opens(net: Net, r: FirewallRule, p: Packet) {
    && r.enabled && r.kind.PortKind?
    && Carries(r.protocol, p.transport)
    && (p.port == r.portFrom || r.portFrom < p.port <= r.portTo)
    && (r.address != "" ==> Names(net, r.address, p))
  }

  /** What the panel promises for a packet. */
  ghost function Policy(net: Net, rs: Ruleset, p: Packet): Verdict {
    if p.conn.Established? || p.conn.Related? then Accept
    else if p.conn.Invalid? then Drop
    else if p.loopback || Trusted(net, rs, p) then Accept
    else if Blocked(net, rs, p) then Drop
    else if p.transport == (if p.family.V4? then Icmp else Icmpv6) then Accept
    else if Protected(rs, p) || (exists r :: r in rs.rules && Opens(net, r, p)) then Accept
    else Drop
  }

  /** What makes rendering fail: an enabled rule's address that is not one, too long
      a feed, or an enabled port rule's protocol. */
  predicate Renderable(net: Net, r: FirewallRule) {
    r.enabled ==>
      && (r.address != "" ==> net.classify(r.address).Some?)
      && (r.kind.PortKind? ==> Carries(r.protocol, Tcp) || Carries(r.protocol, Udp))
  }

  // ----- sets ----------------------------------------------------------------

  predicate StrictlySorted(s: seq<string>) {
    forall i, j :: 0 <= i < j < |s| ==> Less(s[i], s[j])
  }

  function InsertText(v: string, s: seq<string>): seq<string> {
    if s == [] || !Less(s[0], v) then [v] + s else [s[0]] + InsertText(v, s[1..])
  }

  /** sort.Strings. */
  function SortTexts(s: seq<string>): seq<string> {
    if s == [] then [] else InsertText(s[0], SortTexts(s[1..]))
  }

  predicate Distinct(s: seq<string>) {
    forall i, j :: 0 <= i < j < |s| ==> s[i] != s[j]
  }

  lemma SortedCons(v: string, s: seq<string>)
    requires StrictlySorted(s) && forall w :: w in s ==> Less(v, w)
    ensures StrictlySorted([v] + s)
  {
    var all := [v] + s;
    forall i, j | 0 <= i < j < |all| ensures Less(all[i], all[j]) {
      assert all[j] == s[j - 1];
      if i > 0 {
        assert all[i] == s[i - 1];
      }
    }
  }

  lemma {:induction false} InsertTextSorts(v: string, s: seq<string>)
    requires StrictlySorted(s) && v !in s
    ensures StrictlySorted(InsertText(v, s)) && |InsertText(v, s)| == |s| + 1
    ensures forall w :: w in InsertText(v, s) <==> w == v || w in s
  {
    if s == [] {
    } else if !Less(s[0], v) {
      LessTotal(v, s[0]);
      forall w | w in s ensures Less(v, w) {
        var i :| 0 <= i < |s| && s[i] == w;
        if i > 0 {
          LessTransitive(v, s[0], w);
        }
      }
      SortedCons(v, s);
    } else {
      InsertTextSorts(v, s[1..]);
      forall w | w in InsertText(v, s[1..]) ensures Less(s[0], w) {
        if w != v {
          var i :| 1 <= i < |s| && s[i] == w;
        }
      }
      SortedCons(s[0], InsertText(v, s[1..]));
    }
  }

  lemma {:induction false} SortTextsSorts(s: seq<string>)
    requires Distinct(s)
    ensures StrictlySorted(SortTexts(s)) && |SortTexts(s)| == |s|
    ensures forall w :: w in SortTexts(s) <==> w in s
  {
    if s == [] {
    } else {
      SortTextsSorts(s[1..]);
      InsertTextSorts(s[0], SortTexts(s[1..]));
    }
  }

  /** Compacts the distinct texts to the front of the array it reads, then sorts them:
      the write position never passes the read position. */
  method Dedupe(a: array<string>) returns (n: nat)
    modifies a
    ensures n <= a.Length
    ensures StrictlySorted(a[..n])
    ensures forall v :: v in a[..n] <==> v in old(a[..])
  {
    n := 0;
    if a.Length == 0 {
      return;
    }
    ghost var input := a[..];
    var seen: set<string> := {};
    for i := 0 to a.Length
      invariant n <= i
      invariant a[i..] == input[i..]
      invariant forall v :: v in seen <==> v in input[..i]
      invariant forall v :: v in a[..n] <==> v in input[..i]
      invariant Distinct(a[..n])
    {
      var v := a[i];
      TakeNext(input, i);
      assert v == input[i];
      if v !in seen {
        seen := seen + {v};
        a[n] := v;
        n := n + 1;
        TakeNext(a[..], n - 1);
      }
    }
    TakeAll(input);
    SortTextsSorts(a[..n]);
    var sorted := SortTexts(a[..n]);
    forall i | 0 <= i < n {
      a[i] := sorted[i];
    }
    assert a[..n] == sorted;
  }

  method DedupeTexts(texts: seq<string>) returns (r: seq<string>)
    ensures StrictlySorted(r)
    ensures forall v :: v in r <==> v in texts
  {
    var a := new string[|texts|](i requires 0 <= i < |texts| => texts[i]);
    assert a[..] == texts;
    var n := Dedupe(a);
    r := a[..n];
  }

  predicate Lists(r: FirewallRule, kind: Kind) {
    r.enabled && r.kind == kind && r.address != ""
  }

  /** The addresses of one family that enabled block or allow rules list, in order. */
  function Listed(net: Net, rules: seq<FirewallRule>, kind: Kind, f: Family): seq<string> {
    if rules == [] then []
    else
      var r := rules[|rules| - 1];
      Listed(net, rules[..|rules| - 1], kind, f)
      + if Lists(r, kind) && net.classify(r.address) == Some(f) then [r.address] else []
  }

  /** The well-formed feed entries of one family. */
  function Fed(net: Net, feed: seq<string>, f: Family): seq<string> {
    if feed == [] then []
    else
      var a := feed[|feed| - 1];
      Fed(net, feed[..|feed| - 1], f) + if net.classify(a) == Some(f) then [a] else []
  }

  function BlockedTexts(net: Net, rs: Ruleset, f: Family): seq<string> {
    Listed(net, rs.rules, Block, f) + Fed(net, rs.blocklist, f)
  }

  lemma {:induction false} ListedExactly(net: Net, rules: seq<FirewallRule>, kind: Kind, f: Family, v: string)
    ensures v in Listed(net, rules, kind, f) <==>
            net.classify(v) == Some(f)
            && exists r :: r in rules && r.enabled && r.kind == kind && r.address != "" && r.address == v
  {
    if rules == [] {
    } else {
      var n := |rules| - 1;
      ListedExactly(net, rules[..n], kind, f, v);
      assert rules[n] in rules;
      forall r | r in rules ensures r in rules[..n] || r == rules[n] {
      }
    }
  }

  lemma {:induction false} FedExactly(net: Net, feed: seq<string>, f: Family, v: string)
    ensures v in Fed(net, feed, f) <==> net.classify(v) == Some(f) && v in feed
  {
    if feed == [] {
    } else {
      var n := |feed| - 1;
      FedExactly(net, feed[..n], f, v);
      Unsnoc(feed);
    }
  }

  /** A block or allow rule whose address is not one. */
  predicate BadListing(net: Net, r: FirewallRule) {
    (Lists(r, Block) || Lists(r, Allow)) && net.classify(r.address).None?
  }

  datatype Partitioned = Partitioned(block4: seq<string>, block6: seq<string>,
                                     allow4: seq<string>, allow6: seq<string>)

  ghost predicate SetHolds(s: seq<string>, wanted: seq<string>) {
    StrictlySorted(s) && forall v :: v in s <==> v in wanted
  }

  method Partition(net: Net, rs: Ruleset) returns (res: Result<Partitioned, Error>)
    ensures res.Failure? <==>
            (exists r :: r in rs.rules && BadListing(net, r)) || |rs.blocklist| > MAX_BLOCKLIST_ENTRIES
    ensures res.Success? ==>
              && SetHolds(res.value.block4, BlockedTexts(net, rs, V4))
              && SetHolds(res.value.block6, BlockedTexts(net, rs, V6))
              && SetHolds(res.value.allow4, Listed(net, rs.rules, Allow, V4))
              && SetHolds(res.value.allow6, Listed(net, rs.rules, Allow, V6))
  {
    var block4, block6, allow4, allow6: seq<string> := [], [], [], [];
    for i := 0 to |rs.rules|
      invariant block4 == Listed(net, rs.rules[..i], Block, V4) && block6 == Listed(net, rs.rules[..i], Block, V6)
      invariant allow4 == Listed(net, rs.rules[..i], Allow, V4) && allow6 == Listed(net, rs.rules[..i], Allow, V6)
      invariant forall k :: 0 <= k < i ==> !BadListing(net, rs.rules[k])
    {
      var r := rs.rules[i];
      TakeNext(rs.rules, i);
      assert rs.rules[..i + 1][..i] == rs.rules[..i];
      if r.enabled && r.address != "" && !r.kind.PortKind? {
        var family := net.classify(r.address);
        if family.None? {
          assert BadListing(net, r);
          return Failure(BadAddress);
        }
        if r.kind.Block? {
          if family.value.V4? {
            block4 := block4 + [r.address];
          } else {
            block6 := block6 + [r.address];
          }
        } else {
          if family.value.V4? {
            allow4 := allow4 + [r.address];
          } else {
            allow6 := allow6 + [r.address];
          }
        }
      }
    }
    TakeAll(rs.rules);
    if |rs.blocklist| > MAX_BLOCKLIST_ENTRIES {
      return Failure(TooManyEntries);
    }
    ghost var typed4, typed6 := block4, block6;
    for i := 0 to |rs.blocklist|
      invariant block4 == typed4 + Fed(net, rs.blocklist[..i], V4)
      invariant block6 == typed6 + Fed(net, rs.blocklist[..i], V6)
    {
      var a := rs.blocklist[i];
      TakeNext(rs.blocklist, i);
      assert rs.blocklist[..i + 1][..i] == rs.blocklist[..i];
      var family := net.classify(a);
      if family.Some? {
        if family.value.V4? {
          Associate(typed4, Fed(net, rs.blocklist[..i], V4), [a]);
          block4 := block4 + [a];
        } else {
          Associate(typed6, Fed(net, rs.blocklist[..i], V6), [a]);
          block6 := block6 + [a];
        }
      }
    }
    TakeAll(rs.blocklist);
    block4 := DedupeTexts(block4);
    block6 := DedupeTexts(block6);
    allow4 := DedupeTexts(allow4);
    allow6 := DedupeTexts(allow6);
    return Success(Partitioned(block4, block6, allow4, allow6));
  }

  /** The elements in lines of eight; together the lines are the whole list. */
  method WriteSet(elements: seq<string>) returns (lines: seq<seq<string>>)
    ensures Flatten(lines) == elements
    ensures forall k :: 0 <= k < |lines| ==> 0 < |lines[k]| <= 8 && (k < |lines| - 1 ==> |lines[k]| == 8)
  {
    lines := [];
    var i := 0;
    while i < |elements|
      invariant Flatten(lines) == elements[..if i < |elements| then i else |elements|]
      invariant forall k :: 0 <= k < |lines| ==> 0 < |lines[k]| <= 8
      invariant forall k :: 0 <= k < |lines| - (if i > |elements| then 1 else 0) ==> |lines[k]| == 8
    {
      var end := if i + 8 < |elements| then i + 8 else |elements|;
      assert elements[..end] == elements[..i] + elements[i..end];
      assert (lines + [elements[i..end]])[..|lines|] == lines;
      lines := lines + [elements[i..end]];
      i := i + 8;
    }
    TakeAll(elements);
  }

  // ----- the chain -----------------------------------------------------------

  function StateRules(): seq<Rule> {
    [Rule(StateKnown, Accept), Rule(StateInvalid, Drop), Rule(FromLoopback, Accept)]
  }

  function ListRules(): seq<Rule> {
    [Rule(InAllowlist(V4), Accept), Rule(InAllowlist(V6), Accept),
     Rule(InBlocklist(V4), Drop), Rule(InBlocklist(V6), Drop)]
  }

  function IcmpRules(): seq<Rule> {
    [Rule(IcmpFor(V4), Accept), Rule(IcmpFor(V6), Accept)]
  }

  function Head(): seq<Rule> {
    StateRules() + (ListRules() + IcmpRules())
  }

  function TcpPort(port: int): Rule {
    Rule(DestPort(Tcp, port, port, None), Accept)
  }

  function TcpPorts(ports: seq<int>): seq<Rule> {
    seq(|ports|, (i: nat) requires i < |ports| => TcpPort(ports[i]))
  }

  function HighPort(r: FirewallRule): int {
    if r.portTo > r.portFrom then r.portTo else r.portFrom
  }

  function Protocols(protocol: string): Option<seq<Transport>> {
    if protocol == "tcp" || protocol == "" then Some([Tcp])
    else if protocol == "udp" then Some([Udp])
    else if protocol == "both" then Some([Tcp, Udp])
    else None
  }

  lemma ProtocolsCarry(protocol: string, t: Transport)
    ensures Protocols(protocol).Some? <==> Carries(protocol, Tcp) || Carries(protocol, Udp)
    ensures Protocols(protocol).Some? ==> (t in Protocols(protocol).value <==> Carries(protocol, t))
  {
  }

  /** One accept for each protocol. */
  function PortRule(net: Net, r: FirewallRule): Result<seq<Rule>, Error> {
    var protocols := Protocols(r.protocol);
    if protocols.None? then Failure(BadProtocol)
    else if r.address != "" && net.classify(r.address).None? then Failure(BadAddress)
    else
      var source := if r.address == "" then None else Some((net.classify(r.address).value, r.address));
      var ps := protocols.value;
      Success(seq(|ps|, (i: nat) requires i < |ps| => Rule(DestPort(ps[i], r.portFrom, HighPort(r), source), Accept)))
  }

  function PortRules(net: Net, rules: seq<FirewallRule>): seq<Rule> {
    if rules == [] then []
    else
      var r := rules[|rules| - 1];
      PortRules(net, rules[..|rules| - 1])
      + if r.enabled && r.kind.PortKind? && PortRule(net, r).Success? then PortRule(net, r).value else []
  }

  function Protections(rs: Ruleset): seq<Rule> {
    TcpPorts(rs.sshPorts) + (if rs.panelPort > 0 then [TcpPort(rs.panelPort)] else []) + TcpPorts(rs.webPorts)
  }

  function Chain(net: Net, rs: Ruleset): seq<Rule> {
    Head() + (Protections(rs) + PortRules(net, rs.rules))
  }

  ghost predicate SetsHold(net: Net, rs: Ruleset, sets: Sets) {
    && SetHolds(Flatten(sets.block4), BlockedTexts(net, rs, V4))
    && SetHolds(Flatten(sets.block6), BlockedTexts(net, rs, V6))
    && SetHolds(Flatten(sets.allow4), Listed(net, rs.rules, Allow, V4))
    && SetHolds(Flatten(sets.allow6), Listed(net, rs.rules, Allow, V6))
  }

  method WriteProtections(rs: Ruleset) returns (chain: seq<Rule>)
    ensures chain == Head() + Protections(rs)
  {
    chain := Head();
    for i := 0 to |rs.sshPorts|
      invariant chain == Head() + TcpPorts(rs.sshPorts)[..i]
    {
      TakeNext(TcpPorts(rs.sshPorts), i);
      Associate(Head(), TcpPorts(rs.sshPorts)[..i], [TcpPort(rs.sshPorts[i])]);
      chain := chain + [TcpPort(rs.sshPorts[i])];
    }
    TakeAll(TcpPorts(rs.sshPorts));
    ghost var panel := if rs.panelPort > 0 then [TcpPort(rs.panelPort)] else [];
    if rs.panelPort > 0 {
      chain := chain + [TcpPort(rs.panelPort)];
    }
    ghost var upToPanel := chain;
    for i := 0 to |rs.webPorts|
      invariant chain == upToPanel + TcpPorts(rs.webPorts)[..i]
    {
      TakeNext(TcpPorts(rs.webPorts), i);
      Associate(upToPanel, TcpPorts(rs.webPorts)[..i], [TcpPort(rs.webPorts[i])]);
      chain := chain + [TcpPort(rs.webPorts[i])];
    }
    TakeAll(TcpPorts(rs.webPorts));
    Associate(Head(), TcpPorts(rs.sshPorts), panel);
    Associate(Head(), TcpPorts(rs.sshPorts) + panel, TcpPorts(rs.webPorts));
  }

  method WriteChain(net: Net, rs: Ruleset) returns (res: Result<seq<Rule>, Error>)
    requires forall r :: r in rs.rules ==> !BadListing(net, r)
    ensures res.Failure? <==> exists r :: r in rs.rules && !Renderable(net, r)
    ensures res.Success? ==> res.value == Chain(net, rs)
  {
    var chain := WriteProtections(rs);
    ghost var before := chain;
    for i := 0 to |rs.rules|
      invariant chain == before + PortRules(net, rs.rules[..i])
      invariant forall k :: 0 <= k < i ==> Renderable(net, rs.rules[k])
    {
      var r := rs.rules[i];
      TakeNext(rs.rules, i);
      assert rs.rules[..i + 1][..i] == rs.rules[..i];
      assert r in rs.rules && !BadListing(net, r);
      if r.enabled && r.kind.PortKind? {
        ProtocolsCarry(r.protocol, Tcp);
        var lines := PortRule(net, r);
        if lines.Failure? {
          assert !Renderable(net, r);
          return Failure(lines.error);
        }
        Associate(before, PortRules(net, rs.rules[..i]), lines.value);
        chain := chain + lines.value;
      }
    }
    TakeAll(rs.rules);
    Associate(Head(), Protections(rs), PortRules(net, rs.rules));
    return Success(chain);
  }

  /** Fails exactly when an enabled rule has an address or a protocol that is none, or
      the feed is too long; otherwise the script decides every packet as the policy
      says, and its sets are the listed addresses, sorted and without repeats. */
  method Render(net: Net, rs: Ruleset) returns (res: Result<Script, Error>)
    ensures res.Failure? <==> |rs.blocklist| > 200_000 || exists r :: r in rs.rules && !Renderable(net, r)
    ensures res.Success? ==> SetsHold(net, rs, res.value.sets)
    ensures res.Success? ==> forall p: Packet :: Decide(net, res.value, p) == Policy(net, rs, p)
  {
    var parts := Partition(net, rs);
    if parts.Failure? {
      if r :| r in rs.rules && BadListing(net, r) {
        assert !Renderable(net, r);
      }
      return Failure(parts.error);
    }
    var block4 := WriteSet(parts.value.block4);
    var block6 := WriteSet(parts.value.block6);
    var allow4 := WriteSet(parts.value.allow4);
    var allow6 := WriteSet(parts.value.allow6);
    var sets := Sets(block4, block6, allow4, allow6);

    var chain := WriteChain(net, rs);
    if chain.Failure? {
      return Failure(chain.error);
    }
    var script := Script(sets, chain.value);
    forall p: Packet ensures Decide(net, script, p) == Policy(net, rs, p) {
      FirstMatchIsPolicy(net, rs, script, p);
    }
    return Success(script);
  }

  // ----- first match is the policy -------------------------------------------

  lemma {:induction false} FirstMatchConcat(net: Net, sets: Sets, a: seq<Rule>, b: seq<Rule>, p: Packet)
    ensures FirstMatch(net, sets, a + b, p) ==
            if FirstMatch(net, sets, a, p).Some? then FirstMatch(net, sets, a, p) else FirstMatch(net, sets, b, p)
  {
    if a == [] {
      assert a + b == b;
    } else {
      assert (a + b)[1..] == a[1..] + b;
      FirstMatchConcat(net, sets, a[1..], b, p);
    }
  }

  predicate AnyMatches(net: Net, sets: Sets, chain: seq<Rule>, p: Packet) {
    exists i :: 0 <= i < |chain| && Matches(net, sets, chain[i].test, p)
  }

  lemma {:induction false} AcceptsAny(net: Net, sets: Sets, chain: seq<Rule>, p: Packet)
    requires forall i :: 0 <= i < |chain| ==> chain[i].verdict == Accept
    ensures FirstMatch(net, sets, chain, p) == if AnyMatches(net, sets, chain, p) then Some(Accept) else None
  {
    if chain == [] {
    } else {
      AcceptsAny(net, sets, chain[1..], p);
      if AnyMatches(net, sets, chain, p) && !Matches(net, sets, chain[0].test, p) {
        var i :| 0 <= i < |chain| && Matches(net, sets, chain[i].test, p);
        assert chain[1..][i - 1] == chain[i];
      }
      if AnyMatches(net, sets, chain[1..], p) {
        var i :| 0 <= i < |chain| - 1 && Matches(net, sets, chain[1..][i].test, p);
        assert chain[i + 1] == chain[1..][i];
      }
    }
  }

  lemma FirstMatchAt(net: Net, sets: Sets, chain: seq<Rule>, p: Packet, i: nat)
    requires i < |chain|
    ensures FirstMatch(net, sets, chain[i..], p) ==
            if Matches(net, sets, chain[i].test, p) then Some(chain[i].verdict)
            else FirstMatch(net, sets, chain[i + 1..], p)
  {
    assert chain[i..][1..] == chain[i + 1..];
  }

  function StateVerdict(p: Packet): Option<Verdict> {
    if p.conn.Established? || p.conn.Related? then Some(Accept)
    else if p.conn.Invalid? then Some(Drop)
    else if p.loopback then Some(Accept)
    else None
  }

  function ListVerdict(net: Net, sets: Sets, p: Packet): Option<Verdict> {
    if Matches(net, sets, InAllowlist(p.family), p) then Some(Accept)
    else if Matches(net, sets, InBlocklist(p.family), p) then Some(Drop)
    else None
  }

  function IcmpVerdict(net: Net, sets: Sets, p: Packet): Option<Verdict> {
    if Matches(net, sets, IcmpFor(p.family), p) then Some(Accept) else None
  }

  function FirstOf(a: Option<Verdict>, b: Option<Verdict>): Option<Verdict> {
    if a.Some? then a else b
  }

  lemma StateRulesDecide(net: Net, sets: Sets, p: Packet)
    ensures FirstMatch(net, sets, StateRules(), p) == StateVerdict(p)
  {
    var rules := StateRules();
    assert rules[0..] == rules && rules[3..] == [];
    FirstMatchAt(net, sets, rules, p, 0);
    FirstMatchAt(net, sets, rules, p, 1);
    FirstMatchAt(net, sets, rules, p, 2);
  }

  lemma ListRulesDecide(net: Net, sets: Sets, p: Packet)
    ensures FirstMatch(net, sets, ListRules(), p) == ListVerdict(net, sets, p)
  {
    var rules := ListRules();
    assert rules[0..] == rules && rules[4..] == [];
    FirstMatchAt(net, sets, rules, p, 0);
    FirstMatchAt(net, sets, rules, p, 1);
    FirstMatchAt(net, sets, rules, p, 2);
    FirstMatchAt(net, sets, rules, p, 3);
  }

  lemma IcmpRulesDecide(net: Net, sets: Sets, p: Packet)
    ensures FirstMatch(net, sets, IcmpRules(), p) == IcmpVerdict(net, sets, p)
  {
    var rules := IcmpRules();
    assert rules[0..] == rules && rules[2..] == [];
    FirstMatchAt(net, sets, rules, p, 0);
    FirstMatchAt(net, sets, rules, p, 1);
  }

  lemma HeadDecides(net: Net, sets: Sets, p: Packet)
    ensures FirstMatch(net, sets, Head(), p) ==
            FirstOf(StateVerdict(p), FirstOf(ListVerdict(net, sets, p), IcmpVerdict(net, sets, p)))
  {
    StateRulesDecide(net, sets, p);
    ListRulesDecide(net, sets, p);
    IcmpRulesDecide(net, sets, p);
    FirstMatchConcat(net, sets, ListRules(), IcmpRules(), p);
    FirstMatchConcat(net, sets, StateRules(), ListRules() + IcmpRules(), p);
  }

  lemma ElementsCover(net: Net, s: seq<string>, wanted: seq<string>, source: int)
    requires SetHolds(s, wanted)
    ensures AnyCovers(net, s, source) <==> AnyCovers(net, wanted, source)
  {
    if AnyCovers(net, s, source) {
      var i :| 0 <= i < |s| && net.covers(s[i], source);
      assert s[i] in wanted;
    }
    if AnyCovers(net, wanted, source) {
      var i :| 0 <= i < |wanted| && net.covers(wanted[i], source);
      assert wanted[i] in s;
    }
  }

  lemma TrustedTexts(net: Net, rs: Ruleset, p: Packet)
    ensures AnyCovers(net, Listed(net, rs.rules, Allow, p.family), p.source) <==> Trusted(net, rs, p)
  {
    var texts := Listed(net, rs.rules, Allow, p.family);
    if AnyCovers(net, texts, p.source) {
      var i :| 0 <= i < |texts| && net.covers(texts[i], p.source);
      ListedExactly(net, rs.rules, Allow, p.family, texts[i]);
    }
    if r :| r in rs.rules && r.enabled && r.kind.Allow? && r.address != "" && Names(net, r.address, p) {
      ListedExactly(net, rs.rules, Allow, p.family, r.address);
    }
  }

  lemma BlockedTextsExactly(net: Net, rs: Ruleset, p: Packet)
    ensures AnyCovers(net, BlockedTexts(net, rs, p.family), p.source) <==> Blocked(net, rs, p)
  {
    var texts := BlockedTexts(net, rs, p.family);
    if AnyCovers(net, texts, p.source) {
      var i :| 0 <= i < |texts| && net.covers(texts[i], p.source);
      assert texts[i] in texts;
      ListedExactly(net, rs.rules, Block, p.family, texts[i]);
      FedExactly(net, rs.blocklist, p.family, texts[i]);
    }
    if r :| r in rs.rules && r.enabled && r.kind.Block? && r.address != "" && Names(net, r.address, p) {
      ListedExactly(net, rs.rules, Block, p.family, r.address);
      assert r.address in texts;
    } else if a :| a in rs.blocklist && Names(net, a, p) {
      FedExactly(net, rs.blocklist, p.family, a);
      assert a in texts;
    }
  }

  /** What the packet finds in the sets is what the rules and the feed say of it. */
  lemma SetsDecide(net: Net, rs: Ruleset, sets: Sets, p: Packet)
    requires SetsHold(net, rs, sets)
    ensures Matches(net, sets, InAllowlist(p.family), p) <==> Trusted(net, rs, p)
    ensures Matches(net, sets, InBlocklist(p.family), p) <==> Blocked(net, rs, p)
  {
    TrustedTexts(net, rs, p);
    BlockedTextsExactly(net, rs, p);
    if p.family.V4? {
      ElementsCover(net, Flatten(sets.allow4), Listed(net, rs.rules, Allow, V4), p.source);
      ElementsCover(net, Flatten(sets.block4), BlockedTexts(net, rs, V4), p.source);
    } else {
      ElementsCover(net, Flatten(sets.allow6), Listed(net, rs.rules, Allow, V6), p.source);
      ElementsCover(net, Flatten(sets.block6), BlockedTexts(net, rs, V6), p.source);
    }
  }

  lemma PortsMatch(net: Net, sets: Sets, ports: seq<int>, p: Packet)
    ensures AnyMatches(net, sets, TcpPorts(ports), p) <==> p.transport.Tcp? && p.port in ports
  {
    var rules := TcpPorts(ports);
    if p.transport.Tcp? && p.port in ports {
      var i :| 0 <= i < |ports| && ports[i] == p.port;
      assert Matches(net, sets, rules[i].test, p);
    }
  }

  lemma PortRuleMatches(net: Net, sets: Sets, r: FirewallRule, p: Packet)
    requires r.enabled && r.kind.PortKind? && Renderable(net, r)
    ensures PortRule(net, r).Success?
    ensures forall i :: 0 <= i < |PortRule(net, r).value| ==> PortRule(net, r).value[i].verdict == Accept
    ensures AnyMatches(net, sets, PortRule(net, r).value, p) <==> Opens(net, r, p)
  {
    ProtocolsCarry(r.protocol, p.transport);
    var lines := PortRule(net, r).value;
    var ps := Protocols(r.protocol).value;
    if Opens(net, r, p) {
      var i :| 0 <= i < |ps| && ps[i] == p.transport;
      assert r.portFrom <= p.port <= HighPort(r);
      assert lines[i].test.high == HighPort(r);
      assert Matches(net, sets, lines[i].test, p);
    }
    if AnyMatches(net, sets, lines, p) {
      var i :| 0 <= i < |lines| && Matches(net, sets, lines[i].test, p);
      assert ps[i] == p.transport && lines[i].test.high == HighPort(r);
    }
  }

  lemma {:induction false} PortRulesMatch(net: Net, sets: Sets, rules: seq<FirewallRule>, p: Packet)
    requires forall r :: r in rules ==> Renderable(net, r)
    ensures FirstMatch(net, sets, PortRules(net, rules), p) ==
            if exists r :: r in rules && Opens(net, r, p) then Some(Accept) else None
  {
    if rules == [] {
    } else {
      var n := |rules| - 1;
      var r := rules[n];
      var init := rules[..n];
      assert r in rules;
      forall q ensures q in rules <==> q in init || q == r {
        Unsnoc(rules);
      }
      PortRulesMatch(net, sets, init, p);
      if r.enabled && r.kind.PortKind? {
        PortRuleMatches(net, sets, r, p);
        AcceptsAny(net, sets, PortRule(net, r).value, p);
        FirstMatchConcat(net, sets, PortRules(net, init), PortRule(net, r).value, p);
      } else {
        ConcatEmpty(PortRules(net, init));
      }
    }
  }

  lemma ProtectionsMatch(net: Net, sets: Sets, rs: Ruleset, p: Packet)
    ensures FirstMatch(net, sets, Protections(rs), p) == if Protected(rs, p) then Some(Accept) else None
  {
    var panel := if rs.panelPort > 0 then [TcpPort(rs.panelPort)] else [];
    PortsMatch(net, sets, rs.sshPorts, p);
    PortsMatch(net, sets, rs.webPorts, p);
    AcceptsAny(net, sets, TcpPorts(rs.sshPorts), p);
    AcceptsAny(net, sets, TcpPorts(rs.webPorts), p);
    FirstMatchConcat(net, sets, TcpPorts(rs.sshPorts), panel, p);
    FirstMatchConcat(net, sets, TcpPorts(rs.sshPorts) + panel, TcpPorts(rs.webPorts), p);
  }

  /** The rendered chain decides every packet as the policy does. */
  lemma FirstMatchIsPolicy(net: Net, rs: Ruleset, script: Script, p: Packet)
    requires SetsHold(net, rs, script.sets) && script.chain == Chain(net, rs)
    requires forall r :: r in rs.rules ==> Renderable(net, r)
    ensures Decide(net, script, p) == Policy(net, rs, p)
  {
    var sets := script.sets;
    HeadDecides(net, sets, p);
    SetsDecide(net, rs, sets, p);
    ProtectionsMatch(net, sets, rs, p);
    PortRulesMatch(net, sets, rs.rules, p);
    FirstMatchConcat(net, sets, Protections(rs), PortRules(net, rs.rules), p);
    FirstMatchConcat(net, sets, Head(), Protections(rs) + PortRules(net, rs.rules), p);
  }

  /** Whatever the rules and the feed say, the rendered chain accepts a new connection
      to an SSH, panel or web port, unless its source is blocked and not allowed. */
  lemma TheWayInStaysOpen(net: Net, rs: Ruleset, script: Script, p: Packet)
    requires SetsHold(net, rs, script.sets) && script.chain == Chain(net, rs)
    requires forall r :: r in rs.rules ==> Renderable(net, r)
    requires p.conn.New? && Protected(rs, p)
    ensures Decide(net, script, p) == Drop <==> !p.loopback && Blocked(net, rs, p) && !Trusted(net, rs, p)
  {
    FirstMatchIsPolicy(net, rs, script, p);
  }

  /** A new packet that no list, protected port or earlier rule decides gets through if
      and only if an enabled port rule covers its port and its source and is written for
      its protocol: `tcp`, nothing or `both` for TCP, `udp` or `both` for UDP. */
  lemma OpenPortsExactly(net: Net, rs: Ruleset, script: Script, p: Packet)
    requires SetsHold(net, rs, script.sets) && script.chain == Chain(net, rs)
    requires forall r :: r in rs.rules ==> Renderable(net, r)
    requires p.conn.New? && !p.loopback && (p.transport.Tcp? || p.transport.Udp?)
    requires !Trusted(net, rs, p) && !Blocked(net, rs, p) && !Protected(rs, p)
    ensures Decide(net, script, p) == Accept <==>
            exists r :: r in rs.rules && r.enabled && r.kind.PortKind?
              && (r.protocol == "both" || (if p.transport.Tcp? then r.protocol == "tcp" || r.protocol == ""
                                           else r.protocol == "udp"))
              && (p.port == r.portFrom || r.portFrom < p.port <= r.portTo)
              && (r.address == "" || (net.classify(r.address) == Some(p.family) && net.covers(r.address, p.source)))
  {
    FirstMatchIsPolicy(net, rs, script, p);
    forall r | r in rs.rules
      ensures Opens(net, r, p) <==>
              r.enabled && r.kind.PortKind?
              && (r.protocol == "both" || (if p.transport.Tcp? then r.protocol == "tcp" || r.protocol == ""
                                           else r.protocol == "udp"))
              && (p.port == r.portFrom || r.portFrom < p.port <= r.portTo)
              && (r.address == "" || (net.classify(r.address) == Some(p.family) && net.covers(r.address, p.source)))
    {
    }
  }

  /** The four sets hold exactly the addresses of their family that enabled rules list,
      the block sets with the well-formed feed entries as well. */
  lemma SetsAreExact(net: Net, rs: Ruleset, sets: Sets, f: Family, v: string)
    requires SetsHold(net, rs, sets)
    ensures v in Flatten(if f.V4? then sets.allow4 else sets.allow6) <==>
            net.classify(v) == Some(f)
            && exists r :: r in rs.rules && r.enabled && r.kind.Allow? && r.address != "" && r.address == v
    ensures v in Flatten(if f.V4? then sets.block4 else sets.block6) <==>
            net.classify(v) == Some(f)
            && (v in rs.blocklist
                || exists r :: r in rs.rules && r.enabled && r.kind.Block? && r.address != "" && r.address == v)
  {
    ListedExactly(net, rs.rules, Allow, f, v);
    ListedExactly(net, rs.rules, Block, f, v);
    FedExactly(net, rs.blocklist, f, v);
    assert v in BlockedTexts(net, rs, f) <==>
           v in Listed(net, rs.rules, Block, f) || v in Fed(net, rs.blocklist, f);
  }
}
