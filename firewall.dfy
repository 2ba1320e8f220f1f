/** The `firewallAllow` field of a firewall row (listFirewalls): the rule's `allowed`
    list of (IPProtocol, ports) entries folded into one `;`-separated string. */
module Firewall {
  import opened Strings
  import opened Schema

  /** One entry of a rule's `allowed` list. `ports` is `None` when the field is absent;
      an empty list is still present (and truthy in JavaScript). */
  datatype AllowEntry = AllowEntry(ipProtocol: string, ports: Option<seq<string>>)

  /** `allowed` is `None` for a rule that has no `allowed` list (a deny rule). */
  datatype FirewallRecord = FirewallRecord(name: string, network: string, direction: string,
                                           priority: string, allowed: Option<seq<AllowEntry>>)

  /** `protocol:port` for each port, in order. */
  function PortTexts(protocol: string, ports: seq<string>): (ts: seq<string>)
  {
    seq(|ports|, k requires 0 <= k < |ports| => protocol + ":" + ports[k])
  }

  /** What one entry contributes: its ports as `protocol:port` joined by `;`, or just the protocol. */
  function EntryText(e: AllowEntry): string
  {
    match e.ports
    case Some(ports) => Join(";", PortTexts(e.ipProtocol, ports))
    case None => e.ipProtocol
  }

  function EntryTexts(es: seq<AllowEntry>): seq<string>
  {
    seq(|es|, i requires 0 <= i < |es| => EntryText(es[i]))
  }

  /** The allow string: the entries' contributions joined by `;`. */
  function AllowString(es: seq<AllowEntry>): string
  {
    Join(";", EntryTexts(es))
  }

  /** The inner loop of listFirewalls: appends `protocol:port` for each port, with a `;`
      before every port but the first. */
  method AppendPorts(prefix: string, ipProtocol: string, ports: seq<string>) returns (allow: string)
    ensures allow == prefix + Join(";", PortTexts(ipProtocol, ports))
  {
    allow := prefix;
    var j := 0;
    while j < |ports|
      invariant 0 <= j <= |ports|
      invariant allow == prefix + Join(";", PortTexts(ipProtocol, ports[..j]))
    {
      assert PortTexts(ipProtocol, ports[..j + 1]) == PortTexts(ipProtocol, ports[..j]) + [ipProtocol + ":" + ports[j]];
      JoinSnoc(";", PortTexts(ipProtocol, ports[..j]), ipProtocol + ":" + ports[j]);
      if j > 0 {
        allow := allow + ";";
      }
      allow := allow + ipProtocol + ":" + ports[j];
      j := j + 1;
    }
    assert ports[..j] == ports;
  }

  /** The loop of listFirewalls that appends to `firewallAllow`: a `;` before every entry but
      the first, then the entry's ports (or, when it has none, its protocol). */
  method FirewallAllow(allowed: seq<AllowEntry>) returns (allow: string)
    ensures allow == AllowString(allowed)
  {
    allow := "";
    var i := 0;
    while i < |allowed|
      invariant 0 <= i <= |allowed|
      invariant allow == AllowString(allowed[..i])
    {
      assert EntryTexts(allowed[..i + 1]) == EntryTexts(allowed[..i]) + [EntryText(allowed[i])];
      JoinSnoc(";", EntryTexts(allowed[..i]), EntryText(allowed[i]));
      if i > 0 {
        allow := allow + ";";
      }
      match allowed[i].ports {
        case Some(ports) =>
          allow := AppendPorts(allow, allowed[i].ipProtocol, ports);
        case None =>
          allow := allow + allowed[i].ipProtocol;
      }
      i := i + 1;
    }
    assert allowed[..i] == allowed;
  }

  /** The row of one firewall rule. The network is trimmed to its last segment; a rule with no
      `allowed` list makes `allowed.length` throw. */
  function FirewallRow(p: Project, fw: FirewallRecord): (row: Option<Row>)
    ensures row.None? <==> fw.allowed.None?
    ensures row.Some? ==>
              |row.value| == |Columns(Firewalls)| == 6 && row.value[0] == p.projectId &&
              row.value[2] == LastSegment(fw.network) && row.value[5] == AllowString(fw.allowed.value)
  {
    match fw.allowed
    case None => None
    case Some(allowed) =>
      Some([p.projectId, fw.name, LastSegment(fw.network), fw.direction, fw.priority, AllowString(allowed)])
  }

  /** The tokens the allow string is made of: one `protocol:port` per port, or the bare protocol. */
  function EntryTokens(e: AllowEntry): seq<string>
  {
    match e.ports
    case Some(ports) => PortTexts(e.ipProtocol, ports)
    case None => [e.ipProtocol]
  }

  function Tokens(es: seq<AllowEntry>): seq<string>
    decreases |es|
  {
    if es == [] then [] else EntryTokens(es[0]) + Tokens(es[1..])
  }

  /** Joining two non-empty lists in one go is joining each and putting the separator between. */
  lemma {:induction false} JoinAppend(sep: string, xs: seq<string>, ys: seq<string>)
    requires xs != [] && ys != []
    ensures Join(sep, xs + ys) == Join(sep, xs) + sep + Join(sep, ys)
    decreases |xs|
  {
    if |xs| > 1 {
      assert (xs + ys)[1..] == xs[1..] + ys;
      JoinAppend(sep, xs[1..], ys);
    } else {
      assert (xs + ys)[1..] == ys;
    }
  }

  /** When no entry has an empty port list, the allow string is the tokens of all entries, in
      order, separated by `;`: entry separators and port separators are the same `;`. */
  lemma {:induction false} AllowStringIsJoinedTokens(es: seq<AllowEntry>)
    requires forall i :: 0 <= i < |es| ==> es[i].ports != Some([])
    ensures AllowString(es) == Join(";", Tokens(es))
    decreases |es|
  {
    if es != [] {
      AllowStringIsJoinedTokens(es[1..]);
      assert EntryTexts(es) == [EntryText(es[0])] + EntryTexts(es[1..]);
      assert EntryText(es[0]) == Join(";", EntryTokens(es[0]));
      if |es| > 1 {
        assert es[1..] == [es[1]] + es[2..];
        assert EntryTokens(es[1]) != [];
        assert Tokens(es[1..]) != [];
        JoinAppend(";", EntryTokens(es[0]), Tokens(es[1..]));
      } else {
        assert Tokens(es) == EntryTokens(es[0]);
      }
    }
  }

  /** The allow string can be read back: splitting it on `;` gives the tokens, provided no
      entry has an empty port list and no protocol or port contains `;`. */
  lemma AllowStringDecodes(es: seq<AllowEntry>)
    requires es != []
    requires forall i :: 0 <= i < |es| ==> es[i].ports != Some([])
    requires forall i :: 0 <= i < |Tokens(es)| ==> ';' !in Tokens(es)[i]
    ensures Split(AllowString(es), ';') == Tokens(es)
  {
    AllowStringIsJoinedTokens(es);
    assert es == [es[0]] + es[1..];
    assert EntryTokens(es[0]) != [];
    SplitOfJoin(Tokens(es), ';');
  }

  /** An empty `allowed` list gives the empty allow string. */
  lemma AllowStringOfNoEntries()
    ensures AllowString([]) == ""
  {
  }

  /** `[tcp [22, 80], icmp]` gives `tcp:22;tcp:80;icmp`. */
  lemma AllowStringExample()
    ensures AllowString([AllowEntry("tcp", Some(["22", "80"])), AllowEntry("icmp", None)]) == "tcp:22;tcp:80;icmp"
  {
    var es := [AllowEntry("tcp", Some(["22", "80"])), AllowEntry("icmp", None)];
    var ts := PortTexts("tcp", ["22", "80"]);
    assert ts[0] == "tcp:22" && ts[1] == "tcp:80";
    assert Join(";", ts) == "tcp:22;tcp:80" by {
      assert ts[1..] == ["tcp:80"];
    }
    assert EntryTexts(es) == ["tcp:22;tcp:80", "icmp"];
  }

  /** An entry whose port list is present but empty contributes nothing, yet the `;` before it
      is still written: `[tcp [], icmp]` gives `;icmp`. */
  lemma AllowStringEmptyPortsExample()
    ensures AllowString([AllowEntry("tcp", Some([])), AllowEntry("icmp", None)]) == ";icmp"
  {
    var es := [AllowEntry("tcp", Some([])), AllowEntry("icmp", None)];
    assert EntryTexts(es) == ["", "icmp"];
  }
}
