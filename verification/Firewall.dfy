/** The userspace firewall: rules are pushed on the head of a list as the file is read, and a request is
    decided by the first rule of the list that matches. */
module Firewall {

  datatype Kind = BindAllow | ConnectAllow | ConnectDeny

  /** Port 0 is FW_PORT_ANY. */
  datatype Rule = Rule(kind: Kind, port: nat, ip: bv32, mask: bv32)

  /** A line of the rule file, after scanning. */
  datatype Line = Skipped | Unknown | Parsed(rule: Rule)

  predicate PortMatches(r: Rule, port: nat) { r.port == 0 || r.port == port }

  /** The address test of the code. */
  predicate AddressMatches(r: Rule, ip: bv32) { SameUnder(ip, r.ip, r.mask) }

  predicate SameUnder(ip: bv32, a: bv32, m: bv32) { ip & a == ip & m }

  /** ip has no bit in which a and m differ. */
  predicate NoDifferingBit(ip: bv32, a: bv32, m: bv32) { ip & (a ^ m) == 0 }

  predicate ConnectRule(r: Rule, port: nat, ip: bv32) {
    r.kind != BindAllow && AddressMatches(r, ip) && PortMatches(r, port)
  }

  predicate BindRule(r: Rule, port: nat) { r.kind == BindAllow && PortMatches(r, port) }

  /** The rules read before the first unknown line. */
  function Rules(lines: seq<Line>): (r: seq<Rule>) {
    if lines == [] || lines[0].Unknown? then []
    else (if lines[0].Parsed? then [lines[0].rule] else []) + Rules(lines[1..])
  }

  /** Line i is read and becomes a rule: it is one, and no line before it is unknown. */
  ghost predicate BecomesRule(lines: seq<Line>, i: nat) {
    i < |lines| && lines[i].Parsed? && forall j :: 0 <= j < i ==> !lines[j].Unknown?
  }

  /** The number of rules among the first i lines. */
  function Before(lines: seq<Line>, i: nat): (r: nat)
    requires i <= |lines|
  {
    if i == 0 then 0 else Before(lines, i - 1) + (if lines[i - 1].Parsed? then 1 else 0)
  }

  lemma {:induction false} BeforeTail(lines: seq<Line>, i: nat)
    requires 0 < i <= |lines|
    ensures Before(lines, i) == (if lines[0].Parsed? then 1 else 0) + Before(lines[1..], i - 1)
  {
    if i > 1 { BeforeTail(lines, i - 1); }
  }

  /** A line that becomes a rule is the rule at the position that counts the rules before it ... */
  lemma {:induction false} RuleOfLine(lines: seq<Line>, i: nat)
    requires BecomesRule(lines, i)
    ensures Before(lines, i) < |Rules(lines)| && Rules(lines)[Before(lines, i)] == lines[i].rule
    decreases i
  {
    if i > 0 {
      assert !lines[0].Unknown?;
      assert forall j :: 0 <= j < i ==> lines[1..][j] == lines[j + 1];
      RuleOfLine(lines[1..], i - 1);
      BeforeTail(lines, i);
    }
  }

  /** ... and every rule is such a line. */
  lemma {:induction false} LineOfRule(lines: seq<Line>, k: nat) returns (i: nat)
    requires k < |Rules(lines)|
    ensures BecomesRule(lines, i) && Before(lines, i) == k && Rules(lines)[k] == lines[i].rule
    decreases |lines|
  {
    if lines[0].Parsed? && k == 0 {
      i := 0;
    } else {
      var rest := lines[1..];
      var h := if lines[0].Parsed? then 1 else 0;
      assert Rules(lines)[k] == Rules(rest)[k - h];
      var j := LineOfRule(rest, k - h);
      i := j + 1;
      assert lines[i] == rest[j];
      forall m | 0 <= m < i ensures !lines[m].Unknown? {
        if m > 0 { assert lines[m] == rest[m - 1]; }
      }
      BeforeTail(lines, i);
    }
  }

  /** A rule with port 0 is for every port, another only for its own. */
  lemma PortsMatched(r: Rule, port: nat)
    ensures r.port == 0 ==> PortMatches(r, port)
    ensures r.port != 0 ==> (PortMatches(r, port) <==> port == r.port)
  {
  }

  function Reversed(s: seq<Rule>): (r: seq<Rule>)
    ensures |r| == |s|
  {
    if s == [] then [] else Reversed(s[1..]) + [s[0]]
  }

  lemma {:induction false} ReversedAt(s: seq<Rule>, k: nat)
    requires k < |s|
    ensures Reversed(s)[k] == s[|s| - 1 - k]
  {
    if k < |s| - 1 { ReversedAt(s[1..], k); }
  }

  lemma {:induction false} ReversedConcat(a: seq<Rule>, b: seq<Rule>)
    ensures Reversed(a + b) == Reversed(b) + Reversed(a)
  {
    if a == [] {
      assert a + b == b;
    } else {
      assert (a + b)[1..] == a[1..] + b;
      ReversedConcat(a[1..], b);
    }
  }

  /** In file order: the last connect rule that matches is an allow rule; without one the answer is no. */
  ghost predicate ConnectAllowed(file: seq<Rule>, port: nat, ip: bv32) {
    exists i :: 0 <= i < |file| && file[i].kind == ConnectAllow && ConnectRule(file[i], port, ip)
      && forall j :: i < j < |file| ==> !ConnectRule(file[j], port, ip)
  }

  ghost predicate BindAllowed(file: seq<Rule>, port: nat) {
    exists i :: 0 <= i < |file| && BindRule(file[i], port)
  }

  class Table {
    var rules: seq<Rule>

    constructor ()
      ensures rules == []
    {
      rules := [];
    }

    /** firewall_parse: the list ends up in the reverse of file order; an unknown line stops the reading. */
    method Load(lines: seq<Line>) returns (ok: bool)
      modifies this
      ensures rules == Reversed(Rules(lines))
      ensures ok <==> Unknown !in lines
    {
      rules := [];
      var i := 0;
      while i < |lines|
        invariant i <= |lines| && Unknown !in lines[..i]
        invariant Reversed(Rules(lines)) == Reversed(Rules(lines[i..])) + rules
      {
        assert lines[i..][1..] == lines[i + 1..] && lines[i] == lines[i..][0];
        match lines[i] {
          case Skipped => assert [] + Rules(lines[i + 1..]) == Rules(lines[i + 1..]);
          case Unknown => return false;
          case Parsed(r) =>
            ReversedConcat([r], Rules(lines[i + 1..]));
            assert Reversed([r]) == Reversed([r][1..]) + [r];
            assert Reversed(Rules(lines[i + 1..])) + [r] + rules == Reversed(Rules(lines[i + 1..])) + ([r] + rules);
            rules := [r] + rules;
        }
        i := i + 1;
      }
      assert lines[..|lines|] == lines;
      return true;
    }

    /** firewall_check_connect. */
    method CheckConnect(port: nat, ip: bv32, ghost file: seq<Rule>) returns (allowed: bool)
      requires rules == Reversed(file)
      ensures allowed <==> ConnectAllowed(file, port, ip)
    {
      hide AddressMatches, ConnectAllowed;
      forall k | 0 <= k < |rules| ensures rules[k] == file[|file| - 1 - k] { ReversedAt(file, k); }
      var k := 0;
      while k < |rules|
        invariant k <= |rules|
        invariant forall j :: 0 <= j < k ==> !ConnectRule(rules[j], port, ip)
      {
        var p := rules[k];
        if p.kind == ConnectAllow && AddressMatches(p, ip) && (p.port == 0 || p.port == port) {
          LastMatch(file, rules, k, port, ip);
          return true;
        }
        if p.kind == ConnectDeny && AddressMatches(p, ip) && (p.port == 0 || p.port == port) {
          LastMatch(file, rules, k, port, ip);
          return false;
        }
        k := k + 1;
      }
      NoMatch(file, rules, port, ip);
      return false;
    }

    /** firewall_check_bind. */
    method CheckBind(port: nat, ghost file: seq<Rule>) returns (allowed: bool)
      requires rules == Reversed(file)
      ensures allowed <==> BindAllowed(file, port)
    {
      forall k | 0 <= k < |rules| ensures rules[k] == file[|file| - 1 - k] { ReversedAt(file, k); }
      var k := 0;
      while k < |rules|
        invariant k <= |rules|
        invariant forall j :: 0 <= j < k ==> !BindRule(rules[j], port)
      {
        var p := rules[k];
        if p.kind == BindAllow && (p.port == 0 || p.port == port) {
          assert BindRule(file[|file| - 1 - k], port);
          return true;
        }
        k := k + 1;
      }
      forall i | 0 <= i < |file| ensures !BindRule(file[i], port) { assert file[i] == rules[|file| - 1 - i]; }
      return false;
    }
  }

  lemma LastMatch(file: seq<Rule>, rules: seq<Rule>, k: nat, port: nat, ip: bv32)
    requires |rules| == |file| && k < |rules| && forall k :: 0 <= k < |rules| ==> rules[k] == file[|file| - 1 - k]
    requires ConnectRule(rules[k], port, ip) && forall j :: 0 <= j < k ==> !ConnectRule(rules[j], port, ip)
    ensures ConnectAllowed(file, port, ip) <==> rules[k].kind == ConnectAllow
  {
    var i := |file| - 1 - k;
    assert file[i] == rules[k];
    forall j | i < j < |file| ensures !ConnectRule(file[j], port, ip) { assert file[j] == rules[|file| - 1 - j]; }
  }

  lemma NoMatch(file: seq<Rule>, rules: seq<Rule>, port: nat, ip: bv32)
    requires |rules| == |file| && forall k :: 0 <= k < |rules| ==> rules[k] == file[|file| - 1 - k]
    requires forall j :: 0 <= j < |rules| ==> !ConnectRule(rules[j], port, ip)
    ensures !ConnectAllowed(file, port, ip)
  {
    forall j | 0 <= j < |file| ensures !ConnectRule(file[j], port, ip) { assert file[j] == rules[|file| - 1 - j]; }
  }

  // ---------- What the decisions depend on ----------

  function WithoutBind(file: seq<Rule>): (r: seq<Rule>) {
    if file == [] then [] else (if file[0].kind == BindAllow then [] else [file[0]]) + WithoutBind(file[1..])
  }

  ghost predicate NoConnectRule(file: seq<Rule>, port: nat, ip: bv32) {
    forall j :: 0 <= j < |file| ==> !ConnectRule(file[j], port, ip)
  }

  /** First-rule view of ConnectAllowed. */
  lemma ConnectAllowedCons(r: Rule, file: seq<Rule>, port: nat, ip: bv32)
    ensures ConnectAllowed([r] + file, port, ip) <==>
            ConnectAllowed(file, port, ip) ||
            (r.kind == ConnectAllow && ConnectRule(r, port, ip) && NoConnectRule(file, port, ip))
  {
    var f := [r] + file;
    assert forall j :: 0 < j < |f| ==> f[j] == file[j - 1];
    if ConnectAllowed(file, port, ip) {
      var i :| 0 <= i < |file| && file[i].kind == ConnectAllow && ConnectRule(file[i], port, ip)
               && forall j :: i < j < |file| ==> !ConnectRule(file[j], port, ip);
      assert f[i + 1] == file[i];
    }
    if ConnectAllowed(f, port, ip) {
      var i :| 0 <= i < |f| && f[i].kind == ConnectAllow && ConnectRule(f[i], port, ip)
               && forall j :: i < j < |f| ==> !ConnectRule(f[j], port, ip);
      forall j | i <= j < |file| ensures !ConnectRule(file[j], port, ip) { assert file[j] == f[j + 1]; }
      if i > 0 { assert file[i - 1] == f[i]; }
    }
    if r.kind == ConnectAllow && ConnectRule(r, port, ip) && NoConnectRule(file, port, ip) {
      assert f[0] == r;
    }
  }

  lemma {:induction false} BindRulesIrrelevant(file: seq<Rule>, port: nat, ip: bv32)
    ensures ConnectAllowed(WithoutBind(file), port, ip) <==> ConnectAllowed(file, port, ip)
    ensures (exists j :: 0 <= j < |file| && ConnectRule(file[j], port, ip)) <==>
            (exists j :: 0 <= j < |WithoutBind(file)| && ConnectRule(WithoutBind(file)[j], port, ip))
  {
    if file != [] {
      var r, rest := file[0], file[1..];
      assert file == [r] + rest;
      BindRulesIrrelevant(rest, port, ip);
      ConnectAllowedCons(r, rest, port, ip);
      AnyCons(r, rest, port, ip);
      if r.kind == BindAllow {
        assert WithoutBind(file) == WithoutBind(rest);
      } else {
        ConnectAllowedCons(r, WithoutBind(rest), port, ip);
        AnyCons(r, WithoutBind(rest), port, ip);
      }
    }
  }

  lemma AnyCons(r: Rule, file: seq<Rule>, port: nat, ip: bv32)
    ensures (exists j :: 0 <= j < |[r] + file| && ConnectRule(([r] + file)[j], port, ip)) <==>
            ConnectRule(r, port, ip) || (exists j :: 0 <= j < |file| && ConnectRule(file[j], port, ip))
  {
    var f := [r] + file;
    if ConnectRule(r, port, ip) { assert ConnectRule(f[0], port, ip); }
    if j :| 0 <= j < |file| && ConnectRule(file[j], port, ip) { assert ConnectRule(f[j + 1], port, ip); }
  }

  /** Binding depends on which rules there are, not on their order. */
  lemma BindOrderIrrelevant(a: seq<Rule>, b: seq<Rule>, port: nat)
    requires forall r :: r in a <==> r in b
    ensures BindAllowed(a, port) <==> BindAllowed(b, port)
  {
    if i :| 0 <= i < |a| && BindRule(a[i], port) {
      assert a[i] in b;
      var j :| 0 <= j < |b| && b[j] == a[i];
    }
    if i :| 0 <= i < |b| && BindRule(b[i], port) {
      assert b[i] in a;
      var j :| 0 <= j < |a| && a[j] == b[i];
    }
  }

  /** An address inside the network: what an address and a netmask usually mean. */
  predicate InNetwork(r: Rule, ip: bv32) { ip & r.mask == r.ip }

  /** The code's test: the address has no bit in which rule address and mask differ. */
  lemma MatchesIffNoDifferingBit(r: Rule, ip: bv32)
    ensures AddressMatches(r, ip) <==> NoDifferingBit(ip, r.ip, r.mask)
  {
    hide SameUnder, NoDifferingBit;
    DifferingBits(ip, r.ip, r.mask);
  }

  lemma DifferingBits(ip: bv32, a: bv32, m: bv32)
    ensures SameUnder(ip, a, m) <==> NoDifferingBit(ip, a, m)
  {
    AndOverXor(ip, a, m);
    XorZero(ip & a, ip & m);
  }

  lemma AndOverXor(ip: bv32, a: bv32, m: bv32)
    ensures ip & (a ^ m) == (ip & a) ^ (ip & m)
  {
  }

  lemma XorZero(x: bv32, y: bv32)
    ensures x ^ y == 0 <==> x == y
  {
  }

  /** It accepts every address of the network; it accepts nothing else exactly when the rule's address is 0. */
  lemma MatchesExactlyNetworkIffZero(r: Rule)
    ensures forall ip :: InNetwork(r, ip) ==> AddressMatches(r, ip)
    ensures (forall ip :: AddressMatches(r, ip) ==> InNetwork(r, ip)) <==> r.ip == 0
  {
    forall ip | InNetwork(r, ip) ensures AddressMatches(r, ip) {
      var m := r.mask;
      assert ip & (ip & m) == ip & m;
    }
    var zero: bv32 := 0;
    assert zero & r.ip == 0 && zero & r.mask == 0;
    assert AddressMatches(r, zero);
    if r.ip == 0 {
      forall ip | AddressMatches(r, ip) ensures InNetwork(r, ip) {
        assert ip & zero == 0;
      }
    }
  }

  /** A rule for one host, under the full mask, matches the address 0. */
  lemma TestAcceptsOtherNetwork() returns (r: Rule, ip: bv32)
    ensures r.ip != 0 && AddressMatches(r, ip) && !InNetwork(r, ip)
  {
    r, ip := Rule(ConnectAllow, 0, 1, 0xffff_ffff), 0;
  }

  /** A rule applies to a connection, spelled out: it is for connections, its port is 0 or the port, and the address has
      no bit in which rule address and mask differ. */
  ghost predicate Applies(r: Rule, port: nat, ip: bv32) {
    && (r.kind == ConnectAllow || r.kind == ConnectDeny) && (r.port == 0 || r.port == port)
    && NoDifferingBit(ip, r.ip, r.mask)
  }

  lemma AppliesIff(r: Rule, port: nat, ip: bv32)
    ensures Applies(r, port, ip) <==> ConnectRule(r, port, ip)
  {
    hide SameUnder, AddressMatches, NoDifferingBit;
    MatchesIffNoDifferingBit(r, ip);
  }

  /** The connect decision in these terms: some allow rule applies and no rule after it in the file does. */
  lemma ConnectDecision(file: seq<Rule>, port: nat, ip: bv32)
    ensures ConnectAllowed(file, port, ip) <==>
            exists i :: 0 <= i < |file| && file[i].kind == ConnectAllow && Applies(file[i], port, ip)
              && forall j :: i < j < |file| ==> !Applies(file[j], port, ip)
  {
    hide Applies, ConnectRule;
    forall i | 0 <= i < |file| ensures Applies(file[i], port, ip) <==> ConnectRule(file[i], port, ip) {
      AppliesIff(file[i], port, ip);
    }
  }

  /** The bind decision: some bind rule is for every port or for this one. */
  lemma BindDecision(file: seq<Rule>, port: nat)
    ensures BindAllowed(file, port) <==>
            exists i :: 0 <= i < |file| && file[i].kind == BindAllow && (file[i].port == 0 || file[i].port == port)
  {
    if i :| 0 <= i < |file| && file[i].kind == BindAllow && (file[i].port == 0 || file[i].port == port) {
      assert BindRule(file[i], port);
    }
  }
}
