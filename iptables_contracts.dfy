/**
 * What the iptables firewall tests require of the driver's filter table:
 * the `provider` chain is emptied and refilled on every refresh, an
 * instance chain jumps to `provider` exactly once, and a security-group
 * refresh skips an instance whose chain has gone.  The table is its set of
 * chains and its list of rules; the driver's rule texts are parameters.
 */
module IptablesContracts {

  /** `IptablesRule`: the chain a rule belongs to and its text. */
  datatype Rule = Rule(chain: string, rule: string)

  /** `iptables.ipv4['filter']`. */
  datatype Table = Table(chains: set<string>, rules: seq<Rule>)

  const PROVIDER: string := "provider"
  const PROVIDER_JUMP: string := "-j $provider"

  /** The texts of a chain's rules, in table order. */
  function ChainRules(rules: seq<Rule>, chain: string): seq<string> {
    if rules == [] then []
    else (if rules[0].chain == chain then [rules[0].rule] else []) + ChainRules(rules[1..], chain)
  }

  lemma {:induction false} ChainRulesAppend(a: seq<Rule>, b: seq<Rule>, chain: string)
    ensures ChainRules(a + b, chain) == ChainRules(a, chain) + ChainRules(b, chain)
  {
    if a == [] {
      assert a + b == b;
    } else {
      assert (a + b)[0] == a[0];
      assert (a + b)[1..] == a[1..] + b;
      ChainRulesAppend(a[1..], b, chain);
    }
  }

  /** `empty_chain`: the rules of every other chain, in order. */
  function EmptyChain(rules: seq<Rule>, chain: string): seq<Rule> {
    if rules == [] then []
    else (if rules[0].chain == chain then [] else [rules[0]]) + EmptyChain(rules[1..], chain)
  }

  lemma {:induction false} EmptyChainRules(rules: seq<Rule>, chain: string, other: string)
    ensures ChainRules(EmptyChain(rules, chain), other) == if other == chain then [] else ChainRules(rules, other)
  {
    if rules != [] {
      var head: seq<Rule> := if rules[0].chain == chain then [] else [rules[0]];
      EmptyChainRules(rules[1..], chain, other);
      ChainRulesAppend(head, EmptyChain(rules[1..], chain), other);
      assert head != [] ==> head[1..] == [];
    }
  }

  /** `add_rule(chain, r)` for each text, in order. */
  function AddRules(chain: string, texts: seq<string>): (rs: seq<Rule>)
    ensures |rs| == |texts| && forall i :: 0 <= i < |texts| ==> rs[i] == Rule(chain, texts[i])
  {
    seq(|texts|, i requires 0 <= i < |texts| => Rule(chain, texts[i]))
  }

  lemma {:induction false} AddRulesRules(chain: string, texts: seq<string>, other: string)
    ensures ChainRules(AddRules(chain, texts), other) == if other == chain then texts else []
  {
    if texts != [] {
      var rs := AddRules(chain, texts);
      assert rs[1..] == AddRules(chain, texts[1..]);
      AddRulesRules(chain, texts[1..], other);
      assert [texts[0]] + texts[1..] == texts;
    }
  }

  /** The chain, created if needed, emptied and given the texts as its rules;
      every other chain keeps its rules. */
  function ReplaceChain(t: Table, chain: string, texts: seq<string>): (r: Table)
    ensures r.chains == t.chains + {chain}
    ensures ChainRules(r.rules, chain) == texts
    ensures forall other :: other != chain ==> ChainRules(r.rules, other) == ChainRules(t.rules, other)
  {
    var rules := EmptyChain(t.rules, chain) + AddRules(chain, texts);
    forall other ensures ChainRules(rules, other) == if other == chain then texts else ChainRules(t.rules, other) {
      ChainRulesAppend(EmptyChain(t.rules, chain), AddRules(chain, texts), other);
      EmptyChainRules(t.rules, chain, other);
      AddRulesRules(chain, texts, other);
    }
    Table(t.chains + {chain}, rules)
  }

  // ---------------------------------------------------------------------
  // The provider chain

  /** `refresh_provider_fw_rules`: the `provider` chain is purged and refilled
      from the current provider rules.  `setup_basic_filtering` does the same
      with the rules the virt API returns. */
  function RefreshProviderFwRules(t: Table, providerRules: seq<string>): Table {
    ReplaceChain(t, PROVIDER, providerRules)
  }

  /** Each refresh leaves as many provider rules as the current list has: the
      chain is replaced, not appended to, and no other chain changes. */
  lemma ProviderChainReplaced(t: Table, first: seq<string>, second: seq<string>)
    ensures var r := RefreshProviderFwRules(RefreshProviderFwRules(t, first), second);
      PROVIDER in r.chains
      && ChainRules(r.rules, PROVIDER) == second
      && |ChainRules(r.rules, PROVIDER)| == |second|
      && forall other :: other != PROVIDER ==> ChainRules(r.rules, other) == ChainRules(t.rules, other)
  {
  }

  /** The sequence of `test_provider_firewall_rules`: after setup with no
      provider rules the chain exists and is empty; then one rule, two rules
      and one rule give 1, 2 and 1 provider rules. */
  lemma ProviderRuleCounts(t: Table, tcp: string, udp: string)
    ensures var t0 := RefreshProviderFwRules(t, []);
      var t1 := RefreshProviderFwRules(t0, [tcp]);
      var t2 := RefreshProviderFwRules(t1, [tcp, udp]);
      var t3 := RefreshProviderFwRules(t2, [udp]);
      PROVIDER in t0.chains && |ChainRules(t0.rules, PROVIDER)| == 0
      && |ChainRules(t1.rules, PROVIDER)| == 1
      && |ChainRules(t2.rules, PROVIDER)| == 2
      && |ChainRules(t3.rules, PROVIDER)| == 1
  {
  }

  // ---------------------------------------------------------------------
  // Instance chains

  function Digit(d: nat): char
    requires d < 10
  {
    ('0' as int + d) as char
  }

  /** `'%s' % n` for a natural number. */
  function Decimal(n: nat): (s: string)
    ensures |s| >= 1
  {
    if n < 10 then [Digit(n)] else Decimal(n / 10) + [Digit(n % 10)]
  }

  function DecimalValue(s: string): nat {
    if s == [] then 0
    else
      var c := s[|s| - 1];
      DecimalValue(s[..|s| - 1]) * 10 + (if '0' <= c <= '9' then c as int - '0' as int else 0)
  }

  lemma {:induction false} DecimalRoundTrip(n: nat)
    ensures DecimalValue(Decimal(n)) == n
  {
    if n >= 10 {
      DecimalRoundTrip(n / 10);
      var s := Decimal(n / 10) + [Digit(n % 10)];
      assert s[..|s| - 1] == Decimal(n / 10);
    }
  }

  /** `'inst-%s' % instance['id']`. */
  function ChainName(id: nat): string {
    "inst-" + Decimal(id)
  }

  lemma ChainNameInjective(a: nat, b: nat)
    requires a != b
    ensures ChainName(a) != ChainName(b)
  {
    DecimalRoundTrip(a);
    DecimalRoundTrip(b);
    assert ChainName(a)[5..] == Decimal(a) && ChainName(b)[5..] == Decimal(b);
  }

  /** `w` occurs in `s`, as Python's `w in s`. */
  predicate Mentions(s: string, w: string) {
    exists i :: 0 <= i <= |s| && OccursAt(s, w, i)
  }

  predicate OccursAt(s: string, w: string, i: int) {
    0 <= i && i + |w| <= |s| && s[i..i + |w|] == w
  }

  /** The rules the driver puts in an instance chain: the jump to `provider`
      and the instance's other rules. */
  function InstanceRules(others: seq<string>): seq<string> {
    [PROVIDER_JUMP] + others
  }

  /** `prepare_instance_filter` and `apply_instance_filter` for one instance. */
  function ApplyInstanceFilter(t: Table, id: nat, others: seq<string>): Table {
    ReplaceChain(t, ChainName(id), InstanceRules(others))
  }

  /** The distinct jump rules of a rule list that mention `provider`. */
  function ProviderJumps(texts: seq<string>): set<string> {
    set x | x in texts && Mentions(x, "-j") && Mentions(x, PROVIDER)
  }

  /** When no other rule of the instance mentions `provider`, its chain holds
      exactly one distinct jump to `provider`. */
  lemma OneProviderJump(t: Table, id: nat, others: seq<string>)
    requires forall x :: x in others ==> !Mentions(x, PROVIDER)
    ensures ProviderJumps(ChainRules(ApplyInstanceFilter(t, id, others).rules, ChainName(id))) == {PROVIDER_JUMP}
  {
    assert OccursAt(PROVIDER_JUMP, "-j", 0);
    assert OccursAt(PROVIDER_JUMP, PROVIDER, 4);
    assert Mentions(PROVIDER_JUMP, "-j") && Mentions(PROVIDER_JUMP, PROVIDER);
    assert PROVIDER_JUMP in InstanceRules(others);
  }

  // ---------------------------------------------------------------------
  // do_refresh_security_group_rules

  /** The table after refilling the chains of the `refreshed` instances
      from `t`: those chains hold the instances' rules, all others are as in
      `t`, and the set of chains is the same. */
  ghost predicate RefilledFrom(t: Table, r: Table, refreshed: set<nat>, instanceRules: nat -> seq<string>) {
    r.chains == t.chains
    && (forall id :: id in refreshed ==> ChainRules(r.rules, ChainName(id)) == instanceRules(id))
    && (forall c :: (forall id :: id in refreshed ==> c != ChainName(id)) ==>
         ChainRules(r.rules, c) == ChainRules(t.rules, c))
    && (refreshed == {} ==> r == t)
  }

  lemma RefillOne(t: Table, r: Table, refreshed: set<nat>, instanceRules: nat -> seq<string>, id: nat)
    requires RefilledFrom(t, r, refreshed, instanceRules) && ChainName(id) in r.chains
    ensures RefilledFrom(t, ReplaceChain(r, ChainName(id), instanceRules(id)), refreshed + {id}, instanceRules)
  {
    var r' := ReplaceChain(r, ChainName(id), instanceRules(id));
    forall other | other in refreshed && other != id
      ensures ChainRules(r'.rules, ChainName(other)) == instanceRules(other)
    {
      ChainNameInjective(id, other);
    }
  }

  function WithChain(ids: set<nat>, chains: set<string>): set<nat> {
    set id | id in ids && ChainName(id) in chains
  }

  lemma WithChainStep(ids: set<nat>, id: nat, chains: set<string>)
    ensures WithChain(ids + {id}, chains) == WithChain(ids, chains) + (if ChainName(id) in chains then {id} else {})
  {
  }

  /** The names of the chains of a set of instances. */
  function ChainsOf(ids: set<nat>): set<string> {
    set id | id in ids :: ChainName(id)
  }

  lemma ChainsOfStep(ids: set<nat>, id: nat)
    ensures ChainsOf(ids + {id}) == ChainsOf(ids) + {ChainName(id)}
  {
  }

  /** Taking one more instance out of those still to do. */
  lemma CountStep(done: set<nat>, tracked: set<nat>, id: nat)
    requires done <= tracked && id in tracked - done
    ensures |done + {id}| == |done| + 1
    ensures done + {id} <= tracked
    ensures |tracked - (done + {id})| < |tracked - done|
  {
    assert tracked - (done + {id}) < tracked - done;
  }

  /** `do_refresh_security_group_rules`: for every tracked instance the rules
      are computed afresh and `has_chain('inst-<id>')` is asked; only an
      instance whose chain is still there has its chain refilled, so with
      every chain gone no chain is added back and the table stays as it was.
      Returns the number of rule computations, the chains asked about, and
      the instances refreshed. */
  method DoRefreshSecurityGroupRules(t: Table, tracked: set<nat>, instanceRules: nat -> seq<string>)
    returns (r: Table, ruleComputations: nat, checked: set<string>, refreshed: set<nat>)
    ensures ruleComputations == |tracked|
    ensures checked == ChainsOf(tracked)
    ensures refreshed == WithChain(tracked, t.chains)
    ensures RefilledFrom(t, r, refreshed, instanceRules)
  {
    var done: set<nat> := {};
    r := t;
    ruleComputations := 0;
    checked := {};
    refreshed := {};
    while done != tracked
      invariant done <= tracked
      invariant ruleComputations == |done|
      invariant checked == ChainsOf(done)
      invariant refreshed == WithChain(done, t.chains)
      invariant RefilledFrom(t, r, refreshed, instanceRules)
      decreases |tracked - done|
    {
      var id :| id in tracked - done;
      var rules := instanceRules(id);
      ruleComputations := ruleComputations + 1;
      var chain := ChainName(id);
      checked := checked + {chain};
      WithChainStep(done, id, t.chains);
      ChainsOfStep(done, id);
      CountStep(done, tracked, id);
      assert r.chains == t.chains;
      if chain in r.chains {
        RefillOne(t, r, refreshed, instanceRules, id);
        r := ReplaceChain(r, chain, rules);
        refreshed := refreshed + {id};
        assert refreshed == WithChain(done + {id}, t.chains);
      } else {
        assert refreshed == WithChain(done + {id}, t.chains);
      }
      done := done + {id};
    }
  }
}
