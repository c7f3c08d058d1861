/** The list of configurations an `LBModelManager` is built on. */
module LbConfigs {
  type Credentials = map<string, string>

  /** An empty `credentialId` stands for none. */
  datatype Config = Config(id: string, name: string, credentials: Credentials, credentialId: string)

  const INHERIT := "__inherit__"

  // ---------- the list a manager is built on ----------

  function WithoutInherit(configs: seq<Config>): seq<Config> {
    if configs == [] then []
    else WithoutInherit(configs[..|configs| - 1]) +
         if configs[|configs| - 1].name == INHERIT then [] else [configs[|configs| - 1]]
  }

  function Lend(config: Config, managed: Credentials): Config {
    if config.name == INHERIT then config.(credentials := managed) else config
  }

  function Lent(configs: seq<Config>, managed: Credentials): seq<Config> {
    seq(|configs|, i requires 0 <= i < |configs| => Lend(configs[i], managed))
  }

  /** The list after `__init__`; empty credentials count as not provided. */
  function Prepared(configs: seq<Config>, managed: Credentials): seq<Config> {
    if managed == map[] then WithoutInherit(configs) else Lent(configs, managed)
  }

  lemma {:induction false} WithoutInheritMembers(configs: seq<Config>)
    ensures forall c :: c in WithoutInherit(configs) <==> c in configs && c.name != INHERIT
  {
    if configs != [] {
      WithoutInheritMembers(configs[..|configs| - 1]);
      assert configs == configs[..|configs| - 1] + [configs[|configs| - 1]];
    }
  }

  function FirstIndex(list: seq<Config>, x: Config): (i: nat)
    requires x in list
    ensures i < |list| && list[i] == x && x !in list[..i]
  {
    if list[0] == x then 0 else
      assert list == [list[0]] + list[1..];
      FirstIndex(list[1..], x) + 1
  }

  /** Python's `list.remove`: takes out the first equal element. */
  function Remove(list: seq<Config>, x: Config): seq<Config>
    requires x in list
  {
    list[..FirstIndex(list, x)] + list[FirstIndex(list, x) + 1..]
  }

  /** One round of the loop on the list of which the first i elements are done. */
  lemma RemoveKeepsRest(configs: seq<Config>, i: nat)
    requires i < |configs| && configs[i].name == INHERIT
    ensures configs[i] in WithoutInherit(configs[..i]) + configs[i..]
    ensures Remove(WithoutInherit(configs[..i]) + configs[i..], configs[i])
         == WithoutInherit(configs[..i + 1]) + configs[i + 1..]
  {
    var kept := WithoutInherit(configs[..i]);
    var list := kept + configs[i..];
    WithoutInheritMembers(configs[..i]);
    assert configs[..i + 1][..i] == configs[..i];
    assert list[..|kept|] == kept;
    assert list[|kept| + 1..] == configs[i + 1..];
    RemoveAt(list, configs[i], |kept|);
  }

  lemma KeepKeepsRest(configs: seq<Config>, i: nat)
    requires i < |configs| && configs[i].name != INHERIT
    ensures WithoutInherit(configs[..i]) + configs[i..] == WithoutInherit(configs[..i + 1]) + configs[i + 1..]
  {
    assert configs[..i + 1][..i] == configs[..i];
    assert configs[i..] == [configs[i]] + configs[i + 1..];
  }

  lemma LendKeepsRest(configs: seq<Config>, i: nat, managed: Credentials)
    requires i < |configs|
    ensures (Lent(configs[..i], managed) + configs[i..])[i := Lend(configs[i], managed)]
         == Lent(configs[..i + 1], managed) + configs[i + 1..]
    ensures (Lent(configs[..i], managed) + configs[i..])[i] == configs[i]
  {
  }

  /** `__init__` runs over a copy of the list while it changes the list itself. */
  method Prepare(configs: seq<Config>, managed: Credentials) returns (list: seq<Config>)
    ensures list == Prepared(configs, managed)
  {
    list := configs;
    assert list == WithoutInherit(configs[..0]) + configs[0..] == Lent(configs[..0], managed) + configs[0..];
    for i := 0 to |configs|
      invariant managed == map[] ==> list == WithoutInherit(configs[..i]) + configs[i..]
      invariant managed != map[] ==> list == Lent(configs[..i], managed) + configs[i..]
    {
      hide WithoutInherit, Remove, Lent;
      var config := configs[i];
      LendKeepsRest(configs, i, managed);
      if config.name == INHERIT {
        if managed == map[] {
          RemoveKeepsRest(configs, i);
          list := Remove(list, config);
        } else {
          list := list[i := config.(credentials := managed)];
        }
      } else {
        KeepKeepsRest(configs, i);
      }
    }
    assert configs[..|configs|] == configs;
  }

  lemma RemoveAt(list: seq<Config>, x: Config, at: nat)
    requires at < |list| && list[at] == x && x !in list[..at]
    ensures x in list && Remove(list, x) == list[..at] + list[at + 1..]
  {
  }

  function Inherits(configs: seq<Config>): nat {
    if configs == [] then 0
    else Inherits(configs[..|configs| - 1]) + if configs[|configs| - 1].name == INHERIT then 1 else 0
  }

  lemma {:induction false} WithoutInheritSize(configs: seq<Config>)
    ensures |WithoutInherit(configs)| + Inherits(configs) == |configs|
  {
    if configs != [] {
      WithoutInheritSize(configs[..|configs| - 1]);
    }
  }

  /** A manager is left without configurations exactly when no credentials are lent
      and every configuration wanted to inherit some. */
  lemma NothingLeft(configs: seq<Config>, managed: Credentials)
    ensures Prepared(configs, managed) == []
       <==> configs == [] || (managed == map[] && Inherits(configs) == |configs|)
  {
    WithoutInheritSize(configs);
  }

  /** Without credentials to lend, the configurations that do not inherit stay, in order. */
  lemma {:induction false} WithoutInheritInOrder(c: Config, a: seq<Config>, b: seq<Config>)
    ensures WithoutInherit([]) == [] && WithoutInherit([c]) == if c.name == "__inherit__" then [] else [c]
    ensures WithoutInherit(a + b) == WithoutInherit(a) + WithoutInherit(b)
    decreases |b|
  {
    assert [c][..0] == [];
    if b == [] {
      assert a + b == a;
    } else {
      assert (a + b)[..|a + b| - 1] == a + b[..|b| - 1];
      WithoutInheritInOrder(c, a, b[..|b| - 1]);
    }
  }

  /** With credentials to lend, they go to the configurations that inherit; everything else
      stays as it is. */
  lemma PreparedMeans(configs: seq<Config>, managed: Credentials)
    ensures managed == map[] ==>
              && Prepared(configs, managed) == WithoutInherit(configs)
              && forall c :: c in Prepared(configs, managed) <==> c in configs && c.name != "__inherit__"
    ensures managed != map[] ==>
              && |Prepared(configs, managed)| == |configs|
              && forall i :: 0 <= i < |configs| ==>
                   var c, was := Prepared(configs, managed)[i], configs[i];
                   && c.id == was.id && c.name == was.name && c.credentialId == was.credentialId
                   && c.credentials == if was.name == "__inherit__" then managed else was.credentials
  {
    WithoutInheritMembers(configs);
  }
}
