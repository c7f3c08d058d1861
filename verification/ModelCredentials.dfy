/** How `ProviderManager` deals out the credentials of custom models, to the models on
    the list and to those that can still be added, and which load balancing
    configurations it hands on. */
module ModelCredentials {
  import opened LbConfigs
  import opened Wrappers

  /** Model name and model type. */
  type Key = (string, string)

  datatype Credential = Credential(id: string, name: string, key: Key)

  datatype Record = Record(id: string, key: Key)

  datatype Model = Model(key: Key, available: seq<Credential>, unadded: bool)

  // ---------- grouping ----------

  /** A defaultdict(list), in insertion order. */
  type Groups = seq<(Key, seq<Credential>)>

  function Filter(credentials: seq<Credential>, key: Key): seq<Credential> {
    if credentials == [] then []
    else
      var last := credentials[|credentials| - 1];
      Filter(credentials[..|credentials| - 1], key) + if last.key == key then [last] else []
  }

  function Position(groups: Groups, key: Key): (i: nat)
    ensures i <= |groups|
    ensures i < |groups| ==> groups[i].0 == key
    ensures i == |groups| ==> forall j :: 0 <= j < |groups| ==> groups[j].0 != key
  {
    if groups == [] then 0
    else if groups[0].0 == key then 0
    else Position(groups[1..], key) + 1
  }

  /** `groups[key].append(credential)` */
  function Append(groups: Groups, credential: Credential): Groups {
    var i := Position(groups, credential.key);
    if i < |groups| then groups[i := (groups[i].0, groups[i].1 + [credential])]
    else groups + [(credential.key, [credential])]
  }

  function Grouped(credentials: seq<Credential>): Groups {
    if credentials == [] then []
    else Append(Grouped(credentials[..|credentials| - 1]), credentials[|credentials| - 1])
  }

  /** `groups.get(key, [])` */
  function Lookup(groups: Groups, key: Key): seq<Credential> {
    var i := Position(groups, key);
    if i < |groups| then groups[i].1 else []
  }

  /** What grouping means: different keys, each with its credentials in input order,
      and a group for every key that occurs. */
  ghost predicate GroupsOf(groups: Groups, credentials: seq<Credential>) {
    && (forall i, j :: 0 <= i < j < |groups| ==> groups[i].0 != groups[j].0)
    && (forall i :: 0 <= i < |groups| ==> groups[i].1 == Filter(credentials, groups[i].0) && groups[i].1 != [])
    && (forall c :: c in credentials ==> Position(groups, c.key) < |groups|)
  }

  lemma AppendGroups(groups: Groups, credentials: seq<Credential>, i: nat)
    requires i < |credentials| && GroupsOf(groups, credentials[..i])
    ensures GroupsOf(Append(groups, credentials[i]), credentials[..i + 1])
  {
    var c, front := credentials[i], credentials[..i];
    var groups' := Append(groups, c);
    assert credentials[..i + 1] == front + [c];
    forall key ensures Filter(credentials[..i + 1], key) == Filter(front, key) + if c.key == key then [c] else [] {
      assert (front + [c])[..i] == front;
    }
    hide Filter;
    if Position(groups, c.key) == |groups| {
      FilterNone(front, groups, c.key);
    }
    forall d | d in credentials[..i + 1] ensures Position(groups', d.key) < |groups'| {
      var p := Position(groups, d.key);
      assert groups'[p].0 == d.key;
    }
  }

  lemma {:induction false} FilterMembers(credentials: seq<Credential>, key: Key)
    ensures forall c :: c in Filter(credentials, key) <==> c in credentials && c.key == key
  {
    if credentials != [] {
      FilterMembers(credentials[..|credentials| - 1], key);
      assert credentials == credentials[..|credentials| - 1] + [credentials[|credentials| - 1]];
    }
  }

  lemma FilterNone(credentials: seq<Credential>, groups: Groups, key: Key)
    requires GroupsOf(groups, credentials) && Position(groups, key) == |groups|
    ensures Filter(credentials, key) == []
  {
  }

  method Group(credentials: seq<Credential>) returns (groups: Groups)
    ensures groups == Grouped(credentials)
  {
    groups := [];
    for i := 0 to |credentials|
      invariant groups == Grouped(credentials[..i])
    {
      assert credentials[..i + 1][..i] == credentials[..i];
      groups := Append(groups, credentials[i]);
    }
    assert credentials[..|credentials|] == credentials;
  }

  lemma {:induction false} GroupedMeans(credentials: seq<Credential>)
    ensures GroupsOf(Grouped(credentials), credentials)
  {
    if credentials != [] {
      var i := |credentials| - 1;
      GroupedMeans(credentials[..i]);
      AppendGroups(Grouped(credentials[..i]), credentials, i);
      assert credentials[..i + 1] == credentials;
    }
  }

  /** Key a occurs before key b does. */
  ghost predicate Precedes(credentials: seq<Credential>, a: Key, b: Key) {
    exists p :: 0 <= p < |credentials| && credentials[p].key == a
                && forall q :: 0 <= q <= p ==> credentials[q].key != b
  }

  lemma PrecedesStill(credentials: seq<Credential>, c: Credential, a: Key, b: Key)
    requires Precedes(credentials, a, b)
    ensures Precedes(credentials + [c], a, b)
  {
    var p :| 0 <= p < |credentials| && credentials[p].key == a && forall q :: 0 <= q <= p ==> credentials[q].key != b;
    assert (credentials + [c])[p].key == a;
  }

  /** A key that has a group comes before the first credential of a key that has none. */
  lemma NewKeyIsLast(credentials: seq<Credential>, c: Credential, groups: Groups, i: nat)
    requires GroupsOf(groups, credentials) && Position(groups, c.key) == |groups| && i < |groups|
    ensures Precedes(credentials + [c], groups[i].0, c.key)
  {
    var first := groups[i].1[0];
    FilterMembers(credentials, groups[i].0);
    assert first in groups[i].1;
    var p :| 0 <= p < |credentials| && credentials[p] == first;
    assert (credentials + [c])[p].key == groups[i].0;
    forall q | 0 <= q <= p ensures (credentials + [c])[q].key != c.key {
      assert credentials[q] in credentials;
    }
  }

  /** The groups stand in the order in which their keys first occur. */
  lemma {:induction false} GroupsInOrder(credentials: seq<Credential>, i: nat, j: nat)
    requires i < j < |Grouped(credentials)|
    ensures Precedes(credentials, Grouped(credentials)[i].0, Grouped(credentials)[j].0)
  {
    hide Precedes, GroupsOf;
    var front, last := credentials[..|credentials| - 1], credentials[|credentials| - 1];
    assert credentials == front + [last];
    if j < |Grouped(front)| {
      GroupsInOrder(front, i, j);
      PrecedesStill(front, last, Grouped(front)[i].0, Grouped(front)[j].0);
    } else {
      GroupedMeans(front);
      NewKeyIsLast(front, last, Grouped(front), i);
    }
  }

  lemma LookupIsFilter(credentials: seq<Credential>, key: Key)
    ensures Lookup(Grouped(credentials), key) == Filter(credentials, key)
  {
    GroupedMeans(credentials);
    if Position(Grouped(credentials), key) == |Grouped(credentials)| {
      FilterNone(credentials, Grouped(credentials), key);
    }
  }

  // ---------- the lists of models ----------

  predicate Recorded(records: seq<Record>, key: Key) {
    exists i :: 0 <= i < |records| && records[i].key == key
  }

  function NotRecorded(records: seq<Record>, credentials: seq<Credential>): seq<Credential> {
    if credentials == [] then []
    else
      var last := credentials[|credentials| - 1];
      NotRecorded(records, credentials[..|credentials| - 1]) + if Recorded(records, last.key) then [] else [last]
  }

  function ModelsOf(groups: Groups): seq<Model> {
    seq(|groups|, i requires 0 <= i < |groups| => Model(groups[i].0, groups[i].1, true))
  }

  function UnaddedModels(records: seq<Record>, credentials: seq<Credential>): seq<Model> {
    ModelsOf(Grouped(NotRecorded(records, credentials)))
  }

  function RecordedModels(records: seq<Record>, credentials: seq<Credential>): seq<Model> {
    seq(|records|, i requires 0 <= i < |records| => Model(records[i].key, Filter(credentials, records[i].key), false))
  }

  /** Filtering keeps the credentials of the key, in order. */
  lemma {:induction false} FilterInOrder(c: Credential, a: seq<Credential>, b: seq<Credential>, key: Key)
    ensures Filter([], key) == [] && Filter([c], key) == if c.key == key then [c] else []
    ensures Filter(a + b, key) == Filter(a, key) + Filter(b, key)
    decreases |b|
  {
    assert [c][..0] == [];
    if b == [] {
      assert a + b == a;
    } else {
      assert (a + b)[..|a + b| - 1] == a + b[..|b| - 1];
      FilterInOrder(c, a, b[..|b| - 1], key);
    }
  }

  /** Without the recorded models' credentials nothing changes for the others. */
  lemma {:induction false} NotRecordedFilter(records: seq<Record>, credentials: seq<Credential>, key: Key)
    ensures Filter(NotRecorded(records, credentials), key)
         == if Recorded(records, key) then [] else Filter(credentials, key)
  {
    if credentials != [] {
      var front, last := credentials[..|credentials| - 1], credentials[|credentials| - 1];
      NotRecordedFilter(records, front, key);
      FilterInOrder(last, NotRecorded(records, front), if Recorded(records, last.key) then [] else [last], key);
    }
  }

  lemma UnaddedMeans(records: seq<Record>, credentials: seq<Credential>)
    ensures var models := UnaddedModels(records, credentials);
            && (forall i :: 0 <= i < |models| ==>
                  && models[i].unadded && models[i].available != [] && !Recorded(records, models[i].key)
                  && models[i].available == Filter(credentials, models[i].key))
            && (forall i, j :: 0 <= i < j < |models| ==> models[i].key != models[j].key)
            && (forall c :: c in credentials && !Recorded(records, c.key) ==>
                  exists i :: 0 <= i < |models| && models[i].key == c.key)
  {
    var left := NotRecorded(records, credentials);
    var groups, models := Grouped(left), UnaddedModels(records, credentials);
    GroupedMeans(left);
    hide Recorded, Grouped, NotRecorded, Filter;
    forall i | 0 <= i < |models|
      ensures models[i].available != [] && !Recorded(records, models[i].key)
      ensures models[i].available == Filter(credentials, models[i].key)
    {
      NotRecordedFilter(records, credentials, groups[i].0);
    }
    forall c | c in credentials && !Recorded(records, c.key)
      ensures exists i :: 0 <= i < |models| && models[i].key == c.key
    {
      FilterMembers(credentials, c.key);
      NotRecordedFilter(records, credentials, c.key);
      FilterMembers(left, c.key);
      assert c in left;
      var i := Position(groups, c.key);
      assert models[i].key == c.key;
    }
  }

  /** `_get_can_added_models` */
  method GetCanAddedModels(records: seq<Record>, credentials: seq<Credential>) returns (models: seq<Model>)
    ensures models == UnaddedModels(records, credentials)
    // each is a model without a record, with all its credentials in input order; none is twice
    ensures forall i :: 0 <= i < |models| ==>
              && models[i].unadded && models[i].available != []
              && models[i].available == Filter(credentials, models[i].key)
              && forall k :: 0 <= k < |records| ==> records[k].key != models[i].key
    ensures forall i, j :: 0 <= i < j < |models| ==> models[i].key != models[j].key
    ensures forall c :: c in credentials && (forall k :: 0 <= k < |records| ==> records[k].key != c.key) ==>
              exists i :: 0 <= i < |models| && models[i].key == c.key
  {
    var existing: set<Key> := set i | 0 <= i < |records| :: records[i].key;
    var left: seq<Credential> := [];
    for i := 0 to |credentials|
      invariant left == NotRecorded(records, credentials[..i])
    {
      assert credentials[..i + 1][..i] == credentials[..i];
      if credentials[i].key !in existing {
        left := left + [credentials[i]];
      }
    }
    assert credentials[..|credentials|] == credentials;
    var groups := Group(left);
    models := ModelsOf(groups);
    UnaddedMeans(records, credentials);
  }

  /** `_get_custom_model_configurations` */
  method GetCustomModelConfigurations(records: seq<Record>, canAdded: seq<Model>, credentials: seq<Credential>)
    returns (models: seq<Model>)
    ensures models == RecordedModels(records, credentials) + canAdded
    ensures |models| == |records| + |canAdded| && models[|records|..] == canAdded
    ensures forall i :: 0 <= i < |records| ==>
              models[i] == Model(records[i].key, Filter(credentials, records[i].key), false)
  {
    var lookup := Group(credentials);
    models := [];
    for i := 0 to |records|
      invariant models == RecordedModels(records[..i], credentials)
    {
      LookupIsFilter(credentials, records[i].key);
      assert records[..i + 1][..i] == records[..i];
      models := models + [Model(records[i].key, Lookup(lookup, records[i].key), false)];
    }
    assert records[..|records|] == records;
    models := models + canAdded;
  }

  // ---------- conservation ----------

  /** All credentials on offer, model by model. */
  function Offered(models: seq<Model>): seq<Credential> {
    if models == [] then [] else Offered(models[..|models| - 1]) + models[|models| - 1].available
  }

  function Copies(models: seq<Model>, c: Credential): nat {
    multiset(Offered(models))[c]
  }

  function Occurrences(credentials: seq<Credential>, c: Credential): nat {
    multiset(credentials)[c]
  }

  function RecordsOf(records: seq<Record>, key: Key): nat {
    if records == [] then 0
    else RecordsOf(records[..|records| - 1], key) + if records[|records| - 1].key == key then 1 else 0
  }

  lemma {:induction false} FilterOccurrences(credentials: seq<Credential>, key: Key, c: Credential)
    ensures Occurrences(Filter(credentials, key), c) == if c.key == key then Occurrences(credentials, c) else 0
  {
    if credentials != [] {
      var front, last := credentials[..|credentials| - 1], credentials[|credentials| - 1];
      FilterOccurrences(front, key, c);
      assert credentials == front + [last];
    }
  }

  lemma {:induction false} NotRecordedOccurrences(records: seq<Record>, credentials: seq<Credential>, c: Credential)
    ensures Occurrences(NotRecorded(records, credentials), c)
         == if Recorded(records, c.key) then 0 else Occurrences(credentials, c)
  {
    if credentials != [] {
      var front, last := credentials[..|credentials| - 1], credentials[|credentials| - 1];
      NotRecordedOccurrences(records, front, c);
      assert credentials == front + [last];
    }
  }

  lemma {:induction false} OfferedAppend(a: seq<Model>, b: seq<Model>)
    ensures Offered(a + b) == Offered(a) + Offered(b)
  {
    if b == [] {
      assert a + b == a;
    } else {
      assert (a + b)[..|a + b| - 1] == a + b[..|b| - 1];
      OfferedAppend(a, b[..|b| - 1]);
    }
  }

  lemma CopiesAppend(a: seq<Model>, b: seq<Model>, c: Credential)
    ensures Copies(a + b, c) == Copies(a, c) + Copies(b, c)
  {
    OfferedAppend(a, b);
  }

  lemma CopiesOne(m: Model, c: Credential)
    ensures Copies([m], c) == Occurrences(m.available, c)
  {
    assert [m][..0] == [];
    assert Offered([m]) == m.available;
  }

  lemma {:induction false} RecordedCopies(records: seq<Record>, credentials: seq<Credential>, c: Credential)
    ensures Copies(RecordedModels(records, credentials), c)
         == RecordsOf(records, c.key) * Occurrences(credentials, c)
  {
    hide Copies, Occurrences, Filter;
    if records == [] {
      assert RecordedModels(records, credentials) == [];
      CopiesNone(c);
    } else {
      var front, last := records[..|records| - 1], records[|records| - 1];
      var model := Model(last.key, Filter(credentials, last.key), false);
      RecordedCopies(front, credentials, c);
      RecordedOfLast(records, credentials);
      hide RecordedModels;
      CopiesAppend(RecordedModels(front, credentials), [model], c);
      CopiesOne(model, c);
      FilterOccurrences(credentials, last.key, c);
      OneMore(RecordsOf(front, c.key), Occurrences(credentials, c));
    }
  }

  lemma RecordedOfLast(records: seq<Record>, credentials: seq<Credential>)
    requires records != []
    ensures var front, last := records[..|records| - 1], records[|records| - 1];
            RecordedModels(records, credentials) == RecordedModels(front, credentials)
              + [Model(last.key, Filter(credentials, last.key), false)]
  {
  }

  lemma OneMore(r: nat, n: nat)
    ensures (r + 1) * n == r * n + n
  {
  }

  lemma PositionOfLast(groups: Groups, key: Key)
    requires groups != []
    requires forall i, j :: 0 <= i < j < |groups| ==> groups[i].0 != groups[j].0
    ensures var front, last := groups[..|groups| - 1], groups[|groups| - 1];
            && (Position(groups, key) < |groups| <==> Position(front, key) < |front| || last.0 == key)
            && (last.0 == key ==> Position(front, key) == |front|)
  {
  }

  lemma {:induction false} ModelCopies(groups: Groups, credentials: seq<Credential>, c: Credential)
    requires forall i, j :: 0 <= i < j < |groups| ==> groups[i].0 != groups[j].0
    requires forall i :: 0 <= i < |groups| ==> groups[i].1 == Filter(credentials, groups[i].0)
    ensures Copies(ModelsOf(groups), c)
         == if Position(groups, c.key) < |groups| then Occurrences(credentials, c) else 0
  {
    hide Copies, Occurrences, Filter;
    if groups == [] {
      assert ModelsOf(groups) == [];
      CopiesNone(c);
    } else {
      hide Position;
      var front, last := groups[..|groups| - 1], groups[|groups| - 1];
      var model := Model(last.0, last.1, true);
      ModelCopies(front, credentials, c);
      ModelsOfLast(groups);
      CopiesAppend(ModelsOf(front), [model], c);
      CopiesOne(model, c);
      FilterOccurrences(credentials, last.0, c);
      PositionOfLast(groups, c.key);
      hide ModelsOf;
    }
  }

  lemma ModelsOfLast(groups: Groups)
    requires groups != []
    ensures var last := groups[|groups| - 1];
            ModelsOf(groups) == ModelsOf(groups[..|groups| - 1]) + [Model(last.0, last.1, true)]
  {
  }

  lemma CopiesNone(c: Credential)
    ensures Copies([], c) == 0
  {
  }

  lemma GroupedCopies(credentials: seq<Credential>, c: Credential)
    ensures Copies(ModelsOf(Grouped(credentials)), c) == Occurrences(credentials, c)
  {
    var groups := Grouped(credentials);
    GroupedMeans(credentials);
    ModelCopies(groups, credentials, c);
    hide Copies, ModelsOf, Filter, Grouped;
    if c !in credentials {
      assert Occurrences(credentials, c) == 0;
    }
  }

  lemma {:induction false} RecordedCount(records: seq<Record>, key: Key)
    ensures Recorded(records, key) <==> RecordsOf(records, key) > 0
  {
    if records != [] {
      var front := records[..|records| - 1];
      RecordedCount(front, key);
      if Recorded(front, key) {
        var i :| 0 <= i < |front| && front[i].key == key;
        assert records[i].key == key;
      }
      if Recorded(records, key) {
        var i :| 0 <= i < |records| && records[i].key == key;
        if i < |front| {
          assert front[i].key == key;
        }
      }
    }
  }

  /** Every model the two methods list between them. */
  function AllModels(records: seq<Record>, credentials: seq<Credential>): seq<Model> {
    RecordedModels(records, credentials) + UnaddedModels(records, credentials)
  }

  /** How often the credentials of a model are offered. */
  function Offers(records: seq<Record>, key: Key): nat {
    if RecordsOf(records, key) == 0 then 1 else RecordsOf(records, key)
  }

  /** A credential is offered once for every record of its model, and once when there
      is none: nothing is lost, whatever the records. */
  lemma OfferedExactly(records: seq<Record>, credentials: seq<Credential>, c: Credential)
    ensures Copies(AllModels(records, credentials), c) == Offers(records, c.key) * Occurrences(credentials, c)
  {
    CopiesAppend(RecordedModels(records, credentials), UnaddedModels(records, credentials), c);
    RecordedCopies(records, credentials, c);
    GroupedCopies(NotRecorded(records, credentials), c);
    NotRecordedOccurrences(records, credentials, c);
    RecordedCount(records, c.key);
    OffersTimes(records, c.key, Occurrences(credentials, c));
    hide Copies, Occurrences, ModelsOf, RecordedModels, NotRecorded, Grouped, Recorded, RecordsOf, Offers;
  }

  lemma OffersTimes(records: seq<Record>, key: Key, n: nat)
    ensures Offers(records, key) * n == RecordsOf(records, key) * n + if RecordsOf(records, key) > 0 then 0 else n
  {
    hide RecordsOf;
  }

  ghost predicate Conserved(models: seq<Model>, credentials: seq<Credential>) {
    multiset(Offered(models)) == multiset(credentials)
  }

  /** The credentials are dealt out exactly once each if and only if no model that has
      any credential is recorded twice. */
  lemma ConservedExactly(records: seq<Record>, credentials: seq<Credential>)
    ensures Conserved(AllModels(records, credentials), credentials)
       <==> forall c :: c in credentials ==> RecordsOf(records, c.key) <= 1
  {
    var models := AllModels(records, credentials);
    if forall c :: c in credentials ==> RecordsOf(records, c.key) <= 1 {
      forall c ensures multiset(Offered(models))[c] == multiset(credentials)[c] {
        OfferedExactly(records, credentials, c);
        SameCopies(models, credentials, c, Offers(records, c.key));
      }
    }
    if Conserved(models, credentials) {
      forall c | c in credentials ensures RecordsOf(records, c.key) <= 1 {
        OfferedExactly(records, credentials, c);
        AtMostOne(models, credentials, c, Offers(records, c.key));
      }
    }
  }

  lemma SameCopies(models: seq<Model>, credentials: seq<Credential>, c: Credential, offers: nat)
    requires Copies(models, c) == offers * Occurrences(credentials, c)
    requires c in credentials ==> offers == 1
    ensures multiset(Offered(models))[c] == multiset(credentials)[c]
  {
    hide Offered;
    if c !in credentials {
      assert Occurrences(credentials, c) == 0;
    }
  }

  lemma AtMostOne(models: seq<Model>, credentials: seq<Credential>, c: Credential, offers: nat)
    requires Copies(models, c) == offers * Occurrences(credentials, c)
    requires Conserved(models, credentials) && c in credentials && offers >= 1
    ensures offers == 1
  {
    hide Offered;
    var n := Occurrences(credentials, c);
    assert n > 0 && offers * n == n;
    OneMore(offers - 1, n);
    assert (offers - 1) * n == 0;
  }

  /** A list of records that is extended by itself, which happens when a provider is
      known under two names, offers every credential of its models twice as often. */
  lemma SelfExtendedRecordsDouble(records: seq<Record>, credentials: seq<Credential>, c: Credential)
    requires Recorded(records, c.key)
    ensures Copies(AllModels(records + records, credentials), c) == 2 * Copies(AllModels(records, credentials), c)
  {
    OfferedExactly(records, credentials, c);
    OfferedExactly(records + records, credentials, c);
    RecordedCount(records, c.key);
    TwiceOffered(records, c.key, Occurrences(credentials, c));
    hide Copies, Occurrences, AllModels, Recorded, RecordsOf, Offers;
  }

  lemma TwiceOffered(records: seq<Record>, key: Key, n: nat)
    requires RecordsOf(records, key) > 0
    ensures Offers(records + records, key) * n == 2 * (Offers(records, key) * n)
  {
    RecordsAppend(records, records, key);
    Twice(Offers(records, key), Offers(records + records, key), n);
    hide RecordsOf, Offers;
  }

  lemma Twice(r: nat, s: nat, n: nat)
    requires s == r + r
    ensures s * n == 2 * (r * n)
  {
    calc {
      s * n;
      (r + r) * n;
      r * n + r * n;
    }
  }

  lemma {:induction false} RecordsAppend(a: seq<Record>, b: seq<Record>, key: Key)
    ensures RecordsOf(a + b, key) == RecordsOf(a, key) + RecordsOf(b, key)
  {
    if b == [] {
      assert a + b == a;
    } else {
      assert (a + b)[..|a + b| - 1] == a + b[..|b| - 1];
      RecordsAppend(a, b[..|b| - 1], key);
    }
  }

  /** No model is listed both as recorded and as one to add. */
  lemma UnaddedAreNotRecorded(records: seq<Record>, credentials: seq<Credential>, i: nat)
    requires i < |UnaddedModels(records, credentials)|
    ensures !Recorded(records, UnaddedModels(records, credentials)[i].key)
  {
    var left := NotRecorded(records, credentials);
    GroupedMeans(left);
    var group := Grouped(left)[i];
    FilterMembers(left, group.0);
    var c := group.1[0];
    assert c in group.1;
    assert Occurrences(left, c) > 0;
    NotRecordedOccurrences(records, credentials, c);
  }

  // ---------- load balancing configurations ----------

  datatype Row = Row(id: string, name: string, key: Key, enabled: bool, encryptedConfig: string, credentialId: string)

  /** The configuration a row gives, if it gives one. `decrypt` fails on bad JSON. */
  function ConfigOf(row: Row, key: Key, decrypt: Row -> Option<Credentials>): seq<Config> {
    if row.key != key || !row.enabled then []
    else if row.encryptedConfig == "" then
      if row.name == INHERIT then [Config(row.id, row.name, map[], "")] else []
    else
      match decrypt(row)
      case None => []
      case Some(credentials) => [Config(row.id, row.name, credentials, row.credentialId)]
  }

  function ConfigsOf(rows: seq<Row>, key: Key, decrypt: Row -> Option<Credentials>): seq<Config> {
    if rows == [] then []
    else ConfigsOf(rows[..|rows| - 1], key, decrypt) + ConfigOf(rows[|rows| - 1], key, decrypt)
  }

  /** An enabled row of the model has a configuration if it holds readable credentials, or
      holds none and inherits. */
  ghost predicate GivesConfig(row: Row, key: Key, decrypt: Row -> Option<Credentials>) {
    && row.key == key && row.enabled
    && if row.encryptedConfig == "" then row.name == "__inherit__" else decrypt(row).Some?
  }

  ghost predicate TakenFrom(config: Config, row: Row, decrypt: Row -> Option<Credentials>) {
    && config.id == row.id && config.name == row.name
    && if row.encryptedConfig == "" then config.credentials == map[] && config.credentialId == ""
       else decrypt(row) == Some(config.credentials) && config.credentialId == row.credentialId
  }

  /** The configurations are those of the rows that have one, all of them, in row order. */
  ghost predicate FromRows(rows: seq<Row>, key: Key, decrypt: Row -> Option<Credentials>, from: seq<nat>, configs: seq<Config>) {
    && |from| == |configs|
    && (forall i :: 0 <= i < |from| ==>
          from[i] < |rows| && GivesConfig(rows[from[i]], key, decrypt) && TakenFrom(configs[i], rows[from[i]], decrypt))
    && (forall i, j :: 0 <= i < j < |from| ==> from[i] < from[j])
    && (forall k :: 0 <= k < |rows| && GivesConfig(rows[k], key, decrypt) ==> k in from)
  }

  lemma OneMoreRow(rows: seq<Row>, key: Key, decrypt: Row -> Option<Credentials>, from: seq<nat>, configs: seq<Config>,
                   row: Row, config: Config)
    requires FromRows(rows, key, decrypt, from, configs)
    requires GivesConfig(row, key, decrypt) && TakenFrom(config, row, decrypt)
    ensures FromRows(rows + [row], key, decrypt, from + [|rows|], configs + [config])
  {
    hide GivesConfig, TakenFrom;
    assert (rows + [row])[|rows|] == row;
    forall k | 0 <= k < |rows + [row]| && GivesConfig((rows + [row])[k], key, decrypt) ensures k in from + [|rows|] {
      if k < |rows| {
        assert k in from;
      } else {
        assert (from + [|rows|])[|from|] == k;
      }
    }
  }

  lemma OneRowWithout(rows: seq<Row>, key: Key, decrypt: Row -> Option<Credentials>, from: seq<nat>, configs: seq<Config>,
                      row: Row)
    requires FromRows(rows, key, decrypt, from, configs) && !GivesConfig(row, key, decrypt)
    ensures FromRows(rows + [row], key, decrypt, from, configs)
  {
    hide GivesConfig, TakenFrom;
    assert (rows + [row])[|rows|] == row;
  }

  lemma {:induction false} ConfigsFromRows(rows: seq<Row>, key: Key, decrypt: Row -> Option<Credentials>) returns (from: seq<nat>)
    ensures FromRows(rows, key, decrypt, from, ConfigsOf(rows, key, decrypt))
  {
    hide ConfigOf, GivesConfig, TakenFrom;
    from := [];
    if rows != [] {
      var front, last := rows[..|rows| - 1], rows[|rows| - 1];
      var before, more := ConfigsOf(front, key, decrypt), ConfigOf(last, key, decrypt);
      from := ConfigsFromRows(front, key, decrypt);
      LastRow(last, key, decrypt);
      assert rows == front + [last];
      hide FromRows;
      if more != [] {
        OneMoreRow(front, key, decrypt, from, before, last, more[0]);
        assert more == [more[0]];
        from := from + [|front|];
      } else {
        OneRowWithout(front, key, decrypt, from, before, last);
        assert before + more == before;
      }
    }
  }

  lemma LastRow(row: Row, key: Key, decrypt: Row -> Option<Credentials>)
    ensures var configs := ConfigOf(row, key, decrypt);
            && (GivesConfig(row, key, decrypt) <==> configs != [])
            && |configs| <= 1 && (configs != [] ==> TakenFrom(configs[0], row, decrypt))
  {
  }

  /** The list `_to_model_settings` hands on for a model with load balancing enabled. */
  method LoadBalancingConfigs(rows: seq<Row>, key: Key, decrypt: Row -> Option<Credentials>)
    returns (configs: seq<Config>, ghost from: seq<nat>, ghost all: seq<Config>)
    ensures FromRows(rows, key, decrypt, from, all) && configs == if |all| > 1 then all else []
    ensures configs == if |ConfigsOf(rows, key, decrypt)| > 1 then ConfigsOf(rows, key, decrypt) else []
  {
    configs := [];
    for i := 0 to |rows|
      invariant configs == ConfigsOf(rows[..i], key, decrypt)
    {
      assert rows[..i + 1][..i] == rows[..i];
      var row := rows[i];
      if row.key == key {
        if !row.enabled {
          continue;
        }
        if row.encryptedConfig == "" {
          if row.name == INHERIT {
            configs := configs + [Config(row.id, row.name, map[], "")];
          }
          continue;
        }
        match decrypt(row) {
          case None =>
          case Some(credentials) =>
            configs := configs + [Config(row.id, row.name, credentials, row.credentialId)];
        }
      }
    }
    assert rows[..|rows|] == rows;
    from := ConfigsFromRows(rows, key, decrypt);
    all := configs;
    if |configs| <= 1 {
      configs := [];
    }
  }

  function InheritRows(rows: seq<Row>, key: Key): nat {
    if rows == [] then 0
    else InheritRows(rows[..|rows| - 1], key)
         + if rows[|rows| - 1].key == key && rows[|rows| - 1].enabled && rows[|rows| - 1].name == INHERIT then 1 else 0
  }

  lemma ConfigOfInherits(row: Row, key: Key, decrypt: Row -> Option<Credentials>)
    ensures var configs := ConfigOf(row, key, decrypt);
            && |configs| <= 1
            && (configs != [] && configs[0].name == INHERIT ==> row.key == key && row.enabled && row.name == INHERIT)
  {
  }

  lemma InheritsNext(configs: seq<Config>, more: seq<Config>)
    requires |more| <= 1
    ensures Inherits(configs + more) == Inherits(configs) + if more != [] && more[0].name == INHERIT then 1 else 0
  {
    if more == [] {
      assert configs + more == configs;
    } else {
      assert (configs + more)[..|configs|] == configs;
    }
  }

  lemma {:induction false} InheritsBounded(rows: seq<Row>, key: Key, decrypt: Row -> Option<Credentials>)
    ensures Inherits(ConfigsOf(rows, key, decrypt)) <= InheritRows(rows, key)
  {
    hide ConfigOf, Inherits;
    if rows == [] {
      NoneInherit();
    } else {
      var front, last := rows[..|rows| - 1], rows[|rows| - 1];
      InheritsBounded(front, key, decrypt);
      ConfigOfInherits(last, key, decrypt);
      InheritsNext(ConfigsOf(front, key, decrypt), ConfigOf(last, key, decrypt));
    }
  }

  lemma NoneInherit()
    ensures Inherits([]) == 0
  {
  }

  /** A list that is handed on leaves the manager something to choose from, lent
      credentials or not, when the model has at most one row that inherits. */
  lemma ManagerHasConfigs(rows: seq<Row>, key: Key, decrypt: Row -> Option<Credentials>, managed: Credentials)
    requires InheritRows(rows, key) <= 1
    ensures var configs := ConfigsOf(rows, key, decrypt);
            |configs| > 1 ==> Prepared(configs, managed) != []
  {
    InheritsBounded(rows, key, decrypt);
    NothingLeft(ConfigsOf(rows, key, decrypt), managed);
  }
}
