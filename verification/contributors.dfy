/**
 * The data logic of the translation-program contributors page: the raw query
 * result is filtered and normalised into contributor records, the page shows
 * how many there are, and lists their usernames in case-insensitive order.
 */
module Contributors {
  import opened Wrappers
  import opened Strings
  import opened NameOrder
  import opened FlatMaps

  /** `user { username fullName }`: both fields may be null. */
  datatype User = User(username: Option<string>, fullName: Option<string>)

  /** One element of `allTimeData.data`: `{ user }`, where `user` may be null. */
  datatype Item = Item(user: Option<User>)

  /** `allTimeData { data }`, where `data` may be null. */
  datatype AllTimeData = AllTimeData(data: Option<seq<Option<Item>>>)

  /** The page's query result `{ allTimeData }`, where `allTimeData` may be null. */
  datatype Query = Query(allTimeData: Option<AllTimeData>)

  /** A cleaned record: the `user` object the filter emits, with no nulls left. */
  datatype Contributor = Contributor(username: string, fullName: string)

  /** Accounts excluded by exact username. */
  const ExcludedNames: set<string> := {"ethdotorg", "Finnish_Sandberg", "Norwegian_Sandberg", "Swedish_Sandberg"}

  /** Markers that exclude an account when they occur in its username. */
  const UsernameMarkers: set<string> := {"LQS_", "REMOVED_USER", "Aco_", "Acc_"}

  /** Markers that exclude an account when they occur in its full name. */
  const FullNameMarkers: set<string> := {"Aco_", "Acc_"}

  /** The exclusions as a declarative rule set: an exact-name list and two marker lists. */
  ghost predicate Excluded(userName: string, fullName: string) {
    || userName in ExcludedNames
    || (exists m :: m in UsernameMarkers && IsSubstring(m, userName))
    || (exists m :: m in FullNameMarkers && IsSubstring(m, fullName))
  }

  /**
   * The exclusion checks as the page writes them, one conjunction over
   * literals; it accepts exactly the records the rule set does not exclude.
   */
  predicate Admissible(userName: string, fullName: string): (ok: bool)
    ensures ok <==> !Excluded(userName, fullName)
  {
    && userName != "ethdotorg"
    && !Includes(userName, "LQS_")
    && !Includes(userName, "REMOVED_USER")
    && !Includes(userName, "Aco_")
    && !Includes(fullName, "Aco_")
    && !Includes(userName, "Acc_")
    && !Includes(fullName, "Acc_")
    && userName != "Finnish_Sandberg"
    && userName != "Norwegian_Sandberg"
    && userName != "Swedish_Sandberg"
  }

  /**
   * The record an item stands for before any exclusion: present only when the
   * item, its user and a non-empty username are present; a null full name
   * becomes "".
   */
  function Normalise(item: Option<Item>): (r: Option<Contributor>)
    ensures r.Some? <==>
      && item.Some? && item.value.user.Some?
      && item.value.user.value.username.Some? && item.value.user.value.username.value != ""
    ensures r.Some? ==>
      && item.value.user.value.username == Some(r.value.username)
      && (item.value.user.value.fullName == Some(r.value.fullName)
          || (item.value.user.value.fullName.None? && r.value.fullName == ""))
  {
    match item
    case None => None
    case Some(it) =>
      match it.user
      case None => None
      case Some(user) =>
        match user.username
        case None => None
        case Some(userName) =>
          if userName == "" then None else Some(Contributor(userName, user.fullName.GetOr("")))
  }

  /** The `flatMap` callback: zero or one cleaned record for one raw item. */
  function Clean(item: Option<Item>): (r: seq<Contributor>)
    ensures |r| <= 1
  {
    if item.None? || item.value.user.None? then
      []
    else
      var user := item.value.user.value;
      if user.username.None? || user.username.value == "" then
        []
      else
        var userName := user.username.value;
        var fullName := user.fullName.GetOr("");
        if Admissible(userName, fullName) then [Contributor(userName, fullName)] else []
  }

  /**
   * The callback is "normalise, then drop what the rule set excludes": it
   * keeps exactly the normalised record of an item that is not excluded, and
   * nothing else.
   */
  lemma CleanIsFilterThenMap(item: Option<Item>)
    ensures Clean(item) ==
      match Normalise(item)
      case None => []
      case Some(c) => if Excluded(c.username, c.fullName) then [] else [c]
  {
  }

  /** A null item, a null user, or a null or empty username yields no record. */
  lemma CleanDropsIncomplete(item: Option<Item>)
    requires || item.None?
             || item.value.user.None?
             || item.value.user.value.username.None?
             || item.value.user.value.username == Some("")
    ensures Clean(item) == []
  {
  }

  lemma CleanAtMostOne()
    ensures AtMostOne(Clean)
  {
    forall item ensures |Clean(item)| <= 1 {
    }
  }

  /**
   * `data.flatMap(callback)`: each item's zero or one records, concatenated
   * in input order; each item contributes at most one record, so there are no
   * more records than items.
   */
  function TranslatorData(items: seq<Option<Item>>): (r: seq<Contributor>)
    ensures |r| <= |items|
  {
    CleanAtMostOne();
    FlatMapLength(Clean, items);
    FlatMap(Clean, items)
  }

  /** A record survives exactly when some item's callback emits it. */
  lemma TranslatorDataMembers(items: seq<Option<Item>>, c: Contributor)
    ensures c in TranslatorData(items) <==> exists i :: 0 <= i < |items| && Clean(items[i]) == [c]
  {
    CleanAtMostOne();
    FlatMapMembers(Clean, items, c);
  }

  /**
   * Order and provenance: the surviving records come from strictly increasing
   * input positions, each the record the item at its position emits, so the
   * result is an order-preserving subsequence of the items' records.
   */
  lemma TranslatorDataOrder(items: seq<Option<Item>>) returns (idx: seq<nat>)
    ensures Origins(Clean, items, TranslatorData(items), idx)
    ensures Covers(Clean, items, idx)
  {
    CleanAtMostOne();
    idx := FlatMapOrder(Clean, items);
  }

  /**
   * Soundness: every surviving record has a non-empty username and is not
   * excluded, and it carries its item's username and full name unchanged
   * (a null full name as "").
   */
  lemma TranslatorDataSound(items: seq<Option<Item>>, c: Contributor)
    requires c in TranslatorData(items)
    ensures c.username != "" && !Excluded(c.username, c.fullName)
    ensures exists i :: 0 <= i < |items| && Normalise(items[i]) == Some(c)
  {
    TranslatorDataMembers(items, c);
    var i :| 0 <= i < |items| && Clean(items[i]) == [c];
    CleanIsFilterThenMap(items[i]);
  }

  /**
   * Completeness: an item with a non-empty username whose record the rule set
   * does not exclude is kept, with its full name defaulted to "".
   */
  lemma TranslatorDataComplete(items: seq<Option<Item>>, i: nat)
    requires i < |items| && Normalise(items[i]).Some?
    requires !Excluded(Normalise(items[i]).value.username, Normalise(items[i]).value.fullName)
    ensures Normalise(items[i]).value in TranslatorData(items)
  {
    CleanIsFilterThenMap(items[i]);
    TranslatorDataMembers(items, Normalise(items[i]).value);
  }

  /** The items whose record survives: a non-empty username and not excluded. */
  ghost function Kept(items: seq<Option<Item>>): set<nat> {
    set i: nat | i < |items| && Normalise(items[i]).Some?
                 && !Excluded(Normalise(items[i]).value.username, Normalise(items[i]).value.fullName)
  }

  /**
   * No de-duplication: there are exactly as many records as items with a
   * non-empty username that the rule set does not exclude.
   */
  lemma TranslatorDataCount(items: seq<Option<Item>>)
    ensures |TranslatorData(items)| == |Kept(items)|
  {
    CleanAtMostOne();
    FlatMapCount(Clean, items);
    forall i: nat | i < |items| ensures Clean(items[i]) != [] <==> i in Kept(items) {
      CleanIsFilterThenMap(items[i]);
    }
    assert Emitting(Clean, items) == Kept(items);
  }

  /** `data.allTimeData?.data?.flatMap(...) ?? []`: a missing level gives the empty list. */
  function TranslatorDataOf(q: Query): (r: seq<Contributor>)
    ensures q.allTimeData.None? || q.allTimeData.value.data.None? ==> r == []
  {
    match q.allTimeData
    case None => []
    case Some(all) =>
      match all.data
      case None => []
      case Some(items) => TranslatorData(items)
  }

  /** The number shown on the page, `translatorData.length`: as many as the names listed. */
  function ContributorCount(q: Query): (n: nat)
    ensures n == |DisplayedNames(q)|
  {
    assert |multiset(DisplayedNames(q))| == |multiset(Usernames(TranslatorDataOf(q)))|;
    |TranslatorDataOf(q)|
  }

  /** `.map(({ user }) => user.username)`: the i-th name is the i-th record's username. */
  function Usernames(cs: seq<Contributor>): (r: seq<string>)
    ensures |r| == |cs|
    ensures forall i :: 0 <= i < |cs| ==> r[i] == cs[i].username
    ensures forall n :: n in r <==> exists c :: c in cs && c.username == n
    decreases |cs|
  {
    if cs == [] then [] else [cs[0].username] + Usernames(cs[1..])
  }

  /**
   * The usernames in the order the page lists them: sorted by the comparator
   * and holding each surviving username as often as it survives.
   */
  function DisplayedNames(q: Query): (r: seq<string>)
    ensures Sorted(r)
    ensures multiset(r) == multiset(Usernames(TranslatorDataOf(q)))
  {
    Sort(Usernames(TranslatorDataOf(q)))
  }

  /** A missing dataset shows a count of 0 and an empty list. */
  lemma MissingDataShowsNothing(q: Query)
    requires q.allTimeData.None? || q.allTimeData.value.data.None?
    ensures TranslatorDataOf(q) == [] && ContributorCount(q) == 0 && DisplayedNames(q) == []
  {
  }

  /** Every pair of listed names, adjacent or not, is in comparator order. */
  lemma DisplayedNamesOrdered(q: Query)
    ensures forall i, j :: 0 <= i <= j < |DisplayedNames(q)| ==> NameLeq(DisplayedNames(q)[i], DisplayedNames(q)[j])
  {
    forall i, j | 0 <= i <= j < |DisplayedNames(q)| ensures NameLeq(DisplayedNames(q)[i], DisplayedNames(q)[j]) {
      SortedPairwise(DisplayedNames(q), i, j);
    }
  }

  /**
   * No listed name is empty, is an excluded account, or contains a username
   * marker, and it belongs to a record whose full name carries no full-name
   * marker.
   */
  lemma DisplayedNamesClean(q: Query, n: string)
    requires n in DisplayedNames(q)
    ensures n != "" && n !in ExcludedNames
    ensures forall m :: m in UsernameMarkers ==> !IsSubstring(m, n)
    ensures exists c :: c in TranslatorDataOf(q) && c.username == n && !Excluded(n, c.fullName)
  {
    var cs := TranslatorDataOf(q);
    assert n in Usernames(cs) by {
      assert n in multiset(DisplayedNames(q));
    }
    var c :| c in cs && c.username == n;
    assert cs != [];
    TranslatorDataSound(q.allTimeData.value.data.value, c);
  }

  /** Names equal after lower-casing keep their relative order from the data. */
  lemma DisplayedNamesStable(q: Query, key: string)
    ensures WithKey(DisplayedNames(q), key) == WithKey(Usernames(TranslatorDataOf(q)), key)
  {
    SortStable(Usernames(TranslatorDataOf(q)), key);
  }

  /** The listed order is fully determined: any stable sort by the comparator yields it. */
  lemma DisplayedNamesDetermined(q: Query, listed: seq<string>)
    requires Sorted(listed)
    requires forall key :: WithKey(listed, key) == WithKey(Usernames(TranslatorDataOf(q)), key)
    ensures listed == DisplayedNames(q)
  {
    StableSortIsSort(Usernames(TranslatorDataOf(q)), listed);
  }

  /** A present item for a user with the given username and full name. */
  function ItemOf(userName: string, fullName: string): Option<Item> {
    Some(Item(Some(User(Some(userName), Some(fullName)))))
  }

  /** The records "Bob" and "alice" both survive, in input order. */
  lemma BobAliceRecords()
    ensures TranslatorData([ItemOf("Bob", ""), ItemOf("alice", "")]) == [Contributor("Bob", ""), Contributor("alice", "")]
  {
    var items := [ItemOf("Bob", ""), ItemOf("alice", "")];
    IncludesNeedsHead("alice", "LQS_");
    IncludesNeedsHead("alice", "REMOVED_USER");
    IncludesNeedsHead("alice", "Aco_");
    IncludesNeedsHead("alice", "Acc_");
    assert Clean(items[0]) == [Contributor("Bob", "")];
    assert Clean(items[1]) == [Contributor("alice", "")];
    assert items[1..][1..] == [];
  }

  /** "alice" sorts before "Bob" although "B" precedes "a" in character order. */
  lemma BobAliceOrder()
    ensures Sort(["Bob", "alice"]) == ["alice", "Bob"]
  {
    var names := ["Bob", "alice"];
    assert Lower("Bob") == "bob" && Lower("alice") == "alice";
    assert !NameLeq("Bob", "alice");
    assert names[1..][1..] == [];
    assert Sort(names[1..]) == ["alice"];
  }

  /** Users "Bob" and "alice": both are counted, and "alice" is listed first. */
  lemma ScenarioCaseInsensitiveOrder()
    ensures ContributorCount(Query(Some(AllTimeData(Some([ItemOf("Bob", ""), ItemOf("alice", "")]))))) == 2
    ensures DisplayedNames(Query(Some(AllTimeData(Some([ItemOf("Bob", ""), ItemOf("alice", "")]))))) == ["alice", "Bob"]
  {
    BobAliceRecords();
    BobAliceOrder();
    assert Usernames([Contributor("Bob", ""), Contributor("alice", "")]) == ["Bob", "alice"];
  }

  /** The reserved account, a legacy-system account and a legacy-vendor account are each dropped. */
  lemma ScenarioExclusions()
    ensures Clean(ItemOf("ethdotorg", "")) == []
    ensures Clean(ItemOf("LQS_test", "")) == []
    ensures Clean(ItemOf("Aco_x", "Aco_x")) == []
    ensures Clean(ItemOf("x", "Acc_team")) == []
  {
    assert "Acc_" <= "Acc_team";
  }

  /** The filter does not de-duplicate: the same username twice is counted and listed twice. */
  lemma ScenarioDuplicatesKept()
    ensures ContributorCount(Query(Some(AllTimeData(Some([ItemOf("bob", ""), ItemOf("bob", "")]))))) == 2
    ensures DisplayedNames(Query(Some(AllTimeData(Some([ItemOf("bob", ""), ItemOf("bob", "")]))))) == ["bob", "bob"]
  {
    var items := [ItemOf("bob", ""), ItemOf("bob", "")];
    var names := ["bob", "bob"];
    assert TranslatorData(items) == [Contributor("bob", ""), Contributor("bob", "")] by {
      assert Clean(items[0]) == [Contributor("bob", "")];
      assert Clean(items[1]) == [Contributor("bob", "")];
      assert items[1..][1..] == [];
    }
    assert Sort(names) == names by {
      NameLeqReflexive("bob");
      assert names[1..][1..] == [];
      assert Sort(names[1..]) == ["bob"];
    }
    assert Usernames(TranslatorData(items)) == names;
  }
}
