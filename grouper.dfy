/**
 * `categorizeMembersData`: the members are sorted into six lists, one per category, each in
 * the order the members were read; a member without a category goes to the Events Team.
 */
module Grouper {
  import opened Wrappers
  import opened Model
  import opened Classifier

  /** The list a member is pushed onto: its category, or the Events Team when it has none. */
  function EffectiveCategory(m: Member): (c: Category)
    ensures c in AllCategories
    ensures m.category.None? ==> c == EventsTeam
  {
    InAllCategories(m.category.GetOr(EventsTeam));
    m.category.GetOr(EventsTeam)
  }

  lemma InAllCategories(c: Category)
    ensures c in AllCategories
  {
  }

  /** The six lists the grouping always starts with. */
  const AllCategories: set<Category> :=
    {Faculty, CoreTeam, TechnicalTeam, WebsiteTeam, ExecutiveTeam, EventsTeam}

  /** The members of `ms` whose list is `c`, in their order in `ms`. */
  function Bucket(ms: seq<Member>, c: Category): (b: seq<Member>)
    ensures |b| <= |ms|
    ensures forall k :: 0 <= k < |b| ==> EffectiveCategory(b[k]) == c
  {
    if ms == [] then []
    else
      var last := ms[|ms| - 1];
      Bucket(ms[..|ms| - 1], c) + (if EffectiveCategory(last) == c then [last] else [])
  }

  /** The six empty lists the grouping starts from. */
  function EmptyGroups(): (groups: map<Category, seq<Member>>)
    ensures groups.Keys == AllCategories
    ensures forall c :: c in groups ==> groups[c] == []
  {
    map[
      Faculty := [], CoreTeam := [], TechnicalTeam := [],
      WebsiteTeam := [], ExecutiveTeam := [], EventsTeam := []]
  }

  /** Every member is pushed onto exactly the list of its effective category, in order. */
  method CategorizeMembers(members: seq<Member>) returns (groups: map<Category, seq<Member>>)
    ensures groups.Keys == AllCategories
    ensures forall c :: c in groups ==> groups[c] == Bucket(members, c)
  {
    groups := EmptyGroups();
    for i := 0 to |members|
      invariant groups.Keys == AllCategories
      invariant forall c :: c in groups ==> groups[c] == Bucket(members[..i], c)
    {
      var m := members[i];
      assert members[..i + 1] == members[..i] + [m];
      PushStep(groups, members[..i], m);
      var c := m.category.GetOr(EventsTeam);
      groups := groups[c := groups[c] + [m]];
    }
    assert members[..|members|] == members;
  }

  /** Pushing one more member onto the list of its category keeps every list equal to its filter. */
  lemma PushStep(groups: map<Category, seq<Member>>, ms: seq<Member>, m: Member)
    requires groups.Keys == AllCategories
    requires forall c :: c in groups ==> groups[c] == Bucket(ms, c)
    ensures EffectiveCategory(m) in groups
    ensures var c := EffectiveCategory(m);
      var pushed := groups[c := groups[c] + [m]];
      && pushed.Keys == AllCategories
      && forall d :: d in pushed ==> pushed[d] == Bucket(ms + [m], d)
  {
    var c := EffectiveCategory(m);
    var pushed := groups[c := groups[c] + [m]];
    forall d | d in pushed
      ensures pushed[d] == Bucket(ms + [m], d)
    {
      BucketSnoc(ms, m, d);
    }
  }

  /** Reading one more member appends it to its own list and to no other. */
  lemma BucketSnoc(ms: seq<Member>, m: Member, c: Category)
    ensures Bucket(ms + [m], c) == Bucket(ms, c) + (if EffectiveCategory(m) == c then [m] else [])
  {
    assert (ms + [m])[..|ms|] == ms;
  }

  /** A member is in list `c` exactly when it is one of the members and its effective category is `c`. */
  lemma {:induction false} BucketMembership(ms: seq<Member>, c: Category, m: Member)
    ensures m in Bucket(ms, c) <==> m in ms && EffectiveCategory(m) == c
    decreases |ms|
  {
    if ms != [] {
      var init := ms[..|ms| - 1];
      BucketMembership(init, c, m);
      assert ms == init + [ms[|ms| - 1]];
    }
  }

  /** Grouping two runs of members one after the other keeps each list in reading order. */
  lemma {:induction false} BucketAppend(a: seq<Member>, b: seq<Member>, c: Category)
    ensures Bucket(a + b, c) == Bucket(a, c) + Bucket(b, c)
    decreases |b|
  {
    if b == [] {
      assert a + b == a;
    } else {
      var b' := b[..|b| - 1];
      assert (a + b)[..|a + b| - 1] == a + b';
      assert (a + b)[|a + b| - 1] == b[|b| - 1];
      BucketAppend(a, b', c);
    }
  }

  /** The six categories in the order the result lists them. */
  const CategoryOrder: seq<Category> :=
    [Faculty, CoreTeam, TechnicalTeam, WebsiteTeam, ExecutiveTeam, EventsTeam]

  /** The members of the lists of `cs` together, counted with multiplicity. */
  function Union(ms: seq<Member>, cs: seq<Category>): multiset<Member> {
    if cs == [] then multiset{}
    else Union(ms, cs[..|cs| - 1]) + multiset(Bucket(ms, cs[|cs| - 1]))
  }

  /** The members of the six lists together. */
  function AllBuckets(ms: seq<Member>): multiset<Member> {
    Union(ms, CategoryOrder)
  }

  lemma BucketSnocCount(ms: seq<Member>, m: Member, c: Category, x: Member)
    ensures multiset(Bucket(ms + [m], c))[x]
         == multiset(Bucket(ms, c))[x] + (if x == m && EffectiveCategory(m) == c then 1 else 0)
  {
    BucketSnoc(ms, m, c);
  }

  /** One more member adds it to the union once for every occurrence of its category in `cs`. */
  lemma {:induction false} UnionSnoc(ms: seq<Member>, m: Member, cs: seq<Category>, x: Member)
    ensures Union(ms + [m], cs)[x] == Union(ms, cs)[x] + (if x == m then multiset(cs)[EffectiveCategory(m)] else 0)
    decreases |cs|
  {
    if cs != [] {
      var init, c := cs[..|cs| - 1], cs[|cs| - 1];
      assert cs == init + [c];
      UnionSnoc(ms, m, init, x);
      BucketSnocCount(ms, m, c, x);
    }
  }

  /** Each category occurs exactly once in the list of categories. */
  lemma CategoryOrderOnce(c: Category)
    ensures multiset(CategoryOrder)[c] == 1
  {
  }

  /** Lists for a set of categories each listed once hold every member exactly once. */
  lemma {:induction false} UnionPartition(ms: seq<Member>, cs: seq<Category>)
    requires forall c :: multiset(cs)[c] == 1
    ensures Union(ms, cs) == multiset(ms)
    decreases |ms|
  {
    if ms != [] {
      var init, m := ms[..|ms| - 1], ms[|ms| - 1];
      assert ms == init + [m];
      UnionPartition(init, cs);
      forall x
        ensures Union(ms, cs)[x] == multiset(ms)[x]
      {
        UnionSnoc(init, m, cs, x);
      }
    } else {
      UnionOfNothing(cs);
    }
  }

  lemma {:induction false} UnionOfNothing(cs: seq<Category>)
    ensures Union([], cs) == multiset{}
    decreases |cs|
  {
    if cs != [] {
      UnionOfNothing(cs[..|cs| - 1]);
    }
  }

  /** The six lists hold every member exactly once: no member is lost or duplicated. */
  lemma BucketsPartition(ms: seq<Member>)
    ensures AllBuckets(ms) == multiset(ms)
  {
    forall c
      ensures multiset(CategoryOrder)[c] == 1
    {
      CategoryOrderOnce(c);
    }
    UnionPartition(ms, CategoryOrder);
  }

  /** The list sizes add up to the number of members. */
  lemma BucketSizes(ms: seq<Member>)
    ensures |Bucket(ms, Faculty)| + |Bucket(ms, CoreTeam)| + |Bucket(ms, TechnicalTeam)|
          + |Bucket(ms, WebsiteTeam)| + |Bucket(ms, ExecutiveTeam)| + |Bucket(ms, EventsTeam)| == |ms|
  {
    BucketsPartition(ms);
    assert |AllBuckets(ms)| == |multiset(ms)|;
  }

  /** A member without a category lands in the Events Team list. */
  lemma UncategorisedGoesToEvents(ms: seq<Member>, m: Member)
    requires m in ms && m.category.None?
    ensures m in Bucket(ms, EventsTeam)
    ensures forall c :: c != EventsTeam ==> m !in Bucket(ms, c)
  {
    BucketMembership(ms, EventsTeam, m);
    forall c | c != EventsTeam
      ensures m !in Bucket(ms, c)
    {
      BucketMembership(ms, c, m);
    }
  }

  // Grouping fed by the table lookup as written in the source.

  /**
   * The list `categorized[member.category || 'Events Team']` when the category is the raw result
   * of the lookup as written. An inherited `Object.prototype` member is truthy and its text is
   * none of the six keys, so there is no list and the `push` throws.
   */
  function ListAsWritten(l: Lookup): (list: Option<Category>)
    ensures list.None? <==> l.PrototypeMember?
    ensures list.Some? ==> list.value in AllCategories
  {
    match l
    case TableCategory(c) => InAllCategories(c); Some(c)
    case PrototypeMember(_) => None
    case Undefined => Some(EventsTeam)
  }

  /** Off the `Object.prototype` names, the grouping as written pushes onto the list of `categorizeRole`. */
  lemma AsWrittenGroupsOffPrototype(role: string, name: string)
    requires CleanName(name) !in ObjectPrototypeKeys
    ensures ListAsWritten(CategorizeRoleAsWritten(role, name)) == Some(CategorizeRole(role, name))
  {
    AsWrittenAgreesOffPrototype(role, name);
  }

  /** As written, grouping can fail only for a member whose cleaned name is `constructor` or `__proto__`. */
  lemma GroupingFailsOnlyOnPrototypeNames(role: string, name: string)
    requires ListAsWritten(CategorizeRoleAsWritten(role, name)).None?
    ensures CleanName(name) == "constructor" || CleanName(name) == "__proto__"
  {
  }

  /** As written, a member named `Constructor` has no list: grouping throws on it. */
  lemma ConstructorNameBreaksGrouping(role: string, name: string)
    requires name == "Constructor"
    ensures ListAsWritten(CategorizeRoleAsWritten(role, name)) == None
  {
    ConstructorNameLeaks(role, name);
  }
}
