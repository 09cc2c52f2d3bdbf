/**
 Grouping mode of the cache: the categories discovered so far, in discovery
 order, a map from each category to its position, and one bucket of entity
 handles per category. A caller-supplied categorizer, a pure function of the
 handle, decides each entity's category.

 As for identifier mode, the first part states the structures as a value
 (`Groups`), their invariant (`Consistent`) and one function per mutation,
 with lemmas about them; the class `GroupIndex` at the end holds the
 structures as mutable fields and updates them in place.
 */
module Grouping {
  import opened Handles
  import opened Sequences

  /** `categories_`, `category_to_index_` and `buckets_`. */
  datatype Groups<C> = Groups(categories: seq<C>, index: map<C, nat>, buckets: seq<seq<Entity>>)

  /**
   The representation invariant: one bucket per category; every category is
   mapped to its own position and every mapped category sits at its recorded
   position (so no category occurs twice); every entity in a bucket has that
   bucket's category.
   */
  ghost predicate Consistent<C>(g: Groups<C>, cat: Entity -> C)
  {
    && |g.buckets| == |g.categories|
    && (forall i :: 0 <= i < |g.categories| ==> g.categories[i] in g.index && g.index[g.categories[i]] == i)
    && (forall c :: c in g.index ==> g.index[c] < |g.categories| && g.categories[g.index[c]] == c)
    && (forall i, e :: 0 <= i < |g.buckets| && e in g.buckets[i] ==> cat(e) == g.categories[i])
  }

  /**
   `add`: create the category with an empty bucket when it is new, then
   append `e` to its bucket (no deduplication).
   */
  function AddToGroup<C(==)>(g: Groups<C>, cat: Entity -> C, e: Entity): Groups<C>
    requires Consistent(g, cat)
  {
    var c := cat(e);
    var h := if c in g.index then g
             else Groups(g.categories + [c], g.index[c := |g.categories|], g.buckets + [[]]);
    var i := h.index[c];
    h.(buckets := h.buckets[i := h.buckets[i] + [e]])
  }

  /**
   `remove`: in the bucket of `e`'s category, find the first occurrence of the
   handle `e`, swap it with the bucket's last entry and pop. An unknown category
   or an absent handle changes nothing.
   */
  function RemoveFromGroup<C(==)>(g: Groups<C>, cat: Entity -> C, e: Entity): Groups<C>
    requires Consistent(g, cat)
  {
    var c := cat(e);
    if c !in g.index then g
    else
      var i := g.index[c];
      var k := IndexOf(g.buckets[i], e);
      if k == |g.buckets[i]| then g
      else g.(buckets := g.buckets[i := SwapRemove(g.buckets[i], k)])
  }

  /** The categories of `es`, each once, in order of first appearance. */
  function Discover<C(==)>(es: seq<Entity>, cat: Entity -> C): seq<C>
  {
    if es == [] then []
    else
      var d := Discover(es[..|es| - 1], cat);
      var c := cat(es[|es| - 1]);
      if c in d then d else d + [c]
  }

  /** The entities of `es` whose category is `c`, in input order. */
  function Members<C(==)>(es: seq<Entity>, cat: Entity -> C, c: C): seq<Entity>
  {
    if es == [] then []
    else
      var x := es[|es| - 1];
      Members(es[..|es| - 1], cat, c) + (if cat(x) == c then [x] else [])
  }

  /** The position of each category of `d` (its first, for distinct `d`). */
  function Positions<C(==)>(d: seq<C>): map<C, nat>
  {
    map c | c in d :: IndexOf(d, c)
  }

  /** The buckets `update` builds for the categories `d`. */
  function BucketsFor<C(==)>(es: seq<Entity>, cat: Entity -> C, d: seq<C>): seq<seq<Entity>>
  {
    seq(|d|, j requires 0 <= j < |d| => Members(es, cat, d[j]))
  }

  /** `update`: discovered categories, their positions, and one bucket of members per category. */
  function Regroup<C(==)>(es: seq<Entity>, cat: Entity -> C): Groups<C>
  {
    var d := Discover(es, cat);
    Groups(d, Positions(d), BucketsFor(es, cat, d))
  }

  /** The category of each entity of `es`, in order. */
  function CategoriesOf<C>(es: seq<Entity>, cat: Entity -> C): (r: seq<C>)
    ensures |r| == |es|
    ensures forall i :: 0 <= i < |es| ==> r[i] == cat(es[i])
  {
    seq(|es|, i requires 0 <= i < |es| => cat(es[i]))
  }

  // ---------------------------------------------------------------------------
  // Lemmas

  /**
   The discovered categories are distinct and are exactly the categories of
   the input.
   */
  lemma {:induction false} DiscoverFacts<C>(es: seq<Entity>, cat: Entity -> C)
    ensures NoDuplicates(Discover(es, cat))
    ensures forall i :: 0 <= i < |es| ==> cat(es[i]) in Discover(es, cat)
    ensures forall c :: c in Discover(es, cat) ==> c in CategoriesOf(es, cat)
  {
    if es != [] {
      var init := es[..|es| - 1];
      DiscoverFacts(init, cat);
      assert CategoriesOf(es, cat) == CategoriesOf(init, cat) + [cat(es[|es| - 1])];
      forall i | 0 <= i < |es| ensures cat(es[i]) in Discover(es, cat) {
        if i < |init| {
          assert init[i] == es[i];
        }
      }
    }
  }

  /**
   Discovery order is first-appearance order: an earlier category first
   appears in the input before a later one does.
   */
  lemma {:induction false} DiscoverOrder<C>(es: seq<Entity>, cat: Entity -> C)
    ensures forall i, j :: 0 <= i < j < |Discover(es, cat)| ==>
      IndexOf(CategoriesOf(es, cat), Discover(es, cat)[i]) < IndexOf(CategoriesOf(es, cat), Discover(es, cat)[j])
  {
    if es != [] {
      var init := es[..|es| - 1];
      var d := Discover(init, cat);
      var c := cat(es[|es| - 1]);
      var cs := CategoriesOf(init, cat);
      DiscoverOrder(init, cat);
      DiscoverFacts(init, cat);
      assert CategoriesOf(es, cat) == cs + [c];
      forall x | x in d ensures IndexOf(cs + [c], x) == IndexOf(cs, x) {
        IndexOfPrefix(cs, [c], x);
      }
      if c !in d {
        forall x | x in d ensures IndexOf(cs, x) < |cs| {
        }
        assert c !in cs;
        IndexOfAfter(cs, c);
      }
    }
  }

  lemma {:induction false} IndexOfPrefix<T>(s: seq<T>, t: seq<T>, x: T)
    requires x in s
    ensures IndexOf(s + t, x) == IndexOf(s, x)
  {
    if s[0] != x {
      assert (s + t)[1..] == s[1..] + t;
      IndexOfPrefix(s[1..], t, x);
    }
  }

  lemma {:induction false} IndexOfAfter<T>(s: seq<T>, x: T)
    requires x !in s
    ensures IndexOf(s + [x], x) == |s|
  {
    if s != [] {
      assert (s + [x])[1..] == s[1..] + [x];
      IndexOfAfter(s[1..], x);
    }
  }

  /** Discovering a new category maps it to the old category count; the others keep their positions. */
  lemma PositionsSnoc<C>(d: seq<C>, c: C)
    requires c !in d
    ensures Positions(d + [c]) == Positions(d)[c := |d|]
  {
    forall x | x in d ensures IndexOf(d + [c], x) == IndexOf(d, x) {
      IndexOfPrefix(d, [c], x);
    }
    IndexOfAfter(d, c);
  }

  /**
   The members of category `c` are the input entities of category `c`, each
   as often as it occurs in the input; a category never seen has no members.
   */
  lemma {:induction false} MembersFacts<C>(es: seq<Entity>, cat: Entity -> C, c: C)
    ensures forall e :: multiset(Members(es, cat, c))[e] == if cat(e) == c then multiset(es)[e] else 0
    ensures forall e :: e in Members(es, cat, c) ==> e in es && cat(e) == c
    ensures c !in Discover(es, cat) ==> Members(es, cat, c) == []
  {
    if es != [] {
      var init := es[..|es| - 1];
      MembersFacts(init, cat, c);
      assert es == init + [es[|es| - 1]];
      forall e | e in Members(es, cat, c) ensures e in es && cat(e) == c {
        assert multiset(Members(es, cat, c))[e] > 0;
      }
    }
  }

  lemma MembersSnoc<C>(init: seq<Entity>, x: Entity, cat: Entity -> C, c: C)
    ensures Members(init + [x], cat, c) == Members(init, cat, c) + (if cat(x) == c then [x] else [])
  {
    var es := init + [x];
    assert es[..|es| - 1] == init;
  }

  /** Filing one more entity of an already discovered category extends only that category's bucket. */
  lemma BucketsKnown<C>(init: seq<Entity>, x: Entity, cat: Entity -> C, d: seq<C>)
    requires NoDuplicates(d) && cat(x) in d
    ensures IndexOf(d, cat(x)) < |d|
    ensures BucketsFor(init + [x], cat, d)
         == BucketsFor(init, cat, d)[IndexOf(d, cat(x)) := Members(init, cat, cat(x)) + [x]]
  {
    var j0 := IndexOf(d, cat(x));
    var lhs := BucketsFor(init + [x], cat, d);
    var rhs := BucketsFor(init, cat, d)[j0 := Members(init, cat, cat(x)) + [x]];
    forall j | 0 <= j < |d| ensures lhs[j] == rhs[j] {
      MembersSnoc(init, x, cat, d[j]);
      assert j != j0 ==> d[j] != cat(x);
    }
  }

  /** Filing an entity of a new category adds a bucket holding just that entity. */
  lemma BucketsNew<C>(init: seq<Entity>, x: Entity, cat: Entity -> C, d: seq<C>)
    requires cat(x) !in d && Members(init, cat, cat(x)) == []
    ensures BucketsFor(init + [x], cat, d + [cat(x)]) == BucketsFor(init, cat, d) + [[x]]
  {
    var lhs := BucketsFor(init + [x], cat, d + [cat(x)]);
    var rhs := BucketsFor(init, cat, d) + [[x]];
    forall j | 0 <= j < |d| + 1 ensures lhs[j] == rhs[j] {
      MembersSnoc(init, x, cat, (d + [cat(x)])[j]);
    }
  }

  lemma DiscoverSnoc<C>(init: seq<Entity>, x: Entity, cat: Entity -> C)
    ensures Discover(init + [x], cat)
         == if cat(x) in Discover(init, cat) then Discover(init, cat) else Discover(init, cat) + [cat(x)]
  {
    var es := init + [x];
    assert es[..|es| - 1] == init;
  }

  lemma Cancel<T>(a: multiset<T>, b: multiset<T>, c: multiset<T>, d: multiset<T>)
    requires a + b == c + (b + d)
    ensures a == c + d
  {
    forall y ensures a[y] == (c + d)[y] {
      assert (a + b)[y] == (c + (b + d))[y];
    }
  }

  /** An entity of a known category lands at the end of that category's bucket. */
  lemma RegroupKnown<C>(init: seq<Entity>, x: Entity, cat: Entity -> C)
    requires cat(x) in Discover(init, cat)
    ensures multiset(Concat(BucketsFor(init + [x], cat, Discover(init + [x], cat))))
         == multiset(Concat(BucketsFor(init, cat, Discover(init, cat)))) + multiset{x}
  {
    var d := Discover(init, cat);
    DiscoverSnoc(init, x, cat);
    DiscoverFacts(init, cat);
    var before := BucketsFor(init, cat, d);
    var j0 := IndexOf(d, cat(x));
    BucketsKnown(init, x, cat, d);
    var b := before[j0];
    assert b == Members(init, cat, cat(x));
    ConcatUpdate(before, j0, b + [x]);
    assert multiset(b + [x]) == multiset(b) + multiset{x};
    Cancel(multiset(Concat(before[j0 := b + [x]])), multiset(b), multiset(Concat(before)), multiset{x});
  }

  /** An entity of a new category gets a bucket of its own, appended at the end. */
  lemma RegroupNew<C>(init: seq<Entity>, x: Entity, cat: Entity -> C)
    requires cat(x) !in Discover(init, cat)
    ensures multiset(Concat(BucketsFor(init + [x], cat, Discover(init + [x], cat))))
         == multiset(Concat(BucketsFor(init, cat, Discover(init, cat)))) + multiset{x}
  {
    var d := Discover(init, cat);
    DiscoverSnoc(init, x, cat);
    MembersFacts(init, cat, cat(x));
    BucketsNew(init, x, cat, d);
    ConcatAppend(BucketsFor(init, cat, d), [x]);
  }

  /** `update` files every input entity exactly once: its buckets together are a permutation of the input. */
  lemma {:induction false} RegroupPermutes<C>(es: seq<Entity>, cat: Entity -> C)
    ensures multiset(Concat(BucketsFor(es, cat, Discover(es, cat)))) == multiset(es)
  {
    if es != [] {
      var init := es[..|es| - 1];
      var x := es[|es| - 1];
      RegroupPermutes(init, cat);
      assert es == init + [x];
      if cat(x) in Discover(init, cat) {
        RegroupKnown(init, x, cat);
      } else {
        RegroupNew(init, x, cat);
      }
    }
  }

  /**
   `update` establishes the invariant, keeps one bucket per discovered
   category, and tracks each input entity exactly once.
   */
  lemma RegroupKeeps<C>(es: seq<Entity>, cat: Entity -> C)
    ensures Consistent(Regroup(es, cat), cat)
    ensures multiset(Concat(Regroup(es, cat).buckets)) == multiset(es)
    ensures |Concat(Regroup(es, cat).buckets)| == |es|
  {
    var g := Regroup(es, cat);
    var d := Discover(es, cat);
    DiscoverFacts(es, cat);
    RegroupPermutes(es, cat);
    assert g.buckets == BucketsFor(es, cat, d);
    forall i | 0 <= i < |d| ensures IndexOf(d, d[i]) == i {
    }
    forall i, e | 0 <= i < |g.buckets| && e in g.buckets[i] ensures cat(e) == g.categories[i] {
      MembersFacts(es, cat, d[i]);
    }
    assert |multiset(Concat(g.buckets))| == |Concat(g.buckets)|;
  }

  /** Opening a new category with an empty bucket keeps the invariant and the tracked entities. */
  lemma OpenCategoryKeeps<C>(g: Groups<C>, cat: Entity -> C, c: C)
    requires Consistent(g, cat) && c !in g.index
    ensures Consistent(Groups(g.categories + [c], g.index[c := |g.categories|], g.buckets + [[]]), cat)
    ensures Concat(g.buckets + [[]]) == Concat(g.buckets)
  {
    ConcatAppend(g.buckets, []);
  }

  /** Appending an entity of bucket `i`'s category to that bucket keeps the invariant and tracks it once more. */
  lemma AppendKeeps<C>(g: Groups<C>, cat: Entity -> C, i: nat, e: Entity)
    requires Consistent(g, cat) && i < |g.buckets| && cat(e) == g.categories[i]
    ensures Consistent(g.(buckets := g.buckets[i := g.buckets[i] + [e]]), cat)
    ensures multiset(Concat(g.buckets[i := g.buckets[i] + [e]])) == multiset(Concat(g.buckets)) + multiset{e}
  {
    var b := g.buckets[i];
    ConcatUpdate(g.buckets, i, b + [e]);
    assert multiset(b + [e]) == multiset(b) + multiset{e};
    Cancel(multiset(Concat(g.buckets[i := b + [e]])), multiset(b), multiset(Concat(g.buckets)), multiset{e});
  }

  /**
   `add` keeps the invariant and tracks one more occurrence of `e`: for a known
   category the category list and map are unchanged, for a new one the
   category is appended and mapped to the old category count.
   */
  lemma AddToGroupKeeps<C>(g: Groups<C>, cat: Entity -> C, e: Entity)
    requires Consistent(g, cat)
    ensures Consistent(AddToGroup(g, cat, e), cat)
    ensures multiset(Concat(AddToGroup(g, cat, e).buckets)) == multiset(Concat(g.buckets)) + multiset{e}
    ensures |Concat(AddToGroup(g, cat, e).buckets)| == |Concat(g.buckets)| + 1
  {
    var c := cat(e);
    var h := if c in g.index then g
             else Groups(g.categories + [c], g.index[c := |g.categories|], g.buckets + [[]]);
    if c !in g.index {
      OpenCategoryKeeps(g, cat, c);
    }
    AppendKeeps(h, cat, h.index[c], e);
    var r := AddToGroup(g, cat, e);
    assert |multiset(Concat(r.buckets))| == |Concat(r.buckets)|;
    assert |multiset(Concat(g.buckets))| == |Concat(g.buckets)|;
  }

  /** A tracked entity sits in the bucket of its own category. */
  lemma TrackedInOwnBucket<C>(g: Groups<C>, cat: Entity -> C, e: Entity)
    requires Consistent(g, cat) && e in Concat(g.buckets)
    ensures cat(e) in g.index && e in g.buckets[g.index[cat(e)]]
  {
    ConcatMember(g.buckets, e);
    var j :| 0 <= j < |g.buckets| && e in g.buckets[j];
    assert g.categories[j] == cat(e);
  }

  /** Swap-popping an entry of bucket `i` keeps the invariant. */
  lemma ShrinkBucketKeeps<C>(g: Groups<C>, cat: Entity -> C, i: nat, k: nat)
    requires Consistent(g, cat) && i < |g.buckets| && k < |g.buckets[i]|
    ensures Consistent(g.(buckets := g.buckets[i := SwapRemove(g.buckets[i], k)]), cat)
  {
    var b := g.buckets[i];
    var b' := SwapRemove(b, k);
    var r := g.(buckets := g.buckets[i := b']);
    forall j, x | 0 <= j < |r.buckets| && x in r.buckets[j] ensures cat(x) == r.categories[j] {
      if j == i {
        var p :| 0 <= p < |b'| && b'[p] == x;
        assert x == b[if p == k then |b| - 1 else p];
      }
    }
  }

  /** Removing a tracked entity swap-pops one occurrence of it from its category's bucket. */
  lemma RemoveTracked<C>(g: Groups<C>, cat: Entity -> C, e: Entity)
    requires Consistent(g, cat) && e in Concat(g.buckets)
    ensures cat(e) in g.index
    ensures var i := g.index[cat(e)];
      && IndexOf(g.buckets[i], e) < |g.buckets[i]|
      && RemoveFromGroup(g, cat, e) == g.(buckets := g.buckets[i := SwapRemove(g.buckets[i], IndexOf(g.buckets[i], e))])
  {
    TrackedInOwnBucket(g, cat, e);
  }

  /**
   `remove` keeps the invariant and the categories; it removes one occurrence
   of `e` exactly when `e` is tracked (a tracked entity is always in the bucket
   of its category) and otherwise changes nothing.
   */
  lemma RemoveFromGroupKeeps<C>(g: Groups<C>, cat: Entity -> C, e: Entity)
    requires Consistent(g, cat)
    ensures Consistent(RemoveFromGroup(g, cat, e), cat)
    ensures RemoveFromGroup(g, cat, e).categories == g.categories
    ensures RemoveFromGroup(g, cat, e).index == g.index
    ensures e in Concat(g.buckets) ==>
      multiset(Concat(RemoveFromGroup(g, cat, e).buckets)) + multiset{e} == multiset(Concat(g.buckets))
    ensures e in Concat(g.buckets) ==>
      |Concat(RemoveFromGroup(g, cat, e).buckets)| + 1 == |Concat(g.buckets)|
    ensures e !in Concat(g.buckets) ==> RemoveFromGroup(g, cat, e) == g
  {
    if e in Concat(g.buckets) {
      RemoveTracked(g, cat, e);
      var i := g.index[cat(e)];
      var k := IndexOf(g.buckets[i], e);
      ShrinkBucketKeeps(g, cat, i, k);
      ShrinkBucketContents(g.buckets, i, k);
    } else if cat(e) in g.index {
      ConcatMember(g.buckets, e);
      assert e !in g.buckets[g.index[cat(e)]];
    }
  }

  /**
   Under the invariant, the bucket of a known category holds exactly the
   tracked entities of that category; an unknown category has none.
   */
  lemma BucketIsCategory<C>(g: Groups<C>, cat: Entity -> C, c: C)
    requires Consistent(g, cat)
    ensures c in g.index ==> forall e :: e in g.buckets[g.index[c]] <==> e in Concat(g.buckets) && cat(e) == c
    ensures c !in g.index ==> forall e :: e in Concat(g.buckets) ==> cat(e) != c
  {
    forall e | e in Concat(g.buckets) && cat(e) == c
      ensures c in g.index && e in g.buckets[g.index[c]]
    {
      ConcatMember(g.buckets, e);
      var j :| 0 <= j < |g.buckets| && e in g.buckets[j];
      assert g.categories[j] == c;
    }
    forall e | c in g.index && e in g.buckets[g.index[c]] ensures e in Concat(g.buckets) {
      ConcatMember(g.buckets, e);
    }
  }

  // ---------------------------------------------------------------------------
  // The two passes of `update`

  /** First pass of `update`: discover the categories and give each the next position. */
  method ClassifyPass<C(==)>(entities: seq<Entity>, cat: Entity -> C) returns (index: map<C, nat>, categories: seq<C>)
    ensures categories == Discover(entities, cat)
    ensures index == Positions(categories)
    ensures NoDuplicates(categories)
    ensures forall i :: 0 <= i < |entities| ==> cat(entities[i]) in index
  {
    index, categories := map[], [];
    var i := 0;
    while i < |entities|
      invariant 0 <= i <= |entities|
      invariant categories == Discover(entities[..i], cat)
      invariant index == Positions(categories)
    {
      var c := cat(entities[i]);
      DiscoverSnoc(entities[..i], entities[i], cat);
      if c !in index {
        PositionsSnoc(categories, c);
        index := index[c := |categories|];
        categories := categories + [c];
      }
      assert entities[..i + 1] == entities[..i] + [entities[i]];
      i := i + 1;
    }
    assert entities[..i] == entities;
    DiscoverFacts(entities, cat);
  }

  /** Second pass of `update`: append every entity, in input order, to its category's bucket. */
  method FillPass<C(==)>(entities: seq<Entity>, cat: Entity -> C, categories: seq<C>, index: map<C, nat>)
    returns (buckets: seq<seq<Entity>>)
    requires categories == Discover(entities, cat)
    requires index == Positions(categories)
    ensures buckets == BucketsFor(entities, cat, categories)
    ensures |buckets| == |categories|
    ensures forall j, e :: 0 <= j < |buckets| && e in buckets[j] ==> e in entities && cat(e) == categories[j]
  {
    DiscoverFacts(entities, cat);
    buckets := seq(|categories|, _ => []);
    var i := 0;
    while i < |entities|
      invariant 0 <= i <= |entities|
      invariant buckets == BucketsFor(entities[..i], cat, categories)
    {
      var c := cat(entities[i]);
      var idx := index[c];
      BucketsKnown(entities[..i], entities[i], cat, categories);
      buckets := buckets[idx := buckets[idx] + [entities[i]]];
      assert entities[..i + 1] == entities[..i] + [entities[i]];
      i := i + 1;
    }
    assert entities[..i] == entities;
    forall j, e | 0 <= j < |buckets| && e in buckets[j] ensures e in entities && cat(e) == categories[j] {
      MembersFacts(entities, cat, categories[j]);
    }
  }

  // ---------------------------------------------------------------------------
  // The index object

  class GroupIndex<C(==)> {
    const categorize: Entity -> C
    var categories: seq<C>
    var categoryToIndex: map<C, nat>
    var buckets: seq<seq<Entity>>

    function State(): Groups<C>
      reads this
    {
      Groups(categories, categoryToIndex, buckets)
    }

    ghost predicate Valid()
      reads this
    {
      Consistent(State(), categorize)
    }

    /** The abstract value: every tracked entity, as often as it is tracked. */
    ghost function Contents(): multiset<Entity>
      reads this
    {
      multiset(Concat(buckets))
    }

    constructor (categorize: Entity -> C)
      ensures Valid()
      ensures this.categorize == categorize
      ensures categories == [] && categoryToIndex == map[] && buckets == []
    {
      this.categorize := categorize;
      categories, categoryToIndex, buckets := [], map[], [];
    }

    /**
     Two-pass rebuild: discover the categories and their positions, then file
     every entity into its category's bucket.
     */
    method Update(entities: seq<Entity>)
      modifies this
      ensures State() == Regroup(entities, categorize)
      ensures Valid()
      ensures categories == Discover(entities, categorize)
      ensures forall j :: 0 <= j < |categories| ==> buckets[j] == Members(entities, categorize, categories[j])
      ensures Contents() == multiset(entities)
      ensures |Concat(buckets)| == |entities|
    {
      var localIndex, localCategories := ClassifyPass(entities, categorize);
      var localBuckets := FillPass(entities, categorize, localCategories, localIndex);
      categoryToIndex, categories, buckets := localIndex, localCategories, localBuckets;
      RegroupKeeps(entities, categorize);
    }

    /** Append `e` to its category's bucket, creating the category if it is new. */
    method Add(e: Entity)
      requires Valid()
      modifies this
      ensures Valid()
      ensures State() == AddToGroup(old(State()), categorize, e)
      ensures Contents() == old(Contents()) + multiset{e}
      ensures |Concat(buckets)| == old(|Concat(buckets)|) + 1
      ensures old(categorize(e) in categoryToIndex) ==>
        && categories == old(categories) && categoryToIndex == old(categoryToIndex)
      ensures old(categorize(e) !in categoryToIndex) ==>
        && categories == old(categories) + [categorize(e)]
        && categoryToIndex == old(categoryToIndex)[categorize(e) := old(|categories|)]
      ensures var i := categoryToIndex[categorize(e)];
        && |buckets| == |categories|
        && buckets[i] == (if i < old(|buckets|) then old(buckets[i]) else []) + [e]
        && forall j :: 0 <= j < |buckets| && j != i ==> buckets[j] == old(buckets[j])
    {
      AddToGroupKeeps(State(), categorize, e);
      var c := categorize(e);
      if c !in categoryToIndex {
        var idx := |categories|;
        categoryToIndex := categoryToIndex[c := idx];
        categories := categories + [c];
        buckets := buckets + [[]];
      }
      var i := categoryToIndex[c];
      buckets := buckets[i := buckets[i] + [e]];
    }

    /**
     Swap-pop the first occurrence of the handle `e` in its category's bucket;
     the categories and every other bucket are untouched.
     */
    method Remove(e: Entity)
      requires Valid()
      modifies this
      ensures Valid()
      ensures State() == RemoveFromGroup(old(State()), categorize, e)
      ensures categories == old(categories) && categoryToIndex == old(categoryToIndex)
      ensures e in old(Contents()) ==> Contents() + multiset{e} == old(Contents())
      ensures e in old(Contents()) ==> |Concat(buckets)| + 1 == old(|Concat(buckets)|)
      ensures e !in old(Contents()) ==> State() == old(State())
      ensures forall j :: 0 <= j < |buckets| && (categorize(e) in categoryToIndex ==> j != categoryToIndex[categorize(e)]) ==>
        buckets[j] == old(buckets[j])
    {
      RemoveFromGroupKeeps(State(), categorize, e);
      var c := categorize(e);
      if c !in categoryToIndex {
        return;
      }
      var i := categoryToIndex[c];
      var vec := buckets[i];
      var k := IndexOf(vec, e);
      if k != |vec| {
        var last := |vec| - 1;
        vec := vec[k := vec[last]][last := vec[k]];
        vec := vec[..last];
        buckets := buckets[i := vec];
      }
    }

    method Clear()
      modifies this
      ensures Valid()
      ensures categories == [] && categoryToIndex == map[] && buckets == []
      ensures Contents() == multiset{}
    {
      categoryToIndex, categories, buckets := map[], [], [];
    }

    /** `size()`: the total number of bucket entries. */
    method Size() returns (n: nat)
      requires Valid()
      ensures n == |Concat(buckets)|
      ensures n == |Contents()|
    {
      n := 0;
      var i := 0;
      while i < |buckets|
        invariant 0 <= i <= |buckets|
        invariant n == TotalLength(buckets[..i])
      {
        n := n + |buckets[i]|;
        assert buckets[..i + 1][..i] == buckets[..i];
        i := i + 1;
      }
      assert buckets[..i] == buckets;
      ConcatLength(buckets);
    }

    /** `get_all()`: the buckets laid end to end in category-discovery order. */
    method GetAll() returns (r: seq<Entity>)
      requires Valid()
      ensures r == Concat(buckets)
      ensures multiset(r) == Contents()
      ensures forall e :: e in r <==> exists i :: 0 <= i < |buckets| && e in buckets[i]
    {
      r := [];
      var i := 0;
      while i < |buckets|
        invariant 0 <= i <= |buckets|
        invariant r == Concat(buckets[..i])
      {
        var j := 0;
        while j < |buckets[i]|
          invariant 0 <= j <= |buckets[i]|
          invariant r == Concat(buckets[..i]) + buckets[i][..j]
        {
          r := r + [buckets[i][j]];
          assert buckets[i][..j + 1] == buckets[i][..j] + [buckets[i][j]];
          j := j + 1;
        }
        assert buckets[i][..j] == buckets[i];
        assert buckets[..i + 1][..i] == buckets[..i];
        i := i + 1;
      }
      assert buckets[..i] == buckets;
      forall e ensures e in r <==> exists i :: 0 <= i < |buckets| && e in buckets[i] {
        ConcatMember(buckets, e);
      }
    }

    /** `for_each(c)`: the entities of category `c`, in bucket order; none for an unknown category. */
    method ForEach(c: C) returns (r: seq<Entity>)
      requires Valid()
      ensures c in categoryToIndex ==> r == buckets[categoryToIndex[c]]
      ensures c !in categoryToIndex ==> r == []
      ensures forall e :: e in r <==> e in Contents() && categorize(e) == c
    {
      BucketIsCategory(State(), categorize, c);
      if c in categoryToIndex {
        r := buckets[categoryToIndex[c]];
      } else {
        r := [];
      }
    }

    /** `for_each_all`: visits the buckets in discovery order, which is what `get_all` collects. */
    method ForEachAll() returns (r: seq<Entity>)
      requires Valid()
      ensures r == Concat(buckets)
      ensures multiset(r) == Contents()
    {
      r := GetAll();
    }
  }
}
