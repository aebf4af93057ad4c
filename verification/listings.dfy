/**
 * What the listing queries share: the left join from a resource to its
 * category, the two `ORDER BY` orders (resources newest first, categories by
 * name), and a row-by-row projection.
 * Names are compared code point by code point, the order of the "C"
 * collation.
 */
module Listings {
  import opened Common
  import opened Schema
  import opened Sorting

  /**
   * The category `leftJoin(categories, eq(resources.categoryId, categories.id))`
   * pairs a resource with: none when `categoryId` is null or no category has
   * that id.
   */
  function FindCategory(cats: seq<Category>, categoryId: Option<Id>): (r: Option<Category>)
    ensures r.Some? ==> r.value in cats && categoryId == Some(r.value.id)
    ensures r.None? <==> categoryId.None? || forall i :: 0 <= i < |cats| ==> cats[i].id != categoryId.value
  {
    if categoryId.None? then None else First(cats, (c: Category) => c.id == categoryId.value)
  }

  /** With distinct category ids the join partner is the one category with that id. */
  lemma FindCategoryUnique(cats: seq<Category>, i: nat)
    requires i < |cats|
    requires CategoryKeysDistinct(cats)
    ensures FindCategory(cats, Some(cats[i].id)) == Some(cats[i])
  {
    var found := FindCategory(cats, Some(cats[i].id));
    var j :| 0 <= j < |cats| && cats[j] == found.value;
  }

  // ---------------------------------------------------------------- projection

  function Map<T, U>(s: seq<T>, f: T -> U): (r: seq<U>)
    ensures |r| == |s| && forall i :: 0 <= i < |s| ==> r[i] == f(s[i])
  {
    seq(|s|, i requires 0 <= i < |s| => f(s[i]))
  }

  /** Removing the element at `k` removes one occurrence of it from the multiset. */
  lemma MultisetRemoveAt<T>(t: seq<T>, k: nat)
    requires k < |t|
    ensures multiset(t[..k] + t[k + 1..]) + multiset{t[k]} == multiset(t)
  {
    assert t == t[..k] + [t[k]] + t[k + 1..];
  }

  lemma MultisetCancel<T>(a: multiset<T>, b: multiset<T>, x: T)
    requires a + multiset{x} == b + multiset{x}
    ensures a == b
  {
    forall y ensures a[y] == b[y] {
      assert (a + multiset{x})[y] == (b + multiset{x})[y];
    }
  }

  /** Projecting a sequence with one element taken out takes out that element's projection. */
  lemma MapRemoveAt<T, U>(t: seq<T>, k: nat, f: T -> U)
    requires k < |t|
    ensures multiset(Map(t[..k] + t[k + 1..], f)) + multiset{f(t[k])} == multiset(Map(t, f))
  {
    var a, b := Map(t[..k], f), Map(t[k + 1..], f);
    assert Map(t[..k] + t[k + 1..], f) == a + b;
    assert Map(t, f) == a + [f(t[k])] + b;
    var left := multiset(a + b) + multiset{f(t[k])};
    var right := multiset(a + [f(t[k])] + b);
    forall y ensures left[y] == right[y] {
    }
  }

  /** Taking the first element of `s` out of `t`, where it sits at `k`, leaves the rest of `s`. */
  lemma RemoveFirstMatch<T>(s: seq<T>, t: seq<T>, k: nat)
    requires multiset(s) == multiset(t)
    requires s != [] && k < |t| && t[k] == s[0]
    ensures multiset(t[..k] + t[k + 1..]) == multiset(s[1..])
  {
    MultisetRemoveAt(t, k);
    assert s == [s[0]] + s[1..];
    MultisetCancel(multiset(t[..k] + t[k + 1..]), multiset(s[1..]), s[0]);
  }

  /** Projecting two arrangements of the same rows gives two arrangements of the same projected rows. */
  lemma {:induction false} MapKeepsMultiset<T, U>(s: seq<T>, t: seq<T>, f: T -> U)
    requires multiset(s) == multiset(t)
    ensures multiset(Map(s, f)) == multiset(Map(t, f))
    decreases |s|
  {
    if s == [] {
      assert |t| == |multiset(t)| == 0;
    } else {
      var x := s[0];
      assert x in multiset(t);
      var k :| 0 <= k < |t| && t[k] == x;
      RemoveFirstMatch(s, t, k);
      MapKeepsMultiset(s[1..], t[..k] + t[k + 1..], f);
      MapRemoveAt(t, k, f);
      var rest := Map(s[1..], f);
      assert Map(s, f) == [f(x)] + rest;
      var left := multiset([f(x)] + rest);
      var right := multiset(rest) + multiset{f(x)};
      forall y ensures left[y] == right[y] {
      }
    }
  }

  // ---------------------------------------------------------------- newest first

  /** `desc(resources.createdAt)`: `a` may come before `b` when it is at least as new. */
  predicate NewestFirst(a: Resource, b: Resource)
  {
    a.createdAt >= b.createdAt
  }

  predicate OrderedNewestFirst(rs: seq<Resource>)
  {
    forall i, j :: 0 <= i < j < |rs| ==> rs[i].createdAt >= rs[j].createdAt
  }

  /** The resources in `ORDER BY created_at DESC` order: the same rows, newest first. */
  function ByNewest(rs: seq<Resource>): (r: seq<Resource>)
    ensures multiset(r) == multiset(rs)
    ensures OrderedNewestFirst(r)
  {
    var r := SortBy(rs, NewestFirst);
    assert TotalPreorder(NewestFirst);
    assert SortedBy(r, NewestFirst);
    r
  }

  // ---------------------------------------------------------------- by name

  /** Lexicographic order of code points: `s` is a prefix of `t` or is smaller at the first difference. */
  predicate LexLe(s: string, t: string)
    decreases |s|
  {
    s == [] || (t != [] && (s[0] < t[0] || (s[0] == t[0] && LexLe(s[1..], t[1..]))))
  }

  lemma {:induction false} LexLeTotal(s: string, t: string)
    ensures LexLe(s, t) || LexLe(t, s)
    decreases |s|
  {
    if s != [] && t != [] && s[0] == t[0] {
      LexLeTotal(s[1..], t[1..]);
    }
  }

  lemma {:induction false} LexLeTransitive(a: string, b: string, c: string)
    requires LexLe(a, b) && LexLe(b, c)
    ensures LexLe(a, c)
    decreases |a|
  {
    if a != [] && a[0] == b[0] && b[0] == c[0] {
      LexLeTransitive(a[1..], b[1..], c[1..]);
    }
  }

  lemma {:induction false} LexLeAntisymmetric(s: string, t: string)
    requires LexLe(s, t) && LexLe(t, s)
    ensures s == t
    decreases |s|
  {
    if s != [] {
      LexLeAntisymmetric(s[1..], t[1..]);
      assert s == [s[0]] + s[1..] && t == [t[0]] + t[1..];
    }
  }

  /** `ORDER BY name`: `a` may come before `b` when its name is not greater. */
  predicate NameBefore(a: Category, b: Category)
  {
    LexLe(a.name, b.name)
  }

  predicate OrderedByName(cats: seq<Category>)
  {
    forall i, j :: 0 <= i < j < |cats| ==> LexLe(cats[i].name, cats[j].name)
  }

  lemma NameBeforeIsTotalPreorder()
    ensures TotalPreorder(NameBefore)
  {
    forall a: Category, b: Category ensures NameBefore(a, b) || NameBefore(b, a) {
      LexLeTotal(a.name, b.name);
    }
    forall a: Category, b: Category, c: Category | NameBefore(a, b) && NameBefore(b, c)
      ensures NameBefore(a, c)
    {
      LexLeTransitive(a.name, b.name, c.name);
    }
  }

  /** The categories in `ORDER BY name` order: the same rows, names ascending. */
  function ByName(cats: seq<Category>): (r: seq<Category>)
    ensures multiset(r) == multiset(cats)
    ensures OrderedByName(r)
  {
    var r := SortBy(cats, NameBefore);
    NameBeforeIsTotalPreorder();
    assert SortedBy(r, NameBefore);
    r
  }

  /** In name order, rows with the same name are adjacent: a name that differs from both neighbours' cannot sit between them. */
  lemma ByNameGroupsEqualNames(cats: seq<Category>, i: nat, j: nat, k: nat)
    requires i < j < k < |ByName(cats)|
    requires ByName(cats)[i].name == ByName(cats)[k].name
    ensures ByName(cats)[j].name == ByName(cats)[i].name
  {
    var r := ByName(cats);
    LexLeAntisymmetric(r[i].name, r[j].name);
  }
}
