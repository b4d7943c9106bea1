/** The values the list page derives from `items` on every change: the items
    still to buy, the items already in the basket, and the sorted list of
    categories that heads the sections of the open items. */
module Views {
  import opened Text
  import opened Seqs
  import opened Model

  predicate IsOpen(i: GroceryItem) { !i.completed }

  predicate IsDone(i: GroceryItem) { i.completed }

  /** The items still to buy, in list order. */
  function ActiveItems(items: seq<GroceryItem>): (r: seq<GroceryItem>)
    ensures forall i :: i in r <==> i in items && !i.completed
    ensures forall i :: multiset(r)[i] == if i.completed then 0 else multiset(items)[i]
    ensures IsSubsequence(r, items)
  {
    Filter(IsOpen, items)
  }

  /** The items already in the basket, in list order. */
  function CompletedItems(items: seq<GroceryItem>): (r: seq<GroceryItem>)
    ensures forall i :: i in r <==> i in items && i.completed
    ensures forall i :: multiset(r)[i] == if i.completed then multiset(items)[i] else 0
    ensures IsSubsequence(r, items)
  {
    Filter(IsDone, items)
  }

  /** The two views split the list: every copy of every item lands in exactly
      one of them, and together they are exactly as long as the list. */
  lemma ActiveCompletedPartition(items: seq<GroceryItem>)
    ensures multiset(ActiveItems(items)) + multiset(CompletedItems(items)) == multiset(items)
    ensures |ActiveItems(items)| + |CompletedItems(items)| == |items|
    ensures forall i :: i in items ==> (i in ActiveItems(items) <==> i !in CompletedItems(items))
  {
    var a, c := ActiveItems(items), CompletedItems(items);
    assert forall i :: (multiset(a) + multiset(c))[i] == multiset(items)[i];
    assert multiset(a) + multiset(c) == multiset(items);
    assert |multiset(a) + multiset(c)| == |multiset(items)|;
  }

  /** The `completed` flags of a list: the list has no item in the basket
      exactly when its open items are the whole list. */
  lemma NothingCompleted(items: seq<GroceryItem>)
    ensures CompletedItems(items) == [] <==> ActiveItems(items) == items
  {
    ActiveCompletedPartition(items);
    if CompletedItems(items) == [] {
      SubsequenceReflexive(items);
      FilterUnique(IsOpen, items, items);
    } else {
      assert |ActiveItems(items)| < |items|;
    }
  }

  /** Category `c` heads a section before category `d`: the order of their
      labels under the default sort. */
  predicate Precedes(c: Category, d: Category) {
    Less(CategoryName(c), CategoryName(d))
  }

  lemma PrecedesIrreflexive(c: Category)
    ensures !Precedes(c, c)
  {
    LessIrreflexive(CategoryName(c));
  }

  lemma PrecedesTransitive(c: Category, d: Category, e: Category)
    requires Precedes(c, d) && Precedes(d, e)
    ensures Precedes(c, e)
  {
    LessTransitive(CategoryName(c), CategoryName(d), CategoryName(e));
  }

  lemma PrecedesAsymmetric(c: Category, d: Category)
    requires Precedes(c, d)
    ensures !Precedes(d, c)
  {
    LessAsymmetric(CategoryName(c), CategoryName(d));
  }

  /** Different categories have different labels, so they are always ordered. */
  lemma PrecedesTotal(c: Category, d: Category)
    requires c != d
    ensures Precedes(c, d) || Precedes(d, c)
  {
    var a, b := CategoryName(c), CategoryName(d);
    assert a != b by {
      assert a[0] != b[0] || |a| != |b|;
    }
    LessTotal(a, b);
  }

  /** The section order the labels produce: DİĞER, ET, KİLER, MANAV, SÜT. */
  lemma CategoryOrder()
    ensures Precedes(Diger, Et) && Precedes(Et, Kiler) && Precedes(Kiler, Manav) && Precedes(Manav, Sut)
  {
  }

  predicate StrictlySorted(cs: seq<Category>) {
    forall i, j :: 0 <= i < j < |cs| ==> Precedes(cs[i], cs[j])
  }

  lemma StrictlySortedDistinct(cs: seq<Category>)
    requires StrictlySorted(cs)
    ensures Distinct(cs)
  {
    forall i, j | 0 <= i < j < |cs| ensures cs[i] != cs[j] {
      if cs[i] == cs[j] { PrecedesIrreflexive(cs[i]); }
    }
  }

  /** Puts `c` into its place in a sorted list that lacks it. */
  function Insert(c: Category, s: seq<Category>): (r: seq<Category>)
    requires StrictlySorted(s) && c !in s
    ensures StrictlySorted(r)
    ensures forall d :: d in r <==> d == c || d in s
    ensures |r| == |s| + 1
  {
    if s == [] then [c]
    else if Precedes(c, s[0]) then
      assert forall j :: 0 < j < |s| ==> Precedes(c, s[j]) by {
        forall j | 0 < j < |s| ensures Precedes(c, s[j]) {
          PrecedesTransitive(c, s[0], s[j]);
        }
      }
      [c] + s
    else
      PrecedesTotal(c, s[0]);
      var t := Insert(c, s[1..]);
      assert forall d :: d in t ==> Precedes(s[0], d);
      [s[0]] + t
  }

  /** `Array.prototype.sort` on distinct categories. */
  function Sort(xs: seq<Category>): (r: seq<Category>)
    requires Distinct(xs)
    ensures StrictlySorted(r)
    ensures forall d :: d in r <==> d in xs
    ensures |r| == |xs|
  {
    if xs == [] then []
    else
      assert xs[0] !in xs[1..];
      Insert(xs[0], Sort(xs[1..]))
  }

  /** The category of each item, in list order. */
  function CategoriesOf(items: seq<GroceryItem>): (r: seq<Category>)
    ensures |r| == |items|
    ensures forall k :: 0 <= k < |items| ==> r[k] == items[k].category
  {
    seq(|items|, k requires 0 <= k < |items| => items[k].category)
  }

  /** A category occurs in `CategoriesOf(items)` exactly when some item has
      it. */
  lemma CategoriesOfMembers(items: seq<GroceryItem>, c: Category)
    ensures c in CategoriesOf(items) <==> exists i :: i in items && i.category == c
  {
    var cs := CategoriesOf(items);
    if c in cs {
      var k :| 0 <= k < |cs| && cs[k] == c;
      assert items[k] in items;
    }
    if exists i :: i in items && i.category == c {
      var i :| i in items && i.category == c;
      var k :| 0 <= k < |items| && items[k] == i;
      assert cs[k] == c;
    }
  }

  /** The section headings of the list page: the distinct categories of the
      open items, sorted by label. */
  function Categories(items: seq<GroceryItem>): (r: seq<Category>)
    ensures StrictlySorted(r)
    ensures Distinct(r)
    ensures forall c :: c in r <==> exists i :: i in items && !i.completed && i.category == c
  {
    var active := ActiveItems(items);
    var r := Sort(Dedup(CategoriesOf(active)));
    StrictlySortedDistinct(r);
    assert forall c :: c in r <==> exists i :: i in items && !i.completed && i.category == c by {
      forall c ensures c in r <==> exists i :: i in items && !i.completed && i.category == c {
        CategoriesOfMembers(active, c);
      }
    }
    r
  }

  /** A sorted, duplicate-free list is fixed by its elements alone: the
      heading order does not depend on the order items were added in. */
  lemma {:induction false} SortedUnique(a: seq<Category>, b: seq<Category>)
    requires StrictlySorted(a) && StrictlySorted(b)
    requires forall c :: c in a <==> c in b
    ensures a == b
  {
    if a == [] || b == [] {
      assert forall c :: c !in a && c !in b;
      NoMembersEmpty(a);
      NoMembersEmpty(b);
    } else {
      if a[0] != b[0] {
        assert a[0] in b && b[0] in a;
        var j :| 0 <= j < |b| && b[j] == a[0];
        var i :| 0 <= i < |a| && a[i] == b[0];
        assert Precedes(b[0], a[0]);
        assert Precedes(a[0], b[0]);
        PrecedesAsymmetric(a[0], b[0]);
        assert false;
      }
      StrictlySortedDistinct(a);
      StrictlySortedDistinct(b);
      forall c ensures c in a[1..] <==> c in b[1..] {
        if c in a[1..] {
          var k :| 0 <= k < |a| - 1 && a[1..][k] == c;
          assert a[k + 1] == c && c != a[0] && c in b;
          var m :| 0 <= m < |b| && b[m] == c;
          assert m != 0 && b[1..][m - 1] == c;
        }
        if c in b[1..] {
          var k :| 0 <= k < |b| - 1 && b[1..][k] == c;
          assert b[k + 1] == c && c != b[0] && c in a;
          var m :| 0 <= m < |a| && a[m] == c;
          assert m != 0 && a[1..][m - 1] == c;
        }
      }
      SortedUnique(a[1..], b[1..]);
      assert a == [a[0]] + a[1..] && b == [b[0]] + b[1..];
    }
  }
}
