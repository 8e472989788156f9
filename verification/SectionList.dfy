// The doubly linked list of a BFD's sections.
module SectionList {

  class Section {
    var next: Section?
    var prev: Section?

    constructor ()
      ensures next == null && prev == null
    {
      next, prev := null, null;
    }
  }

  predicate Distinct(l: seq<Section>) {
    forall i, j :: 0 <= i < j < |l| ==> l[i] != l[j]
  }

  function Index(l: seq<Section>, s: Section): (i: nat)
    requires s in l
    ensures i < |l| && l[i] == s && s !in l[..i]
  {
    if l[0] == s then 0
    else
      assert l[1..] == l[1..];
      var i := Index(l[1..], s);
      assert l[..i + 1] == [l[0]] + l[1..][..i];
      i + 1
  }

  lemma IndexUnique(l: seq<Section>, i: nat)
    requires Distinct(l) && i < |l|
    ensures Index(l, l[i]) == i
  {
  }

  /** The edits of a sequence that the five operations stand for. */
  function Without(l: seq<Section>, s: Section): seq<Section>
    requires s in l
  {
    l[..Index(l, s)] + l[Index(l, s) + 1..]
  }

  function Inserted(l: seq<Section>, at: nat, s: Section): seq<Section>
    requires at <= |l|
  {
    l[..at] + [s] + l[at..]
  }

  /** A removal undoes an insertion, wherever it was made. */
  lemma WithoutInserted(l: seq<Section>, at: nat, s: Section)
    requires at <= |l| && s !in l
    ensures s in Inserted(l, at, s) && Without(Inserted(l, at, s), s) == l
  {
    var m := Inserted(l, at, s);
    assert m[at] == s && m[..at] == l[..at] && m[at + 1..] == l[at..];
    assert m[Index(m, s)] == s && s !in m[..Index(m, s)];
    assert forall k :: 0 <= k < |m| && m[k] == s ==> k == at;
  }

  lemma WithoutFacts(l: seq<Section>, s: Section, i: nat)
    requires Distinct(l) && i < |l| && l[i] == s
    ensures var r := Without(l, s);
      && |r| == |l| - 1 && Distinct(r)
      && (forall k {:trigger r[k]} :: 0 <= k < |r| ==> r[k] == if k < i then l[k] else l[k + 1])
      && (forall x :: x in r <==> x in l && x != s)
  {
    IndexUnique(l, i);
    var r := Without(l, s);
    assert forall k {:trigger r[k]} :: 0 <= k < |r| ==> r[k] == if k < i then l[k] else l[k + 1];
    forall x | x in l && x != s
      ensures x in r
    {
      var j := Index(l, x);
      assert r[if j < i then j else j - 1] == x;
    }
  }

  lemma InsertedFacts(l: seq<Section>, at: nat, s: Section)
    requires Distinct(l) && at <= |l| && s !in l
    ensures var r := Inserted(l, at, s);
      && |r| == |l| + 1 && Distinct(r)
      && (forall k {:trigger r[k]} :: 0 <= k < |r| ==> r[k] == if k < at then l[k] else if k == at then s else l[k - 1])
      && (forall x :: x in r <==> x in l || x == s)
  {
    var r := Inserted(l, at, s);
    assert r[at] == s;
    forall x | x in l
      ensures x in r
    {
      var j := Index(l, x);
      assert r[if j < at then j else j + 1] == x;
    }
  }

  /** The neighbours of place `i`: the section there, or none. */
  function At(l: seq<Section>, i: int): Section? {
    if 0 <= i < |l| then l[i] else null
  }

  // ---- pointers --------------------------------------------------------

  ghost function Nexts(l: seq<Section>): (r: seq<Section?>)
    reads l
    ensures |r| == |l|
  {
    seq(|l|, i requires 0 <= i < |l| reads l => l[i].next)
  }

  ghost function Prevs(l: seq<Section>): (r: seq<Section?>)
    reads l
    ensures |r| == |l|
  {
    seq(|l|, i requires 0 <= i < |l| reads l => l[i].prev)
  }

  /** The pointers of a well linked list, moved by `d`. */
  function Shifted(l: seq<Section>, d: int): (r: seq<Section?>)
    ensures |r| == |l|
  {
    seq(|l|, i => At(l, i + d))
  }

  ghost predicate Linked(l: seq<Section>)
    reads l
  {
    Nexts(l) == Shifted(l, 1) && Prevs(l) == Shifted(l, -1)
  }

  function Put(p: seq<Section?>, i: int, x: Section?): seq<Section?> {
    if 0 <= i < |p| then p[i := x] else p
  }

  lemma LinkedWithout(l: seq<Section>, i: nat)
    requires i < |l| && Distinct(l)
    requires Nexts(l) == Put(Shifted(l, 1), i as int - 1, At(l, i + 1))
    requires Prevs(l) == Put(Shifted(l, -1), i + 1, At(l, i as int - 1))
    ensures Linked(Without(l, l[i]))
  {
    hide Without, Index, Distinct, Put;
    WithoutFacts(l, l[i], i);
    var r := Without(l, l[i]);
    forall k: nat | k < |r|
      ensures Nexts(r)[k] == Shifted(r, 1)[k] && Prevs(r)[k] == Shifted(r, -1)[k]
    {
      var j := if k < i then k else k + 1;
      PutAt(Shifted(l, 1), i as int - 1, At(l, i + 1), j);
      PutAt(Shifted(l, -1), i + 1, At(l, i as int - 1), j);
      assert Nexts(r)[k] == Nexts(l)[j] && Prevs(r)[k] == Prevs(l)[j];
    }
  }

  lemma PutAt(p: seq<Section?>, i: int, x: Section?, j: nat)
    requires j < |p|
    ensures |Put(p, i, x)| == |p| && Put(p, i, x)[j] == if j == i then x else p[j]
  {
  }

  lemma LinkedInserted(l: seq<Section>, at: nat, s: Section)
    requires at <= |l| && Distinct(l) && s !in l
    requires Nexts(l) == Put(Shifted(l, 1), at as int - 1, s) && Prevs(l) == Put(Shifted(l, -1), at, s)
    requires s.next == At(l, at) && s.prev == At(l, at as int - 1)
    ensures Linked(Inserted(l, at, s))
  {
    hide Inserted, Index, Distinct, Put;
    InsertedFacts(l, at, s);
    var r := Inserted(l, at, s);
    forall k: nat | k < |r|
      ensures Nexts(r)[k] == Shifted(r, 1)[k] && Prevs(r)[k] == Shifted(r, -1)[k]
    {
      if k != at {
        var j := if k < at then k else k - 1;
        PutAt(Shifted(l, 1), at as int - 1, s, j);
        PutAt(Shifted(l, -1), at, s, j);
        assert Nexts(r)[k] == Nexts(l)[j] && Prevs(r)[k] == Prevs(l)[j];
      }
    }
  }

  lemma Neighbours(l: seq<Section>, i: nat)
    requires Linked(l) && i < |l|
    ensures l[i].next == At(l, i + 1) && l[i].prev == At(l, i as int - 1)
  {
    assert Nexts(l)[i] == Shifted(l, 1)[i] && Prevs(l)[i] == Shifted(l, -1)[i];
  }

  /** The neighbours are in the list too, and are other sections. */
  lemma Apart(l: seq<Section>, i: nat)
    requires Distinct(l) && i < |l|
    ensures At(l, i + 1) != l[i] && (At(l, i + 1) != null ==> At(l, i + 1) in l)
    ensures At(l, i as int - 1) != l[i] && (At(l, i as int - 1) != null ==> At(l, i as int - 1) in l)
    ensures At(l, i as int - 1) == At(l, i + 1) ==> At(l, i + 1) == null
  {
  }

  /** So are the sections on either side of a gap. */
  lemma Between(l: seq<Section>, at: nat, s: Section)
    requires Distinct(l) && at <= |l| && s !in l
    ensures var p, n := At(l, at as int - 1), At(l, at);
      && p != s && (p != null ==> p in l) && n != s && (n != null ==> n in l) && (p == n ==> n == null)
  {
  }

  /** The list fields of a BFD.  `list` is the list; `made` is every section this BFD has ever had, in the
      list or not. */
  class Bfd {
    var sections: Section?
    var sectionLast: Section?
    ghost var list: seq<Section>
    ghost var made: set<Section>

    constructor ()
      ensures Valid() && list == [] && made == {}
    {
      sections, sectionLast, list, made := null, null, [], {};
    }

    ghost predicate Listed()
      reads this
    {
      && Distinct(list) && (forall s :: s in list ==> s in made)
      && sections == At(list, 0) && sectionLast == At(list, |list| - 1)
    }

    /** Whatever a section that is not in the list still points to, nothing points back. */
    ghost predicate NoEcho()
      reads this, made
    {
      forall s :: s in made && s !in list && s.next != null ==> s.next in made && s.next.prev != s
    }

    ghost predicate Valid()
      reads this, made, list
    {
      Listed() && Linked(list) && NoEcho()
    }

    /** Make `x` come after place `i`, or first if there is no such place. */
    method PointForward(p: Section?, x: Section?, ghost i: int)
      requires Distinct(list) && p == At(list, i)
      modifies `sections, p
      ensures Nexts(list) == Put(old(Nexts(list)), i, x) && Prevs(list) == old(Prevs(list))
      ensures sections == (if p == null then x else old(sections)) && (p != null ==> p.prev == old(p.prev))
    {
      if p != null {
        p.next := x;
      } else {
        sections := x;
      }
    }

    /** Make `x` come before place `i`, or last if there is no such place. */
    method PointBack(n: Section?, x: Section?, ghost i: int)
      requires Distinct(list) && n == At(list, i)
      modifies `sectionLast, n
      ensures Prevs(list) == Put(old(Prevs(list)), i, x) && Nexts(list) == old(Nexts(list))
      ensures sectionLast == (if n == null then x else old(sectionLast))
        && (n != null ==> n.next == old(n.next) && n.prev == x)
    {
      if n != null {
        n.prev := x;
      } else {
        sectionLast := x;
      }
    }

    /** A new section, in no list. */
    method Make() returns (s: Section)
      requires Valid()
      modifies this`made
      ensures Valid() && fresh(s) && made == old(made) + {s} && s !in list
    {
      assert forall i :: 0 <= i < |list| ==> list[i] in made;
      s := new Section();
      made := made + {s};
      assert Nexts(list) == old(Nexts(list)) && Prevs(list) == old(Prevs(list));
    }

    /** `bfd_section_list_remove`.  The section keeps its pointers. */
    method Remove(s: Section)
      requires Valid() && s in list
      modifies this, made
      ensures Valid() && made == old(made) && list == Without(old(list), s)
      ensures s.next == old(s.next) && s.prev == old(s.prev)
    {
      hide Index, Without, Distinct, Nexts, Prevs, Shifted, Put;
      ghost var i, was := Index(list, s), list;
      WithoutFacts(was, s, i);
      Neighbours(was, i);
      Apart(was, i);
      var next, prev := s.next, s.prev;
      PointForward(prev, next, i as int - 1);
      PointBack(next, prev, i + 1);
      LinkedWithout(was, i);
      list := Without(was, s);
      forall o | o in made && o !in list && o.next != null
        ensures o.next in made && o.next.prev != o
      {
        assert o.next == old(o.next);
      }
    }

    /** The pointer writes of every insertion: `s` between `p` and `n`, either of which may be missing. */
    method Link(p: Section?, s: Section, n: Section?, ghost at: nat)
      requires Valid() && s in made && s !in list && at <= |list|
      requires p == At(list, at as int - 1) && n == At(list, at)
      modifies this, made
      ensures Valid() && made == old(made) && list == Inserted(old(list), at, s)
    {
      hide Index, Inserted, Distinct, Nexts, Prevs, Shifted, Put;
      ghost var was := list;
      InsertedFacts(was, at, s);
      Between(was, at, s);
      s.next := n;
      s.prev := p;
      PointForward(p, s, at as int - 1);
      PointBack(n, s, at);
      LinkedInserted(was, at, s);
      list := Inserted(was, at, s);
      forall o | o in made && o !in list && o.next != null
        ensures o.next in made && o.next.prev != o
      {
        assert o !in was && o.next == old(o.next);
      }
    }

    /** `bfd_section_list_append`. */
    method Append(s: Section)
      requires Valid() && s in made && s !in list
      modifies this, made
      ensures Valid() && made == old(made) && list == Inserted(old(list), |old(list)|, s)
    {
      Link(sectionLast, s, null, |list|);
    }

    /** `bfd_section_list_prepend`. */
    method Prepend(s: Section)
      requires Valid() && s in made && s !in list
      modifies this, made
      ensures Valid() && made == old(made) && list == Inserted(old(list), 0, s)
    {
      Link(null, s, sections, 0);
    }

    /** `bfd_section_list_insert_after`. */
    method InsertAfter(a: Section, s: Section)
      requires Valid() && a in list && s in made && s !in list
      modifies this, made
      ensures Valid() && made == old(made) && list == Inserted(old(list), Index(old(list), a) + 1, s)
    {
      Neighbours(list, Index(list, a));
      Link(a, s, a.next, Index(list, a) + 1);
    }

    /** `bfd_section_list_insert_before`. */
    method InsertBefore(b: Section, s: Section)
      requires Valid() && b in list && s in made && s !in list
      modifies this, made
      ensures Valid() && made == old(made) && list == Inserted(old(list), Index(old(list), b), s)
    {
      Neighbours(list, Index(list, b));
      Link(b.prev, s, b, Index(list, b));
    }

    /** `bfd_section_removed_from_list`: true of exactly the sections that are not in the list, new ones and
        removed ones alike, whatever their pointers were left as. */
    method RemovedFromList(s: Section) returns (removed: bool)
      requires Valid() && s in made
      ensures removed <==> s !in list
    {
      if s in list {
        Neighbours(list, Index(list, s));
        if s.next != null {
          Neighbours(list, Index(list, s) + 1);
        }
      } else {
        assert sectionLast != null ==> sectionLast in list;
      }
      removed := if s.next != null then s.next.prev != s else sectionLast != s;
    }
  }
}
