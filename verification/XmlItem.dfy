/** The items of an XML document as linked objects: each item knows its parent, its
    first child and its two neighbours. A ghost map records, for every item of an arena,
    its name, its properties and the sequence of its children; `Linked` says that the
    four links of every item agree with that map. */
module XmlItems {
  import opened Repeats
  import opened Wrappers
  import opened XmlProps
  import opened XmlText

  class XmlItem {
    var parent: XmlItem?
    var firstChild: XmlItem?
    var prev: XmlItem?
    var next: XmlItem?
    var name: string
    var props: seq<Prop>

    constructor ()
      ensures parent == null && firstChild == null && prev == null && next == null
      ensures name == "" && props == []
    {
      parent, firstChild, prev, next := null, null, null, null;
      name, props := "", [];
    }

    /** Reads the item's name and properties from the text of a tag. */
    method Init(text: string) returns (ok: bool)
      requires Readable(text)
      modifies `name, `props
      ensures ok <==> ParseTag(text).Some?
      ensures ok ==> name == ParseTag(text).value.name && props == ParseTag(text).value.props
      ensures !ok ==> name == old(name) && props == old(props)
    {
      hide Scan, Attributes, Normal, Trim;
      var t := Trim(text);
      var n := |t|;
      if t[0] != '<' && t[n - 1] != '>' {
        return false;
      }
      n := n - 1;
      if t[n - 1] == '/' {
        n := n - 1;
      }
      var u := BlanksToSpaces(t, n);
      var j := SkipTo(u, 1, n, NonSpace);
      var i := SkipTo(u, j, n, Space);
      name := u[j..i];
      props := ReadAttributes(u, i, n);
      ok := true;
    }

    /** The text of the item's opening tag, or of its only tag. */
    method GetItemText(end: bool) returns (r: string)
      ensures r == TagText(name, props, end)
    {
      hide PropText;
      r := "<" + name;
      var i := 0;
      while i < |props|
        invariant 0 <= i <= |props| && r == "<" + name + PropsText(props[..i])
      {
        PropsTextSnoc(props[..i], props[i]);
        assert props[..i] + [props[i]] == props[..i + 1];
        r := r + PropText(props[i]);
        i := i + 1;
      }
      assert props[..i] == props;
      r := r + if end then "/>" else ">";
    }

    /** Gives the first property with that key the value, or adds one. */
    method SetValue(key: string, value: string)
      modifies `props
      ensures props == SetProp(old(props), key, value)
    {
      hide SameKey;
      var i := 0;
      while i < |props|
        invariant 0 <= i <= |props| && props == old(props)
        invariant SetProp(props, key, value) == props[..i] + SetProp(props[i..], key, value)
      {
        if SameKey(props[i].key, key) {
          SetFirst(props, i, key, value);
          props := props[i := Prop(props[i].key, value)];
          return;
        }
        SetLater(props, i, key, value);
        i := i + 1;
      }
      SetNew(props[i..], key, value);
      props := props + [Prop(key, value)];
    }

    /** Links a detached item after `after`, or else as the last child of `newParent`. */
    method InsertItem(newParent: XmlItem?, after: XmlItem?, ghost m: Arena) returns (ghost m': Arena)
      requires Linked(m) && this in m && this.parent == null
      requires after != null ==> after in m && after.parent != null && after.parent != this
      requires newParent != null ==> newParent in m
      requires after == null && newParent != null ==> newParent != this
      modifies m.Keys
      ensures after != null ==> Attached(m, old(after.parent), after)
      ensures m' == if after != null then Inserted(m, old(after.parent), IndexOf(m[old(after.parent)].kids, after) + 1, this)
                    else if newParent != null then Inserted(m, newParent, |m[newParent].kids|, this)
                    else m
      ensures Linked(m')
      ensures forall x :: x in m && x != this ==> x.parent == old(x.parent)
    {
      hide Linked, ItemLinked, InsertAt, IndexOf;
      m' := m;
      if after != null {
        AttachedIn(m, after);
        m' := InsertAfter(after, m);
      } else if newParent != null {
        m' := InsertLast(newParent, m);
      }
    }

    method InsertAfter(after: XmlItem, ghost m: Arena) returns (ghost m': Arena)
      requires Linked(m) && this in m && this.parent == null
      requires after in m && after.parent != null && after.parent != this
      modifies m.Keys
      ensures Attached(m, old(after.parent), after) && Linked(m')
      ensures m' == Inserted(m, old(after.parent), IndexOf(m[old(after.parent)].kids, after) + 1, this)
      ensures forall x :: x in m && x != this ==> x.parent == old(x.parent)
    {
      hide Linked, ItemLinked, InsertAt;
      AttachedIn(m, after);
      ghost var p, i := after.parent, IndexOf(m[after.parent].kids, after) + 1;
      m' := Inserted(m, p, i, this);
      parent := after.parent;
      next := after.next;
      prev := after;
      if next != null {
        next.prev := this;
      }
      after.next := this;
      InsertDone(m, p, i, this);
    }

    method InsertLast(newParent: XmlItem, ghost m: Arena) returns (ghost m': Arena)
      requires Linked(m) && this in m && this.parent == null && newParent in m && newParent != this
      modifies m.Keys
      ensures m' == Inserted(m, newParent, |m[newParent].kids|, this) && Linked(m')
      ensures forall x :: x in m && x != this ==> x.parent == old(x.parent)
    {
      hide Linked, ItemLinked, InsertAt;
      ghost var kids := m[newParent].kids;
      m' := Inserted(m, newParent, |kids|, this);
      ChildrenOf(m, newParent);
      parent := newParent;
      if newParent.firstChild == null {
        next := null;
        prev := null;
        newParent.firstChild := this;
      } else {
        var item := newParent.firstChild;
        ghost var i := 0;
        while item.next != null
          invariant 0 <= i < |kids| && item == kids[i] && item != this
          decreases |kids| - i
        {
          assert ChildLinks(newParent, kids, i);
          item := item.next;
          i := i + 1;
        }
        assert ChildLinks(newParent, kids, i);
        next := null;
        item.next := this;
        prev := item;
      }
      InsertDone(m, newParent, |kids|, this);
    }

    /** Unlinks an attached item; its own links to its neighbours are left as they were. */
    method RemoveItem(ghost m: Arena) returns (ghost m': Arena)
      requires Linked(m) && this in m && parent != null
      modifies m.Keys
      ensures parent == null && next == old(next)
      ensures Attached(m, old(parent), this) && m' == Removed(m, old(parent), this)
      ensures Linked(m')
      ensures forall x :: x in m && x != this ==> x.parent == old(x.parent)
    {
      hide Linked, ItemLinked, RemoveAt, IndexOf;
      AttachedIn(m, this);
      ghost var p, i := parent, IndexOf(m[parent].kids, this);
      m' := Removed(m, p, this);
      if prev != null {
        prev.next := next;
      } else {
        parent.firstChild := next;
      }
      if next != null {
        next.prev := prev;
      }
      parent := null;
      RemoveDone(m, p, i, this);
    }
  }

  /** The scanning loops of a tag. */
  method SkipTo(u: string, start: nat, n: nat, stop: Stop) returns (i: nat)
    requires n <= |u|
    ensures i == Scan(u, start, n, stop)
  {
    i := start;
    while i < n && !Stops(u[i], stop)
      invariant Scan(u, i, n, stop) == Scan(u, start, n, stop)
      decreases n - i
    {
      i := i + 1;
    }
  }

  method BlanksToSpaces(t: string, n: nat) returns (u: string)
    requires n <= |t|
    ensures u == Normal(t, n)
  {
    u := t;
    var i := 0;
    while i < n
      invariant 0 <= i <= n && |u| == |t|
      invariant forall k :: 0 <= k < |t| ==> u[k] == if k < i && IsBlank(t[k]) then ' ' else t[k]
    {
      if u[i] == '\t' || u[i] == '\r' || u[i] == '\n' {
        u := u[i := ' '];
      }
      i := i + 1;
    }
  }

  method ReadAttributes(u: string, start: nat, n: nat) returns (props: seq<Prop>)
    requires n <= |u|
    ensures props == Attributes(u, start, n)
  {
    hide Attributes, NextAttribute;
    props := [];
    var i := start;
    while i < n
      invariant props + Attributes(u, i, n) == Attributes(u, start, n)
      decreases n - i
    {
      AttributesStep(u, i, n);
      var a := ReadAttribute(u, i, n);
      if a == None {
        return;
      }
      props := props + [a.value.prop];
      i := a.value.next;
    }
    AttributesEnd(u, i, n);
  }

  /** One round of the attribute loop: blanks, a key, '=', a quoted value. */
  method ReadAttribute(u: string, start: nat, n: nat) returns (a: Option<Attribute>)
    requires start < n <= |u|
    ensures a == NextAttribute(u, start, n)
  {
    hide Scan, ValueEnd;
    var i := SkipTo(u, start, n, NonSpace);
    var j := i;
    i := SkipTo(u, i, n, SpaceOrEq);
    var key := u[j..i];
    i := SkipTo(u, i, n, Eq);
    if i == n {
      return None;
    }
    i := SkipTo(u, i, n, Quote);
    i := i + 1;
    j := i;
    var found;
    found, i := SkipValue(u, i, n);
    if !found {
      return None;
    }
    a := Some(Attribute(Prop(key, u[j..i]), i + 1));
  }

  /** The loop over a quoted value: stops at its closing quote, or runs past the end. */
  method SkipValue(u: string, start: nat, n: nat) returns (found: bool, i: nat)
    requires n <= |u|
    ensures found <==> ValueEnd(u, start, n).Some?
    ensures if found then i == ValueEnd(u, start, n).value else i >= n
  {
    i := start;
    while i < n
      invariant ValueEnd(u, i, n) == ValueEnd(u, start, n)
      decreases n - i
    {
      if u[i] == '\\' {
        i := i + 2;
      } else if u[i] != '"' {
        i := i + 1;
      } else {
        return true, i;
      }
    }
    found := false;
  }

  lemma AttributesStep(u: string, i: nat, n: nat)
    requires n <= |u|
    ensures Attributes(u, i, n) == match NextAttribute(u, i, n)
      case None => []
      case Some(a) => [a.prop] + Attributes(u, a.next, n)
  {
  }

  lemma AttributesEnd(u: string, i: nat, n: nat)
    requires n <= |u| && (i >= n || NextAttribute(u, i, n).None?)
    ensures Attributes(u, i, n) == []
  {
  }

  lemma {:induction false} PropsTextSnoc(ps: seq<Prop>, p: Prop)
    ensures PropsText(ps + [p]) == PropsText(ps) + PropText(p)
    decreases |ps|
  {
    if ps != [] {
      assert (ps + [p])[1..] == ps[1..] + [p];
      PropsTextSnoc(ps[1..], p);
    }
  }

  lemma SetNew(ps: seq<Prop>, key: string, value: string)
    requires ps == []
    ensures SetProp(ps, key, value) == [Prop(key, value)]
  {
  }

  lemma SetFirst(ps: seq<Prop>, i: nat, key: string, value: string)
    requires i < |ps| && SameKey(ps[i].key, key)
    ensures ps[..i] + SetProp(ps[i..], key, value) == ps[i := Prop(ps[i].key, value)]
  {
    hide SameKey;
    assert ps[i..][1..] == ps[i + 1..];
  }

  lemma SetLater(ps: seq<Prop>, i: nat, key: string, value: string)
    requires i < |ps| && !SameKey(ps[i].key, key)
    ensures ps[..i] + SetProp(ps[i..], key, value) == ps[..i + 1] + SetProp(ps[i + 1..], key, value)
  {
    hide SameKey;
    assert ps[i..][1..] == ps[i + 1..];
  }

  datatype Cell = Cell(name: string, props: seq<Prop>, kids: seq<XmlItem>)

  type Arena = map<XmlItem, Cell>

  /** The links of the `i`-th child of `p`. */
  ghost predicate ChildLinks(p: XmlItem, kids: seq<XmlItem>, i: nat)
    requires i < |kids|
    reads kids[i]
  {
    && kids[i].parent == p
    && kids[i].prev == (if i == 0 then null else kids[i - 1])
    && kids[i].next == (if i == |kids| - 1 then null else kids[i + 1])
  }

  ghost predicate AllLinks(p: XmlItem, kids: seq<XmlItem>)
    reads kids
  {
    forall i {:trigger ChildLinks(p, kids, i)} :: 0 <= i < |kids| ==> ChildLinks(p, kids, i)
  }

  ghost predicate ItemLinked(m: Arena, p: XmlItem)
    requires p in m
    reads m.Keys
  {
    && p.name == m[p].name && p.props == m[p].props
    && p.firstChild == (if m[p].kids == [] then null else m[p].kids[0])
    && NoRepeats(m[p].kids)
    && (forall x :: x in m[p].kids ==> x in m && x.parent == p)
    && AllLinks(p, m[p].kids)
    && (p.parent != null ==> p.parent in m && p in m[p.parent].kids)
  }

  /** Every child list is doubly linked and agrees with the parent links, and nothing else
      has a parent. The neighbour links of items without a parent are unconstrained. */
  ghost predicate Linked(m: Arena)
    reads m.Keys
  {
    forall p :: p in m ==> ItemLinked(m, p)
  }

  ghost function IndexOf(s: seq<XmlItem>, x: XmlItem): (i: nat)
    requires x in s
    ensures i < |s| && s[i] == x
  {
    if s[0] == x then 0 else 1 + IndexOf(s[1..], x)
  }

  ghost function InsertAt(s: seq<XmlItem>, i: nat, x: XmlItem): seq<XmlItem>
    requires i <= |s|
  {
    s[..i] + [x] + s[i..]
  }

  lemma InsertAtMembers(s: seq<XmlItem>, i: nat, x: XmlItem)
    requires i <= |s|
    ensures InsertAt(s, i, x) != [] && InsertAt(s, i, x)[0] == if i == 0 then x else s[0]
    ensures forall y :: y in InsertAt(s, i, x) <==> y == x || y in s
  {
    var r := InsertAt(s, i, x);
    assert r[i] == x;
    forall y | y in s
      ensures y in r
    {
      var k :| 0 <= k < |s| && s[k] == y;
      assert r[if k < i then k else k + 1] == y;
    }
  }

  ghost function RemoveAt(s: seq<XmlItem>, i: nat): seq<XmlItem>
    requires i < |s|
  {
    s[..i] + s[i + 1..]
  }

  ghost function Inserted(m: Arena, p: XmlItem, i: nat, x: XmlItem): Arena
    requires p in m && i <= |m[p].kids|
  {
    m[p := m[p].(kids := InsertAt(m[p].kids, i, x))]
  }

  ghost predicate Attached(m: Arena, p: XmlItem, x: XmlItem) {
    p in m && x in m[p].kids
  }

  ghost function Removed(m: Arena, p: XmlItem, x: XmlItem): Arena
    requires Attached(m, p, x)
  {
    m[p := m[p].(kids := RemoveAt(m[p].kids, IndexOf(m[p].kids, x)))]
  }

  lemma ChildrenOf(m: Arena, p: XmlItem)
    requires Linked(m) && p in m
    ensures p.name == m[p].name && p.props == m[p].props
    ensures p.firstChild == if m[p].kids == [] then null else m[p].kids[0]
    ensures NoRepeats(m[p].kids)
    ensures forall x :: x in m[p].kids ==> x in m && x.parent == p
    ensures AllLinks(p, m[p].kids)
  {
    assert ItemLinked(m, p);
  }

  /** The first of the children that are left. */
  lemma FirstOf(m: Arena, p: XmlItem, kids: seq<XmlItem>, i: nat)
    requires Linked(m) && p in m && i < |kids| && m[p].kids == kids[i..]
    ensures Attached(m, p, kids[i]) && kids[i] in m && kids[i].parent == p
    ensures kids[i].next == if i + 1 < |kids| then kids[i + 1] else null
    ensures IndexOf(m[p].kids, kids[i]) == 0 && RemoveAt(m[p].kids, 0) == kids[i + 1..]
  {
    ChildrenOf(m, p);
    assert kids[i..][0] == kids[i];
    assert ChildLinks(p, m[p].kids, 0);
  }

  lemma ParentOf(m: Arena, p: XmlItem, x: XmlItem)
    requires Linked(m) && Attached(m, p, x)
    ensures x in m && x.parent == p && NoRepeats(m[p].kids)
    ensures forall q :: q in m && x in m[q].kids ==> q == p
  {
    assert ItemLinked(m, p);
    forall q | q in m && x in m[q].kids
      ensures q == p
    {
      assert ItemLinked(m, q);
    }
  }

  lemma AttachedIn(m: Arena, x: XmlItem)
    requires Linked(m) && x in m && x.parent != null
    ensures Attached(m, x.parent, x)
    ensures ChildLinks(x.parent, m[x.parent].kids, IndexOf(m[x.parent].kids, x))
    ensures x.prev != null ==> x.prev in m && x.prev != x && x.prev.parent == x.parent
    ensures x.next != null ==> x.next in m && x.next != x && x.next.parent == x.parent && x.next != x.prev
  {
    assert ItemLinked(m, x);
    assert ItemLinked(m, x.parent);
    var kids := m[x.parent].kids;
    var i := IndexOf(kids, x);
    assert ChildLinks(x.parent, kids, i);
    if i > 0 {
      assert kids[i - 1] in kids;
    }
    if i + 1 < |kids| {
      assert kids[i + 1] in kids;
    }
  }

  /** Only the links around position `i` change when `x` is put there. */
  twostate lemma InsertedLinks(new p: XmlItem, kids: seq<XmlItem>, new i: nat, new x: XmlItem)
    requires old(allocated(p)) && old(allocated(x)) && i <= |kids| && x !in kids && NoRepeats(kids)
    requires old(AllLinks(p, kids))
    requires x.parent == p
    requires x.prev == (if i == 0 then null else kids[i - 1])
    requires x.next == (if i == |kids| then null else kids[i])
    requires forall k :: 0 <= k < |kids| ==> kids[k].parent == p
    requires forall k :: 0 <= k < |kids| ==> kids[k].prev == if k == i then x else old(kids[k].prev)
    requires forall k :: 0 <= k < |kids| ==> kids[k].next == if k + 1 == i then x else old(kids[k].next)
    ensures NoRepeats(InsertAt(kids, i, x))
    ensures AllLinks(p, InsertAt(kids, i, x))
  {
    var r := InsertAt(kids, i, x);
    forall k | 0 <= k <= |kids|
      ensures ChildLinks(p, r, k)
    {
      if k != i {
        var j := if k < i then k else k - 1;
        assert old(ChildLinks(p, kids, j)) && r[k] == kids[j];
      }
    }
  }

  /** Only the links around position `i` change when the item there is taken out. */
  twostate lemma RemovedLinks(new p: XmlItem, kids: seq<XmlItem>, new i: nat)
    requires old(allocated(p)) && i < |kids| && NoRepeats(kids)
    requires old(AllLinks(p, kids))
    requires forall k :: 0 <= k < |kids| && k != i ==> kids[k].parent == p
    requires forall k :: 0 <= k < |kids| && k != i ==>
      kids[k].prev == if k == i + 1 then old(kids[i].prev) else old(kids[k].prev)
    requires forall k :: 0 <= k < |kids| && k != i ==>
      kids[k].next == if k + 1 == i then old(kids[i].next) else old(kids[k].next)
    ensures NoRepeats(RemoveAt(kids, i)) && kids[i] !in RemoveAt(kids, i)
    ensures AllLinks(p, RemoveAt(kids, i))
  {
    var r := RemoveAt(kids, i);
    forall k | 0 <= k < |kids| - 1
      ensures ChildLinks(p, r, k)
    {
      var j := if k < i then k else k + 1;
      assert old(ChildLinks(p, kids, j)) && r[k] == kids[j] && old(ChildLinks(p, kids, i));
    }
  }

  /** An arena stays linked when only the child list of `p` changes. */
  twostate lemma KeepLinked(m: Arena, new m': Arena, new p: XmlItem)
    requires old(Linked(m)) && p in m && m'.Keys == m.Keys
    requires forall x :: x in m && x != p ==> m'[x] == m[x] && x.firstChild == old(x.firstChild)
    requires m'[p].name == m[p].name && m'[p].props == m[p].props
    requires forall x :: x in m ==> x.name == old(x.name) && x.props == old(x.props)
    requires forall x :: x in m && old(x.parent) != null && old(x.parent) != p ==>
      x.parent == old(x.parent) && x.prev == old(x.prev) && x.next == old(x.next)
    requires forall x :: x in m && (old(x.parent) == null || old(x.parent) == p) ==>
      x.parent == if x in m'[p].kids then p else null
    requires p.firstChild == (if m'[p].kids == [] then null else m'[p].kids[0])
    requires NoRepeats(m'[p].kids) && forall x :: x in m'[p].kids ==> x in m && x.parent == p
    requires AllLinks(p, m'[p].kids)
    ensures Linked(m')
  {
    forall q | q in m'
      ensures ItemLinked(m', q)
    {
      assert old(ItemLinked(m, q));
      if q != p {
        forall i | 0 <= i < |m[q].kids|
          ensures ChildLinks(q, m[q].kids, i)
        {
          assert old(ChildLinks(q, m[q].kids, i)) && m[q].kids[i] in m[q].kids;
        }
      }
    }
  }

  twostate lemma InsertDone(m: Arena, new p: XmlItem, new i: nat, new x: XmlItem)
    requires old(Linked(m)) && p in m && x in m && x != p && old(x.parent) == null && i <= |m[p].kids|
    requires x.parent == p
    requires x.prev == (if i == 0 then null else m[p].kids[i - 1])
    requires x.next == (if i == |m[p].kids| then null else m[p].kids[i])
    requires p.firstChild == if i == 0 then x else old(p.firstChild)
    requires forall y :: y in m ==> y.name == old(y.name) && y.props == old(y.props)
    requires forall y :: y in m && y != x ==> y.parent == old(y.parent)
    requires forall y :: y in m && y != p ==> y.firstChild == old(y.firstChild)
    requires forall y :: y in m && y != x ==>
      y.prev == if i < |m[p].kids| && y == m[p].kids[i] then x else old(y.prev)
    requires forall y :: y in m && y != x ==>
      y.next == if 0 < i && y == m[p].kids[i - 1] then x else old(y.next)
    ensures Linked(Inserted(m, p, i, x))
  {
    hide Linked, ItemLinked, InsertAt, AllLinks, NoRepeats;
    var kids := m[p].kids;
    KidsBefore(m, p);
    InsertAtMembers(kids, i, x);
    InsertedLinks(p, kids, i, x);
    assert allocated(i) && allocated(InsertAt(kids, i, x)); // the new list has no unallocated items
    KeepLinked(m, Inserted(m, p, i, x), p);
  }

  twostate lemma KidsBefore(m: Arena, new p: XmlItem)
    requires old(Linked(m)) && p in m
    ensures NoRepeats(m[p].kids)
    ensures forall x :: x in m[p].kids ==> x in m && old(x.parent) == p
    ensures old(AllLinks(p, m[p].kids))
    ensures old(p.firstChild) == if m[p].kids == [] then null else m[p].kids[0]
    ensures forall x :: x in m && old(x.parent) == p ==> x in m[p].kids
  {
    assert old(ItemLinked(m, p));
    forall x | x in m && old(x.parent) == p
      ensures x in m[p].kids
    {
      assert old(ItemLinked(m, x));
    }
  }

  lemma RemoveAtMembers(s: seq<XmlItem>, i: nat)
    requires i < |s| && NoRepeats(s)
    ensures forall y :: y in RemoveAt(s, i) <==> y in s && y != s[i]
    ensures RemoveAt(s, i) == [] <==> |s| == 1
    ensures |s| > 1 ==> RemoveAt(s, i)[0] == if i == 0 then s[1] else s[0]
  {
    forall y | y in s && y != s[i]
      ensures y in RemoveAt(s, i)
    {
      var k :| 0 <= k < |s| && s[k] == y;
      assert RemoveAt(s, i)[if k < i then k else k - 1] == y;
    }
  }

  twostate lemma OldLink(new p: XmlItem, kids: seq<XmlItem>, new i: nat)
    requires old(allocated(p)) && i < |kids| && old(AllLinks(p, kids))
    ensures old(ChildLinks(p, kids, i))
  {
  }

  twostate lemma RemoveDone(m: Arena, new p: XmlItem, new i: nat, new x: XmlItem)
    requires old(Linked(m)) && Attached(m, p, x) && i == IndexOf(m[p].kids, x) && x in m
    requires x.parent == null
    requires p.firstChild == if i == 0 then old(x.next) else old(p.firstChild)
    requires forall y :: y in m ==> y.name == old(y.name) && y.props == old(y.props)
    requires forall y :: y in m && y != x ==> y.parent == old(y.parent)
    requires forall y :: y in m && y != p ==> y.firstChild == old(y.firstChild)
    requires forall y :: y in m ==>
      y.prev == if i + 1 < |m[p].kids| && y == m[p].kids[i + 1] then old(x.prev) else old(y.prev)
    requires forall y :: y in m ==>
      y.next == if 0 < i && y == m[p].kids[i - 1] then old(x.next) else old(y.next)
    ensures Linked(Removed(m, p, x))
  {
    hide Linked, ItemLinked, RemoveAt, AllLinks, NoRepeats, IndexOf;
    var kids := m[p].kids;
    KidsBefore(m, p);
    RemoveAtMembers(kids, i);
    assert allocated(i) && allocated(RemoveAt(kids, i)); // the new list has no unallocated items
    RemovedLinks(p, kids, i);
    assert old(ChildLinks(p, kids, i)) by {
      OldLink(p, kids, i);
    }
    KeepLinked(m, Removed(m, p, x), p);
  }
}
