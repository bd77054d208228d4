/** The document class: it reads a text into linked items and prints them again. */
module XmlFiles {
  import opened Repeats
  import opened Wrappers
  import opened XmlBuilder
  import opened XmlItems
  import opened XmlShapes
  import opened XmlText

  class XmlFile {
    const root: XmlItem
    var text: string
    var pos: nat

    // The items that belong to the document, and a witness that no item is below itself.
    ghost var arena: Arena
    ghost var rank: map<XmlItem, nat>
    ghost var height: nat

    ghost predicate Valid()
      reads this, arena.Keys
    {
      root in arena && root.parent == null && Linked(arena) && Ranked(arena, rank, height)
    }

    /** The tree that the root stands for. */
    ghost function Doc(): Tree
      requires Valid()
      reads this, arena.Keys
    {
      TreeOf(arena, rank, height, root)
    }

    constructor ()
      ensures Valid() && Doc() == Node("", [], []) && fresh(arena.Keys)
    {
      root := new XmlItem();
      text, pos := "", 0;
      new;
      arena := map[root := Cell("", [], [])];
      rank := map[root := 0];
      height := 1;
    }

    /** Moves past the next tag of the text and returns it; empty when there is none. */
    method GetNextXMLItemText() returns (tag: string)
      requires pos <= |text|
      modifies `pos
      ensures match old(NextToken(text, pos))
        case None => tag == "" && pos == old(pos)
        case Some(t) => tag == t.text && pos == t.pos
    {
      var i := pos;
      while i < |text| && text[i] != '<'
        invariant pos <= i <= |text| && OpenFrom(text, i) == OpenFrom(text, pos)
      {
        i := i + 1;
      }
      if i == |text| {
        return "";
      }
      var start := i;
      var quoted := false;
      while i < |text|
        invariant start <= i && pos == old(pos)
        invariant TagEnd(text, i, quoted) == TagEnd(text, start, false)
        decreases |text| - i
      {
        if text[i] == '"' {
          quoted := !quoted;
          i := i + 1;
        } else if text[i] == '\\' {
          i := i + 2;
        } else if !quoted && text[i] == '>' {
          pos := i + 1;
          return text[start..pos];
        } else {
          i := i + 1;
        }
      }
      return "";
    }

    /** The text of an item and of all that is below it. */
    method BuildItemText(tab: string, item: XmlItem, ghost t: Tree) returns (r: string)
      requires Valid() && Represents(arena, item, t) && item.parent != null
      ensures r == PrintItem(tab, t, item.parent == root)
      decreases t
    {
      hide Linked, Ranked, RepresentAll, PrintItems, TagText, CloseText;
      r := "";
      ghost var kids := arena[item].kids;
      ghost var i := 0;
      var child := item.firstChild;
      ChildrenOf(arena, item);
      SameLength(arena, kids, t.kids);
      assert kids[0..] == kids && t.kids[0..] == t.kids;
      while child != null
        invariant 0 <= i <= |kids| == |t.kids| && child == if i < |kids| then kids[i] else null
        invariant RepresentAll(arena, kids[i..], t.kids[i..])
        invariant r + PrintItems(tab + "\t", t.kids[i..], false) == PrintItems(tab + "\t", t.kids, false)
        decreases |kids| - i
      {
        assert kids[i] in kids && ChildLinks(item, kids, i);
        KidStep(arena, kids, t.kids, i, tab + "\t", false);
        var s := BuildItemText(tab + "\t", child, t.kids[i]);
        r := r + s;
        child := child.next;
        i := i + 1;
      }
      PrintNone(tab + "\t", t.kids[i..], false);
      if |r| == 0 && item.props == [] {
        return "";
      }
      if |r| > 0 || item.parent == root {
        var head := item.GetItemText(false);
        r := tab + head + "\r\n" + r;
        var foot := CloseText(item.name) + "\r\n";
        r := r + (tab + foot);
      } else {
        var only := item.GetItemText(true);
        r := tab + only + "\r\n";
      }
    }

    /** Prints the document; the text it returns is also kept. */
    method GetText() returns (r: string)
      requires Valid()
      modifies `text
      ensures Valid() && Doc() == old(Doc())
      ensures r == text == PrintDoc(Doc().kids)
    {
      hide Linked, Ranked, RepresentAll, PrintItems, PrintItem;
      ghost var t := Doc();
      ghost var kids := arena[root].kids;
      ghost var i := 0;
      text := [BOM];
      var child := root.firstChild;
      ChildrenOf(arena, root);
      SameLength(arena, kids, t.kids);
      assert kids[0..] == kids && t.kids[0..] == t.kids;
      while child != null
        invariant Valid() && Doc() == t
        invariant 0 <= i <= |kids| == |t.kids| && child == if i < |kids| then kids[i] else null
        invariant RepresentAll(arena, kids[i..], t.kids[i..])
        invariant text + PrintItems("", t.kids[i..], true) == PrintDoc(t.kids)
        decreases |kids| - i
      {
        assert kids[i] in kids && ChildLinks(root, kids, i);
        KidStep(arena, kids, t.kids, i, "", true);
        var s := BuildItemText("", child, t.kids[i]);
        text := text + s;
        child := child.next;
        i := i + 1;
      }
      PrintNone("", t.kids[i..], true);
      r := text;
    }

    /** Where the loader stands: `parentItem` ends the path of open items from the root,
        whose frames the builder has, and `prevItem` is its last child. */
    ghost predicate Loading(open: seq<XmlItem>, frames: seq<Frame>, done: set<XmlItem>,
                            parentItem: XmlItem, prevItem: XmlItem?)
      reads this, arena.Keys
    {
      && Valid() && |open| == |frames| > 0 && open[0] == root && parentItem == open[|open| - 1]
      && Cursor(arena, done, open, frames)
      && parentItem in arena && prevItem == LastKid(arena, parentItem)
    }

    /** Replaces the document by the one in a text. Reading a text that Parse rejects
        would follow the null parent of the root. */
    method LoadFromText(s: string)
      requires Valid()
      requires Parse(root.name, root.props, s).Some?
      modifies this, arena.Keys
      ensures Valid() && fresh(arena.Keys - old(arena.Keys)) && text == s
      ensures Doc() == Parse(old(root.name), old(root.props), s).value
    {
      hide Linked, Ranked, Tokens, Build, Represents;
      Release();
      text := s;
      pos := 0;
      ghost var final := Build(Tokens(s, 0), Start(root.name, root.props));
      LoadTags(final);
      UniqueTree(arena, root, Doc(), Collapse(final.open));
    }

    /** The loop over the tags of the text, into a document without items. */
    method LoadTags(ghost final: State)
      requires Valid() && arena[root] == Cell(root.name, root.props, []) && pos == 0
      requires final == Build(Tokens(text, 0), Start(root.name, root.props)) && final.State?
      modifies `pos, `arena, `rank, `height, arena.Keys
      ensures Valid() && fresh(arena.Keys - old(arena.Keys)) && Represents(arena, root, Collapse(final.open))
    {
      hide Linked, Ranked, Cursor, Tokens, Build, Step, Represents;
      ghost var start := Start(root.name, root.props);
      ghost var open, frames, done := [root], start.open, {};
      StartCursor(arena, root);
      NextTag(text, 0, start);
      var tag := GetNextXMLItemText();
      var closing := "";
      var parentItem: XmlItem := root;
      var prevItem: XmlItem? := null;
      while tag != ""
        invariant fresh(arena.Keys - old(arena.Keys)) && pos <= |text|
        invariant Loading(open, frames, done, parentItem, prevItem)
        invariant tag == "" || IsToken(tag)
        invariant final == Remaining(tag, text, pos, State(frames, closing))
        decreases |text| - pos, tag != ""
      {
        ReadStep(tag, text, pos, State(frames, closing));
        NextTag(text, pos, Step(State(frames, closing), tag));
        parentItem, prevItem, closing, open, frames, done :=
          AddTag(tag, parentItem, prevItem, closing, open, frames, done);
        tag := GetNextXMLItemText();
      }
      CloseCursor(arena, done, open, frames);
    }

    /** One round of the loader takes the builder's step on the items. */
    method AddTag(tag: string, parentItem: XmlItem, prevItem: XmlItem?, closing: string,
                  ghost open: seq<XmlItem>, ghost frames: seq<Frame>, ghost done: set<XmlItem>)
      returns (parentItem': XmlItem, prevItem': XmlItem?, closing': string,
               ghost open': seq<XmlItem>, ghost frames': seq<Frame>, ghost done': set<XmlItem>)
      requires IsToken(tag) && Loading(open, frames, done, parentItem, prevItem)
      requires Step(State(frames, closing), tag) != Crash
      modifies `arena, `rank, `height, arena.Keys
      ensures fresh(arena.Keys - old(arena.Keys))
      ensures Loading(open', frames', done', parentItem', prevItem')
      ensures Step(State(frames, closing), tag) == State(frames', closing')
    {
      hide Linked, Ranked, Cursor, ReadTag, Pop, AddKids, ParseTag, Readable;
      var item := new XmlItem();
      TokenTrim(tag);
      var ok := item.Init(tag);
      ghost var st := Step(State(frames, closing), tag);
      if closing == item.name {
        PopCursor(arena, done, open, frames);
        OpenParent(arena, done, open, frames);
        prevItem' := parentItem;
        parentItem' := parentItem.parent;
        closing' := "/" + parentItem'.name;
        done', open', frames' := done + {parentItem}, open[..|open| - 1], st.open;
      } else {
        ghost var f := Frame(item.name, item.props, []);
        PushCursor(arena, done, open, frames, item, f);
        InsertNew(item, parentItem, prevItem);
        if tag[|tag| - 2] == '/' {
          prevItem', parentItem', closing' := item, parentItem, closing;
          PopCursor(arena, done, open + [item], frames + [f]);
          PopPushed(frames, f);
          assert (open + [item])[..|open|] == open;
          done', open', frames' := done + {item}, open, st.open;
        } else {
          parentItem', prevItem', closing' := item, null, "/" + item.name;
          done', open', frames' := done, open + [item], st.open;
        }
      }
    }

    /** A new item becomes the last child of `parentItem`, whose last child was `prevItem`. */
    method InsertNew(item: XmlItem, parentItem: XmlItem, prevItem: XmlItem?)
      requires Valid() && item !in arena && parentItem in arena && prevItem == LastKid(arena, parentItem)
      requires item.parent == null && item.firstChild == null
      modifies `arena, `rank, `height, arena.Keys, item
      ensures Valid() && arena == WithChild(old(arena), parentItem, item, Frame(item.name, item.props, []))
      ensures item.name == old(item.name) && item.props == old(item.props)
    {
      hide Linked, Ranked;
      ghost var m := arena;
      ChildrenOf(arena, parentItem);
      InsertedAtEnd(m, parentItem, prevItem, item);
      RankedWithChild(m, rank, height, parentItem, item, Frame(item.name, item.props, []));
      AddDetached(m, item);
      RankDomain(m, rank, height);
      arena := m[item := Cell(item.name, item.props, [])];
      arena := item.InsertItem(parentItem, prevItem, arena);
      ChildrenOf(arena, item);
      rank := rank[item := rank[parentItem] + 1];
      height := height + 1;
    }

    /** Removes every item but the root. */
    method Release()
      requires Valid()
      modifies `arena, arena.Keys
      ensures Valid() && arena.Keys <= old(arena.Keys)
      ensures arena[root] == Cell(old(root.name), old(root.props), []) && Doc() == Node(old(root.name), old(root.props), [])
      ensures root.name == old(root.name) && root.props == old(root.props)
      ensures forall x :: x in arena && x != root ==> arena[x] == old(arena)[x]
      ensures forall x :: x in arena ==> x.parent == old(x.parent)
      ensures forall x :: x in old(arena) && x !in arena ==> old(x.parent) != null
    {
      hide Linked, Ranked, IndexOf, RemoveAt;
      ghost var kids := arena[root].kids;
      ghost var i := 0;
      ChildrenOf(arena, root);
      var child := root.firstChild;
      while child != null
        invariant Valid() && 0 <= i <= |kids| && child == (if i < |kids| then kids[i] else null)
        invariant arena.Keys <= old(arena.Keys)
        invariant arena[root] == old(arena)[root].(kids := kids[i..])
        invariant forall x :: x in arena && x != root ==> arena[x] == old(arena)[x]
        invariant forall x :: x in arena ==> x.parent == old(x.parent)
        invariant forall x :: x in old(arena) && x !in arena ==> old(x.parent) != null
        decreases |kids| - i
      {
        FirstOf(arena, root, kids, i);
        var nextChild := child.next;
        ReleaseItem(child);
        child := nextChild;
        i := i + 1;
      }
      ChildrenOf(arena, root);
      UniqueTree(arena, root, Doc(), Node(root.name, root.props, []));
    }

    /** Removes an attached item and all that is below it. */
    method ReleaseItem(item: XmlItem)
      requires Valid() && item in arena && item.parent != null && item.parent in arena
      modifies `arena, arena.Keys
      ensures Valid() && arena.Keys <= old(arena.Keys) - {item} && old(item.parent) in arena
      ensures Attached(old(arena), old(item.parent), item)
      ensures forall x :: x in arena ==> arena[x] == Removed(old(arena), old(item.parent), item)[x]
      ensures forall x :: x in arena ==> x.parent == old(x.parent)
      ensures forall x :: x in old(arena) && x !in arena ==> old(x.parent) != null && rank[item] <= rank[x]
      decreases height - rank[item], 1
    {
      hide Linked, Ranked, RemoveAt, IndexOf;
      AttachedIn(arena, item);
      RankOf(arena, rank, height, item.parent, item);
      ReleaseChilds(item);
      Discard(item);
    }

    /** The loop of ReleaseItem: the item loses everything below it. */
    method ReleaseChilds(item: XmlItem)
      requires Valid() && item in arena
      modifies `arena, arena.Keys
      ensures Valid() && item in arena && arena.Keys <= old(arena.Keys)
      ensures arena[item] == old(arena)[item].(kids := [])
      ensures forall x :: x in arena && x != item ==> arena[x] == old(arena)[x]
      ensures forall x :: x in arena ==> x.parent == old(x.parent)
      ensures forall x :: x in old(arena) && x !in arena ==> old(x.parent) != null && rank[item] < rank[x]
      decreases height - rank[item], 0
    {
      hide Linked, Ranked, RemoveAt, IndexOf;
      ghost var kids := arena[item].kids;
      ghost var i := 0;
      ChildrenOf(arena, item);
      RankDomain(arena, rank, height);
      var child := item.firstChild;
      while child != null
        invariant Valid() && item in arena && 0 <= i <= |kids| && child == (if i < |kids| then kids[i] else null)
        invariant arena.Keys <= old(arena.Keys)
        invariant arena[item] == old(arena)[item].(kids := kids[i..])
        invariant forall x :: x in arena && x != item ==> arena[x] == old(arena)[x]
        invariant forall x :: x in arena ==> x.parent == old(x.parent)
        invariant forall x :: x in old(arena) && x !in arena ==> old(x.parent) != null && rank[item] < rank[x]
        decreases |kids| - i
      {
        FirstOf(arena, item, kids, i);
        RankOf(arena, rank, height, item, child);
        var nextChild := child.next;
        ReleaseItem(child);
        child := nextChild;
        i := i + 1;
      }
      assert kids[i..] == [];
    }

    /** The end of ReleaseItem: an attached item without children is unlinked and deleted. */
    method Discard(item: XmlItem)
      requires Valid() && item in arena && item.parent != null && arena[item].kids == []
      modifies `arena, arena.Keys
      ensures Attached(old(arena), old(item.parent), item) && old(item.parent) != item
      ensures Valid() && arena == Removed(old(arena), old(item.parent), item) - {item}
      ensures forall x :: x in arena ==> x.parent == old(x.parent)
    {
      hide Linked, Ranked;
      ghost var up := item.parent;
      AttachedIn(arena, item);
      RankOf(arena, rank, height, up, item);
      ParentOf(arena, up, item);
      DropRanked(arena, rank, height, up, item);
      arena := item.RemoveItem(arena);
      DropItem(arena, item);
      arena := arena - {item};
    }
  }

  ghost function LastKid(m: Arena, p: XmlItem): XmlItem?
    requires p in m
  {
    if m[p].kids == [] then null else m[p].kids[|m[p].kids| - 1]
  }

  /** What the builder still has to do: the tag that was read last, then the rest. */
  ghost function Remaining(tag: string, s: string, pos: nat, st: State): State
    requires pos <= |s| && Live(st) && (tag == "" || IsToken(tag))
  {
    if tag == "" then st else Build(Tokens(s, pos), Step(st, tag))
  }

  lemma NextTag(s: string, pos: nat, st: State)
    requires pos <= |s| && Live(st)
    ensures Build(Tokens(s, pos), st) == match NextToken(s, pos)
      case None => st
      case Some(t) => Remaining(t.text, s, t.pos, st)
  {
  }

  lemma ReadStep(tag: string, s: string, pos: nat, st: State)
    requires pos <= |s| && Live(st) && IsToken(tag) && Remaining(tag, s, pos, st) != Crash
    ensures Step(st, tag) != Crash && Live(Step(st, tag))
  {
    CrashKept(Tokens(s, pos));
  }

  lemma TokenTrim(tag: string)
    requires IsToken(tag)
    ensures Readable(tag) && ParseTag(tag) == Some(ReadTag(tag))
  {
    assert TrimLeft(tag) == tag;
    assert TrimRight(tag) == tag;
  }

  lemma StartCursor(m: Arena, root: XmlItem)
    requires root in m && m[root].kids == []
    ensures Cursor(m, {}, [root], [Frame(m[root].name, m[root].props, [])])
  {
  }

  /** Going up from the innermost open item leads to the next one. */
  lemma OpenParent(m: Arena, done: set<XmlItem>, open: seq<XmlItem>, frames: seq<Frame>)
    requires Cursor(m, done, open, frames) && |open| >= 2 && Linked(m)
    ensures open[|open| - 1] in m && open[|open| - 1].parent == open[|open| - 2]
    ensures open[|open| - 2] in m && LastKid(m, open[|open| - 2]) == open[|open| - 1]
    ensures open[|open| - 2].name == frames[|open| - 2].name == LastName(Pop(frames))
  {
    var n := |open|;
    var p, f := open[n - 2], frames[n - 2];
    assert OpenItem(m, done, p, f, Inside(open, n - 2));
    assert OpenItem(m, done, open[n - 1], frames[n - 1], Inside(open, n - 1));
    assert m[p].kids[|f.kids|..][0] == open[n - 1];
    ChildrenOf(m, p);
  }

  lemma InsertedAtEnd(m: Arena, p: XmlItem, prev: XmlItem?, x: XmlItem)
    requires p in m && x !in m && prev == LastKid(m, p) && NoRepeats(m[p].kids)
    ensures var m1 := m[x := Cell(x.name, x.props, [])];
      var i := if prev == null then |m[p].kids| else IndexOf(m[p].kids, prev) + 1;
      i == |m[p].kids| && Inserted(m1, p, i, x) == WithChild(m, p, x, Frame(x.name, x.props, []))
  {
    assert InsertAt(m[p].kids, |m[p].kids|, x) == m[p].kids + [x];
  }

  lemma AddDetached(m: Arena, x: XmlItem)
    requires Linked(m) && x !in m && x.parent == null && x.firstChild == null
    ensures Linked(m[x := Cell(x.name, x.props, [])])
  {
    var m' := m[x := Cell(x.name, x.props, [])];
    forall p | p in m'
      ensures ItemLinked(m', p)
    {
      if p != x {
        assert ItemLinked(m, p);
      }
    }
  }

  lemma RankedWithChild(m: Arena, rank: map<XmlItem, nat>, height: nat, p: XmlItem, x: XmlItem, f: Frame)
    requires Ranked(m, rank, height) && p in m && x !in m
    ensures Ranked(WithChild(m, p, x, f), rank[x := rank[p] + 1], height + 1)
  {
  }

  lemma RankOf(m: Arena, rank: map<XmlItem, nat>, height: nat, p: XmlItem, c: XmlItem)
    requires Ranked(m, rank, height) && Attached(m, p, c)
    ensures c in m && rank[p] < rank[c] < height
  {
  }

  lemma RankDomain(m: Arena, rank: map<XmlItem, nat>, height: nat)
    requires Ranked(m, rank, height)
    ensures m.Keys <= rank.Keys
  {
  }

  lemma DropRanked(m: Arena, rank: map<XmlItem, nat>, height: nat, p: XmlItem, x: XmlItem)
    requires Ranked(m, rank, height) && Attached(m, p, x)
    requires forall q :: q in m && x in m[q].kids ==> q == p
    requires NoRepeats(m[p].kids)
    ensures Ranked(Removed(m, p, x) - {x}, rank, height)
  {
    hide IndexOf, RemoveAt, NoRepeats;
    var m' := Removed(m, p, x) - {x};
    RemovedMembers(m[p].kids, x);
    forall q, c | q in m' && c in m'[q].kids
      ensures c in m' && rank[q] < rank[c]
    {
      assert c in m[q].kids;
    }
  }

  lemma RemovedMembers(kids: seq<XmlItem>, x: XmlItem)
    requires x in kids && NoRepeats(kids)
    ensures forall c {:trigger c in kids} :: c in RemoveAt(kids, IndexOf(kids, x)) ==> c in kids && c != x
  {
    hide IndexOf;
  }

  /** A detached item without children can be deleted. */
  lemma DropItem(m: Arena, x: XmlItem)
    requires Linked(m) && x in m && x.parent == null && m[x].kids == []
    ensures Linked(m - {x})
  {
    var m' := m - {x};
    forall p | p in m'
      ensures ItemLinked(m', p)
    {
      assert ItemLinked(m, p);
    }
  }

  lemma KidStep(m: Arena, kids: seq<XmlItem>, ts: seq<Tree>, i: nat, tab: string, top: bool)
    requires i < |kids| == |ts| && RepresentAll(m, kids[i..], ts[i..])
    ensures Represents(m, kids[i], ts[i]) && RepresentAll(m, kids[i + 1..], ts[i + 1..])
    ensures PrintItems(tab, ts[i..], top) == PrintItem(tab, ts[i], top) + PrintItems(tab, ts[i + 1..], top)
  {
    assert kids[i..][1..] == kids[i + 1..] && ts[i..][1..] == ts[i + 1..];
  }

  lemma SameLength(m: Arena, kids: seq<XmlItem>, ts: seq<Tree>)
    requires RepresentAll(m, kids, ts)
    ensures |kids| == |ts|
  {
  }

  lemma PrintNone(tab: string, ts: seq<Tree>, top: bool)
    requires ts == []
    ensures PrintItems(tab, ts, top) == ""
  {
  }
}
