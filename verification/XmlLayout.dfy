/** How a document is laid out: one line for each tag of its pruned items, indented by its
    depth. */
module XmlLayout {
  import opened XmlRoundTrip
  import opened XmlText

  datatype Line = Line(depth: nat, tag: string)

  /** The lines of an item: an item on top always has an end tag, any other one only when it
      has children. */
  function Outline(t: Tree, depth: nat, top: bool): seq<Line>
    decreases t
  {
    if t.kids == [] && !top then [Line(depth, TagText(t.name, t.props, true))]
    else
      [Line(depth, TagText(t.name, t.props, false))] + OutlineAll(t.kids, depth + 1, false) +
      [Line(depth, "</" + t.name + ">")]
  }

  function OutlineAll(ts: seq<Tree>, depth: nat, top: bool): seq<Line>
    decreases ts
  {
    if ts == [] then [] else Outline(ts[0], depth, top) + OutlineAll(ts[1..], depth, top)
  }

  function Tabs(n: nat): string {
    if n == 0 then "" else Tabs(n - 1) + "\t"
  }

  function LinesText(ls: seq<Line>): string {
    if ls == [] then "" else Tabs(ls[0].depth) + ls[0].tag + "\r\n" + LinesText(ls[1..])
  }

  lemma {:induction false} LinesConcat(a: seq<Line>, b: seq<Line>)
    ensures LinesText(a + b) == LinesText(a) + LinesText(b)
    decreases |a|
  {
    hide Tabs;
    if a == [] {
      assert a + b == b;
    } else {
      assert (a + b)[1..] == a[1..] + b;
      LinesConcat(a[1..], b);
    }
  }

  lemma OneLine(l: Line)
    ensures LinesText([l]) == Tabs(l.depth) + l.tag + "\r\n"
  {
    hide Tabs;
    assert [l][1..] == [];
  }

  lemma {:induction false} PrintedItem(t: Tree, depth: nat, top: bool)
    ensures PrintItem(Tabs(depth), t, top) == LinesText(OutlineAll(Prune(t), depth, top))
    decreases t
  {
    hide TagText, LinesText, Tabs;
    var tab, kids := Tabs(depth), PruneAll(t.kids);
    TabsMore(depth);
    PrintedItems(t.kids, depth + 1, false);
    NothingPrinted(Tabs(depth + 1), t.kids);
    if kids != [] || t.props != [] {
      var p := Node(t.name, t.props, kids);
      OutlineOne(p, depth, top);
      if kids == [] && !top {
        OneLine(Line(depth, TagText(t.name, t.props, true)));
      } else {
        var a, c := Line(depth, TagText(t.name, t.props, false)), Line(depth, "</" + t.name + ">");
        OneLine(a);
        OneLine(c);
        LinesConcat([a] + OutlineAll(kids, depth + 1, false), [c]);
        LinesConcat([a], OutlineAll(kids, depth + 1, false));
      }
    } else {
      NoLines(depth, top);
    }
  }

  lemma TabsMore(depth: nat)
    ensures Tabs(depth + 1) == Tabs(depth) + "\t"
  {
  }

  lemma NoLines(depth: nat, top: bool)
    ensures LinesText(OutlineAll([], depth, top)) == ""
  {
  }

  lemma OutlineOne(p: Tree, depth: nat, top: bool)
    ensures OutlineAll([p], depth, top) == Outline(p, depth, top)
  {
    hide Outline;
    assert [p][1..] == [];
  }

  lemma {:induction false} PrintedItems(ts: seq<Tree>, depth: nat, top: bool)
    ensures PrintItems(Tabs(depth), ts, top) == LinesText(OutlineAll(PruneAll(ts), depth, top))
    decreases ts
  {
    hide Tabs, LinesText, PrintItem, Prune;
    if ts != [] {
      PrintedItem(ts[0], depth, top);
      PrintedItems(ts[1..], depth, top);
      OutlineConcat(Prune(ts[0]), PruneAll(ts[1..]), depth, top);
      LinesConcat(OutlineAll(Prune(ts[0]), depth, top), OutlineAll(PruneAll(ts[1..]), depth, top));
    } else {
      NoLines(depth, top);
    }
  }

  lemma {:induction false} OutlineConcat(a: seq<Tree>, b: seq<Tree>, depth: nat, top: bool)
    ensures OutlineAll(a + b, depth, top) == OutlineAll(a, depth, top) + OutlineAll(b, depth, top)
    decreases |a|
  {
    hide Outline;
    if a == [] {
      assert a + b == b;
    } else {
      assert (a + b)[1..] == a[1..] + b;
      OutlineConcat(a[1..], b, depth, top);
    }
  }

  /** A document is a byte order mark and the lines of its pruned items. */
  lemma PrintedDocument(ts: seq<Tree>)
    ensures PrintDoc(ts) == ['\U{FEFF}'] + LinesText(OutlineAll(PruneAll(ts), 0, true))
  {
    hide LinesText;
    PrintedItems(ts, 0, true);
  }
}
