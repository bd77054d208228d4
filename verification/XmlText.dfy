/** The text side of the XML dialect: tags, documents, their printer and their
    parser as functions on strings and trees. The classes in XmlItem and XmlFile
    are proved against these functions; the round trip is proved in XmlRoundTrip. */
module XmlText {
  import opened Wrappers

  datatype Prop = Prop(key: string, value: string)

  datatype Tree = Node(name: string, props: seq<Prop>, kids: seq<Tree>)

  // ---------------------------------------------------------------- scanning

  predicate IsBlank(c: char) {
    c == ' ' || c == '\t' || c == '\r' || c == '\n'
  }

  /** What a scan through a tag looks for; blanks are spaces by then. */
  datatype Stop = NonSpace | Space | SpaceOrEq | Eq | Quote

  predicate Stops(c: char, stop: Stop) {
    match stop
    case NonSpace => c != ' '
    case Space => c == ' '
    case SpaceOrEq => c == ' ' || c == '='
    case Eq => c == '='
    case Quote => c == '"'
  }

  /** The first position from `i` on, below `n`, at which the scan stops. */
  function Scan(u: string, i: nat, n: nat, stop: Stop): (j: nat)
    requires n <= |u|
    ensures i <= j && (i <= n ==> j <= n) && (i > n ==> j == i)
    decreases n - i
  {
    if i >= n || Stops(u[i], stop) then i else Scan(u, i + 1, n, stop)
  }

  /** The first unescaped quote from `i` on, below `n`. */
  function ValueEnd(u: string, i: nat, n: nat): (e: Option<nat>)
    requires n <= |u|
    ensures e.Some? ==> i <= e.value < n && u[e.value] == '"'
    decreases n - i
  {
    if i >= n then None
    else if u[i] == '\\' then ValueEnd(u, i + 2, n)
    else if u[i] != '"' then ValueEnd(u, i + 1, n)
    else Some(i)
  }

  // ------------------------------------------------------------ one tag's text

  predicate IsTrimmed(c: char) {
    c as int <= 32
  }

  function TrimLeft(s: string): (r: string)
    ensures r != [] ==> !IsTrimmed(r[0])
    ensures |r| <= |s| && r == s[|s| - |r|..]
  {
    if s != [] && IsTrimmed(s[0]) then TrimLeft(s[1..]) else s
  }

  function TrimRight(s: string): (r: string)
    ensures r != [] ==> !IsTrimmed(r[|r| - 1])
    ensures |r| <= |s| && r == s[..|r|]
  {
    if s != [] && IsTrimmed(s[|s| - 1]) then TrimRight(s[..|s| - 1]) else s
  }

  function Trim(s: string): string {
    TrimRight(TrimLeft(s))
  }

  /** Where a trimmed tag ends: before the last character, and before a slash there. */
  function TagLimit(t: string): (n: nat)
    requires |t| >= 2
    ensures n < |t|
  {
    if t[|t| - 2] == '/' then |t| - 2 else |t| - 1
  }

  /** Blanks before the limit become spaces. */
  function Normal(t: string, n: nat): (u: string)
    requires n <= |t|
    ensures |u| == |t|
    ensures forall k :: 0 <= k < |t| ==> u[k] == if k < n && IsBlank(t[k]) then ' ' else t[k]
  {
    seq(|t|, k requires 0 <= k < |t| => if k < n && IsBlank(t[k]) then ' ' else t[k])
  }

  datatype Attribute = Attribute(prop: Prop, next: nat)

  /** The first attribute from position `i` on, and where it ends. */
  function NextAttribute(u: string, i: nat, n: nat): (a: Option<Attribute>)
    requires n <= |u|
    ensures a.Some? ==> i < a.value.next <= n
  {
    var k0 := Scan(u, i, n, NonSpace);
    var k1 := Scan(u, k0, n, SpaceOrEq);
    var e := Scan(u, k1, n, Eq);
    if e >= n then None
    else
      var v := Scan(u, e, n, Quote) + 1;
      match ValueEnd(u, v, n)
      case None => None
      case Some(q) => Some(Attribute(Prop(u[k0..k1], u[v..q]), q + 1))
  }

  function Attributes(u: string, i: nat, n: nat): (ps: seq<Prop>)
    requires n <= |u|
    decreases n - i
  {
    match NextAttribute(u, i, n)
    case None => []
    case Some(a) => [a.prop] + Attributes(u, a.next, n)
  }

  datatype Tag = Tag(name: string, props: seq<Prop>)

  /** The tag in a trimmed text. */
  function ReadTag(t: string): Tag
    requires |t| >= 2
  {
    var n := TagLimit(t);
    var u := Normal(t, n);
    var j := Scan(u, 1, n, NonSpace);
    var i := Scan(u, j, n, Space);
    Tag(u[j..i], Attributes(u, i, n))
  }

  /** The texts that a tag can be read from without indexing before the text. */
  predicate Readable(text: string) {
    var t := Trim(text);
    |t| >= 2 || (|t| == 1 && t[0] != '<' && t[0] != '>')
  }

  function ParseTag(text: string): (tag: Option<Tag>)
    requires Readable(text)
  {
    var t := Trim(text);
    if t[0] != '<' && t[|t| - 1] != '>' then None else Some(ReadTag(t))
  }

  function PropText(p: Prop): string {
    " " + p.key + "=\"" + p.value + "\""
  }

  function PropsText(ps: seq<Prop>): string {
    if ps == [] then "" else PropText(ps[0]) + PropsText(ps[1..])
  }

  function TagText(name: string, ps: seq<Prop>, end: bool): string {
    "<" + name + PropsText(ps) + if end then "/>" else ">"
  }

  function CloseText(name: string): string {
    "</" + name + ">"
  }

  // ------------------------------------------------------------- the tokenizer

  function OpenFrom(s: string, i: nat): (j: nat)
    requires i <= |s|
    ensures i <= j <= |s|
    ensures j < |s| ==> s[j] == '<'
    decreases |s| - i
  {
    if i == |s| || s[i] == '<' then i else OpenFrom(s, i + 1)
  }

  /** The position after the first '>' outside quotes; `quoted` tells whether `i` is inside. */
  function TagEnd(s: string, i: nat, quoted: bool): (e: Option<nat>)
    ensures e.Some? ==> i < e.value <= |s| && s[e.value - 1] == '>'
    decreases |s| - i
  {
    if i >= |s| then None
    else if s[i] == '"' then TagEnd(s, i + 1, !quoted)
    else if s[i] == '\\' then TagEnd(s, i + 2, quoted)
    else if !quoted && s[i] == '>' then Some(i + 1)
    else TagEnd(s, i + 1, quoted)
  }

  predicate IsToken(text: string) {
    |text| >= 2 && text[0] == '<' && text[|text| - 1] == '>'
  }

  datatype Token = Token(text: string, pos: nat)

  function NextToken(s: string, pos: nat): (t: Option<Token>)
    requires pos <= |s|
    ensures t.Some? ==> pos + 2 <= t.value.pos <= |s|
    ensures t.Some? ==> IsToken(t.value.text)
  {
    var i := OpenFrom(s, pos);
    if i == |s| then None
    else
      match TagEnd(s, i, false)
      case None => None
      case Some(e) =>
        Some(Token(s[i..e], e))
  }

  /** The tags of `s` from `pos` on. */
  function Tokens(s: string, pos: nat): (tags: seq<string>)
    requires pos <= |s|
    ensures forall k :: 0 <= k < |tags| ==> IsToken(tags[k])
    decreases |s| - pos
  {
    match NextToken(s, pos)
    case None => []
    case Some(t) => [t.text] + Tokens(s, t.pos)
  }

  // --------------------------------------------------------- the tree builder

  /** An element that is still open, with the children it has so far. */
  datatype Frame = Frame(name: string, props: seq<Prop>, kids: seq<Tree>)

  /** `open` lists the open elements, the document root first; `closing` is the name a
      closing tag must have. `Crash` stands for following the null parent of the root. */
  datatype State = State(open: seq<Frame>, closing: string) | Crash

  function CloseFrame(f: Frame): Tree {
    Node(f.name, f.props, f.kids)
  }

  function AddKids(open: seq<Frame>, ts: seq<Tree>): (r: seq<Frame>)
    requires open != []
    ensures |r| == |open|
  {
    var f := open[|open| - 1];
    open[..|open| - 1] + [f.(kids := f.kids + ts)]
  }

  function Pop(open: seq<Frame>): (r: seq<Frame>)
    requires |open| >= 2
    ensures |r| == |open| - 1
  {
    AddKids(open[..|open| - 1], [CloseFrame(open[|open| - 1])])
  }

  lemma PopPushed(open: seq<Frame>, f: Frame)
    requires open != []
    ensures Pop(open + [f]) == AddKids(open, [CloseFrame(f)])
  {
    assert (open + [f])[..|open|] == open;
  }

  function LastName(open: seq<Frame>): string
    requires open != []
  {
    open[|open| - 1].name
  }

  /** What `closing` can be: the label of the innermost open element, or still unset. */
  ghost predicate Consistent(open: seq<Frame>, closing: string) {
    open != [] && (closing == "/" + LastName(open) || (|open| == 1 && closing == ""))
  }

  predicate Live(st: State) {
    st.State? ==> st.open != []
  }

  function Step(st: State, text: string): (r: State)
    requires Live(st) && IsToken(text)
    ensures Live(r)
  {
    if st.Crash? then Crash
    else
      var tag := ReadTag(text);
      if tag.name == st.closing then
        if |st.open| == 1 then Crash
        else
          var open := Pop(st.open);
          State(open, "/" + LastName(open))
      else if text[|text| - 2] == '/' then
        State(AddKids(st.open, [Node(tag.name, tag.props, [])]), st.closing)
      else
        State(st.open + [Frame(tag.name, tag.props, [])], "/" + tag.name)
  }

  /** The builder's state after a list of tags. */
  function Build(tags: seq<string>, st: State): (r: State)
    requires Live(st) && forall k :: 0 <= k < |tags| ==> IsToken(tags[k])
    ensures Live(r)
    decreases |tags|
  {
    if tags == [] then st else Build(tags[1..], Step(st, tags[0]))
  }

  function Start(name: string, props: seq<Prop>): (st: State)
    ensures Live(st) && st.State?
  {
    State([Frame(name, props, [])], "")
  }

  /** Closes every element that is still open. */
  function Collapse(open: seq<Frame>): Tree
    requires open != []
    decreases |open|
  {
    if |open| == 1 then CloseFrame(open[0]) else Collapse(Pop(open))
  }

  /** The document that a text is read into, under a root with that name and those
      properties; None is a crash. */
  function Parse(rootName: string, rootProps: seq<Prop>, s: string): Option<Tree> {
    var st := Build(Tokens(s, 0), Start(rootName, rootProps));
    if st.Crash? then None else Some(Collapse(st.open))
  }

  // --------------------------------------------------------------- the printer

  function PrintItem(tab: string, t: Tree, top: bool): string
    decreases t
  {
    var inner := PrintItems(tab + "\t", t.kids, false);
    if inner == "" && t.props == [] then ""
    else if inner != "" || top then
      tab + TagText(t.name, t.props, false) + "\r\n" + inner + (tab + CloseText(t.name) + "\r\n")
    else
      tab + TagText(t.name, t.props, true) + "\r\n"
  }

  function PrintItems(tab: string, ts: seq<Tree>, top: bool): string
    decreases ts
  {
    if ts == [] then "" else PrintItem(tab, ts[0], top) + PrintItems(tab, ts[1..], top)
  }

  const BOM := '\U{FEFF}'

  function PrintDoc(ts: seq<Tree>): string {
    [BOM] + PrintItems("", ts, true)
  }
}
