/**
 The stand-alone tree painter (`CanvasShared`): a list of `div`, `image` and
 `text` nodes is walked in pre-order, each node's `top`/`left` is made
 absolute by adding its parent's absolute position, and one canvas command
 is emitted per node. The walk writes the absolute position back into the
 node's style, so drawing the same tree a second time shifts every nested
 node again.
 */
module Layout {

  /** The style properties the painter reads, already run through
      `parseInt`. An empty `fontFamily` is an unset one. */
  datatype Style = Style(top: int, left: int, width: int, height: int, fontSize: int,
                         fontFamily: string, color: string, backgroundColor: string)

  /** A draw node; only a `div` has children (an absent list is empty). */
  datatype Node =
    | Div(style: Style, children: seq<Node>)
    | Image(style: Style, src: string)
    | Text(style: Style, text: string)

  /** The font a text is drawn with, `${fontSize}px ${family}`. */
  datatype Font = Font(sizePx: int, family: string)

  /** The canvas calls the painter makes, one per node. An image is drawn
      at its placed box; when it finishes loading is not modelled. */
  datatype Command =
    | FillRect(fill: string, x: int, y: int, width: int, height: int)
    | FillText(text: string, font: Font, fill: string, x: int, y: int)
    | DrawImage(src: string, x: int, y: int, width: int, height: int)

  const DefaultFamily: string := "Microsoft YaHei"

  /** `fontFamily || "Microsoft YaHei"`. */
  function FamilyOf(st: Style): (f: string)
    ensures st.fontFamily != "" ==> f == st.fontFamily
    ensures st.fontFamily == "" ==> f == DefaultFamily
  {
    if st.fontFamily == "" then DefaultFamily else st.fontFamily
  }

  /** The node with its style's top and left moved by the parent's
      absolute position; what `_draw` writes back before drawing. */
  function Shifted(n: Node, top: int, left: int): (r: Node)
    ensures r.style == n.style.(top := n.style.top + top, left := n.style.left + left)
  {
    var st := n.style.(top := n.style.top + top, left := n.style.left + left);
    match n
    case Div(_, ch) => Div(st, ch)
    case Image(_, src) => Image(st, src)
    case Text(_, text) => Text(st, text)
  }

  /** The one command a node whose position is already absolute draws: a
      div fills its box with its background colour, an image is drawn in
      its box, and a text is written from its left edge with its baseline
      one font size below its top. */
  function CommandOf(n: Node): Command {
    var st := n.style;
    match n
    case Div(_, _) => FillRect(st.backgroundColor, st.left, st.top, st.width, st.height)
    case Image(_, src) => DrawImage(src, st.left, st.top, st.width, st.height)
    case Text(_, text) => FillText(text, Font(st.fontSize, FamilyOf(st)), st.color, st.left, st.top + st.fontSize)
  }

  /** `_draw(node, top, left)`: the node's own command, then, for a div,
      its children drawn in order at the div's absolute position. */
  function Draw(n: Node, top: int, left: int): seq<Command>
    decreases n, 1
  {
    var p := Shifted(n, top, left);
    match p
    case Div(st, ch) => [CommandOf(p)] + DrawAll(ch, st.top, st.left)
    case _ => [CommandOf(p)]
  }

  /** Draws the nodes of a list in order, all at the same parent
      position; `draw(list)` is this at position (0, 0). */
  function DrawAll(ns: seq<Node>, top: int, left: int): seq<Command>
    decreases ns, 0
  {
    if |ns| == 0 then [] else Draw(ns[0], top, left) + DrawAll(ns[1..], top, left)
  }

  /** `draw(list)`. */
  function DrawList(ns: seq<Node>): seq<Command> {
    DrawAll(ns, 0, 0)
  }

  /** The tree as `_draw` leaves it: every node's top and left absolute. */
  function Placed(n: Node, top: int, left: int): (r: Node)
    decreases n, 1
  {
    var p := Shifted(n, top, left);
    match p
    case Div(st, ch) => Div(st, PlacedAll(ch, st.top, st.left))
    case _ => p
  }

  function PlacedAll(ns: seq<Node>, top: int, left: int): (r: seq<Node>)
    ensures |r| == |ns|
    decreases ns, 0
  {
    if |ns| == 0 then [] else [Placed(ns[0], top, left)] + PlacedAll(ns[1..], top, left)
  }

  /** The nodes of a tree in pre-order: a node, then its children's
      subtrees in order. */
  function Preorder(n: Node): seq<Node>
    decreases n, 1
  {
    match n
    case Div(_, ch) => [n] + PreorderAll(ch)
    case _ => [n]
  }

  function PreorderAll(ns: seq<Node>): seq<Node>
    decreases ns, 0
  {
    if |ns| == 0 then [] else Preorder(ns[0]) + PreorderAll(ns[1..])
  }

  /** The command of each node of a list. */
  function Commands(ns: seq<Node>): (r: seq<Command>)
    ensures |r| == |ns|
    ensures forall i :: 0 <= i < |ns| ==> r[i] == CommandOf(ns[i])
  {
    if |ns| == 0 then [] else [CommandOf(ns[0])] + Commands(ns[1..])
  }

  /** The number of nodes in a tree. */
  function Size(n: Node): nat
    decreases n, 1
  {
    match n
    case Div(_, ch) => 1 + SizeAll(ch)
    case _ => 1
  }

  function SizeAll(ns: seq<Node>): nat
    decreases ns, 0
  {
    if |ns| == 0 then 0 else Size(ns[0]) + SizeAll(ns[1..])
  }

  lemma CommandsAppend(a: seq<Node>, b: seq<Node>)
    ensures Commands(a + b) == Commands(a) + Commands(b)
  {
  }

  /** Placing a node changes only its position, so it draws the same
      command as the node shifted by the parent position. */
  lemma PlacedCommand(n: Node, top: int, left: int)
    ensures CommandOf(Placed(n, top, left)) == CommandOf(Shifted(n, top, left))
  {
  }

  /** What a node drawn under a parent at (top, left) emits first, at its
      absolute position (x, y): a div fills exactly its box with its
      background colour, an image is drawn in exactly its box, and a text
      is written at x with its baseline one font size below y, in its
      family or the default one. An image or a text emits nothing else. */
  lemma FirstCommand(n: Node, top: int, left: int)
    ensures var d := Draw(n, top, left);
            var st := n.style;
            var x := left + st.left;
            var y := top + st.top;
            && |d| >= 1
            && (!n.Div? ==> |d| == 1)
            && (n.Div? ==> d[0] == FillRect(st.backgroundColor, x, y, st.width, st.height))
            && (n.Image? ==> d[0] == DrawImage(n.src, x, y, st.width, st.height))
            && (n.Text? ==> d[0] == FillText(n.text, Font(st.fontSize, FamilyOf(st)), st.color, x, y + st.fontSize))
  {
  }

  /** The painter emits, in pre-order, the command of every node of the
      tree with its absolute position: one command per node, a div's
      before those of its children, siblings in list order. */
  lemma {:induction false} DrawIsPreorder(n: Node, top: int, left: int)
    ensures Draw(n, top, left) == Commands(Preorder(Placed(n, top, left)))
    decreases n, 1
  {
    var p := Shifted(n, top, left);
    PlacedCommand(n, top, left);
    match p
    case Div(st, ch) =>
      DrawAllIsPreorder(ch, st.top, st.left);
      CommandsAppend([Placed(n, top, left)], PreorderAll(PlacedAll(ch, st.top, st.left)));
    case Image(_, _) =>
    case Text(_, _) =>
  }

  lemma {:induction false} DrawAllIsPreorder(ns: seq<Node>, top: int, left: int)
    ensures DrawAll(ns, top, left) == Commands(PreorderAll(PlacedAll(ns, top, left)))
    decreases ns, 0
  {
    if |ns| > 0 {
      var placed := PlacedAll(ns, top, left);
      assert placed[0] == Placed(ns[0], top, left);
      assert placed[1..] == PlacedAll(ns[1..], top, left);
      DrawIsPreorder(ns[0], top, left);
      DrawAllIsPreorder(ns[1..], top, left);
      CommandsAppend(Preorder(placed[0]), PreorderAll(placed[1..]));
    }
  }

  /** A pre-order listing has one entry per node. */
  lemma {:induction false} PreorderSize(n: Node)
    ensures |Preorder(n)| == Size(n)
    decreases n, 1
  {
    match n
    case Div(_, ch) => PreorderAllSize(ch);
    case Image(_, _) =>
    case Text(_, _) =>
  }

  lemma {:induction false} PreorderAllSize(ns: seq<Node>)
    ensures |PreorderAll(ns)| == SizeAll(ns)
    decreases ns, 0
  {
    if |ns| > 0 {
      PreorderSize(ns[0]);
      PreorderAllSize(ns[1..]);
    }
  }

  /** Placing keeps the shape of a tree. */
  lemma {:induction false} PlacedSize(n: Node, top: int, left: int)
    ensures Size(Placed(n, top, left)) == Size(n)
    decreases n, 1
  {
    match n
    case Div(st, ch) => PlacedAllSize(ch, st.top + top, st.left + left);
    case Image(_, _) =>
    case Text(_, _) =>
  }

  lemma {:induction false} PlacedAllSize(ns: seq<Node>, top: int, left: int)
    ensures SizeAll(PlacedAll(ns, top, left)) == SizeAll(ns)
    decreases ns, 0
  {
    if |ns| > 0 {
      PlacedSize(ns[0], top, left);
      PlacedAllSize(ns[1..], top, left);
      assert PlacedAll(ns, top, left)[1..] == PlacedAll(ns[1..], top, left);
    }
  }

  /** Drawing a list emits exactly one command per node of its trees. */
  lemma DrawCount(ns: seq<Node>)
    ensures |DrawList(ns)| == SizeAll(ns)
  {
    DrawAllIsPreorder(ns, 0, 0);
    PreorderAllSize(PlacedAll(ns, 0, 0));
    PlacedAllSize(ns, 0, 0);
  }

  /** The walk makes positions absolute: a node ends at its own top and
      left plus its parent's absolute position, and a div's children are
      placed from the div's absolute position. Top-level nodes are placed
      from (0, 0). */
  lemma {:induction false} PlacedIsAbsolute(ns: seq<Node>, top: int, left: int, i: nat)
    requires i < |ns|
    ensures var p := PlacedAll(ns, top, left)[i];
            && p.style == ns[i].style.(top := ns[i].style.top + top, left := ns[i].style.left + left)
            && (ns[i].Div? ==> p.Div? && p.children == PlacedAll(ns[i].children, p.style.top, p.style.left))
            && (!ns[i].Div? ==> p == Shifted(ns[i], top, left))
    decreases |ns|
  {
    if i > 0 {
      PlacedIsAbsolute(ns[1..], top, left, i - 1);
    }
  }

  /** Only divs draw a rectangle: in the emitted commands a fill of a box
      is at the position of a div in the pre-order, and every other
      command is that of an image or a text. */
  lemma OnlyDivsFillRects(ns: seq<Node>, i: nat)
    requires i < |DrawList(ns)|
    ensures var order := PreorderAll(PlacedAll(ns, 0, 0));
            i < |order| && (DrawList(ns)[i].FillRect? <==> order[i].Div?)
  {
    DrawAllIsPreorder(ns, 0, 0);
  }

  /** A text at top 10 with font size 16 and no family is written with
      its baseline at 26 in Microsoft YaHei. */
  lemma TextBaseline()
    ensures var st := Style(10, 4, 100, 20, 16, "", "#000", "");
            DrawList([Text(st, "hi")]) == [FillText("hi", Font(16, DefaultFamily), "#000", 4, 26)]
  {
    var st := Style(10, 4, 100, 20, 16, "", "#000", "");
    assert DrawList([Text(st, "hi")]) == Draw(Text(st, "hi"), 0, 0) + DrawAll([], 0, 0);
  }

  /** Because the walk writes absolute positions back into the styles,
      drawing the same tree again moves nested nodes by their parent's
      offset a second time: a child at top 5 in a div at top 10 is drawn at
      15, and at 20 once the tree has been drawn before. Top-level nodes
      stay put. */
  lemma RedrawShiftsChildren()
    ensures var child := Image(Style(5, 0, 10, 10, 0, "", "", ""), "a.png");
            var root := Div(Style(10, 0, 50, 50, 0, "", "", "#fff"), [child]);
            var drawn := PlacedAll([root], 0, 0);
            && DrawList([root]) == [FillRect("#fff", 0, 10, 50, 50), DrawImage("a.png", 0, 15, 10, 10)]
            && DrawList(drawn) == [FillRect("#fff", 0, 10, 50, 50), DrawImage("a.png", 0, 25, 10, 10)]
  {
    var child := Image(Style(5, 0, 10, 10, 0, "", "", ""), "a.png");
    var root := Div(Style(10, 0, 50, 50, 0, "", "", "#fff"), [child]);
    var placedChild := Image(Style(15, 0, 10, 10, 0, "", "", ""), "a.png");
    var placedRoot := Div(root.style, [placedChild]);
    assert Placed(child, 10, 0) == placedChild;
    assert PlacedAll([child], 10, 0) == [placedChild];
    assert PlacedAll([root], 0, 0) == [placedRoot];
    assert Draw(child, 10, 0) == [DrawImage("a.png", 0, 15, 10, 10)];
    assert DrawAll([child], 10, 0) == [DrawImage("a.png", 0, 15, 10, 10)];
    assert DrawList([root]) == Draw(root, 0, 0) + DrawAll([], 0, 0);
    assert Draw(root, 0, 0) == [CommandOf(root)] + [DrawImage("a.png", 0, 15, 10, 10)];
    assert Draw(placedChild, 10, 0) == [DrawImage("a.png", 0, 25, 10, 10)];
    assert DrawAll([placedChild], 10, 0) == [DrawImage("a.png", 0, 25, 10, 10)];
    assert DrawList([placedRoot]) == Draw(placedRoot, 0, 0) + DrawAll([], 0, 0);
    assert Draw(placedRoot, 0, 0) == [CommandOf(root)] + [DrawImage("a.png", 0, 25, 10, 10)];
  }
}
