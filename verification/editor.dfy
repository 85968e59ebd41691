/**
 The interactive editor: a session record updated by the three touch
 handlers, the tap hit-test with delete precedence and selection cycling,
 the edit operation that patches the selected view, and the three-layer
 split that repaints around the selection. Canvas paints and the callbacks
 the component fires are returned as a list of events.
 */
module Editor {
  import opened Base
  import opened Units
  import opened Views
  import opened Utils

  /** What the component holds as the touched view: nothing yet
      (`undefined`), the empty object `{}` (no selection), or the palette
      view at the selection index. */
  datatype Touch = Unset | Blank | Selected

  /** The four canvases the component paints on. */
  datatype Surface = BottomCanvas | TopCanvas | GlobalCanvas | FrontCanvas

  /** What a transition does outside the session: canvas paints and the
      component's callbacks. */
  datatype Event =
    | Paint(surface: Surface, views: seq<View>, background: Option<string>)
    | ClearFront
    | ViewUpdated(view: View)
    | ViewClicked(view: View)
    | Released(view: View)
    | DeleteRequested(view: View, index: nat)
    | BackgroundTapped
    | Download(url: string)

  /** The editor's state. `found` is the selection index (-1 for none);
      `prevFound` the previous one, `None` until first set; `block` the
      overlay (selection box and handles) last painted. */
  datatype Session = Session(
    palette: Palette,
    touch: Touch,
    found: int,
    prevFound: Option<int>,
    block: Option<Palette>,
    startX: real,
    startY: real,
    startW: real,
    startH: real,
    startTime: int,
    isScale: bool,
    hasMove: bool,
    disabled: bool)

  /** What the transitions read but never change: the scale context, the
      base size the last conversion was given (read by the minimum-width
      veto), the custom overlay look, whether the canvas-2d mode is on, and
      the boxes the painter gives the overlay views. */
  datatype Env = Env(ctx: ScaleContext, baseSize: real, custom: Option<ActionStyle>, use2D: bool,
                     layout: View -> Rect)

  datatype Outcome = Outcome(session: Session, events: seq<Event>)

  /** Every palette view and overlay view is laid out, and a selection
      names an in-range view that has an id. */
  predicate Valid(s: Session) {
    && LaidOut(s.palette.views)
    && (s.touch.Selected? ==> 0 <= s.found < |s.palette.views| && s.palette.views[s.found].id != "")
    && (s.block.Some? ==> LaidOut(s.block.value.views))
  }

  /** The session once a palette has been painted: nothing selected, no
      overlay, no gesture in progress. */
  function Loaded(palette: Palette, disabled: bool): (s: Session)
    requires LaidOut(palette.views)
    ensures Valid(s) && !s.touch.Selected? && s.found == -1
  {
    Session(palette, Blank, -1, None, None, 0.0, 0.0, 0.0, 0.0, 0, false, false, disabled)
  }

  function Touched(s: Session): View
    requires Valid(s) && s.touch.Selected?
  {
    s.palette.views[s.found]
  }

  function WithView(s: Session, v: View): (t: Session)
    requires Valid(s) && s.touch.Selected? && v.rect.Some? && v.id == Touched(s).id
    ensures Valid(t)
  {
    s.(palette := s.palette.(views := s.palette.views[s.found := v]))
  }

  /** The painter's layout of the overlay: every view gets its box. */
  function LayOut(env: Env, vs: seq<View>): (r: seq<View>)
    ensures |r| == |vs| && LaidOut(r)
    ensures forall i :: 0 <= i < |r| ==> r[i].id == vs[i].id
  {
    seq(|vs|, i requires 0 <= i < |vs| => vs[i].(rect := Some(env.layout(vs[i]))))
  }

  /** The overlay around a view: the selection box, then the scale handle
      when `scalable` is truthy, then the delete handle when `deletable` is
      truthy. */
  function Overlays(v: View, env: Env): (r: seq<View>)
    requires v.rect.Some?
    ensures |r| >= 1 && r[0].id == "box"
    ensures Truthy(Property(v.css, "scalable")) ==> |r| >= 2 && r[1].id == "scale"
    ensures Truthy(Property(v.css, "deletable")) ==> r[|r| - 1].id == "delete"
    ensures forall i :: 0 <= i < |r| && r[i].id == "scale" ==> Truthy(Property(v.css, "scalable"))
    ensures forall i :: 0 <= i < |r| && r[i].id == "delete" ==> Truthy(Property(v.css, "deletable"))
  {
    Stack(GetBox(v.rect.value, v.kind, env.custom), GetScaleIcon(v.rect.value, v.kind, env.custom, env.ctx),
          GetDeleteIcon(v.rect.value, env.custom, env.ctx),
          Truthy(Property(v.css, "scalable")), Truthy(Property(v.css, "deletable")))
  }

  /** The box, then the scale handle if `scalable`, then the delete handle
      if `deletable`. */
  function Stack(box: View, scale: View, delete: View, scalable: bool, deletable: bool): (r: seq<View>)
    requires box.id == "box" && scale.id == "scale" && delete.id == "delete"
    ensures |r| >= 1 && r[0].id == "box"
    ensures scalable ==> |r| >= 2 && r[1].id == "scale"
    ensures deletable ==> r[|r| - 1].id == "delete"
    ensures forall i :: 0 <= i < |r| && r[i].id == "scale" ==> scalable
    ensures forall i :: 0 <= i < |r| && r[i].id == "delete" ==> deletable
  {
    assert |"box"| != |"scale"| && |"box"| != |"delete"| && |"scale"| != |"delete"|;
    match (scalable, deletable)
    case (true, true) => [box, scale, delete]
    case (true, false) => [box, scale]
    case (false, true) => [box, delete]
    case (false, false) => [box]
  }

  /** `reDraw`: repaints the selected view on the global canvas, reports
      it, and repaints the overlay around it on the front canvas. Only the
      overlay of the session changes; a view that is not deletable leaves
      no delete handle to hit. */
  function Redraw(s: Session, env: Env): (o: Outcome)
    requires Valid(s) && s.touch.Selected?
    ensures Valid(o.session)
    ensures o.session == s.(block := o.session.block)
    ensures o.session.block.Some?
    ensures o.events == [Paint(GlobalCanvas, [Touched(s)], None), ViewUpdated(Touched(s)),
                         Paint(FrontCanvas, o.session.block.value.views, None)]
  {
    var v := Touched(s);
    var overlay := LayOut(env, Overlays(v, env));
    var block := Palette(s.palette.width, s.palette.height, None, overlay);
    Outcome(s.(block := Some(block)),
            [Paint(GlobalCanvas, [v], None), ViewUpdated(v), Paint(FrontCanvas, overlay, None)])
  }

  /** After a repaint the overlay has a box first, a scale handle exactly
      when the view is scalable and a delete handle exactly when it is
      deletable: a view that is not deletable leaves no delete handle to
      hit, and one that is not scalable no scale handle. */
  lemma RedrawHandles(s: Session, env: Env)
    requires Valid(s) && s.touch.Selected?
    ensures var o := Redraw(s, env);
            var views := o.session.block.value.views;
            var v := Touched(s);
            && |views| >= 1 && views[0].id == "box"
            && (Truthy(Property(v.css, "scalable")) ==> |views| >= 2 && views[1].id == "scale")
            && (Truthy(Property(v.css, "deletable")) ==> views[|views| - 1].id == "delete")
            && (!Truthy(Property(v.css, "deletable")) ==> forall x: real, y: real :: !IsInDelete(x, y, o.session.block))
            && (!Truthy(Property(v.css, "scalable")) ==> forall x: real, y: real :: !IsInScale(x, y, o.session.block))
  {
  }

  /** Whether an event paints the bottom or the top canvas. */
  predicate PaintsLayer(e: Event) {
    e.Paint? && (e.surface == BottomCanvas || e.surface == TopCanvas)
  }

  /** `doAction()` with no action: repaints the selection, if any. */
  function Refresh(s: Session, env: Env): (o: Outcome)
    requires Valid(s)
    ensures forall i :: 0 <= i < |o.events| ==> !PaintsLayer(o.events[i])
    ensures Valid(o.session)
    ensures o.session.palette == s.palette && o.session.touch == s.touch && o.session.found == s.found
    ensures o.session.prevFound == s.prevFound
    ensures env.use2D || !s.touch.Selected? ==> o == Outcome(s, [])
    ensures !env.use2D && s.touch.Selected? ==> o == Redraw(s, env)
  {
    if env.use2D || !s.touch.Selected? then Outcome(s, []) else Redraw(s, env)
  }

  /** The canvas the first event paints, if it is a paint. */
  function FirstPainted(events: seq<Event>): Option<Surface> {
    if |events| > 0 && events[0].Paint? then Some(events[0].surface) else None
  }

  /** The canvas the last event paints, if it is a paint. */
  function LastPainted(events: seq<Event>): Option<Surface> {
    if |events| > 0 && events[|events| - 1].Paint? then Some(events[|events| - 1].surface) else None
  }

  /** The views the first paint of canvas `c` draws (none if it is not
      painted). */
  function PaintedOn(events: seq<Event>, c: Surface): seq<View> {
    if |events| == 0 then []
    else if events[0].Paint? && events[0].surface == c then events[0].views
    else PaintedOn(events[1..], c)
  }

  /** The background of the first paint of canvas `c`. */
  function Background(events: seq<Event>, c: Surface): Option<string> {
    if |events| == 0 then None
    else if events[0].Paint? && events[0].surface == c then events[0].background
    else Background(events[1..], c)
  }

  /** `sliceLayers`: the views below the selection go to the bottom canvas
      (with the palette's background), those above it to the top canvas,
      and the selection itself is repainted in between. The bottom canvas
      is painted first exactly when the previous selection index is below
      the current one. */
  function SliceLayers(s: Session, env: Env): (o: Outcome)
    requires Valid(s) && s.touch.Selected?
    ensures Valid(o.session)
    ensures o.session.palette == s.palette && o.session.touch == s.touch && o.session.found == s.found
    ensures o.session.prevFound == Some(s.found)
  {
    var mid := Refresh(s, env);
    var bottomFirst := s.prevFound.Some? && s.prevFound.value < s.found;
    Outcome(mid.session.(prevFound := Some(s.found)),
            Layered(s.palette.views, s.found, s.palette.background, mid.events, bottomFirst))
  }

  /** The events of a layer split around view `k`: the views below it on
      the bottom canvas with the background, those above it on the top
      canvas, and `mid` in between; `bottomFirst` says which paint comes
      first. */
  function Layered(views: seq<View>, k: nat, background: Option<string>, mid: seq<Event>, bottomFirst: bool)
    : seq<Event>
    requires k < |views|
  {
    var bottom := Paint(BottomCanvas, views[..k], background);
    var top := Paint(TopCanvas, views[k + 1..], None);
    if bottomFirst then [bottom] + mid + [top] else [top] + mid + [bottom]
  }

  /** The events `e` paint the layers split around view `k`: `mid`
      framed by one paint of each layer canvas, in the order `bottomFirst`
      gives, the bottom canvas getting the views below `k` with the
      background and the top canvas those above it. */
  predicate SplitAround(e: seq<Event>, views: seq<View>, k: nat, background: Option<string>, mid: seq<Event>,
                        bottomFirst: bool)
    requires k < |views|
  {
    && |e| == |mid| + 2 && e[1..|e| - 1] == mid
    && FirstPainted(e) == Some(if bottomFirst then BottomCanvas else TopCanvas)
    && LastPainted(e) == Some(if bottomFirst then TopCanvas else BottomCanvas)
    && PaintedOn(e, BottomCanvas) + [views[k]] + PaintedOn(e, TopCanvas) == views
    && Background(e, BottomCanvas) == background && Background(e, TopCanvas) == None
  }

  /** What a layer split paints, when the events in between paint neither
      layer canvas: each canvas gets its side of view `k`, the two
      together with `k` give back all the views, and the order of the
      two paints follows `bottomFirst`. */
  lemma LayeredPaints(views: seq<View>, k: nat, background: Option<string>, mid: seq<Event>, bottomFirst: bool)
    requires k < |views|
    requires forall i :: 0 <= i < |mid| ==> !PaintsLayer(mid[i])
    ensures SplitAround(Layered(views, k, background, mid, bottomFirst), views, k, background, mid, bottomFirst)
  {
    var bottom := Paint(BottomCanvas, views[..k], background);
    var top := Paint(TopCanvas, views[k + 1..], None);
    assert views[..k] + [views[k]] + views[k + 1..] == views;
    if bottomFirst {
      FramedPaints(bottom, mid, top);
      assert ([bottom] + mid + [top])[1..|mid| + 1] == mid;
    } else {
      FramedPaints(top, mid, bottom);
      assert ([top] + mid + [bottom])[1..|mid| + 1] == mid;
    }
  }

  /** What `sliceLayers` paints: the views below the selection on the
      bottom canvas (with the palette's background), those above it on the
      top canvas, and between the two paints the repaint of the selection.
      The bottom canvas is painted first exactly when the previous
      selection index is below the current one. */
  lemma SliceLayersPaints(s: Session, env: Env)
    requires Valid(s) && s.touch.Selected?
    ensures SplitAround(SliceLayers(s, env).events, s.palette.views, s.found, s.palette.background,
                        Refresh(s, env).events, s.prevFound.Some? && s.prevFound.value < s.found)
  {
    LayeredPaints(s.palette.views, s.found, s.palette.background, Refresh(s, env).events,
                  s.prevFound.Some? && s.prevFound.value < s.found);
  }

  /** The events `e` are the layer split that selecting view `k` of `s`
      triggers: the repaint of `k` framed by the paints of the views below
      and above it, the bottom one first exactly when the previous
      selection index is below `k`. */
  predicate Resliced(s: Session, env: Env, k: int, e: seq<Event>)
    requires Valid(s) && 0 <= k < |s.palette.views| && s.palette.views[k].id != ""
  {
    SplitAround(e, s.palette.views, k, s.palette.background, Refresh(s.(touch := Selected, found := k), env).events,
                s.prevFound.Some? && s.prevFound.value < k)
  }

  /** Two paints of different canvases around events that paint neither:
      each canvas shows what its own paint carries. */
  lemma FramedPaints(first: Event, mid: seq<Event>, last: Event)
    requires first.Paint? && last.Paint? && first.surface != last.surface
    requires forall i :: 0 <= i < |mid| ==> !(mid[i].Paint? && (mid[i].surface == first.surface || mid[i].surface == last.surface))
    ensures var e := [first] + mid + [last];
            && FirstPainted(e) == Some(first.surface) && LastPainted(e) == Some(last.surface)
            && PaintedOn(e, first.surface) == first.views && Background(e, first.surface) == first.background
            && PaintedOn(e, last.surface) == last.views && Background(e, last.surface) == last.background
  {
    var e := [first] + mid + [last];
    assert e[1..] == mid + [last];
    SkipOtherPaints(mid, [last], last.surface);
  }

  /** Events that do not paint canvas `c` are passed over when looking for
      what `c` shows. */
  lemma {:induction false} SkipOtherPaints(a: seq<Event>, b: seq<Event>, c: Surface)
    requires forall i :: 0 <= i < |a| ==> !(a[i].Paint? && a[i].surface == c)
    ensures PaintedOn(a + b, c) == PaintedOn(b, c)
    ensures Background(a + b, c) == Background(b, c)
  {
    if |a| == 0 {
      assert a + b == b;
    } else {
      assert (a + b)[0] == a[0];
      assert (a + b)[1..] == a[1..] + b;
      SkipOtherPaints(a[1..], b, c);
    }
  }

  /** An edit: the fields an action carries. An empty string or a `None`
      is a field the action does not set. */
  datatype Delta = Delta(id: string, css: Option<StyleSpec>, rect: Option<Rect>, text: string, content: string,
                         url: string)

  /** The css and box part of an edit: with `overwrite` the css is
      replaced, otherwise merged so that the action's keys win and the
      view's other keys survive; a given box replaces the view's. */
  function Patch(v: View, d: Delta, overwrite: bool): (r: View)
    ensures r == v.(css := r.css, rect := r.rect)
    ensures d.css.None? ==> r.css == v.css
    ensures d.css.Some? && overwrite ==> r.css == d.css.value
    ensures d.css.Some? && !overwrite ==> r.css == Merge(v.css, d.css.value)
    ensures r.rect == if d.rect.Some? then d.rect else v.rect
  {
    var css := if d.css.None? then v.css else if overwrite then d.css.value else Merge(v.css, d.css.value);
    v.(css := css, rect := if d.rect.Some? then d.rect else v.rect)
  }

  /** The text and content part of an edit: each changes only when both
      the view's and the action's are set. */
  function UpdateText(v: View, d: Delta): (r: View)
    ensures r == v.(text := r.text, content := r.content)
    ensures r.text == (if v.text != "" && d.text != "" then d.text else v.text)
    ensures r.content == (if v.content != "" && d.content != "" then d.content else v.content)
  {
    v.(text := if v.text != "" && d.text != "" && d.text != v.text then d.text else v.text,
       content := if v.content != "" && d.content != "" && d.content != v.content then d.content else v.content)
  }

  /** Whether an action names a view other than the selection: it has an
      id, something has been touched, and the touched object's id differs
      (the empty object has no id). */
  predicate Retargets(s: Session, action: Option<Delta>)
    requires Valid(s)
  {
    && action.Some? && action.value.id != "" && !s.touch.Unset?
    && (s.touch.Blank? || Touched(s).id != action.value.id)
  }

  /** An action that names another view selects the first view with that
      id and re-splits the layers around it; an unknown id changes
      nothing. */
  function Retarget(s: Session, env: Env, action: Option<Delta>): (o: Outcome)
    requires Valid(s)
    ensures Valid(o.session)
    ensures o.session.palette == s.palette
    ensures !Retargets(s, action) || FirstWithId(s.palette.views, action.value.id).None? ==> o == Outcome(s, [])
    ensures Retargets(s, action) && FirstWithId(s.palette.views, action.value.id).Some? ==>
              && o.session.touch.Selected?
              && o.session.found == FirstWithId(s.palette.views, action.value.id).value
              && o.session.prevFound == Some(o.session.found)
              && Resliced(s, env, o.session.found, o.events)
  {
    if !Retargets(s, action) then Outcome(s, [])
    else
      match FirstWithId(s.palette.views, action.value.id)
      case None => Outcome(s, [])
      case Some(i) =>
        SliceLayersPaints(s.(touch := Selected, found := i), env);
        SliceLayers(s.(touch := Selected, found := i), env)
  }

  /** `doAction`: a no-op in canvas-2d mode. Otherwise the action may first
      move the selection (`Retarget`), and the rest is `Edit`. */
  function DoAction(s: Session, env: Env, action: Option<Delta>, overwrite: bool): (o: Outcome)
    requires Valid(s)
    ensures Valid(o.session)
    ensures env.use2D ==> o == Outcome(s, [])
    ensures |o.session.palette.views| == |s.palette.views|
    ensures o.session.touch.Selected? ==>
              forall i :: 0 <= i < |s.palette.views| && i != o.session.found ==>
                o.session.palette.views[i] == s.palette.views[i]
    ensures !o.session.touch.Selected? ==> o.session.palette == s.palette
  {
    if env.use2D then Outcome(s, [])
    else Edit(Retarget(s, env, action), env, action, overwrite)
  }

  /** Whether an action carries an image url that differs from the view's,
      both being set: such an action goes to the downloader. */
  predicate NewUrl(v: View, d: Delta) {
    d.url != "" && v.url != "" && d.url != v.url
  }

  /** The rest of `doAction` once the selection may have moved, `pre` being
      what the move gave. With nothing selected it stops there. Otherwise
      the selected view is patched; an action with a new image url is
      handed to the downloader (the repaint follows the download); any
      other action updates text and content and repaints the view. The
      events of `pre` come first in every case. */
  function Edit(pre: Outcome, env: Env, action: Option<Delta>, overwrite: bool): (o: Outcome)
    requires Valid(pre.session)
    ensures Valid(o.session)
    ensures o.session.touch == pre.session.touch && o.session.found == pre.session.found
    ensures o.session.prevFound == pre.session.prevFound
    ensures |o.session.palette.views| == |pre.session.palette.views|
    ensures |o.events| >= |pre.events| && o.events[..|pre.events|] == pre.events
    ensures !pre.session.touch.Selected? ==> o == pre
    ensures pre.session.touch.Selected? ==>
              forall i :: 0 <= i < |pre.session.palette.views| && i != pre.session.found ==>
                o.session.palette.views[i] == pre.session.palette.views[i]
    ensures pre.session.touch.Selected? && action.Some? && NewUrl(Touched(pre.session), action.value) ==>
              && o.session.palette.views[pre.session.found] == Patch(Touched(pre.session), action.value, overwrite)
              && o.events == pre.events + [Download(action.value.url)]
    ensures pre.session.touch.Selected? && action.Some? && !NewUrl(Touched(pre.session), action.value) ==>
              var w := UpdateText(Patch(Touched(pre.session), action.value, overwrite), action.value);
              && o.session.palette.views[pre.session.found] == w
              && |o.events| == |pre.events| + 3
              && o.events[|pre.events|] == Paint(GlobalCanvas, [w], None)
              && o.events[|pre.events| + 1] == ViewUpdated(w)
  {
    var t := pre.session;
    if !t.touch.Selected? then pre
    else if action.None? then
      var r := Redraw(t, env);
      Outcome(r.session, pre.events + r.events)
    else
      var d := action.value;
      var v := Patch(Touched(t), d, overwrite);
      var u := WithView(t, v);
      if NewUrl(v, d) then
        Outcome(u, pre.events + [Download(d.url)])
      else
        var r := Redraw(WithView(t, UpdateText(v, d)), env);
        Outcome(r.session, pre.events + r.events)
  }

  /** The outcome of the top-down scan of a tap: the indices of the views
      that contain the point, top first, or the index at which the delete
      handle of the selection was hit. */
  datatype Scan = Hits(indices: seq<nat>) | DeleteAt(index: nat)

  predicate Descending(s: seq<nat>) {
    forall a, b :: 0 <= a < b < |s| ==> s[a] > s[b]
  }

  /** The scan of `onClick` over the views below `n`, topmost first. When
      it reaches a view with the selection's id while the point is in the
      delete handle it stops, discarding the hits above; otherwise it
      collects every view that contains the point. */
  function ScanDown(views: seq<View>, n: nat, x: real, y: real, selectedId: string, inDelete: bool): (r: Scan)
    requires n <= |views| && LaidOut(views)
    ensures r.DeleteAt? ==> selectedId != "" && inDelete && r.index < n && views[r.index].id == selectedId
    ensures r.Hits? ==> forall i :: 0 <= i < |r.indices| ==> r.indices[i] < n
    decreases n
  {
    if n == 0 then Hits([])
    else
      var i := n - 1;
      if selectedId != "" && views[i].id == selectedId && inDelete then DeleteAt(i)
      else
        match ScanDown(views, i, x, y, selectedId, inDelete)
        case DeleteAt(j) => DeleteAt(j)
        case Hits(h) => Hits(if IsInView(x, y, views[i].rect.value) then [i] + h else h)
  }

  /** The scan stops exactly when the point is in the delete handle and
      some view below `n` has the selection's id, and then at the topmost
      such view. */
  lemma {:induction false} ScanFindsDelete(views: seq<View>, n: nat, x: real, y: real, selectedId: string,
                                           inDelete: bool)
    requires n <= |views| && LaidOut(views)
    ensures var r := ScanDown(views, n, x, y, selectedId, inDelete);
            r.DeleteAt? <==> selectedId != "" && inDelete && exists i :: 0 <= i < n && views[i].id == selectedId
    ensures var r := ScanDown(views, n, x, y, selectedId, inDelete);
            r.DeleteAt? ==> forall j :: r.index < j < n ==> views[j].id != selectedId
  {
    if n > 0 {
      ScanFindsDelete(views, n - 1, x, y, selectedId, inDelete);
    }
  }

  /** A scan that finds no delete collects, topmost first and without
      repetition, exactly the views below `n` that contain the point. */
  lemma {:induction false} ScanCollectsHits(views: seq<View>, n: nat, x: real, y: real, selectedId: string,
                                            inDelete: bool)
    requires n <= |views| && LaidOut(views)
    ensures var r := ScanDown(views, n, x, y, selectedId, inDelete);
            r.Hits? ==> Descending(r.indices)
    ensures var r := ScanDown(views, n, x, y, selectedId, inDelete);
            r.Hits? ==> forall i :: 0 <= i < n ==> (i in r.indices <==> IsInView(x, y, views[i].rect.value))
  {
    var r := ScanDown(views, n, x, y, selectedId, inDelete);
    if n > 0 && r.Hits? {
      ScanStep(views, n, x, y, selectedId, inDelete);
      var below := ScanDown(views, n - 1, x, y, selectedId, inDelete).indices;
      ScanCollectsHits(views, n - 1, x, y, selectedId, inDelete);
      var hit := IsInView(x, y, views[n - 1].rect.value);
      PrependBelow(n - 1, below);
      assert r.indices == if hit then [n - 1] + below else below;
      forall i | 0 <= i < n
        ensures i in r.indices <==> IsInView(x, y, views[i].rect.value)
      {
        if i < n - 1 {
          assert i in r.indices <==> i in below;
        }
      }
    }
  }

  /** Putting an index in front of a descending list of smaller indices
      keeps it descending and adds just that index, which was not in the
      list. */
  lemma PrependBelow(i: nat, t: seq<nat>)
    requires Descending(t) && forall j :: 0 <= j < |t| ==> t[j] < i
    ensures Descending([i] + t)
    ensures i !in t
    ensures forall k :: k in [i] + t <==> k == i || k in t
  {
  }

  /** A view with the selection's id below `n`, with the point in the
      delete handle, makes the scan stop. */
  lemma {:induction false} ScanStops(views: seq<View>, n: nat, x: real, y: real, selectedId: string,
                                     inDelete: bool, k: nat)
    requires n <= |views| && LaidOut(views)
    ensures selectedId != "" && inDelete && k < n && views[k].id == selectedId ==>
              ScanDown(views, n, x, y, selectedId, inDelete).DeleteAt?
  {
    if n > 0 && views[n - 1].id != selectedId {
      ScanStops(views, n - 1, x, y, selectedId, inDelete, k);
    }
  }

  /** The hits that can be selected: those whose view has an id, in the
      same order. */
  function Touchable(views: seq<View>, hits: seq<nat>): (t: seq<nat>)
    requires forall i :: 0 <= i < |hits| ==> hits[i] < |views|
  {
    if |hits| == 0 then []
    else (if views[hits[0]].id != "" then [hits[0]] else []) + Touchable(views, hits[1..])
  }

  /** The views below `n` that have an id and contain the point, topmost
      first: the reference the tap's selection is drawn from. */
  function Candidates(views: seq<View>, n: nat, x: real, y: real): (c: seq<nat>)
    requires n <= |views| && LaidOut(views)
  {
    if n == 0 then []
    else
      (if views[n - 1].id != "" && IsInView(x, y, views[n - 1].rect.value) then [n - 1] else [])
      + Candidates(views, n - 1, x, y)
  }

  /** The candidates are exactly the id-bearing views that contain the
      point, without repetition. */
  lemma {:induction false} CandidatesAreTheTouchableHits(views: seq<View>, n: nat, x: real, y: real)
    requires n <= |views| && LaidOut(views)
    ensures Descending(Candidates(views, n, x, y))
    ensures forall i :: 0 <= i < n ==>
              (i in Candidates(views, n, x, y) <==> views[i].id != "" && IsInView(x, y, views[i].rect.value))
    ensures forall i :: 0 <= i < |Candidates(views, n, x, y)| ==> Candidates(views, n, x, y)[i] < n
  {
    if n > 0 {
      CandidatesAreTheTouchableHits(views, n - 1, x, y);
    }
  }

  /** Every candidate is an in-range view with an id. */
  lemma {:induction false} CandidatesSelectable(views: seq<View>, n: nat, x: real, y: real)
    requires n <= |views| && LaidOut(views)
    ensures forall i :: 0 <= i < |Candidates(views, n, x, y)| ==>
              Candidates(views, n, x, y)[i] < n && views[Candidates(views, n, x, y)[i]].id != ""
  {
    if n > 0 {
      CandidatesSelectable(views, n - 1, x, y);
    }
  }

  /** One step of a scan that found no delete: the view at `n - 1` is
      added in front of the hits below it exactly when it contains the
      point. */
  lemma ScanStep(views: seq<View>, n: nat, x: real, y: real, selectedId: string, inDelete: bool)
    requires 0 < n <= |views| && LaidOut(views)
    requires ScanDown(views, n, x, y, selectedId, inDelete).Hits?
    ensures ScanDown(views, n - 1, x, y, selectedId, inDelete).Hits?
    ensures IsInView(x, y, views[n - 1].rect.value) ==>
              ScanDown(views, n, x, y, selectedId, inDelete).indices
              == [n - 1] + ScanDown(views, n - 1, x, y, selectedId, inDelete).indices
    ensures !IsInView(x, y, views[n - 1].rect.value) ==>
              ScanDown(views, n, x, y, selectedId, inDelete).indices
              == ScanDown(views, n - 1, x, y, selectedId, inDelete).indices
  {
  }

  lemma TouchableCons(views: seq<View>, i: nat, hs: seq<nat>)
    requires i < |views| && forall j :: 0 <= j < |hs| ==> hs[j] < |views|
    ensures Touchable(views, [i] + hs) == (if views[i].id != "" then [i] else []) + Touchable(views, hs)
  {
    assert ([i] + hs)[1..] == hs;
  }

  /** Filtering the hits of a scan that found no delete gives the
      candidates. */
  lemma {:induction false} ScanThenFilter(views: seq<View>, n: nat, x: real, y: real, selectedId: string,
                                          inDelete: bool)
    requires n <= |views| && LaidOut(views)
    requires ScanDown(views, n, x, y, selectedId, inDelete).Hits?
    ensures Touchable(views, ScanDown(views, n, x, y, selectedId, inDelete).indices) == Candidates(views, n, x, y)
  {
    if n > 0 {
      var i := n - 1;
      ScanStep(views, n, x, y, selectedId, inDelete);
      var h := ScanDown(views, i, x, y, selectedId, inDelete);
      ScanThenFilter(views, i, x, y, selectedId, inDelete);
      FilterStep(views, n, x, y, h.indices, ScanDown(views, n, x, y, selectedId, inDelete).indices);
    }
  }

  /** Filtering a list of hits extended the way a scan step extends it
      extends the candidates the same way. */
  lemma FilterStep(views: seq<View>, n: nat, x: real, y: real, below: seq<nat>, hits: seq<nat>)
    requires 0 < n <= |views| && LaidOut(views)
    requires forall j :: 0 <= j < |below| ==> below[j] < |views|
    requires Touchable(views, below) == Candidates(views, n - 1, x, y)
    requires IsInView(x, y, views[n - 1].rect.value) ==> hits == [n - 1] + below
    requires !IsInView(x, y, views[n - 1].rect.value) ==> hits == below
    ensures Touchable(views, hits) == Candidates(views, n, x, y)
  {
    if IsInView(x, y, views[n - 1].rect.value) {
      TouchableCons(views, n - 1, below);
    }
  }

  /** The first position of `found` in `t`. */
  function Position(t: seq<nat>, found: int): (r: Option<nat>)
    ensures r.Some? ==> r.value < |t| && t[r.value] == found
    ensures r.Some? ==> forall j :: 0 <= j < r.value ==> t[j] != found
    ensures r.None? ==> forall j :: 0 <= j < |t| ==> t[j] != found
  {
    if |t| == 0 then None
    else if t[0] == found then Some(0)
    else
      match Position(t[1..], found)
      case None => None
      case Some(j) => Some(j + 1)
  }

  /** "Tap again to select underneath": the touchable hit just after the
      current selection, wrapping round to the topmost one, which is also
      the pick when the selection is not among them. */
  function NextSelection(t: seq<nat>, found: int): (r: nat)
    requires |t| > 0
    ensures r in t
    ensures Position(t, found).None? ==> r == t[0]
    ensures Position(t, found).Some? && Position(t, found).value + 1 < |t| ==> r == t[Position(t, found).value + 1]
    ensures Position(t, found).Some? && Position(t, found).value + 1 == |t| ==> r == t[0]
  {
    match Position(t, found)
    case None => t[0]
    case Some(j) => if j + 1 < |t| then t[j + 1] else t[0]
  }

  /** In a list without repetition an element's first position is its
      only one. */
  lemma PositionOfDistinct(t: seq<nat>, j: nat)
    requires Descending(t) && j < |t|
    ensures Position(t, t[j]) == Some(j)
  {
  }

  /** The selection after `k` taps on the same spot. */
  function Cycle(t: seq<nat>, found: int, k: nat): int
    requires |t| > 0
  {
    if k == 0 then found else NextSelection(t, Cycle(t, found, k - 1))
  }

  /** Repeated taps on the same spot, starting with none of the hits
      selected, walk down through the touchable hits from the topmost: the
      k-th tap selects the k-th hit. */
  lemma {:induction false} TapsWalkDown(t: seq<nat>, found: int, k: nat)
    requires Descending(t)
    requires forall j :: 0 <= j < |t| ==> t[j] != found
    requires 1 <= k <= |t|
    ensures Cycle(t, found, k) == t[k - 1]
  {
    if k > 1 {
      TapsWalkDown(t, found, k - 1);
      PositionOfDistinct(t, k - 2);
    }
  }

  /** The tap after the one that selects the bottom-most hit selects the
      topmost again, so every overlapping view is reached in turn. */
  lemma TapsWrapAround(t: seq<nat>, found: int)
    requires |t| > 0 && Descending(t)
    requires forall j :: 0 <= j < |t| ==> t[j] != found
    ensures Cycle(t, found, |t| + 1) == t[0]
  {
    TapsWalkDown(t, found, |t|);
    PositionOfDistinct(t, |t| - 1);
  }

  /** Three stacked views with ids at indices 0, 1 and 2: successive taps
      select 2, 1, 0 and then 2 again. */
  lemma ThreeStackedViews()
    ensures NextSelection([2, 1, 0], -1) == 2
    ensures NextSelection([2, 1, 0], 2) == 1
    ensures NextSelection([2, 1, 0], 1) == 0
    ensures NextSelection([2, 1, 0], 0) == 2
  {
    var t: seq<nat> := [2, 1, 0];
    assert t[0] == 2 && t[1] == 1 && t[2] == 0;
  }

  /** The tap lands in the delete handle of the selection. */
  predicate DeleteCase(s: Session)
    requires Valid(s)
  {
    s.touch.Selected? && IsInDelete(s.startX, s.startY, s.block)
  }

  /** The session after a tap that selects nothing. */
  function Deselected(s: Session): Session {
    s.(touch := Blank, found := -1, prevFound := Some(-1))
  }

  /** `onClick`, at the point where the gesture started. A tap in the
      delete handle of the selection asks for the topmost view with the
      selection's id to be deleted; a tap on no view reports the
      background; a tap on views none of which has an id only clears the
      overlay. Otherwise the next candidate is selected, reported, and the
      layers are split around it. The palette itself never changes. */
  function Tap(s: Session, env: Env): (o: Outcome)
    requires Valid(s)
    ensures Valid(o.session)
    ensures o.session.palette == s.palette
    ensures !o.session.touch.Selected? ==> o.session == Deselected(s)
    ensures DeleteCase(s) ==> !o.session.touch.Selected?
    ensures !DeleteCase(s) ==>
              (o.session.touch.Selected? <==> |Candidates(s.palette.views, |s.palette.views|, s.startX, s.startY)| > 0)
    ensures o.session.touch.Selected? ==>
              o.session.found == NextSelection(Candidates(s.palette.views, |s.palette.views|, s.startX, s.startY), s.found)
    ensures o.session.touch.Selected? ==>
              o.session.prevFound == Some(o.session.found) && |o.events| > 0
              && Resliced(s, env, o.session.found, o.events[1..])
  {
    var views := s.palette.views;
    var selectedId := if s.touch.Selected? then Touched(s).id else "";
    var inDelete := IsInDelete(s.startX, s.startY, s.block);
    var scan := ScanDown(views, |views|, s.startX, s.startY, selectedId, inDelete);
    ScanStops(views, |views|, s.startX, s.startY, selectedId, inDelete, if s.touch.Selected? then s.found else 0);
    if scan.DeleteAt? then
      // the follow-up `doAction()` finds the empty object and does nothing
      Outcome(Deselected(s), [ClearFront, DeleteRequested(views[scan.index], scan.index)])
    else
      ScanThenFilter(views, |views|, s.startX, s.startY, selectedId, inDelete);
      CandidatesSelectable(views, |views|, s.startX, s.startY);
      var t := Candidates(views, |views|, s.startX, s.startY);
      assert t[..] == Touchable(views, scan.indices);
      Pick(s, env, t, |scan.indices| == 0)
  }

  /** The end of a tap outside any delete handle, given the touchable hits
      `t`: a tap on no view at all reports the background, one on views
      none of which has an id only clears the overlay, and otherwise the
      next touchable hit is selected. */
  function Pick(s: Session, env: Env, t: seq<nat>, background: bool): (o: Outcome)
    requires Valid(s) && (background ==> |t| == 0)
    requires forall i :: 0 <= i < |t| ==> t[i] < |s.palette.views| && s.palette.views[t[i]].id != ""
    ensures Valid(o.session) && o.session.palette == s.palette
    ensures o.session.touch.Selected? <==> |t| > 0
    ensures !o.session.touch.Selected? ==> o.session == Deselected(s)
    ensures o.session.touch.Selected? ==> o.session.found == NextSelection(t, s.found)
    ensures background ==> o.events == [ClearFront, BackgroundTapped]
    ensures !background && |t| == 0 ==> o.events == [ClearFront]
    ensures |t| > 0 ==> |o.events| > 0 && o.events[0] == ViewClicked(s.palette.views[o.session.found])
    ensures |t| > 0 ==> o.session.prevFound == Some(o.session.found) && Resliced(s, env, o.session.found, o.events[1..])
  {
    if background then Outcome(Deselected(s), [ClearFront, BackgroundTapped])
    else if |t| == 0 then Outcome(Deselected(s), [ClearFront])
    else Select(s, env, t)
  }

  /** The end of a tap with touchable hits: the next of them is selected,
      reported, and the layers are split around it. */
  function Select(s: Session, env: Env, t: seq<nat>): (o: Outcome)
    requires Valid(s) && |t| > 0
    requires forall i :: 0 <= i < |t| ==> t[i] < |s.palette.views| && s.palette.views[t[i]].id != ""
    ensures Valid(o.session) && o.session.palette == s.palette
    ensures o.session.touch.Selected? && o.session.found == NextSelection(t, s.found)
    ensures |o.events| > 0 && o.events[0] == ViewClicked(s.palette.views[o.session.found])
    ensures o.session.prevFound == Some(o.session.found) && Resliced(s, env, o.session.found, o.events[1..])
  {
    var k := NextSelection(t, s.found);
    var sliced := SliceLayers(s.(touch := Selected, found := k), env);
    SliceLayersPaints(s.(touch := Selected, found := k), env);
    assert ([ViewClicked(s.palette.views[k])] + sliced.events)[1..] == sliced.events;
    Outcome(sliced.session, [ViewClicked(s.palette.views[k])] + sliced.events)
  }

  /** Delete precedence: a tap in the delete handle of the selection asks
      for the topmost view with the selection's id to be deleted, whatever
      other views contain the point, and leaves nothing selected. */
  lemma TapDeletes(s: Session, env: Env, d: nat)
    requires Valid(s) && DeleteCase(s)
    requires d < |s.palette.views| && s.palette.views[d].id == Touched(s).id
    requires forall j :: d < j < |s.palette.views| ==> s.palette.views[j].id != Touched(s).id
    ensures Tap(s, env) == Outcome(Deselected(s), [ClearFront, DeleteRequested(s.palette.views[d], d)])
  {
    var views := s.palette.views;
    var id := Touched(s).id;
    var inDelete := IsInDelete(s.startX, s.startY, s.block);
    ScanStops(views, |views|, s.startX, s.startY, id, inDelete, s.found);
    ScanFindsDelete(views, |views|, s.startX, s.startY, id, inDelete);
    var scan := ScanDown(views, |views|, s.startX, s.startY, id, inDelete);
    assert scan == DeleteAt(d) by {
      assert scan.index <= d && d <= scan.index;
    }
  }

  /** A tap that is not in a delete handle and hits only views without an
      id selects nothing and only clears the overlay: no background report
      and no click. */
  lemma TapOnUnnamedViews(s: Session, env: Env, h: nat)
    requires Valid(s) && !DeleteCase(s)
    requires h < |s.palette.views| && IsInView(s.startX, s.startY, s.palette.views[h].rect.value)
    requires forall i :: 0 <= i < |s.palette.views| && IsInView(s.startX, s.startY, s.palette.views[i].rect.value)
               ==> s.palette.views[i].id == ""
    ensures Tap(s, env) == Outcome(Deselected(s), [ClearFront])
  {
    var views := s.palette.views;
    var selectedId := if s.touch.Selected? then Touched(s).id else "";
    var inDelete := IsInDelete(s.startX, s.startY, s.block);
    ScanFindsDelete(views, |views|, s.startX, s.startY, selectedId, inDelete);
    ScanCollectsHits(views, |views|, s.startX, s.startY, selectedId, inDelete);
    CandidatesAreTheTouchableHits(views, |views|, s.startX, s.startY);
    var scan := ScanDown(views, |views|, s.startX, s.startY, selectedId, inDelete);
    var t := Candidates(views, |views|, s.startX, s.startY);
    assert scan.Hits? && h in scan.indices;
    assert forall i :: 0 <= i < |views| ==> i !in t;
  }

  /** A tap that is not in a delete handle and hits no view reports the
      background and clears the selection. */
  lemma TapOnBackground(s: Session, env: Env)
    requires Valid(s) && !DeleteCase(s)
    requires forall i :: 0 <= i < |s.palette.views| ==> !IsInView(s.startX, s.startY, s.palette.views[i].rect.value)
    ensures Tap(s, env) == Outcome(Deselected(s), [ClearFront, BackgroundTapped])
  {
    var views := s.palette.views;
    var selectedId := if s.touch.Selected? then Touched(s).id else "";
    ScanMissesEverything(views, |views|, s.startX, s.startY, selectedId, IsInDelete(s.startX, s.startY, s.block));
  }

  /** A scan with no delete to find and no view containing the point hits
      nothing. */
  lemma {:induction false} ScanMissesEverything(views: seq<View>, n: nat, x: real, y: real, selectedId: string,
                                                inDelete: bool)
    requires n <= |views| && LaidOut(views)
    requires selectedId == "" || !inDelete
    requires forall i :: 0 <= i < n ==> !IsInView(x, y, views[i].rect.value)
    ensures ScanDown(views, n, x, y, selectedId, inDelete) == Hits([])
  {
    if n > 0 {
      ScanMissesEverything(views, n - 1, x, y, selectedId, inDelete);
    }
  }

  /** The longest press, in milliseconds, that still counts as a tap. */
  const TapWindow: int := 500

  /** `onTouchStart`: records where and when the gesture starts; it is a
      resize exactly when a view is selected and the press is in the scale
      handle, and then the view's size is recorded too. Nothing happens
      while disabled. */
  function TouchStart(s: Session, x: real, y: real, now: int): (r: Session)
    requires Valid(s)
    ensures Valid(r)
    ensures s.disabled ==> r == s
    ensures r == s.(startX := r.startX, startY := r.startY, startTime := r.startTime, isScale := r.isScale,
                    startW := r.startW, startH := r.startH)
    ensures !s.disabled ==> r.startX == x && r.startY == y && r.startTime == now
    ensures !s.disabled ==> (r.isScale <==> s.touch.Selected? && IsInScale(x, y, s.block))
    ensures !s.disabled && r.isScale ==>
              && r.startW == Touched(s).rect.value.right - Touched(s).rect.value.left
              && r.startH == Touched(s).rect.value.bottom - Touched(s).rect.value.top
    ensures !r.isScale ==> r.startW == s.startW && r.startH == s.startH
  {
    if s.disabled then s
    else
      var t := s.(startX := x, startY := y, startTime := now);
      if s.touch.Selected? && IsInScale(x, y, s.block) then
        var rect := Touched(s).rect.value;
        t.(isScale := true, startW := rect.right - rect.left, startH := rect.bottom - rect.top)
      else t.(isScale := false)
  }

  /** A release is a tap when it comes within the tap window of the press
      and nothing moved in between. */
  predicate IsTap(s: Session, now: int) {
    now - s.startTime <= TapWindow && !s.hasMove
  }

  /** `onTouchEnd`: a tap hit-tests, unless the gesture is a resize; any
      other release reports the selection, if there is one. Either way the
      move flag is cleared. Nothing happens while disabled. */
  function TouchEnd(s: Session, env: Env, now: int): (o: Outcome)
    requires Valid(s)
    ensures Valid(o.session)
    ensures s.disabled ==> o == Outcome(s, [])
    ensures !s.disabled ==> !o.session.hasMove
    ensures !s.disabled && IsTap(s, now) && s.isScale ==> o == Outcome(s, [])
    ensures !s.disabled && IsTap(s, now) && !s.isScale ==> o == Tap(s, env)
    ensures !s.disabled && !IsTap(s, now) ==> o.session == s.(hasMove := false)
    ensures !s.disabled && !IsTap(s, now) && s.touch.Selected? ==> o.events == [Released(Touched(s))]
    ensures !s.disabled && !IsTap(s, now) && !s.touch.Selected? ==> o.events == []
  {
    if s.disabled then Outcome(s, [])
    else if IsTap(s, now) then
      if s.isScale then Outcome(s, [])
      else
        var o := Tap(s, env);
        Outcome(o.session.(hasMove := false), o.events)
    else if s.touch.Selected? then Outcome(s.(hasMove := false), [Released(Touched(s))])
    else Outcome(s.(hasMove := false), [])
  }

  /** `x` if it exceeds 1, otherwise 1: the larger of the two. */
  function AtLeastOne(x: real): (r: real)
    ensures r >= 1.0 && r >= x
    ensures r == x || r == 1.0
  {
    if x > 1.0 then x else 1.0
  }

  /** The height an image is resized to, `${w * startH / startW}px`. A zero
      start width makes the division yield infinity or NaN, which the
      template writes out as text. */
  function ImageHeight(w: real, startW: real, startH: real): (r: CssValue)
    requires w > 0.0
    ensures startW != 0.0 ==> r.Dim? && r.unit == Px && r.value * startW == w * startH
    ensures startW == 0.0 ==> r == Str(if startH > 0.0 then "Infinitypx" else if startH < 0.0 then "-Infinitypx" else "NaNpx")
  {
    if startW != 0.0 then Dim(w * startH / startW, Px)
    else if startH > 0.0 then Str("Infinitypx")
    else if startH < 0.0 then Str("-Infinitypx")
    else Str("NaNpx")
  }

  /** The resize is dropped when the new width is below the view's css
      minimum width (converted to pixels) or below its box's minimum
      width; an unset minimum never vetoes. */
  predicate MinWidthVeto(v: View, w: real, ctx: ScaleContext, baseSize: real)
    requires v.rect.Some?
  {
    || (Truthy(Property(v.css, "minWidth")) && w < ResolveCss(ctx, Property(v.css, "minWidth"), baseSize).px as real)
    || (v.rect.value.minWidth != 0.0 && w < v.rect.value.minWidth)
  }

  /** The css of a resize by (dx, dy) from the recorded size: the width
      follows the finger but never drops below 1; text keeps its height;
      an image keeps its aspect ratio; anything else follows the finger
      vertically, again never below 1. */
  function ScalePatch(kind: ViewType, startW: real, startH: real, dx: real, dy: real): Css {
    var w := AtLeastOne(startW + dx);
    if kind == TextType then map["width" := Dim(w, Px)]
    else if kind == ImageType then map["width" := Dim(w, Px), "height" := ImageHeight(w, startW, startH)]
    else map["width" := Dim(w, Px), "height" := Dim(AtLeastOne(startH + dy), Px)]
  }

  /** The scale patch sets the width, and the height unless the view is
      text; an image's height keeps the recorded aspect ratio. */
  lemma ScalePatchShape(kind: ViewType, startW: real, startH: real, dx: real, dy: real)
    ensures var r := ScalePatch(kind, startW, startH, dx, dy);
            && "width" in r && r["width"] == Dim(AtLeastOne(startW + dx), Px)
            && ("height" in r <==> kind != TextType)
            && r.Keys <= {"width", "height"}
            && (kind == ImageType && startW != 0.0 ==>
                  r["height"].Dim? && r["height"].value * startW == AtLeastOne(startW + dx) * startH)
            && (kind != ImageType && kind != TextType ==> r["height"] == Dim(AtLeastOne(startH + dy), Px))
  {
    assert "width"[0] != "height"[0];
  }

  /** Resizing a 100x50 image by 50 to the right gives 150x75; a 100x50
      rect gives 150x50; dragging far to the left bottoms out at width 1. */
  lemma ResizeExamples(dy: real)
    ensures ScalePatch(ImageType, 100.0, 50.0, 50.0, dy) == map["width" := Dim(150.0, Px), "height" := Dim(75.0, Px)]
    ensures ScalePatch(RectType, 100.0, 50.0, 50.0, 0.0) == map["width" := Dim(150.0, Px), "height" := Dim(50.0, Px)]
    ensures ScalePatch(TextType, 100.0, 50.0, -200.0, dy) == map["width" := Dim(1.0, Px)]
  {
  }

  /** The css of a drag by (dx, dy): the box's position moved by the
      offset, with the right and bottom anchors unset. */
  function DragPatch(rect: Rect, dx: real, dy: real): Css {
    map["left" := Dim(rect.x + dx, Px), "top" := Dim(rect.y + dy, Px), "right" := Undef, "bottom" := Undef]
  }

  /** The drag patch sets exactly the four anchors: left and top to the
      box's position plus the offset, right and bottom to undefined. */
  lemma DragPatchShape(rect: Rect, dx: real, dy: real)
    ensures var r := DragPatch(rect, dx, dy);
            && r.Keys == {"left", "top", "right", "bottom"}
            && r["left"] == Dim(rect.x + dx, Px) && r["top"] == Dim(rect.y + dy, Px)
            && r["right"] == Undef && r["bottom"] == Undef
  {
    assert "left"[0] != "top"[0] && "left"[0] != "right"[0] && "left"[0] != "bottom"[0];
    assert "top"[0] != "right"[0] && "top"[0] != "bottom"[0] && "right"[0] != "bottom"[0];
  }

  /** The action a move hands to `doAction`: css only, merged. */
  function CssDelta(c: Css): Delta {
    Delta("", Some(Single(c)), None, "", "", "")
  }

  /** `onTouchMove`: marks the gesture as moved; without a selection that
      is all. A resize patches the selected view's size unless the minimum
      width vetoes it; a drag patches its position and moves the start
      point to the finger. Nothing happens while disabled. */
  function TouchMove(s: Session, env: Env, x: real, y: real): (o: Outcome)
    requires Valid(s)
    ensures Valid(o.session)
    ensures s.disabled ==> o == Outcome(s, [])
    ensures !s.disabled ==> o.session.hasMove
    ensures !s.disabled && !s.touch.Selected? ==> o == Outcome(s.(hasMove := true), [])
    ensures !s.disabled && s.touch.Selected? && !s.isScale ==> o.session.startX == x && o.session.startY == y
    ensures !s.disabled && s.touch.Selected? && s.isScale ==> o.session.startX == s.startX && o.session.startY == s.startY
    ensures o.session.touch == s.touch && o.session.found == s.found
    ensures |o.session.palette.views| == |s.palette.views|
    ensures forall i :: 0 <= i < |s.palette.views| && i != s.found ==> o.session.palette.views[i] == s.palette.views[i]
  {
    if s.disabled then Outcome(s, [])
    else if !s.touch.Selected? then Outcome(s.(hasMove := true), [])
    else if s.isScale then Resize(s, env, x, y)
    else Drag(s, env, x, y)
  }

  /** The drag branch of a move: the selection's position is patched and
      the start point follows the finger. The source routes the patch
      through `doAction`; `DragIsAction` proves this is the same. */
  function Drag(s: Session, env: Env, x: real, y: real): (o: Outcome)
    requires Valid(s) && s.touch.Selected?
    ensures Valid(o.session)
    ensures o.session.touch == s.touch && o.session.found == s.found && o.session.hasMove
    ensures o.session.startX == x && o.session.startY == y
    ensures |o.session.palette.views| == |s.palette.views|
    ensures forall i :: 0 <= i < |s.palette.views| && i != s.found ==> o.session.palette.views[i] == s.palette.views[i]
    ensures env.use2D ==> o.session.palette == s.palette && o.events == []
    ensures !env.use2D ==> o.session.palette.views[s.found] == Dragged(s, x, y) && |o.events| == 3
  {
    var t := s.(hasMove := true, startX := x, startY := y);
    if env.use2D then Outcome(t, [])
    else
      RepaintWith(t, env, Dragged(s, x, y));
      Redraw(WithView(t, Dragged(s, x, y)), env)
  }

  /** The drag patch for a move to (x, y). */
  function DragPatchAt(s: Session, x: real, y: real): Css
    requires Valid(s) && s.touch.Selected?
  {
    DragPatch(Touched(s).rect.value, x - s.startX, y - s.startY)
  }

  /** The selected view with the drag to (x, y) merged into its css. */
  function Dragged(s: Session, x: real, y: real): View
    requires Valid(s) && s.touch.Selected?
  {
    Touched(s).(css := Merge(Touched(s).css, Single(DragPatchAt(s, x, y))))
  }

  /** A drag is the source's `doAction` of the drag patch, non-overwriting,
      on the session with the start point moved. */
  lemma DragIsAction(s: Session, env: Env, x: real, y: real)
    requires Valid(s) && s.touch.Selected?
    ensures Drag(s, env, x, y)
         == DoAction(s.(hasMove := true, startX := x, startY := y), env, Some(CssDelta(DragPatchAt(s, x, y))), false)
  {
    var t := s.(hasMove := true, startX := x, startY := y);
    assert Touched(t) == Touched(s);
    CssEditKeepsSelection(t, env, DragPatchAt(s, x, y));
  }

  /** The resize branch of a move: unless the minimum width vetoes it, the
      selection's size is patched. The start point stays where the press
      was. The source routes the patch through `doAction`;
      `ResizeIsAction` proves this is the same. */
  function Resize(s: Session, env: Env, x: real, y: real): (o: Outcome)
    requires Valid(s) && s.touch.Selected?
    ensures Valid(o.session)
    ensures o.session.touch == s.touch && o.session.found == s.found && o.session.hasMove
    ensures o.session.startX == s.startX && o.session.startY == s.startY
    ensures |o.session.palette.views| == |s.palette.views|
    ensures forall i :: 0 <= i < |s.palette.views| && i != s.found ==> o.session.palette.views[i] == s.palette.views[i]
    ensures env.use2D || Vetoed(s, env, x) ==> o.session.palette == s.palette && o.events == []
    ensures !env.use2D && !Vetoed(s, env, x) ==> o.session.palette.views[s.found] == Resized(s, x, y) && |o.events| == 3
  {
    var t := s.(hasMove := true);
    if Vetoed(s, env, x) || env.use2D then Outcome(t, [])
    else
      RepaintWith(t, env, Resized(s, x, y));
      Redraw(WithView(t, Resized(s, x, y)), env)
  }

  /** Repainting with a view in place of the selection changes that view
      and the overlay and nothing else. */
  lemma RepaintWith(s: Session, env: Env, v: View)
    requires Valid(s) && s.touch.Selected? && v.rect.Some? && v.id == Touched(s).id
    ensures var o := Redraw(WithView(s, v), env);
            && Valid(o.session) && |o.events| == 3
            && o.session.touch == s.touch && o.session.found == s.found && o.session.hasMove == s.hasMove
            && o.session.startX == s.startX && o.session.startY == s.startY
            && |o.session.palette.views| == |s.palette.views| && o.session.palette.views[s.found] == v
            && forall i :: 0 <= i < |s.palette.views| && i != s.found ==> o.session.palette.views[i] == s.palette.views[i]
  {
  }

  /** Whether the minimum width vetoes a resize to horizontal position x. */
  predicate Vetoed(s: Session, env: Env, x: real)
    requires Valid(s) && s.touch.Selected?
  {
    MinWidthVeto(Touched(s), AtLeastOne(s.startW + (x - s.startX)), env.ctx, env.baseSize)
  }

  /** The scale patch for a move to (x, y). */
  function ScalePatchAt(s: Session, x: real, y: real): Css
    requires Valid(s) && s.touch.Selected?
  {
    ScalePatch(Touched(s).kind, s.startW, s.startH, x - s.startX, y - s.startY)
  }

  /** The selected view with the resize to (x, y) merged into its css. */
  function Resized(s: Session, x: real, y: real): View
    requires Valid(s) && s.touch.Selected?
  {
    Touched(s).(css := Merge(Touched(s).css, Single(ScalePatchAt(s, x, y))))
  }

  /** A resize that is not vetoed is the source's `doAction` of the scale
      patch, non-overwriting. */
  lemma ResizeIsAction(s: Session, env: Env, x: real, y: real)
    requires Valid(s) && s.touch.Selected? && !Vetoed(s, env, x)
    ensures Resize(s, env, x, y) == DoAction(s.(hasMove := true), env, Some(CssDelta(ScalePatchAt(s, x, y))), false)
  {
    var t := s.(hasMove := true);
    assert Touched(t) == Touched(s);
    CssEditKeepsSelection(t, env, ScalePatchAt(s, x, y));
  }

  /** A css-only edit of the selection merges the css into the selected
      view and repaints it; in canvas-2d mode it does nothing. */
  lemma CssEditKeepsSelection(s: Session, env: Env, c: Css)
    requires Valid(s) && s.touch.Selected?
    ensures DoAction(s, env, Some(CssDelta(c)), false)
         == if env.use2D then Outcome(s, [])
            else Redraw(WithView(s, Touched(s).(css := Merge(Touched(s).css, Single(c)))), env)
  {
    if !env.use2D {
      var d := CssDelta(c);
      ActionOnSelection(s, env, d, false);
      assert UpdateText(Patch(Touched(s), d, false), d) == Touched(s).(css := Merge(Touched(s).css, Single(c)));
    }
  }

  /** Merging one record into a style: the record's keys take its values
      and every other key keeps the value it had. */
  lemma MergedPatch(current: StyleSpec, patch: Css)
    ensures var before := Flatten(LayersOf(current));
            var c := Merge(current, Single(patch)).css;
            && c.Keys == before.Keys + patch.Keys
            && (forall k :: k in patch ==> c[k] == patch[k])
            && (forall k :: k in before && k !in patch ==> c[k] == before[k])
  {
    FlattenSingle(patch);
  }

  /** A drag moves the selected view: its css now places it at the box's
      position plus the finger's offset with the right and bottom anchors
      unset, every other property it had survives, and it is repainted
      with its overlay. */
  lemma DragMovesView(s: Session, env: Env, x: real, y: real)
    requires Valid(s) && !s.disabled && s.touch.Selected? && !s.isScale && !env.use2D
    ensures var o := TouchMove(s, env, x, y);
            var before := Flatten(LayersOf(Touched(s).css));
            var v := o.session.palette.views[s.found];
            var r := Touched(s).rect.value;
            && v == Touched(s).(css := v.css)
            && v.css.Single? && v.css.css.Keys == before.Keys + {"left", "top", "right", "bottom"}
            && v.css.css["left"] == Dim(r.x + (x - s.startX), Px) && v.css.css["top"] == Dim(r.y + (y - s.startY), Px)
            && v.css.css["right"] == Undef && v.css.css["bottom"] == Undef
            && (forall k :: k in before && k !in {"left", "top", "right", "bottom"} ==> v.css.css[k] == before[k])
            && o.events == [Paint(GlobalCanvas, [v], None), ViewUpdated(v), Paint(FrontCanvas, o.session.block.value.views, None)]
  {
    var o := TouchMove(s, env, x, y);
    assert o == Drag(s, env, x, y);
    var t := WithView(s.(hasMove := true, startX := x, startY := y), Dragged(s, x, y));
    assert o == Redraw(t, env);
    assert Touched(t) == Dragged(s, x, y);
    DraggedView(s, x, y);
    DraggedKeeps(s, x, y);
  }

  /** The css of a dragged view: the drag patch over the view's own css.
      The anchors are placed, and only the css changes. */
  lemma DraggedView(s: Session, x: real, y: real)
    requires Valid(s) && s.touch.Selected?
    ensures var before := Flatten(LayersOf(Touched(s).css));
            var v := Dragged(s, x, y);
            var r := Touched(s).rect.value;
            && v == Touched(s).(css := v.css)
            && v.css.Single? && v.css.css.Keys == before.Keys + {"left", "top", "right", "bottom"}
            && v.css.css["left"] == Dim(r.x + (x - s.startX), Px) && v.css.css["top"] == Dim(r.y + (y - s.startY), Px)
            && v.css.css["right"] == Undef && v.css.css["bottom"] == Undef
  {
    DragPatchShape(Touched(s).rect.value, x - s.startX, y - s.startY);
    MergedPatch(Touched(s).css, DragPatchAt(s, x, y));
  }

  /** A drag keeps every css property of the view other than the four
      anchors. */
  lemma DraggedKeeps(s: Session, x: real, y: real)
    requires Valid(s) && s.touch.Selected?
    ensures var before := Flatten(LayersOf(Touched(s).css));
            var c := Dragged(s, x, y).css.css;
            forall k :: k in before && k !in {"left", "top", "right", "bottom"} ==> c[k] == before[k]
  {
    DragPatchShape(Touched(s).rect.value, x - s.startX, y - s.startY);
    MergedPatch(Touched(s).css, DragPatchAt(s, x, y));
  }

  /** A resize that the minimum width vetoes only marks the gesture as
      moved. */
  lemma VetoedResizeChangesNothing(s: Session, env: Env, x: real, y: real)
    requires Valid(s) && !s.disabled && s.touch.Selected? && s.isScale && Vetoed(s, env, x)
    ensures TouchMove(s, env, x, y) == Outcome(s.(hasMove := true), [])
  {
    assert TouchMove(s, env, x, y) == Resize(s, env, x, y);
  }

  /** A resize that is not vetoed sets the selected view's size to the
      scale patch, keeping its other properties, and repaints it. */
  lemma ResizeSetsSize(s: Session, env: Env, x: real, y: real)
    requires Valid(s) && !s.disabled && s.touch.Selected? && s.isScale && !env.use2D && !Vetoed(s, env, x)
    ensures var o := TouchMove(s, env, x, y);
            var before := Flatten(LayersOf(Touched(s).css));
            var patch := ScalePatchAt(s, x, y);
            var v := o.session.palette.views[s.found];
            && v == Touched(s).(css := v.css)
            && v.css.Single? && v.css.css.Keys == before.Keys + patch.Keys
            && (forall k :: k in patch ==> v.css.css[k] == patch[k])
            && (forall k :: k in before && k !in patch ==> v.css.css[k] == before[k])
            && |o.events| == 3 && o.events[0] == Paint(GlobalCanvas, [v], None)
  {
    var o := TouchMove(s, env, x, y);
    assert o == Resize(s, env, x, y);
    var t := WithView(s.(hasMove := true), Resized(s, x, y));
    assert o == Redraw(t, env);
    assert Touched(t) == Resized(s, x, y);
    ResizedView(s, x, y);
  }

  /** The css of a resized view: the scale patch over the view's own css. */
  lemma ResizedView(s: Session, x: real, y: real)
    requires Valid(s) && s.touch.Selected?
    ensures var before := Flatten(LayersOf(Touched(s).css));
            var patch := ScalePatchAt(s, x, y);
            var v := Resized(s, x, y);
            && v == Touched(s).(css := v.css)
            && v.css.Single? && v.css.css.Keys == before.Keys + patch.Keys
            && (forall k :: k in patch ==> v.css.css[k] == patch[k])
            && (forall k :: k in before && k !in patch ==> v.css.css[k] == before[k])
  {
    MergedPatch(Touched(s).css, ScalePatchAt(s, x, y));
  }

  /** An action with a new image url for the selection is handed to the
      downloader: nothing is repainted yet and text and content are left
      alone. */
  lemma NewUrlDownloads(s: Session, env: Env, d: Delta, overwrite: bool)
    requires Valid(s) && s.touch.Selected? && !env.use2D && d.id == ""
    requires d.url != "" && Touched(s).url != "" && d.url != Touched(s).url
    ensures var o := DoAction(s, env, Some(d), overwrite);
            && o.events == [Download(d.url)]
            && o.session.palette.views[s.found] == Patch(Touched(s), d, overwrite)
            && o.session.palette.views[s.found].text == Touched(s).text
            && o.session.palette.views[s.found].url == Touched(s).url
  {
  }

  /** An action that names no view and carries no new image url, applied
      twice in a row, leaves the palette as applying it once does: a
      replaced css is replaced by the same, a merged one gains nothing new,
      and text and content are already updated. */
  lemma ActionIsIdempotent(s: Session, env: Env, d: Delta, overwrite: bool)
    requires Valid(s) && s.touch.Selected? && d.id == ""
    requires !(d.url != "" && Touched(s).url != "" && d.url != Touched(s).url)
    ensures var once := DoAction(s, env, Some(d), overwrite).session;
            DoAction(once, env, Some(d), overwrite).session.palette == once.palette
  {
    if !env.use2D {
      var w := UpdateText(Patch(Touched(s), d, overwrite), d);
      ActionOnSelection(s, env, d, overwrite);
      var once := DoAction(s, env, Some(d), overwrite).session;
      RepaintShows(s, env, w);
      ActionOnSelection(once, env, d, overwrite);
      EditIsIdempotent(Touched(s), d, overwrite);
      RepaintSameView(once, env);
    }
  }

  /** Repainting with a view in place of the selection leaves that view
      selected. */
  lemma RepaintShows(s: Session, env: Env, v: View)
    requires Valid(s) && s.touch.Selected? && v.rect.Some? && v.id == Touched(s).id
    ensures var o := Redraw(WithView(s, v), env).session;
            o.touch.Selected? && o.found == s.found && Touched(o) == v
  {
  }

  /** Repainting the selection with itself leaves the palette as it is. */
  lemma RepaintSameView(s: Session, env: Env)
    requires Valid(s) && s.touch.Selected?
    ensures Redraw(WithView(s, Touched(s)), env).session.palette == s.palette
  {
    assert s.palette.views[s.found := Touched(s)] == s.palette.views;
  }

  /** An action on the selection that names no view and brings no new
      image url patches the selection, updates its text and repaints it. */
  lemma ActionOnSelection(s: Session, env: Env, d: Delta, overwrite: bool)
    requires Valid(s) && s.touch.Selected? && d.id == "" && !env.use2D
    requires !(d.url != "" && Touched(s).url != "" && d.url != Touched(s).url)
    ensures UpdateText(Patch(Touched(s), d, overwrite), d).rect.Some?
    ensures DoAction(s, env, Some(d), overwrite) == Redraw(WithView(s, UpdateText(Patch(Touched(s), d, overwrite), d)), env)
  {
    var pre := Retarget(s, env, Some(d));
    assert pre == Outcome(s, []);
    var r := Redraw(WithView(s, UpdateText(Patch(Touched(s), d, overwrite), d)), env);
    assert pre.events + r.events == r.events;
  }

  /** An action that names another view acts on that view: the first view
      with the id is selected and the layers are split around it (the
      events of `Retarget`, whose contract states the split), then it is
      patched, its text is updated and it is repainted after the split.
      `NamedViewDownloads` covers an action with a new image url. */
  lemma ActionOnNamedView(s: Session, env: Env, d: Delta, overwrite: bool, i: nat)
    requires Valid(s) && !env.use2D && Retargets(s, Some(d))
    requires FirstWithId(s.palette.views, d.id) == Some(i)
    requires !NewUrl(s.palette.views[i], d)
    ensures var o := DoAction(s, env, Some(d), overwrite);
            o.session.touch.Selected? && o.session.found == i && o.session.prevFound == Some(i)
    ensures var o := DoAction(s, env, Some(d), overwrite);
            var pre := Retarget(s, env, Some(d)).events;
            var w := UpdateText(Patch(s.palette.views[i], d, overwrite), d);
            && o.session.palette.views[i] == w
            && |o.events| == |pre| + 3 && o.events[..|pre|] == pre
            && o.events[|pre|] == Paint(GlobalCanvas, [w], None) && o.events[|pre| + 1] == ViewUpdated(w)
  {
    var pre := Retarget(s, env, Some(d));
    assert pre.session.touch.Selected? && pre.session.found == i && pre.session.palette == s.palette;
  }

  /** An action that names another view and carries a new image url
      selects that view, splits the layers around it, patches it and hands
      the url to the downloader; the view keeps its text. */
  lemma NamedViewDownloads(s: Session, env: Env, d: Delta, overwrite: bool, i: nat)
    requires Valid(s) && !env.use2D && Retargets(s, Some(d))
    requires FirstWithId(s.palette.views, d.id) == Some(i)
    requires NewUrl(s.palette.views[i], d)
    ensures var o := DoAction(s, env, Some(d), overwrite);
            o.session.touch.Selected? && o.session.found == i && o.session.prevFound == Some(i)
    ensures var o := DoAction(s, env, Some(d), overwrite);
            && o.session.palette.views[i] == Patch(s.palette.views[i], d, overwrite)
            && o.events == Retarget(s, env, Some(d)).events + [Download(d.url)]
  {
    var pre := Retarget(s, env, Some(d));
    assert pre.session.touch.Selected? && pre.session.found == i && pre.session.palette == s.palette;
  }

  /** Patching and updating the text a second time with the same action
      changes nothing. */
  lemma EditIsIdempotent(v: View, d: Delta, overwrite: bool)
    ensures var w := UpdateText(Patch(v, d, overwrite), d);
            UpdateText(Patch(w, d, overwrite), d) == w
  {
    var w := UpdateText(Patch(v, d, overwrite), d);
    if d.css.Some? && !overwrite {
      MergeIsIdempotent(v.css, d.css.value);
    }
    assert Patch(w, d, overwrite) == w;
  }
}
