/**
 Geometry of the selection overlay and the hit predicates used by the
 gesture handlers: point-in-box, lookup of the scale and delete handles in
 the overlay, the repaint decision for a new palette, and the placement of
 the selection box and its two handles around a view's box.
 */
module Utils {
  import opened Base
  import opened Units
  import opened Views

  /** Half the side of a handle, in rpx. */
  const ActionDefaultSize: int := 24

  /** The gap between a view's box and its handles. */
  const ActionOffset: string := "2rpx"

  /** The side of a handle: `${2 * ActionDefaultSize}rpx`. */
  const HandleSide: string := "48rpx"

  /** `isEmpty`: an object with no enumerable key. */
  predicate IsEmpty<V>(m: map<string, V>) {
    |m| == 0
  }

  /** An object is empty exactly when no key belongs to it. */
  lemma EmptyIffNoKey<V>(m: map<string, V>)
    ensures IsEmpty(m) <==> forall k :: k !in m
  {
    if |m| != 0 {
      assert |m.Keys| != 0;
      var k :| k in m.Keys;
    }
  }

  /** Strict point-in-box: a point on an edge is outside. */
  predicate IsInView(x: real, y: real, r: Rect) {
    x > r.left && y > r.top && x < r.right && y < r.bottom
  }

  /** Points on any of the four edges are outside the box, and only a box
      with positive width and height contains any point. */
  lemma EdgesAreOutside(x: real, y: real, r: Rect)
    ensures x == r.left || x == r.right || y == r.top || y == r.bottom ==> !IsInView(x, y, r)
    ensures IsInView(x, y, r) ==> r.left < r.right && r.top < r.bottom
  {
  }

  /** Whether the point is in the overlay's handle `handle`: false without an
      overlay or without such a handle, and otherwise decided by the first
      overlay view with that id alone. */
  function InHandle(x: real, y: real, block: Option<Palette>, handle: string): (r: bool)
    requires block.Some? ==> LaidOut(block.value.views)
    ensures block.None? ==> !r
    ensures block.Some? && (forall j :: 0 <= j < |block.value.views| ==> block.value.views[j].id != handle) ==> !r
    ensures block.Some? ==> forall i :: (0 <= i < |block.value.views| && block.value.views[i].id == handle &&
              (forall j :: 0 <= j < i ==> block.value.views[j].id != handle)) ==>
              (r <==> IsInView(x, y, block.value.views[i].rect.value))
  {
    match block
    case None => false
    case Some(b) =>
      match FirstWithId(b.views, handle)
      case None => false
      case Some(i) =>
        assert forall i' :: (0 <= i' < |b.views| && b.views[i'].id == handle &&
                 (forall j :: 0 <= j < i' ==> b.views[j].id != handle)) ==> i' == i;
        IsInView(x, y, b.views[i].rect.value)
  }

  /** `isInDelete`: the point is in the overlay's delete handle. */
  predicate IsInDelete(x: real, y: real, block: Option<Palette>)
    requires block.Some? ==> LaidOut(block.value.views)
  {
    InHandle(x, y, block, "delete")
  }

  /** `isInScale`: the point is in the overlay's scale handle. */
  predicate IsInScale(x: real, y: real, block: Option<Palette>)
    requires block.Some? ==> LaidOut(block.value.views)
  {
    InHandle(x, y, block, "scale")
  }

  /** Whether a new palette must be painted: not when it is missing or
      empty, and not when dirty checking is on and it equals the last one;
      in every other case it must. `equal` is the deep comparison, which is
      not part of this model. */
  function IsNeedRefresh<V>(newVal: Option<map<string, V>>, oldVal: Option<map<string, V>>, dirty: bool,
                            equal: (map<string, V>, Option<map<string, V>>) -> bool): (r: bool)
    ensures newVal.None? ==> !r
    ensures newVal.Some? && IsEmpty(newVal.value) ==> !r
    ensures newVal.Some? && dirty && equal(newVal.value, oldVal) ==> !r
    ensures newVal.Some? && !IsEmpty(newVal.value) && !(dirty && equal(newVal.value, oldVal)) ==> r
  {
    !(newVal.None? || IsEmpty(newVal.value) || (dirty && equal(newVal.value, oldVal)))
  }

  /** Without dirty checking every non-empty palette is painted, even one
      equal to the last. */
  lemma RefreshWithoutDirtyCheck<V>(p: map<string, V>, oldVal: Option<map<string, V>>,
                                    equal: (map<string, V>, Option<map<string, V>>) -> bool)
    requires !IsEmpty(p)
    ensures IsNeedRefresh(Some(p), oldVal, false, equal)
  {
  }

  /** The custom look of the overlay: extra css for the box, icons for the
      scale handle (one for text views, one for the others) and for the
      delete handle. */
  datatype ActionStyle = ActionStyle(border: Option<Css>, scale: Option<ScaleIcons>, delete: Option<string>)
  datatype ScaleIcons = ScaleIcons(textIcon: string, imageIcon: string)

  function BorderOverride(custom: Option<ActionStyle>): Css {
    if custom.Some? && custom.value.border.Some? then custom.value.border.value else map[]
  }

  /** The default css of the selection box around `rect`. */
  function BoxCss(rect: Rect): Css {
    map[
      "height" := Dim(rect.bottom - rect.top, Px),
      "width" := Dim(rect.right - rect.left, Px),
      "left" := Dim(rect.left, Px),
      "top" := Dim(rect.top, Px),
      "borderWidth" := Str("4rpx"),
      "borderColor" := Str("#1A7AF8"),
      "color" := Str("transparent")
    ]
  }

  /** `getBox`: the selection box. It covers `rect` exactly, is dashed for
      text views, and any custom border property overrides the default. */
  function GetBox(rect: Rect, kind: ViewType, custom: Option<ActionStyle>): (r: View)
    ensures r.id == "box" && r.kind == RectType && r.css.Single? && r.rect.None?
  {
    View(RectType, "box", Single(BaseBox(rect, kind) + BorderOverride(custom)), None, "", "", "")
  }

  /** The selection box's css: it covers `rect` exactly, is dashed for
      text views, and every custom border property overrides the default. */
  lemma BoxShape(rect: Rect, kind: ViewType, custom: Option<ActionStyle>)
    ensures var c := GetBox(rect, kind, custom).css.css; var b := BorderOverride(custom);
            && c.Keys == BoxCss(rect).Keys + (if kind == TextType then {"borderStyle"} else {}) + b.Keys
            && (forall k :: k in b ==> c[k] == b[k])
            && ("width" !in b ==> c["width"] == Dim(rect.right - rect.left, Px))
            && ("height" !in b ==> c["height"] == Dim(rect.bottom - rect.top, Px))
            && ("left" !in b ==> c["left"] == Dim(rect.left, Px))
            && ("top" !in b ==> c["top"] == Dim(rect.top, Px))
            && ("borderStyle" !in b ==> (kind == TextType <==> "borderStyle" in c))
            && (kind == TextType && "borderStyle" !in b ==> c["borderStyle"] == Str("dashed"))
  {
    BaseBoxShape(rect, kind);
  }

  /** The box css before the custom border: dashed for text views. */
  function BaseBox(rect: Rect, kind: ViewType): Css {
    if kind == TextType then BoxCss(rect) + map["borderStyle" := Str("dashed")] else BoxCss(rect)
  }

  lemma BaseBoxShape(rect: Rect, kind: ViewType)
    ensures var c := BaseBox(rect, kind);
            && c.Keys == BoxCss(rect).Keys + (if kind == TextType then {"borderStyle"} else {})
            && "width" in c && c["width"] == Dim(rect.right - rect.left, Px)
            && "height" in c && c["height"] == Dim(rect.bottom - rect.top, Px)
            && "left" in c && c["left"] == Dim(rect.left, Px)
            && "top" in c && c["top"] == Dim(rect.top, Px)
            && (kind == TextType <==> "borderStyle" in c)
            && (kind == TextType ==> c["borderStyle"] == Str("dashed"))
  {
    assert "borderStyle"[6] != "borderWidth"[6] && "borderStyle"[6] != "borderColor"[6];
    assert |"borderStyle"| != |"height"| && |"borderStyle"| != |"width"| && |"borderStyle"| != |"color"|;
    assert |"borderStyle"| != |"left"| && |"borderStyle"| != |"top"|;
  }

  /** The gap between a view's box and a handle, in device pixels: 2rpx. */
  function HandleOffset(ctx: ScaleContext): int {
    Resolve(ctx, 2.0, Rpx, 0.0)
  }

  /** The side of a handle, in device pixels: 48rpx. */
  function HandleSize(ctx: ScaleContext): int {
    Resolve(ctx, 48.0, Rpx, 0.0)
  }

  /** Converting the gap's text gives the gap, with no error logged. */
  lemma ActionOffsetResolves(ctx: ScaleContext, baseSize: real)
    ensures ParsePx(ctx, ActionOffset, baseSize) == Resolution(HandleOffset(ctx), false)
  {
    var two := Literal(false, "2", "", Rpx);
    ActionOffsetIsLiteral();
    ParsePxOfText(ctx, two, baseSize);
  }

  /** "2rpx" is the literal 2 in rpx. */
  lemma ActionOffsetIsLiteral()
    ensures var two := Literal(false, "2", "", Rpx);
            WellFormed(two) && Value(two) == 2.0 && Text(two) == ActionOffset
  {
    var two := Literal(false, "2", "", Rpx);
    assert "2"[..0] == "";
    assert NumberText(false, "2", "") == "2";
  }

  /** Converting the handle side's text gives the side, with no error
      logged. */
  lemma HandleSideResolves(ctx: ScaleContext, baseSize: real)
    ensures ParsePx(ctx, HandleSide, baseSize) == Resolution(HandleSize(ctx), false)
  {
    var side := Literal(false, "48", "", Rpx);
    HandleSideIsLiteral();
    ParsePxOfText(ctx, side, baseSize);
  }

  /** "48rpx" is the literal 48 in rpx. */
  lemma HandleSideIsLiteral()
    ensures var side := Literal(false, "48", "", Rpx);
            WellFormed(side) && Value(side) == 48.0 && Text(side) == HandleSide
  {
    var side := Literal(false, "48", "", Rpx);
    assert "48"[..1] == "4";
    assert "4"[..0] == "";
    assert NumberText(false, "48", "") == "48";
  }

  /** The css every handle gets: centred, 48rpx square, fully rounded, with
      its top-left corner at (left, top) in device pixels. */
  function HandleCss(left: real, top: real): Css {
    map[
      "align" := Str("center"),
      "height" := Dim(48.0, Rpx),
      "width" := Dim(48.0, Rpx),
      "borderRadius" := Dim(24.0, Rpx),
      "left" := Dim(left, Px),
      "top" := Dim(top, Px)
    ]
  }

  /** The handle css places the corner, sizes the handle and leaves the
      colour unset. */
  lemma HandleCssShape(left: real, top: real)
    ensures var c := HandleCss(left, top);
            && "left" in c && c["left"] == Dim(left, Px)
            && "top" in c && c["top"] == Dim(top, Px)
            && "width" in c && c["width"] == Dim(48.0, Rpx)
            && "height" in c && c["height"] == Dim(48.0, Rpx)
            && "color" !in c
  {
    var c := HandleCss(left, top);
    assert "color"[0] != "align"[0] && "color"[0] != "width"[0];
    assert |"color"| != |"height"| && |"color"| != |"borderRadius"|;
    assert |"color"| != |"left"| && |"color"| != |"top"|;
    assert |"width"| != |"borderRadius"| && |"width"| != |"left"| && |"width"| != |"top"|;
    assert |"height"| != |"width"| && |"height"| != |"borderRadius"| && |"height"| != |"left"| && |"height"| != |"top"|;
  }

  /** `getScaleIcon`: the scale handle sits just right of the box. For text
      it is centred on the box's top edge, for other views on its bottom
      edge, both lifted by the gap. A custom icon turns it into an image. */
  function GetScaleIcon(rect: Rect, kind: ViewType, custom: Option<ActionStyle>, ctx: ScaleContext): (r: View)
    ensures r.id == "scale" && r.css.Single? && r.rect.None?
  {
    var offset := HandleOffset(ctx) as real;
    var anchor := if kind == TextType then rect.top else rect.bottom;
    var placed := HandleCss(rect.right + offset, anchor - offset - HandleSize(ctx) as real / 2.0);
    if custom.Some? && custom.value.scale.Some? then
      var icons := custom.value.scale.value;
      View(ImageType, "scale", Single(placed), None, "", "",
           if kind == TextType then icons.textIcon else icons.imageIcon)
    else
      View(RectType, "scale", Single(map["color" := Str("#0000ff")] + placed), None, "", "", "")
  }

  /** Where the scale handle goes and what it looks like. */
  lemma ScaleIconShape(rect: Rect, kind: ViewType, custom: Option<ActionStyle>, ctx: ScaleContext)
    ensures var r := GetScaleIcon(rect, kind, custom, ctx);
            "left" in r.css.css && "top" in r.css.css && "width" in r.css.css && "height" in r.css.css
    ensures var r := GetScaleIcon(rect, kind, custom, ctx);
            var anchor := if kind == TextType then rect.top else rect.bottom;
            && r.css.css["left"] == Dim(rect.right + HandleOffset(ctx) as real, Px)
            && r.css.css["top"] == Dim(anchor - HandleOffset(ctx) as real - HandleSize(ctx) as real / 2.0, Px)
            && r.css.css["width"] == Dim(48.0, Rpx) && r.css.css["height"] == Dim(48.0, Rpx)
    ensures var r := GetScaleIcon(rect, kind, custom, ctx);
            var icons := if custom.Some? then custom.value.scale else None;
            && (icons.None? ==> r.kind == RectType && r.url == "" && "color" in r.css.css && r.css.css["color"] == Str("#0000ff"))
            && (icons.Some? ==> r.kind == ImageType && "color" !in r.css.css &&
                                r.url == (if kind == TextType then icons.value.textIcon else icons.value.imageIcon))
  {
    var offset := HandleOffset(ctx) as real;
    var anchor := if kind == TextType then rect.top else rect.bottom;
    HandleCssShape(rect.right + offset, anchor - offset - HandleSize(ctx) as real / 2.0);
  }

  /** `getDeleteIcon`: the delete handle sits just left of the box, centred
      on its top edge and lifted by the gap. A custom icon turns it into an
      image. */
  function GetDeleteIcon(rect: Rect, custom: Option<ActionStyle>, ctx: ScaleContext): (r: View)
    ensures r.id == "delete" && r.css.Single? && r.rect.None?
  {
    var offset := HandleOffset(ctx) as real;
    var placed := HandleCss(rect.left - offset, rect.top - offset - HandleSize(ctx) as real / 2.0);
    if custom.Some? && custom.value.delete.Some? then
      View(ImageType, "delete", Single(placed), None, "", "", custom.value.delete.value)
    else
      View(RectType, "delete", Single(map["color" := Str("#0000ff")] + placed), None, "", "", "")
  }

  /** Where the delete handle goes and what it looks like. */
  lemma DeleteIconShape(rect: Rect, custom: Option<ActionStyle>, ctx: ScaleContext)
    ensures var r := GetDeleteIcon(rect, custom, ctx);
            "left" in r.css.css && "top" in r.css.css && "width" in r.css.css && "height" in r.css.css
    ensures var r := GetDeleteIcon(rect, custom, ctx);
            && r.css.css["left"] == Dim(rect.left - HandleOffset(ctx) as real, Px)
            && r.css.css["top"] == Dim(rect.top - HandleOffset(ctx) as real - HandleSize(ctx) as real / 2.0, Px)
            && r.css.css["width"] == Dim(48.0, Rpx) && r.css.css["height"] == Dim(48.0, Rpx)
    ensures var r := GetDeleteIcon(rect, custom, ctx);
            var icon := if custom.Some? then custom.value.delete else None;
            && (icon.None? ==> r.kind == RectType && r.url == "" && "color" in r.css.css && r.css.css["color"] == Str("#0000ff"))
            && (icon.Some? ==> r.kind == ImageType && r.url == icon.value && "color" !in r.css.css)
  {
    var offset := HandleOffset(ctx) as real;
    HandleCssShape(rect.left - offset, rect.top - offset - HandleSize(ctx) as real / 2.0);
  }

  /** At the default screenK 0.5 and scale 1 the gap is 1 pixel and a handle
      is 24 pixels, so the delete handle's top-left corner is 13 pixels above
      and 1 pixel left of the box's. */
  lemma DeleteHandleAtDefaultScale(rect: Rect, custom: Option<ActionStyle>)
    ensures HandleOffset(ScaleContext(0.5, 1.0)) == 1 && HandleSize(ScaleContext(0.5, 1.0)) == 24
    ensures GetDeleteIcon(rect, custom, ScaleContext(0.5, 1.0)).css.css["top"] == Dim(rect.top - 13.0, Px)
  {
    var ctx := ScaleContext(0.5, 1.0);
    DeleteIconShape(rect, custom, ctx);
    assert HandleOffset(ctx) == 1 by {
      assert 2.0 * EffectiveScreenK(ctx) * EffectiveScale(ctx) == 1.0;
    }
    assert HandleSize(ctx) == 24 by {
      assert 48.0 * EffectiveScreenK(ctx) * EffectiveScale(ctx) == 24.0;
    }
  }
}
